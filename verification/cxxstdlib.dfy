/**
 * A C++ standard library paired with the compiler that uses it
 * (Library/Homebrew/cxxstdlib.rb). Ruby symbols are modelled as their
 * names.
 */
module CxxStdlib {
  import opened Wrappers
  import opened Strings

  /** The two library types `create` accepts. */
  const LibStdCxx := "libstdcxx"
  const LibCxx := "libcxx"

  predicate ValidType(t: string)
  {
    t == LibStdCxx || t == LibCxx
  }

  datatype CxxStdlib = CxxStdlib(stdlibType: Nilable<string>, compiler: string)

  /**
   * `CxxStdlib.create`: a nil type or one of the two known types gives a
   * value holding both arguments unchanged; any other type raises
   * `ArgumentError`.
   */
  function Create(stdlibType: Nilable<string>, compiler: string): (r: Result<CxxStdlib>)
    ensures r.Ok? <==> stdlibType.Nil? || ValidType(stdlibType.value)
    ensures r.Ok? ==> r.value.stdlibType == stdlibType && r.value.compiler == compiler
    ensures r.Err? ==> r.message == "Invalid C++ stdlib type: " + stdlibType.value
  {
    if stdlibType.Some? && !(stdlibType.value == LibStdCxx || stdlibType.value == LibCxx) then
      Err("Invalid C++ stdlib type: " + stdlibType.value)
    else
      Ok(CxxStdlib(stdlibType, compiler))
  }

  /** `cxx` matched by `/cxx$/` at index `i`: followed by the end of the string or of a line. */
  predicate CxxAtLineEnd(s: string, i: nat)
  {
    i + 3 <= |s| && s[i] == 'c' && s[i + 1] == 'x' && s[i + 2] == 'x' && (i + 3 == |s| || s[i + 3] == '\n')
  }

  /** Two line-final `cxx` matches never overlap: each ends where its line ends. */
  lemma CxxMatchesDisjoint(s: string, i: nat, j: nat)
    requires CxxAtLineEnd(s, i) && CxxAtLineEnd(s, j) && i < j
    ensures i + 3 <= j
  {
  }

  /** Position `k` is one of the two `x`s of a line-final `cxx`. */
  predicate Rewritten(s: string, k: nat)
  {
    (k >= 1 && CxxAtLineEnd(s, k - 1)) || (k >= 2 && CxxAtLineEnd(s, k - 2))
  }

  /**
   * `gsub(/cxx$/, "c++")`. Since matches never overlap (`CxxMatchesDisjoint`),
   * the left-to-right scan rewrites every one of them: the `c` stays and both
   * `x`s become `+`; every other character is kept.
   */
  function ReplaceCxx(s: string): (r: string)
    ensures |r| == |s|
  {
    seq(|s|, k requires 0 <= k < |s| => if Rewritten(s, k) then '+' else s[k])
  }

  /** Without `cxx` at a line end the string is left as it is. */
  lemma ReplaceCxxNone(s: string)
    requires forall i :: 0 <= i < |s| ==> !CxxAtLineEnd(s, i)
    ensures ReplaceCxx(s) == s
  {
    var r := ReplaceCxx(s);
    forall k | 0 <= k < |s| ensures r[k] == s[k] {
      assert !Rewritten(s, k);
    }
  }

  /** Ending in `cxx` is ending in the three characters `c`, `x`, `x`. */
  lemma EndsWithCxx(s: string)
    requires |s| >= 3
    ensures EndsWith(s, "cxx") <==> s[|s| - 3] == 'c' && s[|s| - 2] == 'x' && s[|s| - 1] == 'x'
  {
    assert s[|s| - 3..] == [s[|s| - 3], s[|s| - 2], s[|s| - 1]];
  }

  /**
   * On a single line, `cxx` at the very end becomes `c++` and nothing else
   * changes; a line not ending in `cxx` is left as it is.
   */
  lemma ReplaceCxxLine(s: string)
    requires '\n' !in s
    ensures EndsWith(s, "cxx") ==> ReplaceCxx(s) == s[..|s| - 3] + "c++"
    ensures !EndsWith(s, "cxx") ==> ReplaceCxx(s) == s
  {
    assert forall k :: 0 <= k < |s| ==> s[k] != '\n';
    var r := ReplaceCxx(s);
    if |s| >= 3 {
      EndsWithCxx(s);
    }
    if EndsWith(s, "cxx") {
      var t := s[..|s| - 3] + "c++";
      forall k | 0 <= k < |s| ensures r[k] == t[k] {
        if k < |s| - 3 {
          assert !Rewritten(s, k);
        }
      }
    } else {
      forall k | 0 <= k < |s| ensures r[k] == s[k] {
        assert !Rewritten(s, k);
      }
    }
  }

  /** `type_string`: the type's name with a line-final `cxx` spelled `c++`; empty for a nil type. */
  function TypeString(c: CxxStdlib): (r: string)
    ensures c.stdlibType.Nil? ==> r == ""
    ensures c.stdlibType.Some? ==> |r| == |c.stdlibType.value|
  {
    match c.stdlibType
    case Nil => ""
    case Some(t) => ReplaceCxx(t)
  }

  /** The two valid types read `libstdc++` and `libc++`, so `type_string` tells them apart. */
  lemma TypeStringOfValidTypes(t: string, compiler: string)
    requires ValidType(t)
    ensures t == LibStdCxx ==> TypeString(CxxStdlib(Some(t), compiler)) == "libstdc++"
    ensures t == LibCxx ==> TypeString(CxxStdlib(Some(t), compiler)) == "libc++"
  {
    if t == LibStdCxx {
      ReplaceCxxOfType(t, "libstd");
    } else {
      ReplaceCxxOfType(t, "lib");
    }
  }

  /** A one-line type name ending in `cxx` reads with `c++` in its place. */
  lemma ReplaceCxxOfType(t: string, stem: string)
    requires t == stem + "cxx" && '\n' !in stem
    ensures ReplaceCxx(t) == stem + "c++"
  {
    assert t[|t| - 3..] == "cxx" && t[..|t| - 3] == stem;
    assert forall i :: 0 <= i < |t| ==> t[i] == '\n' ==> i < |stem| && stem[i] == '\n';
    ReplaceCxxLine(t);
  }

  /** `inspect`: the class name, the compiler and the type (a nil type shows as nothing). */
  function Inspect(c: CxxStdlib): (r: string)
    ensures |r| == |"#<CxxStdlib: " + c.compiler + " "| + |c.stdlibType.GetOr("")| + 1
    ensures StartsWith(r, "#<CxxStdlib: " + c.compiler + " ") && EndsWith(r, ">")
    ensures r[|"#<CxxStdlib: " + c.compiler + " "|..|r| - 1] == c.stdlibType.GetOr("")
  {
    var head := "#<CxxStdlib: " + c.compiler + " ";
    var r := head + c.stdlibType.GetOr("") + ">";
    assert r[..|head|] == head;
    assert r[|head|..|r| - 1] == c.stdlibType.GetOr("");
    r
  }

  /** A value made by `create` never shows a type other than nothing, `libstdc++` or `libc++`. */
  lemma CreateTypeString(stdlibType: Nilable<string>, compiler: string)
    requires Create(stdlibType, compiler).Ok?
    ensures var s := TypeString(Create(stdlibType, compiler).value);
            s == "" || s == "libstdc++" || s == "libc++"
  {
    if stdlibType.Some? {
      TypeStringOfValidTypes(stdlibType.value, compiler);
    }
  }
}
