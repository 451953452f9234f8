/**
 * Build options (Library/Homebrew/options.rb): `Option`, `DeprecatedOption`
 * and the name-deduplicated collection `Options`.
 */
module Options {
  import opened Wrappers
  import opened Strings
  import Seqs

  /** A build option. Its identity is its name; the description is only shown to users. */
  datatype Option = Option(name: string, description: string) {

    /** The command-line flag, `--` followed by the name; `to_s` returns it too. */
    function Flag(): (f: string)
      ensures StartsWith(f, "--") && f[2..] == name
    {
      "--" + name
    }
  }

  /** The Ruby objects an option may be compared with or looked up by. */
  datatype Value = OptionValue(option: Option) | StringValue(s: string) | OtherValue

  /** `Option#==` (and `eql?`): the other object is an option with the same name. */
  predicate Equals(o: Option, other: Value)
    ensures Equals(o, other) <==> other.OptionValue? && other.option.Flag() == o.Flag()
  {
    assert other.OptionValue? && other.option.Flag() == o.Flag() ==> other.option.Flag()[2..] == o.Flag()[2..];
    other.OptionValue? && other.option.name == o.name
  }

  /** `String#<=>`: lexicographic by character code; a proper prefix sorts first. */
  function StrCompare(a: string, b: string): (r: int)
    ensures -1 <= r <= 1
    ensures r == 0 <==> a == b
  {
    if |a| == 0 && |b| == 0 then 0
    else if |a| == 0 then -1
    else if |b| == 0 then 1
    else if a[0] < b[0] then -1
    else if a[0] > b[0] then 1
    else
      assert a == [a[0]] + a[1..] && b == [b[0]] + b[1..];
      StrCompare(a[1..], b[1..])
  }

  lemma {:induction false} StrCompareAntisymmetric(a: string, b: string)
    ensures StrCompare(a, b) == -StrCompare(b, a)
    decreases |a|
  {
    if |a| > 0 && |b| > 0 && a[0] == b[0] {
      StrCompareAntisymmetric(a[1..], b[1..]);
    }
  }

  /** `Option#<=>`: ordered by name; nil when the other object is not an option. */
  function Compare(o: Option, other: Value): (r: Nilable<int>)
    ensures r.Nil? <==> !other.OptionValue?
    ensures r.Some? ==> (r.value == 0 <==> Equals(o, other))
    ensures r.Some? ==> -1 <= r.value <= 1
  {
    match other
    case OptionValue(p) => Some(StrCompare(o.name, p.name))
    case _ => Nil
  }

  /** `<=>` between two options is antisymmetric. */
  lemma CompareAntisymmetric(a: Option, b: Option)
    ensures Compare(a, OptionValue(b)).value == -Compare(b, OptionValue(a)).value
  {
    StrCompareAntisymmetric(a.name, b.name);
  }

  /** `Option#hash` is the hash of the name, for whatever string hash Ruby uses. */
  function Hash(o: Option, strHash: string -> int): (h: int)
    ensures forall p: Option :: Equals(o, OptionValue(p)) ==> h == strHash(p.name)
  {
    strHash(o.name)
  }

  /** Equality ignores the description, and equal options hash alike. */
  lemma EqualOptionsHashAlike(a: Option, b: Option, strHash: string -> int)
    requires Equals(a, OptionValue(b))
    ensures Equals(b, OptionValue(a))
    ensures Hash(a, strHash) == Hash(b, strHash)
    ensures Equals(a, OptionValue(Option(b.name, "")))
  {
  }

  /** An option whose name was renamed: both flags are derived from the names. */
  datatype DeprecatedOption = DeprecatedOption(oldName: string, current: string) {

    function OldFlag(): (f: string)
      ensures StartsWith(f, "--") && f[2..] == oldName
    {
      "--" + oldName
    }

    function CurrentFlag(): (f: string)
      ensures StartsWith(f, "--") && f[2..] == current
    {
      "--" + current
    }
  }

  /** The two flags identify a deprecated option, as `DeprecatedOption#==` compares both names. */
  lemma DeprecatedFlagsIdentify(a: DeprecatedOption, b: DeprecatedOption)
    ensures a.OldFlag() == b.OldFlag() && a.CurrentFlag() == b.CurrentFlag() <==> a == b
  {
    if a.OldFlag() == b.OldFlag() && a.CurrentFlag() == b.CurrentFlag() {
      assert a.oldName == a.OldFlag()[2..] && b.oldName == b.OldFlag()[2..];
      assert a.current == a.CurrentFlag()[2..] && b.current == b.CurrentFlag()[2..];
    }
  }

  // ---------------------------------------------------------------------------
  // `Options.create`: the name captured by /^--([^=]+=?)(.+)?$/, or the string itself.
  // In Ruby `^` matches at the start of every line, so every line start is tried.

  /** Position `p` is a line start: the beginning or just after a newline. */
  predicate LineStart(e: string, p: nat)
    requires p <= |e|
  {
    p == 0 || e[p - 1] == '\n'
  }

  /** The pattern matches at `p`: `--` followed by at least one character other than `=`. */
  predicate FlagAt(e: string, p: nat)
  {
    p + 2 < |e| && e[p] == '-' && e[p + 1] == '-' && e[p + 2] != '='
  }

  /** The longest prefix of `s` without `=` (the greedy `[^=]+`). */
  function UntilEquals(s: string): (r: string)
    ensures |r| <= |s| && r == s[..|r|]
    ensures '=' !in r
    ensures |r| < |s| ==> s[|r|] == '='
  {
    TakeWhile(s, c => c != '=')
  }

  /**
   * Capture group 1 at a matching position: the run of non-`=` characters and
   * the `=` that ends it, if any. The optional rest and `$` always succeed then.
   */
  function CaptureAt(e: string, p: nat): string
    requires FlagAt(e, p)
  {
    var body := UntilEquals(e[p + 2..]);
    if p + 2 + |body| < |e| then body + "=" else body
  }

  /** The capture at the first line start at or after `p` where the pattern matches. */
  function FlagCapture(e: string, p: nat): Nilable<string>
    requires p <= |e|
    decreases |e| - p
  {
    if p == |e| then Nil
    else if LineStart(e, p) && FlagAt(e, p) then Some(CaptureAt(e, p))
    else FlagCapture(e, p + 1)
  }

  /** The option name `Options.create` derives from one string: `e[regex, 1] || e`. */
  function OptionName(e: string): (r: string)
    ensures FlagAt(e, 0) ==> |r| + 2 <= |e| && e[..|r| + 2] == "--" + r
    ensures FlagAt(e, 0) ==> |r| > 0 && '=' !in r[..|r| - 1]
  {
    match FlagCapture(e, 0)
    case Some(c) => c
    case Nil => e
  }

  /** A name that `Options.create` reproduces from its flag: `P` or `P=`, with `P` non-empty and free of `=`. */
  predicate WellFormedName(n: string)
  {
    && |n| > 0
    && n[0] != '='
    && '=' !in n[..|n| - 1]
  }

  lemma UntilEqualsOfName(p: string, rest: string)
    requires '=' !in p
    requires |rest| == 0 || rest[0] == '='
    ensures UntilEquals(p + rest) == p
  {
    TakeWhileOf(p, rest, c => c != '=');
  }

  /** `Options.create` turns an option's flag back into its name. */
  lemma {:induction false} OptionNameOfFlag(n: string)
    requires WellFormedName(n)
    ensures OptionName("--" + n) == n
  {
    var e := "--" + n;
    assert e[2..] == n;
    assert FlagAt(e, 0);
    if n[|n| - 1] == '=' {
      var p := n[..|n| - 1];
      assert n == p + "=";
      UntilEqualsOfName(p, "=");
    } else {
      assert '=' !in n;
      UntilEqualsOfName(n, "");
      assert n + "" == n;
    }
  }

  /** `--foo=bar` becomes `foo=`: the value is dropped and the `=` kept. */
  lemma OptionNameStripsValue(n: string, v: string)
    requires |n| > 0 && '=' !in n
    ensures OptionName("--" + n + "=" + v) == n + "="
  {
    var e := "--" + n + "=" + v;
    assert e[2..] == n + ("=" + v);
    assert e[2] == n[0];
    UntilEqualsOfName(n, "=" + v);
  }

  lemma {:induction false} NoCaptureAfterFirstLine(e: string, p: nat)
    requires 1 <= p <= |e|
    requires '\n' !in e
    ensures FlagCapture(e, p) == Nil
    decreases |e| - p
  {
    if p < |e| {
      assert e[p - 1] != '\n';
      NoCaptureAfterFirstLine(e, p + 1);
    }
  }

  /** A single-line string that does not start like a flag is kept as the name unchanged. */
  lemma OptionNameKeepsPlain(e: string)
    requires '\n' !in e
    requires !FlagAt(e, 0)
    ensures OptionName(e) == e
  {
    if |e| > 0 {
      NoCaptureAfterFirstLine(e, 1);
    }
  }

  // ---------------------------------------------------------------------------
  // `Options`: a Ruby `Set` of options, which keeps insertion order and the
  // first of several options with the same name.

  datatype Options = Options(items: seq<Option>)

  function Names(s: seq<Option>): (r: seq<string>)
    ensures |r| == |s|
    ensures forall i :: 0 <= i < |s| ==> r[i] == s[i].name
  {
    seq(|s|, i requires 0 <= i < |s| => s[i].name)
  }

  /** The set invariant: no two members share a name. */
  predicate UniqueNames(s: seq<Option>)
  {
    forall i, j :: 0 <= i < j < |s| ==> s[i].name != s[j].name
  }

  /** `Set#add`: append unless an option of that name is present. */
  function Add(acc: seq<Option>, o: Option): (r: seq<Option>)
    ensures UniqueNames(acc) ==> UniqueNames(r)
    ensures o.name in Names(r)
    ensures forall n :: n in Names(r) <==> n in Names(acc) || n == o.name
    ensures |acc| <= |r| && r[..|acc|] == acc
    ensures forall x :: x in r ==> x in acc || x == o
  {
    if o.name in Names(acc) then acc
    else
      assert Names(acc + [o]) == Names(acc) + [o.name];
      acc + [o]
  }

  /** Adding each of `s` in turn, as `Set.new(enum)` and `Set#merge` do. */
  function AddAll(acc: seq<Option>, s: seq<Option>): (r: seq<Option>)
    ensures UniqueNames(acc) ==> UniqueNames(r)
    ensures forall n :: n in Names(r) <==> n in Names(acc) || n in Names(s)
    ensures |acc| <= |r| && r[..|acc|] == acc
    ensures forall x :: x in r ==> x in acc || x in s
    decreases |s|
  {
    if |s| == 0 then acc
    else
      assert forall n :: n in Names(s) <==> n == s[0].name || n in Names(s[1..]);
      AddAll(Add(acc, s[0]), s[1..])
  }

  /** Adding options whose names are all new appends them in order. */
  lemma {:induction false} AddAllFresh(acc: seq<Option>, s: seq<Option>)
    requires UniqueNames(acc + s)
    ensures AddAll(acc, s) == acc + s
    decreases |s|
  {
    if |s| > 0 {
      var t := acc + s;
      assert s[0].name !in Names(acc) by {
        forall i | 0 <= i < |acc| ensures acc[i].name != s[0].name {
          assert t[i] == acc[i] && t[|acc|] == s[0];
        }
      }
      assert acc + [s[0]] + s[1..] == t;
      AddAllFresh(acc + [s[0]], s[1..]);
    }
  }

  /** `Options.new(enum)`: a set built from any sequence of options. */
  function FromSeq(s: seq<Option>): (r: Options)
    ensures UniqueNames(r.items)
    ensures forall n :: n in Names(r.items) <==> n in Names(s)
    ensures forall x :: x in r.items ==> x in s
  {
    Options(AddAll([], s))
  }

  /** `Options.create`: one option, with an empty description, per input string. */
  function Create(strings: seq<string>): (r: Options)
    ensures UniqueNames(r.items)
    ensures forall n :: n in Names(r.items) <==> exists i :: 0 <= i < |strings| && OptionName(strings[i]) == n
    ensures forall x :: x in r.items ==> x.description == ""
  {
    var opts := seq(|strings|, i requires 0 <= i < |strings| => Option(OptionName(strings[i]), ""));
    assert forall n :: n in Names(opts) <==> exists i :: 0 <= i < |strings| && OptionName(strings[i]) == n by {
      forall n ensures n in Names(opts) ==> exists i :: 0 <= i < |strings| && OptionName(strings[i]) == n {
        if n in Names(opts) {
          var i :| 0 <= i < |opts| && Names(opts)[i] == n;
          assert OptionName(strings[i]) == n;
        }
      }
      forall i | 0 <= i < |strings| ensures OptionName(strings[i]) in Names(opts) {
        assert Names(opts)[i] == OptionName(strings[i]);
      }
    }
    FromSeq(opts)
  }

  lemma NamesConcat(a: seq<Option>, b: seq<Option>)
    ensures Names(a + b) == Names(a) + Names(b)
  {
  }

  /** A name occurs in `Names(s)` exactly when some member carries it. */
  lemma NameInIff(s: seq<Option>, n: string)
    ensures n in Names(s) <==> exists o :: o in s && o.name == n
  {
    if n in Names(s) {
      var i :| 0 <= i < |s| && Names(s)[i] == n;
      assert s[i] in s;
    }
  }

  /** Adding the elements of `s + t` is adding those of `s`, then those of `t`. */
  lemma {:induction false} AddAllConcat(acc: seq<Option>, s: seq<Option>, t: seq<Option>)
    ensures AddAll(acc, s + t) == AddAll(AddAll(acc, s), t)
    decreases |s|
  {
    if |s| == 0 {
      assert s + t == t;
    } else {
      assert (s + t)[0] == s[0] && (s + t)[1..] == s[1..] + t;
      AddAllConcat(Add(acc, s[0]), s[1..], t);
    }
  }

  /** The set built from a valid receiver followed by `more` keeps the receiver as a prefix. */
  lemma ReceiverFirst(a: seq<Option>, more: seq<Option>)
    requires UniqueNames(a)
    ensures |a| <= |FromSeq(a + more).items| && FromSeq(a + more).items[..|a|] == a
    ensures forall n :: n in Names(FromSeq(a + more).items) <==> n in Names(a) || n in Names(more)
  {
    AddAllFresh([], a);
    assert [] + a == a;
    AddAllConcat([], a, more);
    NamesConcat(a, more);
  }

  /** `Options#<<`: adds the option unless one with its name is present. */
  function Push(a: Options, o: Option): (r: Options)
    ensures UniqueNames(r.items)
    ensures forall n :: n in Names(r.items) <==> n in Names(a.items) || n == o.name
    ensures UniqueNames(a.items) ==> |a.items| <= |r.items| && r.items[..|a.items|] == a.items
  {
    NamesConcat(a.items, [o]);
    assert Names([o]) == [o.name];
    if UniqueNames(a.items) then ReceiverFirst(a.items, [o]); FromSeq(a.items + [o])
    else FromSeq(a.items + [o])
  }

  /** `Options#+`: the union, the receiver's members first. */
  function Plus(a: Options, other: seq<Option>): (r: Options)
    ensures UniqueNames(r.items)
    ensures forall n :: n in Names(r.items) <==> n in Names(a.items) || n in Names(other)
    ensures UniqueNames(a.items) ==> |a.items| <= |r.items| && r.items[..|a.items|] == a.items
  {
    NamesConcat(a.items, other);
    if UniqueNames(a.items) then ReceiverFirst(a.items, other); FromSeq(a.items + other)
    else FromSeq(a.items + other)
  }

  /** `Options#|`, an alias of `+` in Ruby's `Set`. */
  function Union(a: Options, other: seq<Option>): (r: Options)
    ensures UniqueNames(r.items)
    ensures forall n :: n in Names(r.items) <==> n in Names(a.items) || n in Names(other)
  {
    Plus(a, other)
  }

  /** The names of a filtered collection are the names of the members that pass. */
  lemma FilterNames(s: seq<Option>, p: Option -> bool, n: string)
    ensures n in Names(Seqs.Filter(s, p)) <==> exists o :: o in s && p(o) && o.name == n
  {
    NameInIff(Seqs.Filter(s, p), n);
  }

  /** `Options#-`: the receiver's members whose names do not occur in `other`. */
  function Minus(a: Options, other: seq<Option>): (r: Options)
    ensures UniqueNames(r.items)
    ensures forall n :: n in Names(r.items) <==> n in Names(a.items) && n !in Names(other)
    ensures forall x :: x in r.items ==> x in a.items
  {
    var p := (o: Option) => o.name !in Names(other);
    assert forall n :: n in Names(Seqs.Filter(a.items, p)) <==> n in Names(a.items) && n !in Names(other) by {
      forall n ensures n in Names(Seqs.Filter(a.items, p)) <==> n in Names(a.items) && n !in Names(other) {
        FilterNames(a.items, p, n);
        NameInIff(a.items, n);
      }
    }
    FromSeq(Seqs.Filter(a.items, p))
  }

  /**
   * `Options#&`: `Set#&` given an argument that is not a `Set` walks the
   * argument, adding each of its members whose name the receiver has. The
   * members, their descriptions and their order therefore come from `other`.
   */
  function Intersect(a: Options, other: seq<Option>): (r: Options)
    ensures UniqueNames(r.items)
    ensures forall n :: n in Names(r.items) <==> n in Names(a.items) && n in Names(other)
    ensures forall x :: x in r.items ==> x in other
  {
    var p := (o: Option) => o.name in Names(a.items);
    assert forall n :: n in Names(Seqs.Filter(other, p)) <==> n in Names(a.items) && n in Names(other) by {
      forall n ensures n in Names(Seqs.Filter(other, p)) <==> n in Names(a.items) && n in Names(other) {
        FilterNames(other, p, n);
        NameInIff(other, n);
      }
    }
    FromSeq(Seqs.Filter(other, p))
  }

  /** `Options#==`: the members, in order, are pairwise equal options (equal names). */
  predicate Equal(a: Options, b: Options)
  {
    Names(a.items) == Names(b.items)
  }

  /** `Options#==` compares `to_a`: the same length and pairwise equal options. */
  lemma EqualPairwise(a: Options, b: Options)
    ensures Equal(a, b) <==> |a.items| == |b.items|
                             && forall i :: 0 <= i < |a.items| ==> Equals(a.items[i], OptionValue(b.items[i]))
  {
    if |a.items| == |b.items| && (forall i :: 0 <= i < |a.items| ==> Equals(a.items[i], OptionValue(b.items[i]))) {
      assert Names(a.items) == Names(b.items);
    }
  }

  function IsEmpty(a: Options): (b: bool)
    ensures b <==> forall n :: n !in Names(a.items)
  {
    assert |a.items| > 0 ==> Names(a.items)[0] in Names(a.items);
    |a.items| == 0
  }

  /** `Options#as_flags`: the flag of every member, in order. */
  function AsFlags(a: Options): (r: seq<string>)
    ensures |r| == |a.items|
    ensures forall i :: 0 <= i < |r| ==> StartsWith(r[i], "--") && r[i][2..] == a.items[i].name
  {
    seq(|a.items|, i requires 0 <= i < |a.items| => a.items[i].Flag())
  }

  /** A member equal to `v`, or whose name or flag is the string `v`, as `any?` finds it. */
  function IncludeIn(s: seq<Option>, v: Value): (b: bool)
    ensures b <==> match v
                   case OptionValue(p) => p.name in Names(s)
                   case StringValue(x) => x in Names(s) || (StartsWith(x, "--") && x[2..] in Names(s))
                   case OtherValue => false
  {
    if |s| == 0 then false
    else
      var o := s[0];
      assert forall n :: n in Names(s) <==> n == o.name || n in Names(s[1..]);
      assert v.StringValue? && v.s == o.Flag() ==> StartsWith(v.s, "--") && v.s[2..] == o.name;
      assert v.StringValue? && StartsWith(v.s, "--") && v.s[2..] == o.name ==> v.s == o.Flag();
      Equals(o, v) || v == StringValue(o.name) || v == StringValue(o.Flag()) || IncludeIn(s[1..], v)
  }

  /** An option `any?` stops at: equal to `v`, or named or flagged by the string `v`. */
  predicate Matches(o: Option, v: Value)
  {
    Equals(o, v) || v == StringValue(o.name) || v == StringValue(o.Flag())
  }

  /** The name-based reading of `include?` agrees with the member-wise `any?` scan. */
  lemma IncludeInMatches(s: seq<Option>, v: Value)
    ensures IncludeIn(s, v) <==> exists i :: 0 <= i < |s| && Matches(s[i], v)
  {
    var n := Names(s);
    if IncludeIn(s, v) {
      var x := match v
               case OptionValue(p) => p.name
               case StringValue(s) => if s in n then s else s[2..]
               case OtherValue => "";
      var i :| 0 <= i < |n| && n[i] == x;
      assert Matches(s[i], v);
    } else {
      forall i | 0 <= i < |s| ensures !Matches(s[i], v) {
        assert n[i] == s[i].name;
      }
    }
  }

  /** `Options#include?`: some member matches `v`. */
  function Include(a: Options, v: Value): (b: bool)
    ensures b <==> exists i :: 0 <= i < |a.items| && Matches(a.items[i], v)
  {
    IncludeInMatches(a.items, v);
    IncludeIn(a.items, v)
  }

  /** Creating options from the flags of well-formed options gives an equal collection back. */
  lemma CreateFromFlags(a: Options)
    requires UniqueNames(a.items)
    requires forall i :: 0 <= i < |a.items| ==> WellFormedName(a.items[i].name)
    ensures Equal(Create(AsFlags(a)), a)
  {
    var flags := AsFlags(a);
    var opts := seq(|flags|, i requires 0 <= i < |flags| => Option(OptionName(flags[i]), ""));
    forall i | 0 <= i < |flags| ensures opts[i].name == a.items[i].name {
      assert flags[i] == "--" + a.items[i].name;
      OptionNameOfFlag(a.items[i].name);
    }
    assert UniqueNames(opts);
    AddAllFresh([], opts);
    assert [] + opts == opts;
    assert Create(flags).items == opts;
  }
}
