/** The `String` operations the core relies on, with Ruby's semantics. */
module Strings {
  import opened Wrappers

  predicate StartsWith(s: string, prefix: string)
  {
    |prefix| <= |s| && s[..|prefix|] == prefix
  }

  predicate EndsWith(s: string, suffix: string)
  {
    |suffix| <= |s| && s[|s| - |suffix|..] == suffix
  }

  /** `pat` occurs in `s` starting at index `i`. */
  predicate OccursAt(s: string, pat: string, i: nat)
  {
    i + |pat| <= |s| && s[i..i + |pat|] == pat
  }

  /** The first index at or after `from` where `pat` occurs (`String#index`). */
  function FindFrom(s: string, pat: string, from: nat): (r: Nilable<nat>)
    requires from <= |s|
    ensures r.Some? ==> from <= r.value && OccursAt(s, pat, r.value)
    ensures r.Some? ==> forall j :: from <= j < r.value ==> !OccursAt(s, pat, j)
    ensures r.Nil? ==> forall j :: from <= j <= |s| ==> !OccursAt(s, pat, j)
    decreases |s| - from
  {
    if OccursAt(s, pat, from) then Some(from)
    else if from == |s| then Nil
    else FindFrom(s, pat, from + 1)
  }

  /** `String#include?` with a string argument. */
  predicate Contains(s: string, pat: string)
  {
    FindFrom(s, pat, 0).Some?
  }

  /**
   * `String#sub` with a literal string pattern: the first occurrence of `pat`
   * is replaced by `rep`; without an occurrence the string is returned as is.
   */
  function Sub(s: string, pat: string, rep: string): (r: string)
    ensures !Contains(s, pat) ==> r == s
    ensures StartsWith(s, pat) ==> r == rep + s[|pat|..]
  {
    match FindFrom(s, pat, 0)
    case Nil => s
    case Some(i) => s[..i] + rep + s[i + |pat|..]
  }

  /** The last index at or before `upto` where `pat` occurs (what `rpartition` splits at). */
  function FindLast(s: string, pat: string, upto: nat): (r: Nilable<nat>)
    ensures r.Some? ==> r.value <= upto && OccursAt(s, pat, r.value)
    ensures r.Some? ==> forall j :: r.value < j <= upto ==> !OccursAt(s, pat, j)
    ensures r.Nil? ==> forall j :: 0 <= j <= upto ==> !OccursAt(s, pat, j)
  {
    if OccursAt(s, pat, upto) then Some(upto)
    else if upto == 0 then Nil
    else FindLast(s, pat, upto - 1)
  }

  /** An occurrence anywhere makes `include?` true. */
  lemma OccursContains(s: string, pat: string, i: nat)
    requires OccursAt(s, pat, i)
    ensures Contains(s, pat)
  {
  }

  /** A string contains every piece it is concatenated from. */
  lemma ContainsMiddle(pre: string, pat: string, post: string)
    ensures Contains(pre + pat + post, pat)
  {
    var s := pre + pat + post;
    assert s[|pre|..|pre| + |pat|] == pat;
    OccursContains(s, pat, |pre|);
  }

  /** Dropping the first character of a string longer than `suffix` changes neither whether it ends with `suffix` nor what comes before. */
  lemma EndsWithTail(s: string, suffix: string)
    requires |s| > |suffix|
    ensures EndsWith(s, suffix) == EndsWith(s[1..], suffix)
    ensures s[..|s| - |suffix|] == [s[0]] + s[1..][..|s| - 1 - |suffix|]
  {
    assert s[1..][|s| - 1 - |suffix|..] == s[|s| - |suffix|..];
  }

  /** A concatenation starts with its first part. */
  lemma StartsWithConcat(a: string, b: string)
    ensures StartsWith(a + b, a)
  {
    assert (a + b)[..|a|] == a;
  }

  /** A piece nested inside a concatenation is contained in the whole. */
  lemma ContainsInner(a: string, b: string, pat: string, d: string)
    ensures Contains(a + (b + pat) + d, pat)
  {
    assert a + (b + pat) + d == (a + b) + pat + d;
    ContainsMiddle(a + b, pat, d);
  }

  /** The longest prefix of `s` whose characters all satisfy `p` (a greedy `[...]*`). */
  function TakeWhile(s: string, p: char -> bool): (r: string)
    ensures |r| <= |s| && r == s[..|r|]
    ensures forall i :: 0 <= i < |r| ==> p(r[i])
    ensures |r| < |s| ==> !p(s[|r|])
  {
    if |s| == 0 || !p(s[0]) then ""
    else [s[0]] + TakeWhile(s[1..], p)
  }

  /** The greedy run stops exactly where the characters stop satisfying `p`. */
  lemma {:induction false} TakeWhileOf(w: string, rest: string, p: char -> bool)
    requires forall i :: 0 <= i < |w| ==> p(w[i])
    requires |rest| == 0 || !p(rest[0])
    ensures TakeWhile(w + rest, p) == w
    decreases |w|
  {
    if |w| == 0 {
      assert w + rest == rest;
    } else {
      assert (w + rest)[0] == w[0];
      assert (w + rest)[1..] == w[1..] + rest;
      TakeWhileOf(w[1..], rest, p);
      assert [w[0]] + w[1..] == w;
    }
  }

  /**
   * Every field of `s` between occurrences of `sep`, empty ones included:
   * a string with k separators has k + 1 fields.
   */
  function Fields(s: string, sep: char): (r: seq<string>)
    ensures |r| >= 1
    ensures forall i :: 0 <= i < |r| ==> sep !in r[i]
  {
    if |s| == 0 then [""]
    else if s[0] == sep then [""] + Fields(s[1..], sep)
    else
      var rest := Fields(s[1..], sep);
      [[s[0]] + rest[0]] + rest[1..]
  }

  /** Trailing empty fields removed, as `String#split` with no limit does. */
  function DropTrailingEmpty(xs: seq<string>): (r: seq<string>)
    ensures |r| <= |xs| && r == xs[..|r|]
    ensures |r| > 0 ==> r[|r| - 1] != ""
    ensures forall i :: |r| <= i < |xs| ==> xs[i] == ""
  {
    if |xs| == 0 then []
    else if xs[|xs| - 1] == "" then DropTrailingEmpty(xs[..|xs| - 1])
    else xs
  }

  /** `String#split` with a one-character separator string. */
  function Split(s: string, sep: char): seq<string>
  {
    DropTrailingEmpty(Fields(s, sep))
  }

  /** `Array#join` with a one-character separator. */
  function Join(xs: seq<string>, sep: char): string
  {
    if |xs| == 0 then ""
    else if |xs| == 1 then xs[0]
    else xs[0] + [sep] + Join(xs[1..], sep)
  }

  lemma {:induction false} FieldsNoSeparator(a: string, sep: char)
    requires sep !in a
    ensures Fields(a, sep) == [a]
    decreases |a|
  {
    if |a| > 0 {
      FieldsNoSeparator(a[1..], sep);
      assert [a[0]] + a[1..] == a;
    }
  }

  lemma {:induction false} FieldsAfterField(a: string, b: string, sep: char)
    requires sep !in a
    ensures Fields(a + [sep] + b, sep) == [a] + Fields(b, sep)
    decreases |a|
  {
    var s := a + [sep] + b;
    if |a| == 0 {
      assert s == [sep] + b;
      assert s[1..] == b;
    } else {
      assert s[0] == a[0];
      assert s[1..] == a[1..] + [sep] + b;
      FieldsAfterField(a[1..], b, sep);
      assert [a[0]] + a[1..] == a;
    }
  }

  /** Joining separator-free fields and splitting them again gives the fields back. */
  lemma {:induction false} FieldsJoin(xs: seq<string>, sep: char)
    requires |xs| >= 1
    requires forall i :: 0 <= i < |xs| ==> sep !in xs[i]
    ensures Fields(Join(xs, sep), sep) == xs
    decreases |xs|
  {
    if |xs| == 1 {
      FieldsNoSeparator(xs[0], sep);
    } else {
      FieldsJoin(xs[1..], sep);
      FieldsAfterField(xs[0], Join(xs[1..], sep), sep);
      assert [xs[0]] + xs[1..] == xs;
    }
  }

  /**
   * `split` undoes `join` for separator-free fields as long as the last one is
   * not empty (split drops trailing empty fields).
   */
  lemma SplitJoin(xs: seq<string>, sep: char)
    requires forall i :: 0 <= i < |xs| ==> sep !in xs[i]
    requires |xs| > 0 ==> xs[|xs| - 1] != ""
    ensures Split(Join(xs, sep), sep) == xs
  {
    if |xs| == 0 {
      assert Fields("", sep) == [""];
    } else {
      FieldsJoin(xs, sep);
    }
  }

  /** Ruby's `\w`: an ASCII letter, digit or underscore. */
  predicate WordChar(c: char)
  {
    ('a' <= c <= 'z') || ('A' <= c <= 'Z') || ('0' <= c <= '9') || c == '_'
  }

  predicate AsciiUpper(c: char)
  {
    'A' <= c <= 'Z'
  }

  /** `String#downcase` restricted to ASCII letters. */
  function Downcase(s: string): (r: string)
    ensures |r| == |s|
    ensures forall i :: 0 <= i < |r| ==> !AsciiUpper(r[i])
    ensures forall i :: 0 <= i < |s| && !AsciiUpper(s[i]) ==> r[i] == s[i]
  {
    if |s| == 0 then ""
    else
      var c := s[0];
      [if AsciiUpper(c) then (c - 'A' + 'a') as char else c] + Downcase(s[1..])
  }

  predicate Whitespace(c: char)
  {
    c == ' ' || c == '\t' || c == '\n' || c == '\r' || c == '\U{0C}' || c == '\U{0B}'
  }

  /** ActiveSupport-style `blank?` for strings: empty or whitespace only. */
  predicate Blank(s: string)
  {
    forall i :: 0 <= i < |s| ==> Whitespace(s[i])
  }
}
