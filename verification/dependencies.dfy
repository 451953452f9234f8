/**
 * The two collections of Library/Homebrew/dependencies.rb: `Dependencies`,
 * an ordered list of dependency edges with filtered views, and
 * `Requirements`, an insertion-ordered set of requirements in which a
 * comparable requirement displaces the lesser members of its class.
 */
module Dependencies {
  import opened Seqs
  import opened Dependable
  import Req = Requirement

  /**
   * A dependency edge: the depended-on formula's name and the edge's tags
   * (Library/Homebrew/dependency.rb is not part of this model; only the
   * tag predicates of `Dependable` are consulted).
   */
  datatype Dependency = Dependency(name: string, tags: seq<Tag>)

  // ---------------------------------------------------------------------------
  // Dependencies: filtered views

  function IsOptionalDep(d: Dependency): bool { IsOptional(d.tags) }
  function IsRecommendedDep(d: Dependency): bool { IsRecommended(d.tags) }
  function IsBuildDep(d: Dependency): bool { IsBuild(d.tags) }
  function IsRequiredDep(d: Dependency): bool { IsRequired(d.tags) }

  /** `optional`: the edges tagged `:optional`, in order. */
  function OptionalDeps(deps: seq<Dependency>): (r: seq<Dependency>)
    ensures forall d :: d in r <==> d in deps && Optional in d.tags
  {
    Filter(deps, IsOptionalDep)
  }

  /** `recommended`: the edges tagged `:recommended`, in order. */
  function RecommendedDeps(deps: seq<Dependency>): (r: seq<Dependency>)
    ensures forall d :: d in r <==> d in deps && Recommended in d.tags
  {
    Filter(deps, IsRecommendedDep)
  }

  /** `build`: the edges tagged `:build`, in order. */
  function BuildDeps(deps: seq<Dependency>): (r: seq<Dependency>)
    ensures forall d :: d in r <==> d in deps && Build in d.tags
  {
    Filter(deps, IsBuildDep)
  }

  /** `required`: the edges carrying no precedence tag at all, in order. */
  function RequiredDeps(deps: seq<Dependency>): (r: seq<Dependency>)
    ensures forall d :: d in r <==> d in deps && forall t :: t in d.tags ==> !Precedence(t)
  {
    Filter(deps, IsRequiredDep)
  }

  /**
   * `default`: the build edges, then the required ones, then the recommended
   * ones. An edge tagged both `:build` and `:recommended` appears twice.
   */
  function DefaultDeps(deps: seq<Dependency>): (r: seq<Dependency>)
    ensures forall d :: d in r <==> d in deps && (Build in d.tags || Recommended in d.tags || IsRequired(d.tags))
    ensures |r| == |BuildDeps(deps)| + |RequiredDeps(deps)| + |RecommendedDeps(deps)|
    ensures r[..|BuildDeps(deps)|] == BuildDeps(deps)
    ensures r[|BuildDeps(deps)|..|BuildDeps(deps)| + |RequiredDeps(deps)|] == RequiredDeps(deps)
    ensures r[|r| - |RecommendedDeps(deps)|..] == RecommendedDeps(deps)
  {
    var b := BuildDeps(deps);
    var rq := RequiredDeps(deps);
    var rc := RecommendedDeps(deps);
    assert (b + rq + rc)[..|b|] == b;
    assert (b + rq + rc)[|b|..|b| + |rq|] == rq;
    assert (b + rq + rc)[|b| + |rq|..] == rc;
    b + rq + rc
  }

  /** Every view is an order-preserving filter: the view of a concatenation is the concatenation of the views. */
  lemma ViewsConcat(a: seq<Dependency>, b: seq<Dependency>)
    ensures OptionalDeps(a + b) == OptionalDeps(a) + OptionalDeps(b)
    ensures RecommendedDeps(a + b) == RecommendedDeps(a) + RecommendedDeps(b)
    ensures BuildDeps(a + b) == BuildDeps(a) + BuildDeps(b)
    ensures RequiredDeps(a + b) == RequiredDeps(a) + RequiredDeps(b)
  {
    FilterConcat(a, b, IsOptionalDep);
    FilterConcat(a, b, IsRecommendedDep);
    FilterConcat(a, b, IsBuildDep);
    FilterConcat(a, b, IsRequiredDep);
  }

  /** An edge that is optional and neither build nor recommended is never a default edge. */
  lemma OptionalOnlyNotDefault(deps: seq<Dependency>, d: Dependency)
    requires Optional in d.tags && Build !in d.tags && Recommended !in d.tags
    ensures d !in DefaultDeps(deps)
  {
  }

  /** An edge with exactly one precedence role. */
  predicate SingleRole(d: Dependency)
  {
    forall t, u :: t in d.tags && u in d.tags && Precedence(t) && Precedence(u) ==> t == u
  }

  /** A single non-test edge with at most one precedence role lands in exactly one view. */
  lemma ViewsOfOne(d: Dependency)
    requires Test !in d.tags && SingleRole(d)
    ensures |OptionalDeps([d])| + |BuildDeps([d])| + |RequiredDeps([d])| + |RecommendedDeps([d])| == 1
  {
    var s := [d];
    assert Filter(s[1..], IsOptionalDep) == [] && Filter(s[1..], IsBuildDep) == [];
    assert Filter(s[1..], IsRequiredDep) == [] && Filter(s[1..], IsRecommendedDep) == [];
    if Build in d.tags {
      assert !IsOptional(d.tags) && !IsRecommended(d.tags);
    } else if Optional in d.tags {
      assert !IsRecommended(d.tags);
    }
  }

  /**
   * When no edge is a test edge and no edge has two precedence roles, the
   * views partition the list: every edge lands in exactly one of `optional`
   * and `default`.
   */
  lemma {:induction false} ViewsPartition(deps: seq<Dependency>)
    requires forall d :: d in deps ==> Test !in d.tags && SingleRole(d)
    ensures |OptionalDeps(deps)| + |DefaultDeps(deps)| == |deps|
    decreases |deps|
  {
    if |deps| > 0 {
      var d := deps[0];
      assert [d] + deps[1..] == deps;
      ViewsConcat([d], deps[1..]);
      ViewsOfOne(d);
      assert forall e :: e in deps[1..] ==> e in deps;
      ViewsPartition(deps[1..]);
    }
  }

  // ---------------------------------------------------------------------------
  // Requirements: an insertion-ordered set

  /**
   * A `Requirements` collection, its members in insertion order (Ruby's `Set`
   * keeps it). Membership is decided by `Requirement#eql?`, which is `Same`.
   */
  type Requirements = seq<Req.Requirement>

  predicate HasSame(s: Requirements, x: Req.Requirement)
  {
    exists y :: y in s && Req.Same(y, x)
  }

  /** No two members are equal: what a `Set` maintains. */
  predicate NoDuplicates(s: Requirements)
  {
    forall i, j :: 0 <= i < j < |s| ==> !Req.Same(s[i], s[j])
  }

  /** At most one member per comparable class: what comparable insertion maintains. */
  predicate OnePerComparableClass(s: Requirements)
  {
    forall i, j :: 0 <= i < j < |s| && s[i].klass == s[j].klass ==> !s[i].klass.comparable
  }

  /** Two members that may sit together in a collection: unequal, and not two of one comparable class. */
  predicate Compatible(a: Req.Requirement, b: Req.Requirement)
  {
    !Req.Same(a, b) && (a.klass == b.klass ==> !a.klass.comparable)
  }

  /** Both collection invariants at once. */
  predicate Valid(s: Requirements)
  {
    forall i, j :: 0 <= i < j < |s| ==> Compatible(s[i], s[j])
  }

  lemma ValidIff(s: Requirements)
    ensures Valid(s) <==> NoDuplicates(s) && OnePerComparableClass(s)
  {
  }

  /** A collection with one more member at the front stays valid iff that member is compatible with all. */
  lemma ValidCons(h: Req.Requirement, t: Requirements)
    ensures Valid([h] + t) <==> Valid(t) && forall y :: y in t ==> Compatible(h, y)
  {
    var s := [h] + t;
    if Valid(t) && forall y :: y in t ==> Compatible(h, y) {
      forall i, j | 0 <= i < j < |s| ensures Compatible(s[i], s[j]) {
        if i == 0 {
          assert s[j] == t[j - 1];
          assert s[j] in t;
        } else {
          assert s[i] == t[i - 1] && s[j] == t[j - 1];
        }
      }
    }
    if Valid(s) {
      forall y | y in t ensures Compatible(h, y) {
        var j :| 0 <= j < |t| && t[j] == y;
        assert s[0] == h && s[j + 1] == y;
        assert Compatible(s[0], s[j + 1]);
      }
      forall i, j | 0 <= i < j < |t| ensures Compatible(t[i], t[j]) {
        assert s[i + 1] == t[i] && s[j + 1] == t[j];
      }
    }
  }

  /** A collection with one more member at the end stays valid when that member is compatible with all. */
  lemma ValidSnoc(s: Requirements, x: Req.Requirement)
    requires Valid(s) && forall y :: y in s ==> Compatible(y, x)
    ensures Valid(s + [x])
  {
    var r := s + [x];
    forall i, j | 0 <= i < j < |r| ensures Compatible(r[i], r[j]) {
      if j == |s| {
        assert r[i] == s[i];
      } else {
        assert r[i] == s[i] && r[j] == s[j];
      }
    }
  }

  /** `Set#<<`: the element is appended unless an equal member is already present. */
  function SetAdd(s: Requirements, x: Req.Requirement): (r: Requirements)
    ensures HasSame(r, x)
    ensures forall y :: y in s ==> y in r
    ensures forall y :: y in r ==> y in s || y == x
    ensures r == s || r == s + [x]
    ensures NoDuplicates(s) ==> NoDuplicates(r)
  {
    if HasSame(s, x) then s
    else
      assert Req.Same(x, x);
      assert (s + [x])[|s|] == x;
      s + [x]
  }

  /** `Requirements.new(*args)`: `Set.new(args)`, plain set insertion of each argument in turn. */
  function FromSeq(args: seq<Req.Requirement>): (r: Requirements)
    ensures NoDuplicates(r)
    ensures forall x :: x in args ==> HasSame(r, x)
    ensures forall y :: y in r ==> y in args
    decreases |args|
  {
    if |args| == 0 then []
    else
      var prefix := FromSeq(args[..|args| - 1]);
      SetAddLast(prefix, args);
      SetAdd(prefix, args[|args| - 1])
  }

  /** Adding the last argument to the set built from the others represents every argument. */
  lemma SetAddLast(prefix: Requirements, args: seq<Req.Requirement>)
    requires |args| > 0
    requires forall x :: x in args[..|args| - 1] ==> HasSame(prefix, x)
    requires forall y :: y in prefix ==> y in args[..|args| - 1]
    ensures forall x :: x in args ==> HasSame(SetAdd(prefix, args[|args| - 1]), x)
    ensures forall y :: y in SetAdd(prefix, args[|args| - 1]) ==> y in args
  {
    var r := SetAdd(prefix, args[|args| - 1]);
    assert forall x :: x in args ==> x in args[..|args| - 1] || x == args[|args| - 1];
    forall x | x in args[..|args| - 1] ensures HasSame(r, x) {
      HasSameGrows(prefix, r, x);
    }
  }

  /** A collection that keeps every member of another has an equal member wherever the other does. */
  lemma HasSameGrows(s: Requirements, r: Requirements, x: Req.Requirement)
    requires forall y :: y in s ==> y in r
    requires HasSame(s, x)
    ensures HasSame(r, x)
  {
    var y :| y in s && Req.Same(y, x);
    assert y in r;
  }

  /** The members of any class other than `k`, in order. */
  function DropClass(s: Requirements, k: Req.RequirementClass): (r: Requirements)
    ensures |r| <= |s|
    decreases |s|
  {
    if |s| == 0 then []
    else if s[0].klass == k then DropClass(s[1..], k)
    else [s[0]] + DropClass(s[1..], k)
  }

  /** Exactly the members of other classes survive. */
  lemma {:induction false} DropClassMembers(s: Requirements, k: Req.RequirementClass)
    ensures forall y :: y in DropClass(s, k) <==> y in s && y.klass != k
    decreases |s|
  {
    if |s| > 0 {
      DropClassMembers(s[1..], k);
      assert forall y :: y in s <==> y == s[0] || y in s[1..];
    }
  }

  /** Dropping a class distributes over concatenation. */
  lemma {:induction false} DropClassConcat(a: Requirements, b: Requirements, k: Req.RequirementClass)
    ensures DropClass(a + b, k) == DropClass(a, k) + DropClass(b, k)
    decreases |a|
  {
    if |a| == 0 {
      assert a + b == b;
    } else {
      assert (a + b)[1..] == a[1..] + b;
      DropClassConcat(a[1..], b, k);
    }
  }

  /** Dropping a class no member belongs to changes nothing. */
  lemma {:induction false} DropClassAbsent(s: Requirements, k: Req.RequirementClass)
    requires forall y :: y in s ==> y.klass != k
    ensures DropClass(s, k) == s
    decreases |s|
  {
    if |s| > 0 {
      assert forall y :: y in s[1..] ==> y in s;
      DropClassAbsent(s[1..], k);
      assert [s[0]] + s[1..] == s;
    }
  }

  /** Removing members keeps a collection valid. */
  lemma {:induction false} ValidDropClass(s: Requirements, k: Req.RequirementClass)
    requires Valid(s)
    ensures Valid(DropClass(s, k))
    decreases |s|
  {
    if |s| > 0 {
      assert [s[0]] + s[1..] == s;
      ValidCons(s[0], s[1..]);
      ValidDropClass(s[1..], k);
      if s[0].klass != k {
        DropClassMembers(s[1..], k);
        ValidCons(s[0], DropClass(s[1..], k));
      }
    }
  }

  /** A member of `x`'s class that compares greater than `x`. */
  predicate Outranks(y: Req.Requirement, x: Req.Requirement)
  {
    y.klass == x.klass && y.rank > x.rank
  }

  predicate Outranked(s: Requirements, x: Req.Requirement)
  {
    exists y :: y in s && Outranks(y, x)
  }

  /** The position of the first member outranking `x`, or `|s|` when there is none. */
  function FirstOutranking(s: Requirements, x: Req.Requirement): (i: nat)
    ensures i <= |s|
    ensures forall j :: 0 <= j < i ==> !Outranks(s[j], x)
    ensures i < |s| <==> Outranked(s, x)
    ensures i < |s| ==> Outranks(s[i], x)
    decreases |s|
  {
    if |s| == 0 then 0
    else if Outranks(s[0], x) then 0
    else
      var i := FirstOutranking(s[1..], x);
      assert forall j :: 1 <= j < i + 1 ==> s[j] == s[1..][j - 1];
      assert Outranked(s, x) <==> Outranked(s[1..], x) by {
        assert forall y :: y in s <==> y == s[0] || y in s[1..];
      }
      i + 1
  }

  /**
   * The `grep(other.class)` walk of `Requirements#<<`: members of `x`'s class
   * are visited in order; one that outranks `x` stops the walk (the second
   * component is then true), every other is deleted. Deletions made before
   * the walk stops stand.
   */
  function Sweep(s: Requirements, x: Req.Requirement): (r: (Requirements, bool))
    ensures r.1 <==> Outranked(s, x)
    ensures var i := FirstOutranking(s, x);
            r.0 == DropClass(s[..i], x.klass) + s[i..]
    decreases |s|
  {
    if |s| == 0 then ([], false)
    else if Outranks(s[0], x) then
      assert s[..0] == [] && s[0..] == s;
      (s, true)
    else
      var t := Sweep(s[1..], x);
      var i := FirstOutranking(s[1..], x);
      assert FirstOutranking(s, x) == i + 1;
      DropPrefixCons(s, i, x.klass);
      assert Outranked(s, x) <==> Outranked(s[1..], x) by {
        assert forall y :: y in s <==> y == s[0] || y in s[1..];
      }
      (DropClass([s[0]], x.klass) + t.0, t.1)
  }

  /** Dropping a class from a non-empty prefix, head first. */
  lemma DropPrefixCons(s: Requirements, i: nat, k: Req.RequirementClass)
    requires i < |s|
    ensures DropClass(s[..i + 1], k) + s[i + 1..] == DropClass([s[0]], k) + (DropClass(s[1..][..i], k) + s[1..][i..])
  {
    assert s[..i + 1] == [s[0]] + s[1..][..i];
    DropClassConcat([s[0]], s[1..][..i], k);
    assert s[i + 1..] == s[1..][i..];
  }

  /** A walk that was not stopped has deleted every member of the class. */
  lemma SweepUnblocked(s: Requirements, x: Req.Requirement)
    requires !Outranked(s, x)
    ensures Sweep(s, x).0 == DropClass(s, x.klass)
  {
    assert s[|s|..] == [] && s[..|s|] == s;
  }

  /** The walk only ever deletes members of `x`'s class. */
  lemma SweepMembers(s: Requirements, x: Req.Requirement)
    ensures forall y :: y in Sweep(s, x).0 ==> y in s
    ensures forall y :: y in s && y.klass != x.klass ==> y in Sweep(s, x).0
  {
    var i := FirstOutranking(s, x);
    DropClassMembers(s[..i], x.klass);
    assert s[..i] + s[i..] == s;
    assert forall y :: y in s <==> y in s[..i] || y in s[i..];
  }

  /**
   * `Requirements#<<`. A comparable requirement first sweeps its class; if
   * the sweep was stopped by a greater member the collection is returned as
   * it stands, otherwise the requirement is added. Any other requirement is
   * plain set insertion.
   */
  function Insert(s: Requirements, x: Req.Requirement): (r: Requirements)
    ensures forall y :: y in s && y.klass != x.klass ==> y in r
    ensures forall y :: y in r ==> y in s || y == x
    ensures !x.klass.comparable ==> r == SetAdd(s, x)
    ensures x.klass.comparable && !Outranked(s, x) ==> r == DropClass(s, x.klass) + [x]
    ensures x.klass.comparable && Outranked(s, x) ==> forall y :: y in r ==> y in s
  {
    if x.klass.comparable then
      var sw := Sweep(s, x);
      SweepMembers(s, x);
      if sw.1 then sw.0
      else
        SweepUnblocked(s, x);
        sw.0 + [x]
    else
      SetAdd(s, x)
  }

  /** Inserting a non-comparable requirement twice is inserting it once. */
  lemma InsertIdempotent(s: Requirements, x: Req.Requirement)
    requires !x.klass.comparable
    ensures Insert(Insert(s, x), x) == Insert(s, x)
  {
  }

  /**
   * In a collection holding at most one member per comparable class, a
   * comparable requirement outranked by the member of its class leaves the
   * collection unchanged.
   */
  lemma InsertOutranked(s: Requirements, x: Req.Requirement)
    requires OnePerComparableClass(s)
    requires x.klass.comparable && Outranked(s, x)
    ensures Insert(s, x) == s
  {
    var i := FirstOutranking(s, x);
    forall y | y in s[..i] ensures y.klass != x.klass {
      var j :| 0 <= j < i && s[..i][j] == y;
      assert s[j] == y;
    }
    DropClassAbsent(s[..i], x.klass);
    assert s[..i] + s[i..] == s;
  }

  /** A comparable requirement that no member outranks ends up present, displacing its class. */
  lemma InsertDisplaces(s: Requirements, x: Req.Requirement)
    requires x.klass.comparable && !Outranked(s, x)
    ensures x in Insert(s, x)
    ensures forall y :: y in Insert(s, x) && y.klass == x.klass ==> y == x
  {
    var kept := DropClass(s, x.klass);
    DropClassMembers(s, x.klass);
    assert Insert(s, x) == kept + [x];
    assert forall y :: y in kept + [x] <==> y in kept || y == x;
  }

  /** Insertion keeps both collection invariants. */
  lemma InsertPreservesInvariants(s: Requirements, x: Req.Requirement)
    requires NoDuplicates(s) && OnePerComparableClass(s)
    ensures NoDuplicates(Insert(s, x)) && OnePerComparableClass(Insert(s, x))
  {
    ValidIff(s);
    ValidIff(Insert(s, x));
    if x.klass.comparable {
      if Outranked(s, x) {
        InsertOutranked(s, x);
      } else {
        var kept := DropClass(s, x.klass);
        ValidDropClass(s, x.klass);
        DropClassMembers(s, x.klass);
        ValidSnoc(kept, x);
      }
    } else if !HasSame(s, x) {
      ValidSnoc(s, x);
    }
  }

  /** Into a collection holding none of its class, a comparable requirement is simply appended. */
  lemma InsertIntoAbsentClass(s: Requirements, x: Req.Requirement)
    requires x.klass.comparable
    requires forall z :: z in s ==> z.klass != x.klass
    ensures Insert(s, x) == s + [x]
    ensures OnePerComparableClass(s) ==> OnePerComparableClass(s + [x])
  {
    DropClassAbsent(s, x.klass);
    assert !Outranked(s, x);
    if OnePerComparableClass(s) {
      var r := s + [x];
      forall i, j | 0 <= i < j < |r| && r[i].klass == r[j].klass ensures !r[i].klass.comparable {
        assert r[i] == s[i];
        assert r[i] in s;
      }
    }
  }

  /** The greater of two same-class comparable requirements, inserted first, rejects the lesser. */
  lemma InsertGreaterFirst(s: Requirements, x: Req.Requirement, y: Req.Requirement)
    requires OnePerComparableClass(s)
    requires x.klass == y.klass && x.klass.comparable && x.rank > y.rank
    requires forall z :: z in s ==> z.klass != x.klass
    ensures Insert(Insert(s, x), y) == s + [x]
  {
    InsertIntoAbsentClass(s, x);
    var sx := s + [x];
    assert sx[|s|] == x;
    assert x in sx && Outranks(x, y);
    InsertOutranked(sx, y);
  }

  /** Dropping the class of a lone appended member, from a collection without that class, gives the collection back. */
  lemma DropClassSnocSame(s: Requirements, y: Req.Requirement, k: Req.RequirementClass)
    requires forall z :: z in s ==> z.klass != k
    requires y.klass == k
    ensures DropClass(s + [y], k) == s
  {
    DropClassConcat(s, [y], k);
    DropClassAbsent(s, k);
    assert DropClass([y], k) == [] by {
      assert [y][1..] == [];
    }
    assert s + [] == s;
  }

  /** The lesser of two same-class comparable requirements, inserted first, is displaced by the greater. */
  lemma InsertLesserFirst(s: Requirements, x: Req.Requirement, y: Req.Requirement)
    requires x.klass == y.klass && x.klass.comparable && x.rank > y.rank
    requires forall z :: z in s ==> z.klass != x.klass
    ensures Insert(Insert(s, y), x) == s + [x]
  {
    InsertIntoAbsentClass(s, y);
    var sy := s + [y];
    assert !Outranked(sy, x) by {
      forall z | z in sy ensures !Outranks(z, x) {
        assert z in s || z == y;
      }
    }
    DropClassSnocSame(s, y, x.klass);
  }

  /**
   * Two comparable requirements of one class with different ranks, inserted
   * into a collection holding none of their class, leave the greater one,
   * whichever is inserted first.
   */
  lemma InsertOrderIndependent(s: Requirements, x: Req.Requirement, y: Req.Requirement)
    requires OnePerComparableClass(s)
    requires x.klass == y.klass && x.klass.comparable && x.rank > y.rank
    requires forall z :: z in s ==> z.klass != x.klass
    ensures Insert(Insert(s, y), x) == Insert(Insert(s, x), y) == s + [x]
  {
    InsertGreaterFirst(s, x, y);
    InsertLesserFirst(s, x, y);
  }
}
