/**
 * `Requirement.expand`, `prune?`, `prune` and `cache_id`
 * (Library/Homebrew/requirement.rb): gathering the requirements of a
 * dependent and of its recursive dependencies into one `Requirements`
 * collection, with an optional cache keyed by a caller-chosen key and by
 * the dependent's identity.
 */
module Resolution {
  import opened Wrappers
  import opened Strings
  import opened Dependable
  import opened Requirement
  import opened Dependencies

  /**
   * A dependent (a formula, a cask adapter or a spec): its full name, the
   * name of its Ruby class, and the requirements it declares.
   */
  datatype Dependent = Dependent(fullName: string, className: string, requirements: seq<Requirement>)

  /**
   * How requirements are pruned. `DefaultPolicy` is `expand` without a block;
   * `buildWith` answers `dependent.build.with?(req)`. `BlockPolicy` is
   * `expand` with a block; `prunes` says whether the block calls `prune`.
   */
  datatype Policy =
    | DefaultPolicy(buildWith: (Dependent, Requirement) -> bool)
    | BlockPolicy(prunes: (Dependent, Requirement) -> bool)

  /**
   * `prune?`: with a block, exactly when the block calls `prune`; without one,
   * an optional or recommended requirement the build does not ask for.
   */
  function Prune(policy: Policy, f: Dependent, r: Requirement): (b: bool)
    ensures policy.BlockPolicy? ==> (b <==> policy.prunes(f, r))
    ensures policy.DefaultPolicy? && Optional !in r.tags && Recommended !in r.tags ==> !b
    ensures policy.DefaultPolicy? && (Optional in r.tags || Recommended in r.tags) ==> (b <==> !policy.buildWith(f, r))
  {
    match policy
    case BlockPolicy(prunes) => prunes(f, r)
    case DefaultPolicy(buildWith) => (IsOptional(r.tags) || IsRecommended(r.tags)) && !buildWith(f, r)
  }

  /** Without a block, `prune?` is the requirement's own `prune_from_option?` against the dependent's build. */
  lemma PruneIsPruneFromOption(buildWith: (Dependent, Requirement) -> bool, f: Dependent, r: Requirement)
    ensures Prune(DefaultPolicy(buildWith), f, r) == PruneFromOption(r.tags, !buildWith(f, r))
  {
  }

  // ---------------------------------------------------------------------------
  // Gathering

  /** The inner loop: every unpruned requirement of `f`, in order, inserted with `Requirements#<<`. */
  function GatherReqs(acc: Requirements, f: Dependent, rs: seq<Requirement>, policy: Policy): Requirements
    decreases |rs|
  {
    if |rs| == 0 then acc
    else
      var next := if Prune(policy, f, rs[0]) then acc else Insert(acc, rs[0]);
      GatherReqs(next, f, rs[1..], policy)
  }

  /** The outer loop over the formulae, in order. */
  function Gather(acc: Requirements, fs: seq<Dependent>, policy: Policy): Requirements
    decreases |fs|
  {
    if |fs| == 0 then acc
    else Gather(GatherReqs(acc, fs[0], fs[0].requirements, policy), fs[1..], policy)
  }

  /** Gathering over consecutive lists of formulae is gathering over each in turn. */
  lemma {:induction false} GatherConcat(acc: Requirements, a: seq<Dependent>, b: seq<Dependent>, policy: Policy)
    ensures Gather(acc, a + b, policy) == Gather(Gather(acc, a, policy), b, policy)
    decreases |a|
  {
    if |a| == 0 {
      assert a + b == b;
    } else {
      assert (a + b)[0] == a[0];
      assert (a + b)[1..] == a[1..] + b;
      GatherConcat(GatherReqs(acc, a[0], a[0].requirements, policy), a[1..], b, policy);
    }
  }

  /** Both collection invariants. */
  predicate Consistent(s: Requirements)
  {
    NoDuplicates(s) && OnePerComparableClass(s)
  }

  lemma {:induction false} GatherReqsValid(acc: Requirements, f: Dependent, rs: seq<Requirement>, policy: Policy)
    requires Consistent(acc)
    ensures Consistent(GatherReqs(acc, f, rs, policy))
    decreases |rs|
  {
    if |rs| > 0 {
      InsertPreservesInvariants(acc, rs[0]);
      var next := if Prune(policy, f, rs[0]) then acc else Insert(acc, rs[0]);
      GatherReqsValid(next, f, rs[1..], policy);
    }
  }

  /** Gathering keeps a collection free of duplicates and of rival comparable members. */
  lemma {:induction false} GatherValid(acc: Requirements, fs: seq<Dependent>, policy: Policy)
    requires Consistent(acc)
    ensures Consistent(Gather(acc, fs, policy))
    decreases |fs|
  {
    if |fs| > 0 {
      GatherReqsValid(acc, fs[0], fs[0].requirements, policy);
      GatherValid(GatherReqs(acc, fs[0], fs[0].requirements, policy), fs[1..], policy);
    }
  }

  /** `r` is declared by one of `fs` and survives that dependent's pruning. */
  predicate Contributed(fs: seq<Dependent>, policy: Policy, r: Requirement)
  {
    exists i, j :: 0 <= i < |fs| && 0 <= j < |fs[i].requirements|
                   && fs[i].requirements[j] == r && !Prune(policy, fs[i], r)
  }

  lemma {:induction false} GatherReqsMembers(acc: Requirements, f: Dependent, rs: seq<Requirement>, policy: Policy)
    ensures forall y :: y in GatherReqs(acc, f, rs, policy) ==> y in acc || (y in rs && !Prune(policy, f, y))
    decreases |rs|
  {
    if |rs| > 0 {
      var next := if Prune(policy, f, rs[0]) then acc else Insert(acc, rs[0]);
      GatherReqsMembers(next, f, rs[1..], policy);
      assert forall y :: y in rs[1..] ==> y in rs;
    }
  }

  /** Every gathered requirement was already there or is an unpruned requirement of a visited formula. */
  lemma {:induction false} GatherMembers(acc: Requirements, fs: seq<Dependent>, policy: Policy)
    ensures forall y :: y in Gather(acc, fs, policy) ==> y in acc || Contributed(fs, policy, y)
    decreases |fs|
  {
    if |fs| > 0 {
      var mid := GatherReqs(acc, fs[0], fs[0].requirements, policy);
      GatherReqsMembers(acc, fs[0], fs[0].requirements, policy);
      GatherMembers(mid, fs[1..], policy);
      forall y | y in Gather(acc, fs, policy) ensures y in acc || Contributed(fs, policy, y) {
        if y !in mid {
          assert Contributed(fs[1..], policy, y);
          var i, j :| 0 <= i < |fs[1..]| && 0 <= j < |fs[1..][i].requirements|
                      && fs[1..][i].requirements[j] == y && !Prune(policy, fs[1..][i], y);
          assert fs[i + 1] == fs[1..][i];
        } else if y !in acc {
          var j :| 0 <= j < |fs[0].requirements| && fs[0].requirements[j] == y;
          assert !Prune(policy, fs[0], y);
        }
      }
    }
  }

  /** A member of a non-comparable class equal to `r` survives every later insertion. */
  lemma KeepsNonComparable(s: Requirements, x: Requirement, r: Requirement)
    requires !r.klass.comparable && HasSame(s, r)
    ensures HasSame(Insert(s, x), r)
  {
    var y :| y in s && Same(y, r);
    if y.klass == x.klass {
      assert !x.klass.comparable;
    }
  }

  lemma {:induction false} GatherReqsKeeps(acc: Requirements, f: Dependent, rs: seq<Requirement>, policy: Policy, r: Requirement)
    requires !r.klass.comparable
    requires HasSame(acc, r) || (r in rs && !Prune(policy, f, r))
    ensures HasSame(GatherReqs(acc, f, rs, policy), r)
    decreases |rs|
  {
    if |rs| > 0 {
      var next := if Prune(policy, f, rs[0]) then acc else Insert(acc, rs[0]);
      if HasSame(acc, r) {
        if !Prune(policy, f, rs[0]) {
          KeepsNonComparable(acc, rs[0], r);
        }
      } else if rs[0] == r {
        assert HasSame(next, r);
      }
      if !HasSame(next, r) {
        assert r in rs[1..] by {
          assert rs == [rs[0]] + rs[1..];
        }
      }
      GatherReqsKeeps(next, f, rs[1..], policy, r);
    }
  }

  /**
   * An unpruned requirement of a non-comparable class, declared by any
   * visited formula, ends up in the gathered collection (up to `==`).
   */
  lemma {:induction false} GatherKeeps(acc: Requirements, fs: seq<Dependent>, policy: Policy, r: Requirement)
    requires !r.klass.comparable
    requires HasSame(acc, r) || Contributed(fs, policy, r)
    ensures HasSame(Gather(acc, fs, policy), r)
    decreases |fs|
  {
    if |fs| > 0 {
      var mid := GatherReqs(acc, fs[0], fs[0].requirements, policy);
      if HasSame(acc, r) {
        GatherReqsKeeps(acc, fs[0], fs[0].requirements, policy, r);
      } else {
        var i, j :| 0 <= i < |fs| && 0 <= j < |fs[i].requirements|
                    && fs[i].requirements[j] == r && !Prune(policy, fs[i], r);
        if i == 0 {
          GatherReqsKeeps(acc, fs[0], fs[0].requirements, policy, r);
        } else {
          assert fs[1..][i - 1] == fs[i];
          assert Contributed(fs[1..], policy, r);
        }
      }
      GatherKeeps(mid, fs[1..], policy, r);
    }
  }

  // ---------------------------------------------------------------------------
  // Cache

  /** `cache_id`: the dependent's full name and class name. */
  function CacheId(d: Dependent): (id: string)
    ensures StartsWith(id, d.fullName) && EndsWith(id, "_" + d.className)
    ensures |id| == |d.fullName| + 1 + |d.className|
  {
    var id := d.fullName + "_" + d.className;
    assert id[..|d.fullName|] == d.fullName;
    assert id[|id| - |"_" + d.className|..] == "_" + d.className;
    id
  }

  /** The class-level cache: cache key, then cache id, to a stored collection. */
  type Cache = map<string, map<string, Requirements>>

  /** `cache_key.present?`. */
  predicate Present(key: Nilable<string>)
  {
    key.Some? && !Blank(key.value)
  }

  /** The result of `expand` and the cache it leaves behind. */
  datatype Expansion = Expansion(reqs: Requirements, cache: Cache)

  /**
   * `Requirement.expand`. With a present key, a stored collection for the
   * dependent is returned as it is; otherwise the dependent and then its
   * recursive dependencies `deps` are visited, and with a present key the
   * result is stored. Collections are values here, so the `dup` on the way
   * in and out of the cache needs no counterpart.
   */
  function Expand(dependent: Dependent, deps: seq<Dependent>, key: Nilable<string>, policy: Policy, cache: Cache): (e: Expansion)
    ensures !Present(key) ==> e.cache == cache && e.reqs == Gather([], [dependent] + deps, policy)
    ensures Present(key) && key.value in cache && CacheId(dependent) in cache[key.value]
            ==> e.reqs == cache[key.value][CacheId(dependent)] && e.cache == cache
    ensures Present(key) && !(key.value in cache && CacheId(dependent) in cache[key.value])
            ==> e.reqs == Gather([], [dependent] + deps, policy)
    ensures Present(key) ==> key.value in e.cache && CacheId(dependent) in e.cache[key.value]
                             && e.cache[key.value][CacheId(dependent)] == e.reqs
    ensures Present(key) ==> forall id :: key.value in cache && id in cache[key.value] && id != CacheId(dependent)
                                       ==> id in e.cache[key.value] && e.cache[key.value][id] == cache[key.value][id]
    ensures forall k :: k in cache && !(Present(key) && k == key.value) ==> k in e.cache && e.cache[k] == cache[k]
    ensures forall k :: k in e.cache ==> k in cache || (Present(key) && k == key.value)
  {
    if !Present(key) then
      Expansion(Gather([], [dependent] + deps, policy), cache)
    else
      var k := key.value;
      var inner := if k in cache then cache[k] else map[];
      var id := CacheId(dependent);
      if id in inner then Expansion(inner[id], cache)
      else
        var reqs := Gather([], [dependent] + deps, policy);
        Expansion(reqs, cache[k := inner[id := reqs]])
  }

  /**
   * A second expansion with the same present key returns the stored result
   * of the first and leaves the cache alone, whatever dependencies or block
   * it is given: the cache does not key on them.
   */
  lemma ExpandTwice(dependent: Dependent, deps: seq<Dependent>, deps2: seq<Dependent>, key: Nilable<string>,
                    policy: Policy, policy2: Policy, cache: Cache)
    requires Present(key)
    ensures var first := Expand(dependent, deps, key, policy, cache);
            Expand(dependent, deps2, key, policy2, first.cache) == first
  {
  }

  /** Every collection the cache holds satisfies the collection invariants. */
  predicate CacheValid(cache: Cache)
  {
    forall k, id :: k in cache && id in cache[k] ==> Consistent(cache[k][id])
  }

  /** Expansion yields a valid collection and keeps a valid cache valid. */
  lemma ExpandValid(dependent: Dependent, deps: seq<Dependent>, key: Nilable<string>, policy: Policy, cache: Cache)
    requires CacheValid(cache)
    ensures Consistent(Expand(dependent, deps, key, policy, cache).reqs)
    ensures CacheValid(Expand(dependent, deps, key, policy, cache).cache)
  {
    GatherValid([], [dependent] + deps, policy);
  }

  /**
   * A freshly computed expansion holds only unpruned requirements of the
   * dependent and its dependencies, and holds every such requirement of a
   * non-comparable class.
   */
  lemma ExpandContents(dependent: Dependent, deps: seq<Dependent>, key: Nilable<string>, policy: Policy, cache: Cache, r: Requirement)
    requires !Present(key) || !(key.value in cache && CacheId(dependent) in cache[key.value])
    ensures r in Expand(dependent, deps, key, policy, cache).reqs ==> Contributed([dependent] + deps, policy, r)
    ensures !r.klass.comparable && Contributed([dependent] + deps, policy, r)
            ==> HasSame(Expand(dependent, deps, key, policy, cache).reqs, r)
  {
    GatherMembers([], [dependent] + deps, policy);
    if !r.klass.comparable && Contributed([dependent] + deps, policy, r) {
      GatherKeeps([], [dependent] + deps, policy, r);
    }
  }

  /** The dependent's own requirements are gathered before those of its dependencies. */
  lemma ExpandDependentFirst(dependent: Dependent, deps: seq<Dependent>, policy: Policy)
    ensures Gather([], [dependent] + deps, policy)
            == Gather(GatherReqs([], dependent, dependent.requirements, policy), deps, policy)
  {
    GatherConcat([], [dependent], deps, policy);
    assert [dependent][1..] == [];
  }
}
