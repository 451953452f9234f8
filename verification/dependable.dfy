/**
 * The tag taxonomy shared by dependencies and requirements
 * (Library/Homebrew/dependable.rb): predicates derived from a tag list,
 * the option tags, and the two pruning rules.
 */
module Dependable {
  import opened Wrappers
  import opened Seqs
  import Options

  /**
   * A tag on a dependency or requirement edge. The six reserved symbols come
   * first; `Named` is any other symbol or string (a free-form option tag);
   * `Hints` is a hash tag carrying the `:cask` and `:download` keys.
   */
  datatype Tag =
    | Build | Optional | Recommended | Run | Test | Linked
    | Named(name: string)
    | Hints(cask: Nilable<string>, download: Nilable<string>)

  /** `RESERVED_TAGS`; `:run` and `:linked` carry no behaviour and are only kept from reuse. */
  const ReservedTags: seq<Tag> := [Build, Optional, Recommended, Run, Test, Linked]

  predicate Reserved(t: Tag)
  {
    !t.Named? && !t.Hints?
  }

  lemma ReservedTagsAreReserved(t: Tag)
    ensures t in ReservedTags <==> Reserved(t)
  {
  }

  /** A tag that decides an edge's precedence: build, test, optional or recommended. */
  predicate Precedence(t: Tag)
  {
    t == Build || t == Test || t == Optional || t == Recommended
  }

  function IsBuild(tags: seq<Tag>): (b: bool)
    ensures b <==> Build in tags
  {
    Includes(tags, Build)
  }

  function IsOptional(tags: seq<Tag>): (b: bool)
    ensures b <==> Optional in tags
  {
    Includes(tags, Optional)
  }

  function IsRecommended(tags: seq<Tag>): (b: bool)
    ensures b <==> Recommended in tags
  {
    Includes(tags, Recommended)
  }

  function IsTest(tags: seq<Tag>): (b: bool)
    ensures b <==> Test in tags
  {
    Includes(tags, Test)
  }

  /** `required?`: mandatory unless some precedence tag says otherwise. */
  function IsRequired(tags: seq<Tag>): (b: bool)
    ensures b <==> forall t :: t in tags ==> !Precedence(t)
  {
    !IsBuild(tags) && !IsTest(tags) && !IsOptional(tags) && !IsRecommended(tags)
  }

  /** An edge carrying a single kind of precedence tag has exactly the matching role. */
  lemma SinglePrecedenceRole(tags: seq<Tag>, p: Tag)
    requires Precedence(p) && p in tags
    requires forall t :: t in tags && Precedence(t) ==> t == p
    ensures !IsRequired(tags)
    ensures IsBuild(tags) <==> p == Build
    ensures IsTest(tags) <==> p == Test
    ensures IsOptional(tags) <==> p == Optional
    ensures IsRecommended(tags) <==> p == Recommended
  {
  }

  /** `option_tags`: every tag but the reserved ones (`tags - RESERVED_TAGS`), in order. */
  function OptionTags(tags: seq<Tag>): (r: seq<Tag>)
    ensures forall t :: t in r <==> t in tags && t !in ReservedTags
  {
    Filter(tags, (t: Tag) => !Includes(ReservedTags, t))
  }

  /** Removing the reserved tags is order preserving and removing them twice changes nothing. */
  lemma OptionTagsOrder(a: seq<Tag>, b: seq<Tag>)
    ensures OptionTags(a + b) == OptionTags(a) + OptionTags(b)
    ensures OptionTags(OptionTags(a)) == OptionTags(a)
  {
    var p := (t: Tag) => !Includes(ReservedTags, t);
    FilterConcat(a, b, p);
    FilterIdempotent(a, p);
  }

  /**
   * `options`: `Options.create(option_tags)`. A hash tag among the option tags
   * makes `Options.create` raise, since it indexes each element with a regex.
   */
  function TagOptions(tags: seq<Tag>): (r: Result<Options.Options>)
    ensures r.Err? <==> exists t :: t in tags && t.Hints?
    ensures r.Ok? ==> r.value == Options.Create(TagNames(OptionTags(tags)))
  {
    var opts := OptionTags(tags);
    HintsKept(tags);
    if HasHints(opts) then Err("wrong number of arguments (given 2, expected 1)")
    else Ok(Options.Create(TagNames(opts)))
  }

  /** Hash tags are never reserved, so `option_tags` keeps every one of them. */
  lemma HintsKept(tags: seq<Tag>)
    ensures HasHints(OptionTags(tags)) <==> HasHints(tags)
  {
    forall t | t in tags && t.Hints? ensures t in OptionTags(tags) {
      assert !Reserved(t);
    }
  }

  /** Whether some tag is a hash. */
  function HasHints(tags: seq<Tag>): (b: bool)
    ensures b <==> exists t :: t in tags && t.Hints?
  {
    if |tags| == 0 then false
    else tags[0].Hints? || HasHints(tags[1..])
  }

  /** The text of free-form tags (hash tags have none). */
  function TagNames(tags: seq<Tag>): (r: seq<string>)
    ensures |r| == |tags|
  {
    seq(|tags|, i requires 0 <= i < |tags| => if tags[i].Named? then tags[i].name else "")
  }

  /**
   * `prune_from_option?`: only optional or recommended edges can be pruned by
   * build options, and then exactly when the build excludes them. `without`
   * is the answer of `BuildOptions#without?` for this edge.
   */
  function PruneFromOption(tags: seq<Tag>, without: bool): (r: bool)
    ensures !(Optional in tags) && !(Recommended in tags) ==> !r
    ensures Optional in tags || Recommended in tags ==> r == without
  {
    if !IsOptional(tags) && !IsRecommended(tags) then false else without
  }

  /**
   * `prune_if_build_and_not_dependent?`: a build-only edge is pruned when no
   * formula is being built and the dependent is installed, or when the formula
   * being built is not the dependent. `F` stands for the dependent's type and
   * `==` for Ruby's comparison of the two objects.
   */
  function PruneIfBuildAndNotDependent<F(==)>(tags: seq<Tag>, dependent: F, dependentInstalled: bool, formula: Nilable<F>): (r: bool)
    ensures !(Build in tags) ==> !r
    ensures Build in tags && formula.Nil? ==> r == dependentInstalled
    ensures Build in tags && formula.Some? ==> (r <==> formula.value != dependent)
  {
    if !IsBuild(tags) then false
    else if formula.Nil? then dependentInstalled
    else dependent != formula.value
  }
}
