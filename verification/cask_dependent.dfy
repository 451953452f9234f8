/**
 * The adapter that lets a cask answer the questions dependency resolution
 * asks of a formula (Library/Homebrew/cask_dependent.rb): its names, its
 * formula dependencies, the requirements its `depends_on` block declares,
 * and its runtime dependencies.
 */
module CaskDependent {
  import opened Wrappers
  import opened Strings
  import opened Seqs
  import opened Dependable
  import opened Requirement
  import opened Dependencies
  import Resolution

  /** One `depends_on arch:` entry: the architecture symbol and its bit width, when given. */
  datatype ArchSpec = ArchSpec(archType: string, bits: Nilable<int>)

  /**
   * The cask's `depends_on` declarations: formula names, an optional list of
   * architectures, cask tokens, and an optional macOS requirement.
   */
  datatype DependsOn = DependsOn(
    formula: seq<string>,
    arch: Nilable<seq<ArchSpec>>,
    cask: seq<string>,
    macos: Nilable<Requirement>)

  /** The parts of a cask the adapter reads. */
  datatype Cask = Cask(token: string, fullName: string, installed: bool, dependsOn: DependsOn)

  /** The adapter's class name, as `cache_id` spells it. */
  const ClassName := "CaskDependent"

  /** `name`: the cask's token; `full_name`: the cask's full name. */
  function Name(c: Cask): (r: string)
    ensures r == c.token
  {
    c.token
  }

  function FullName(c: Cask): (r: string)
    ensures r == c.fullName
  {
    c.fullName
  }

  /** `any_version_installed?`: whether the cask is installed. */
  function AnyVersionInstalled(c: Cask): (b: bool)
    ensures b <==> c.installed
  {
    c.installed
  }

  // ---------------------------------------------------------------------------
  // deps

  /** `deps`: one untagged dependency per formula name, in declaration order. */
  function Deps(c: Cask): (r: seq<Dependency>)
    ensures |r| == |c.dependsOn.formula|
    ensures forall i :: 0 <= i < |r| ==> r[i].name == c.dependsOn.formula[i] && r[i].tags == []
  {
    seq(|c.dependsOn.formula|, i requires 0 <= i < |c.dependsOn.formula| => Dependency(c.dependsOn.formula[i], []))
  }

  /** A cask's formula dependencies are all required ones: `default` and `required` both list all of them. */
  lemma DepsAllRequired(c: Cask)
    ensures RequiredDeps(Deps(c)) == Deps(c)
    ensures OptionalDeps(Deps(c)) == [] && BuildDeps(Deps(c)) == [] && RecommendedDeps(Deps(c)) == []
  {
    var ds := Deps(c);
    assert forall d :: d in ds ==> d.tags == [];
    FilterKeepsAll(ds, IsRequiredDep);
    FilterNone(ds, IsOptionalDep);
    FilterNone(ds, IsBuildDep);
    FilterNone(ds, IsRecommendedDep);
  }

  // ---------------------------------------------------------------------------
  // requirements

  /** Whether an arch entry asks for 64 bits (`arch[:bits] == 64`). */
  predicate Is64(a: ArchSpec)
  {
    a.bits == Some(64)
  }

  /** How many arch entries ask for 64 bits. */
  function Count64(archs: seq<ArchSpec>): (n: nat)
    ensures n <= |archs|
  {
    if |archs| == 0 then 0
    else (if Is64(archs[0]) then 1 else 0) + Count64(archs[1..])
  }

  /**
   * The architecture symbols the arch entries ask for, one per requirement:
   * for each entry, `x86_64` when it asks for 64 bits, then its type.
   */
  function ArchSyms(archs: seq<ArchSpec>): seq<string>
  {
    if |archs| == 0 then [] else EntrySyms(archs[0]) + ArchSyms(archs[1..])
  }

  /** Each entry gives one symbol, or two when it asks for 64 bits; the last is the last entry's type. */
  lemma {:induction false} ArchSymsShape(archs: seq<ArchSpec>)
    ensures |ArchSyms(archs)| == |archs| + Count64(archs)
    ensures |archs| > 0 ==> ArchSyms(archs)[|ArchSyms(archs)| - 1] == archs[|archs| - 1].archType
    decreases |archs|
  {
    if |archs| > 0 {
      ArchSymsShape(archs[1..]);
    }
  }

  /** One entry's symbols: `x86_64` first when it asks for 64 bits, then its type. */
  function EntrySyms(a: ArchSpec): (r: seq<string>)
    ensures |r| == (if Is64(a) then 2 else 1) && r[|r| - 1] == a.archType
  {
    if Is64(a) then ["x86_64", a.archType] else [a.archType]
  }

  /** Every symbol is `x86_64` or some entry's type. */
  lemma {:induction false} ArchSymsFrom(archs: seq<ArchSpec>)
    ensures forall x :: x in ArchSyms(archs) ==> x == "x86_64" || exists a :: a in archs && x == a.archType
    decreases |archs|
  {
    if |archs| > 0 {
      ArchSymsFrom(archs[1..]);
      assert forall b :: b in archs[1..] ==> b in archs;
    }
  }

  /** The symbols of a list are those of its parts, in order. */
  lemma {:induction false} ArchSymsConcat(a: seq<ArchSpec>, b: seq<ArchSpec>)
    ensures ArchSyms(a + b) == ArchSyms(a) + ArchSyms(b)
    decreases |a|
  {
    if |a| == 0 {
      assert a + b == b;
    } else {
      assert (a + b)[0] == a[0];
      assert (a + b)[1..] == a[1..] + b;
      ArchSymsConcat(a[1..], b);
      assert ArchSyms(a + b) == EntrySyms(a[0]) + (ArchSyms(a[1..]) + ArchSyms(b));
    }
  }

  /**
   * The requirements the arch entries contribute: one per symbol, in order.
   * `archReq(sym)` stands for `ArchRequirement.new([sym])`.
   */
  function ArchReqs(archs: seq<ArchSpec>, archReq: string -> Requirement): (r: seq<Requirement>)
    ensures |r| == |ArchSyms(archs)| == |archs| + Count64(archs)
    ensures forall i :: 0 <= i < |r| ==> r[i] == archReq(ArchSyms(archs)[i])
    ensures |archs| > 0 ==> r[|r| - 1] == archReq(archs[|archs| - 1].archType)
  {
    var syms := ArchSyms(archs);
    ArchSymsShape(archs);
    seq(|syms|, i requires 0 <= i < |syms| => archReq(syms[i]))
  }

  /** Every arch requirement is the `x86_64` one or the one for some entry's type. */
  lemma ArchReqsFrom(archs: seq<ArchSpec>, archReq: string -> Requirement)
    ensures forall x :: x in ArchReqs(archs, archReq) ==>
              x == archReq("x86_64") || exists a :: a in archs && x == archReq(a.archType)
  {
    ArchSymsFrom(archs);
    var r := ArchReqs(archs, archReq);
    forall x | x in r ensures x == archReq("x86_64") || exists a :: a in archs && x == archReq(a.archType) {
      var i :| 0 <= i < |r| && r[i] == x;
      assert ArchSyms(archs)[i] in ArchSyms(archs);
    }
  }

  /** One entry's share of the arch requirements: `x86_64` immediately before its type iff it asks for 64 bits. */
  lemma ArchReqsOne(a: ArchSpec, archReq: string -> Requirement)
    ensures Is64(a) ==> ArchReqs([a], archReq) == [archReq("x86_64"), archReq(a.archType)]
    ensures !Is64(a) ==> ArchReqs([a], archReq) == [archReq(a.archType)]
  {
    assert [a][1..] == [];
    assert ArchSyms([a]) == EntrySyms(a) + [];
  }

  /** The arch requirements of a list are those of its parts, in order. */
  lemma ArchReqsConcat(a: seq<ArchSpec>, b: seq<ArchSpec>, archReq: string -> Requirement)
    ensures ArchReqs(a + b, archReq) == ArchReqs(a, archReq) + ArchReqs(b, archReq)
  {
    ArchSymsConcat(a, b);
    var ra, rb := ArchReqs(a, archReq), ArchReqs(b, archReq);
    assert forall i :: 0 <= i < |ra| + |rb| ==> (ra + rb)[i] == archReq((ArchSyms(a) + ArchSyms(b))[i]);
  }

  /** The generic requirement `Requirement.new([{ cask: ref }])`. */
  function CaskRequirement(ref: string): (r: Requirement)
    ensures r.klass == BaseClass && r.cask == Some(ref) && r.download == Nil
    ensures r.tags == [Hints(Some(ref), Nil)]
    ensures !Blank(ref) ==> r.name == ref
  {
    var tags := [Hints(Some(ref), Nil)];
    assert HintValue(tags[0], CaskKey) == Some(ref);
    assert FirstHint(tags, DownloadKey) == Nil by {
      assert HintValue(tags[0], DownloadKey) == Nil;
    }
    if !Blank(ref) then BaseClassNameIsCask(tags, 0); New(BaseClass, tags, 0)
    else New(BaseClass, tags, 0)
  }

  /** One generic requirement per cask token, in order. */
  function CaskRequirements(refs: seq<string>): (r: seq<Requirement>)
    ensures |r| == |refs|
    ensures forall i :: 0 <= i < |refs| ==> r[i].cask == Some(refs[i]) && r[i].klass == BaseClass
    ensures forall i :: 0 <= i < |refs| ==> r[i] == CaskRequirement(refs[i])
  {
    seq(|refs|, i requires 0 <= i < |refs| => CaskRequirement(refs[i]))
  }

  /** The macOS requirement, when one is declared. */
  function MacosRequirements(macos: Nilable<Requirement>): (r: seq<Requirement>)
    ensures |r| <= 1 && (r == [] <==> macos.Nil?)
    ensures macos.Some? ==> r[0] == macos.value
  {
    if macos.Some? then [macos.value] else []
  }

  /** The arch requirements of a cask, none when it declares no architectures. */
  function ArchPart(c: Cask, archReq: string -> Requirement): seq<Requirement>
  {
    ArchReqs(c.dependsOn.arch.GetOr([]), archReq)
  }

  /**
   * `requirements`: the arch requirements, then one generic requirement per
   * cask token, then the macOS requirement when one is declared.
   */
  function Requirements(c: Cask, archReq: string -> Requirement): (r: seq<Requirement>)
    ensures |r| == |ArchPart(c, archReq)| + |c.dependsOn.cask| + |MacosRequirements(c.dependsOn.macos)|
    ensures r[..|ArchPart(c, archReq)|] == ArchPart(c, archReq)
    ensures r[|ArchPart(c, archReq)|..|ArchPart(c, archReq)| + |c.dependsOn.cask|] == CaskRequirements(c.dependsOn.cask)
    ensures c.dependsOn.macos.Some? ==> r[|r| - 1] == c.dependsOn.macos.value
  {
    var arch := ArchPart(c, archReq);
    var casks := CaskRequirements(c.dependsOn.cask);
    var macos := MacosRequirements(c.dependsOn.macos);
    assert |casks| == |c.dependsOn.cask|;
    assert c.dependsOn.macos.Some? ==> |macos| > 0 && macos[|macos| - 1] == c.dependsOn.macos.value;
    ConcatParts(arch, casks, macos);
    arch + (casks + macos)
  }

  /** A cask without arch, cask or macOS declarations has no requirements at all. */
  lemma NoDeclarationsNoRequirements(c: Cask, archReq: string -> Requirement)
    requires c.dependsOn.arch.Nil? && c.dependsOn.cask == [] && c.dependsOn.macos.Nil?
    ensures Requirements(c, archReq) == []
  {
  }

  // ---------------------------------------------------------------------------
  // Dependency resolution

  /** The cask as a dependent of requirement expansion. */
  function AsDependent(c: Cask, archReq: string -> Requirement): (d: Resolution.Dependent)
    ensures d.fullName == c.fullName && d.className == ClassName
    ensures d.requirements == Requirements(c, archReq)
  {
    Resolution.Dependent(c.fullName, ClassName, Requirements(c, archReq))
  }

  /** The cache id of a cask is its full name with the adapter's class name appended. */
  lemma CaskCacheId(c: Cask, archReq: string -> Requirement)
    ensures Resolution.CacheId(AsDependent(c, archReq)) == c.fullName + "_CaskDependent"
  {
  }

  /** Whether a dependency is needed only to build or test (`tags.include?(:build) || tags.include?(:test)`). */
  predicate BuildOrTest(d: Dependency)
  {
    Includes(d.tags, Build) || Includes(d.tags, Test)
  }

  function NotBuildOrTest(d: Dependency): bool
  {
    !BuildOrTest(d)
  }

  /**
   * `runtime_dependencies`: the recursive dependencies (computed elsewhere,
   * an input here) without those tagged `:build` or `:test`, in order.
   */
  function RuntimeDependencies(recursive: seq<Dependency>): (r: seq<Dependency>)
    ensures |r| <= |recursive|
    ensures forall d :: d in r <==> d in recursive && Build !in d.tags && Test !in d.tags
  {
    Filter(recursive, NotBuildOrTest)
  }

  /** The runtime view never lists a build dependency, and filtering it again changes nothing. */
  lemma RuntimeDependenciesClean(recursive: seq<Dependency>)
    ensures BuildDeps(RuntimeDependencies(recursive)) == []
    ensures RuntimeDependencies(RuntimeDependencies(recursive)) == RuntimeDependencies(recursive)
  {
    FilterIdempotent(recursive, NotBuildOrTest);
    FilterNone(RuntimeDependencies(recursive), IsBuildDep);
  }

  /** The runtime view of a concatenation keeps each part's order and relative position. */
  lemma RuntimeDependenciesConcat(a: seq<Dependency>, b: seq<Dependency>)
    ensures RuntimeDependencies(a + b) == RuntimeDependencies(a) + RuntimeDependencies(b)
  {
    FilterConcat(a, b, NotBuildOrTest);
  }

  /** A dependency list with no build or test tags is its own runtime view. */
  lemma RuntimeDependenciesKeepsRuntime(recursive: seq<Dependency>)
    requires forall d :: d in recursive ==> Build !in d.tags && Test !in d.tags
    ensures RuntimeDependencies(recursive) == recursive
  {
    FilterKeepsAll(recursive, NotBuildOrTest);
  }
}
