/**
 * A requirement: a non-formula precondition of a build
 * (Library/Homebrew/requirement.rb). Class-level DSL settings are a
 * `RequirementClass` descriptor; an instance is an immutable `Requirement`;
 * the instance's memo of the last satisfier result is passed in and out.
 */
module Requirement {
  import opened Wrappers
  import opened Strings
  import opened Dependable

  // ---------------------------------------------------------------------------
  // Satisfier

  /** What a satisfier yields: nil, a boolean, a path, or any other object. */
  datatype SatisfyResult = NilResult | BoolResult(b: bool) | PathResult(path: string) | ObjectResult

  /** Ruby truthiness: everything except `nil` and `false`. */
  predicate Truthy(v: SatisfyResult)
  {
    !v.NilResult? && v != BoolResult(false)
  }

  /** A `Satisfier`: a fixed value, or a block run inside a build environment or directly. */
  datatype Satisfier = Fixed(value: SatisfyResult) | Deferred(buildEnv: bool)

  /**
   * The argument of the `satisfy` DSL: an options hash, of which only
   * `:build_env` matters (`Nil` when the key is absent, else its truthiness),
   * or a fixed value.
   */
  datatype SatisfyOptions = HashOptions(buildEnv: Nilable<bool>) | ValueOptions(value: SatisfyResult)

  /** `Satisfier#initialize`: a hash is merged over `{ build_env: true }`; any other value is fixed. */
  function NewSatisfier(options: SatisfyOptions): (s: Satisfier)
    ensures options.HashOptions? ==> s.Deferred? && (s.buildEnv <==> options.buildEnv != Some(false))
    ensures options.ValueOptions? ==> s.Fixed? && s.value == options.value
  {
    match options
    case HashOptions(b) => Deferred(b.GetOr(true))
    case ValueOptions(v) => Fixed(v)
  }

  /**
   * The class-level `satisfy` DSL: without options and without a block it
   * reads the current satisfier; otherwise it installs a new one, a missing
   * options argument counting as an empty hash.
   */
  function SatisfyDsl(current: Nilable<Satisfier>, options: Nilable<SatisfyOptions>, hasBlock: bool): (r: Nilable<Satisfier>)
    ensures options.Nil? && !hasBlock ==> r == current
    ensures options.Nil? && hasBlock ==> r == Some(Deferred(true))
    ensures options.Some? ==> r.Some? && r.value == NewSatisfier(options.value)
  {
    if options.Nil? && !hasBlock then current
    else Some(NewSatisfier(options.GetOr(HashOptions(Nil))))
  }

  /** What `Satisfier#yielder` returns, and whether it ran the block inside a build environment. */
  datatype Yielded = Yielded(value: SatisfyResult, builtEnvironment: bool)

  /**
   * `Satisfier#yielder`. The block's result is an input: running it (and
   * setting up the environment around it) is outside the model.
   */
  function Yield(s: Satisfier, blockResult: SatisfyResult): (y: Yielded)
    ensures s.Fixed? ==> y.value == s.value && !y.builtEnvironment
    ensures s.Deferred? ==> y.value == blockResult && (y.builtEnvironment <==> s.buildEnv)
  {
    match s
    case Fixed(v) => Yielded(v, false)
    case Deferred(env) => Yielded(blockResult, env)
  }

  // ---------------------------------------------------------------------------
  // Requirement classes and instances

  /**
   * The class-level settings of a requirement class: its Ruby class name,
   * `cask`, `download`, `build`, `fatal`, `satisfy`, and whether the class
   * includes `Comparable`.
   */
  datatype RequirementClass = RequirementClass(
    name: string,
    cask: Nilable<string>,
    download: Nilable<string>,
    build: bool,
    fatal: Nilable<bool>,
    satisfy: Nilable<Satisfier>,
    comparable: bool)

  /** The base class `Requirement` itself: nothing configured. */
  const BaseClass := RequirementClass("Requirement", Nil, Nil, false, Nil, Nil, false)

  /**
   * A requirement instance. `name` is the memoized `@name`: it depends only
   * on the class and on `cask`, which never change after construction, so
   * `New` fills it in once. `rank` stands for the class's `<=>` and is
   * consulted only when the class is comparable.
   */
  datatype Requirement = Requirement(
    klass: RequirementClass,
    tags: seq<Tag>,
    cask: Nilable<string>,
    download: Nilable<string>,
    name: string,
    rank: int)

  datatype HintKey = CaskKey | DownloadKey

  /** `tag[key]` for a hash tag; nil for any other tag. */
  function HintValue(t: Tag, key: HintKey): Nilable<string>
  {
    if !t.Hints? then Nil
    else if key == CaskKey then t.cask
    else t.download
  }

  /** The first non-nil value of `key` among the hash tags, as `@x ||= tag[key]` keeps it. */
  function FirstHint(tags: seq<Tag>, key: HintKey): (r: Nilable<string>)
    ensures r.Some? ==> exists i :: 0 <= i < |tags| && HintValue(tags[i], key) == r
                                 && forall j :: 0 <= j < i ==> HintValue(tags[j], key).Nil?
    ensures r.Nil? ==> forall i :: 0 <= i < |tags| ==> HintValue(tags[i], key).Nil?
  {
    if |tags| == 0 then Nil
    else if HintValue(tags[0], key).Some? then HintValue(tags[0], key)
    else
      var r := FirstHint(tags[1..], key);
      assert r.Some? ==> exists i :: 0 <= i < |tags[1..]| && HintValue(tags[1..][i], key) == r
                                  && forall j :: 0 <= j < i ==> HintValue(tags[1..][j], key).Nil?;
      assert r.Some? ==> exists i :: 0 <= i < |tags| && HintValue(tags[i], key) == r
                                  && forall j :: 0 <= j < i ==> HintValue(tags[j], key).Nil? by {
        if r.Some? {
          var i :| 0 <= i < |tags[1..]| && HintValue(tags[1..][i], key) == r
                   && forall j :: 0 <= j < i ==> HintValue(tags[1..][j], key).Nil?;
          assert HintValue(tags[i + 1], key) == r;
          forall j | 0 <= j < i + 1 ensures HintValue(tags[j], key).Nil? {
            if j > 0 {
              assert tags[j] == tags[1..][j - 1];
            }
          }
        }
      }
      r
  }

  /**
   * `Requirement#initialize`: `cask` and `download` come from the class when
   * set there, else from the first hash tag carrying them; `:build` is
   * appended when the class is build-only.
   */
  function New(klass: RequirementClass, tags: seq<Tag>, rank: int): (r: Requirement)
    ensures r.klass == klass && r.rank == rank
    ensures r.name == InferName(klass.name, r.cask)
    ensures klass.cask.Some? ==> r.cask == klass.cask
    ensures klass.cask.Nil? ==> r.cask == FirstHint(tags, CaskKey)
    ensures klass.download.Some? ==> r.download == klass.download
    ensures klass.download.Nil? ==> r.download == FirstHint(tags, DownloadKey)
    ensures |r.tags| == |tags| + (if klass.build then 1 else 0) && r.tags[..|tags|] == tags
    ensures klass.build ==> r.tags[|tags|] == Build
    ensures IsBuild(r.tags) <==> klass.build || Build in tags
  {
    var cask := if klass.cask.Some? then klass.cask else FirstHint(tags, CaskKey);
    var download := if klass.download.Some? then klass.download else FirstHint(tags, DownloadKey);
    var allTags := if klass.build then tags + [Build] else tags;
    assert Build in allTags <==> klass.build || Build in tags;
    Requirement(klass, allTags, cask, download, InferName(klass.name, cask), rank)
  }

  // ---------------------------------------------------------------------------
  // Names and messages

  /** The class name without a trailing `Dependency` or `Requirement`. */
  function StripKindSuffix(s: string): (r: string)
    ensures EndsWith(s, "Dependency") ==> r == s[..|s| - 10]
    ensures EndsWith(s, "Requirement") ==> r == s[..|s| - 11]
    ensures !EndsWith(s, "Dependency") && !EndsWith(s, "Requirement") ==> r == s
  {
    assert EndsWith(s, "Dependency") ==> s[|s| - 1] == 'y';
    assert EndsWith(s, "Requirement") ==> s[|s| - 1] == 't';
    if EndsWith(s, "Dependency") then s[..|s| - 10]
    else if EndsWith(s, "Requirement") then s[..|s| - 11]
    else s
  }

  /** The name without its leading `Mod::` segments, each a run of word characters. */
  function StripNamespaces(s: string): string
    decreases |s|
  {
    var w := TakeWhile(s, WordChar);
    if |w| > 0 && StartsWith(s[|w|..], "::") then StripNamespaces(s[|w| + 2..])
    else s
  }

  /** What is left after the namespaces is a suffix of the class name. */
  lemma {:induction false} StripNamespacesSuffix(s: string)
    ensures |StripNamespaces(s)| <= |s| && StripNamespaces(s) == s[|s| - |StripNamespaces(s)|..]
    decreases |s|
  {
    var w := TakeWhile(s, WordChar);
    if |w| > 0 && StartsWith(s[|w|..], "::") {
      var t := s[|w| + 2..];
      StripNamespacesSuffix(t);
      var r := StripNamespaces(t);
      assert t[|t| - |r|..] == s[|s| - |r|..];
    }
  }

  /** The inferred name: the bare class name downcased, else the cask, else empty. */
  function InferName(className: string, cask: Nilable<string>): (r: string)
    ensures var bare := StripNamespaces(StripKindSuffix(className));
            && (!Blank(bare) ==> r == Downcase(bare))
            && (Blank(bare) && cask.Some? && !Blank(cask.value) ==> r == cask.value)
            && (Blank(bare) && !(cask.Some? && !Blank(cask.value)) ==> r == "")
  {
    var bare := StripNamespaces(StripKindSuffix(className));
    if !Blank(bare) then Downcase(bare)
    else if cask.Some? && !Blank(cask.value) then cask.value
    else ""
  }

  /** `option_names`: the requirement's name alone. */
  function OptionNames(r: Requirement): (names: seq<string>)
    ensures |names| == 1 && names[0] == r.name
  {
    [r.name]
  }

  predicate WordChars(s: string)
  {
    forall i :: 0 <= i < |s| ==> WordChar(s[i])
  }

  /** `M1::M2::…::` for the given module names. */
  function Qualify(mods: seq<string>): string
  {
    if |mods| == 0 then "" else mods[0] + "::" + Qualify(mods[1..])
  }

  /** A plain word has no namespace to strip. */
  lemma StripNamespacesPlain(base: string)
    requires |base| > 0 && WordChars(base)
    ensures StripNamespaces(base) == base
  {
    TakeWhileOf(base, "", WordChar);
    assert base + "" == base;
  }

  /** One leading `Mod::` segment is stripped and the rest is stripped in turn. */
  lemma StripNamespacesStep(m: string, rest: string)
    requires |m| > 0 && WordChars(m)
    ensures StripNamespaces(m + ("::" + rest)) == StripNamespaces(rest)
  {
    var s := m + ("::" + rest);
    TakeWhileOf(m, "::" + rest, WordChar);
    assert s[|m|..] == "::" + rest;
    assert s[|m| + 2..] == rest;
  }

  lemma {:induction false} StripQualified(mods: seq<string>, base: string)
    requires forall i :: 0 <= i < |mods| ==> |mods[i]| > 0 && WordChars(mods[i])
    requires |base| > 0 && WordChars(base)
    ensures StripNamespaces(Qualify(mods) + base) == base
    decreases |mods|
  {
    if |mods| == 0 {
      assert Qualify(mods) + base == base;
      StripNamespacesPlain(base);
    } else {
      var rest := Qualify(mods[1..]) + base;
      assert Qualify(mods) + base == mods[0] + ("::" + rest);
      StripNamespacesStep(mods[0], rest);
      StripQualified(mods[1..], base);
    }
  }

  /** Either kind suffix appended to a name is exactly what `StripKindSuffix` removes. */
  lemma StripKindSuffixOf(q: string, suffix: string)
    requires suffix == "Requirement" || suffix == "Dependency"
    ensures StripKindSuffix(q + suffix) == q
  {
    var s := q + suffix;
    assert s[|s| - |suffix|..] == suffix;
    assert s[..|s| - |suffix|] == q;
    if suffix == "Requirement" {
      assert s[|s| - 1] == 't';
      assert !EndsWith(s, "Dependency");
    }
  }

  /**
   * The name of a requirement class `Mod::…::FooRequirement` (or
   * `…Dependency`) is `foo`: namespaces and the suffix go, the rest is downcased.
   */
  lemma InferNameOfQualifiedClass(mods: seq<string>, base: string, suffix: string, cask: Nilable<string>)
    requires forall i :: 0 <= i < |mods| ==> |mods[i]| > 0 && WordChars(mods[i])
    requires |base| > 0 && WordChars(base)
    requires suffix == "Requirement" || suffix == "Dependency"
    ensures InferName(Qualify(mods) + base + suffix, cask) == Downcase(base)
  {
    var q := Qualify(mods) + base;
    StripKindSuffixOf(q, suffix);
    StripQualified(mods, base);
    assert !Whitespace(base[0]);
    assert !Blank(base);
  }

  /** A requirement of the base class takes its name from the cask it carries. */
  lemma BaseClassNameIsCask(tags: seq<Tag>, rank: int)
    requires FirstHint(tags, CaskKey).Some? && !Blank(FirstHint(tags, CaskKey).value)
    ensures New(BaseClass, tags, rank).name == FirstHint(tags, CaskKey).value
  {
    assert BaseClass.name == [] + "Requirement";
    assert StripKindSuffix(BaseClass.name) == "";
  }

  /** The last `::`-separated segment, as `rpartition("::")` leaves it. */
  function LastSegment(s: string): (r: string)
    ensures |r| <= |s| && r == s[|s| - |r|..]
    ensures !Contains(s, "::") ==> r == s
  {
    match FindLast(s, "::", |s|)
    case Nil => s
    case Some(i) => s[i + 2..]
  }

  const CaskIntro := "You can install the necessary cask with:\n  "
  const DownloadIntro := "You can download from:\n  "

  /** The cask-install hint: an introduction, then the command line. */
  function CaskHint(cask: string): string
  {
    CaskIntro + CaskCommand(cask)
  }

  function CaskCommand(cask: string): string
  {
    "brew install --cask " + cask + "\n"
  }

  /** The download hint: an introduction, then the formatted URL on its own line. */
  function DownloadHint(url: string): string
  {
    DownloadIntro + (url + "\n")
  }

  /**
   * `Requirement#message`. `formatUrl` stands for `Formatter.url`, which may
   * decorate the link for the terminal.
   */
  function Message(r: Requirement, formatUrl: string -> string): (m: string)
    ensures StartsWith(m, LastSegment(r.klass.name) + " unsatisfied!\n")
    ensures r.cask.Nil? && r.download.Nil? ==> m == LastSegment(r.klass.name) + " unsatisfied!\n"
    ensures r.cask.Nil? && r.download.Some? ==>
              m == LastSegment(r.klass.name) + " unsatisfied!\n" + DownloadHint(formatUrl(r.download.value))
    ensures r.cask.Some? && r.download.Nil? ==>
              m == LastSegment(r.klass.name) + " unsatisfied!\n" + CaskHint(r.cask.value)
    ensures r.cask.Some? && r.download.Some? ==>
              m == LastSegment(r.klass.name) + " unsatisfied!\n" + CaskHint(r.cask.value)
                   + DownloadHint(formatUrl(r.download.value))
  {
    var head := LastSegment(r.klass.name) + " unsatisfied!\n";
    var caskPart := if r.cask.Some? then CaskHint(r.cask.value) else "";
    var downloadPart := if r.download.Some? then DownloadHint(formatUrl(r.download.value)) else "";
    StartsWithConcat(head + caskPart, downloadPart);
    StartsWithConcat(head, caskPart);
    assert r.cask.Nil? ==> head + caskPart + downloadPart == head + downloadPart;
    assert r.download.Nil? ==> head + caskPart + downloadPart == head + caskPart;
    head + caskPart + downloadPart
  }

  /** The message carries the cask-install command when a cask is set. */
  lemma MessageCaskHint(r: Requirement, formatUrl: string -> string)
    requires r.cask.Some?
    ensures Contains(Message(r, formatUrl), CaskCommand(r.cask.value))
  {
    var head := LastSegment(r.klass.name) + " unsatisfied!\n";
    var downloadPart := if r.download.Some? then DownloadHint(formatUrl(r.download.value)) else "";
    var m := Message(r, formatUrl);
    assert m == head + CaskHint(r.cask.value) + downloadPart;
    ContainsInner(head, CaskIntro, CaskCommand(r.cask.value), downloadPart);
  }

  /** The message carries the formatted download URL, on its own line, when one is set. */
  lemma MessageDownloadHint(r: Requirement, formatUrl: string -> string)
    requires r.download.Some?
    ensures Contains(Message(r, formatUrl), formatUrl(r.download.value) + "\n")
  {
    var head := LastSegment(r.klass.name) + " unsatisfied!\n";
    var caskPart := if r.cask.Some? then CaskHint(r.cask.value) else "";
    var pat := formatUrl(r.download.value) + "\n";
    var m := Message(r, formatUrl);
    assert m == head + caskPart + DownloadHint(formatUrl(r.download.value));
    assert m == (head + caskPart + DownloadIntro) + pat + "";
    ContainsMiddle(head + caskPart + DownloadIntro, pat, "");
  }

  // ---------------------------------------------------------------------------
  // Satisfaction and the build environment

  /** The answer of `satisfied?` and the instance's `@satisfied_result` afterwards. */
  datatype Satisfaction = Satisfaction(satisfied: bool, stored: Nilable<SatisfyResult>)

  /**
   * `Requirement#satisfied?`. Without a satisfier the requirement holds and
   * the memo is untouched; otherwise the satisfier's result is stored and
   * collapsed to its truthiness. The block is re-run on every call.
   */
  function Satisfied(r: Requirement, stored: Nilable<SatisfyResult>, blockResult: SatisfyResult): (s: Satisfaction)
    ensures r.klass.satisfy.Nil? ==> s.satisfied && s.stored == stored
    ensures r.klass.satisfy.Some? ==> s.stored.Some? && (s.satisfied <==> Truthy(s.stored.value))
    ensures r.klass.satisfy.Some? && r.klass.satisfy.value.Fixed? ==> s.stored == Some(r.klass.satisfy.value.value)
    ensures r.klass.satisfy.Some? && r.klass.satisfy.value.Deferred? ==> s.stored == Some(blockResult)
  {
    match r.klass.satisfy
    case Nil => Satisfaction(true, stored)
    case Some(satisfier) =>
      var v := Yield(satisfier, blockResult).value;
      Satisfaction(Truthy(v), Some(v))
  }

  /** `fatal?`: true only when the class sets `fatal true`. */
  function Fatal(r: Requirement): (b: bool)
    ensures b <==> r.klass.fatal == Some(true)
  {
    r.klass.fatal.GetOr(false)
  }

  /** A character of `[\w+-.@]`; `+-.` is a range, so `,` is accepted too. */
  predicate KegNameChar(c: char)
  {
    WordChar(c) || c == '+' || c == ',' || c == '-' || c == '.' || c == '@'
  }

  /** `<name>/<version>/(s)bin`, optionally with a trailing `/`, as split on `/`. */
  predicate KegBinSegments(segs: seq<string>)
  {
    && (|segs| == 3 || (|segs| == 4 && segs[3] == ""))
    && |segs[0]| > 0 && (forall i :: 0 <= i < |segs[0]| ==> KegNameChar(segs[0][i]))
    && |segs[1]| > 0
    && (segs[2] == "bin" || segs[2] == "sbin")
  }

  /** A Cellar `bin`/`sbin` directory rewritten to the keg's stable `opt` path; anything else unchanged. */
  function OptPath(parent: string, cellar: string, prefix: string): (r: string)
    ensures !StartsWith(parent, cellar + "/") ==> r == parent
  {
    if StartsWith(parent, cellar + "/") then
      var segs := Fields(parent[|cellar| + 1..], '/');
      if KegBinSegments(segs) then prefix + "/opt/" + segs[0] + "/" + segs[2] else parent
    else parent
  }

  /** A Cellar-relative path whose `/`-fields form a keg `bin` directory is rewritten to its `opt` path. */
  lemma OptPathOfFields(cellar: string, prefix: string, rel: string)
    requires KegBinSegments(Fields(rel, '/'))
    ensures OptPath(cellar + "/" + rel, cellar, prefix)
            == prefix + "/opt/" + Fields(rel, '/')[0] + "/" + Fields(rel, '/')[2]
  {
    var parent := cellar + "/" + rel;
    assert parent[..|cellar| + 1] == cellar + "/";
    assert parent[|cellar| + 1..] == rel;
  }

  /** The `/`-fields of a keg `bin` directory path below the Cellar. */
  function KegFields(name: string, version: string, bin: string, trailing: bool): seq<string>
  {
    if trailing then [name, version, bin, ""] else [name, version, bin]
  }

  /** Joining a keg directory's fields with `/` spells out its path below the Cellar. */
  lemma KegJoin(cellar: string, name: string, version: string, bin: string, trailing: bool)
    ensures cellar + "/" + Join(KegFields(name, version, bin, trailing), '/')
            == cellar + "/" + name + "/" + version + "/" + bin + (if trailing then "/" else "")
  {
    var t := KegFields(name, version, bin, trailing);
    if trailing {
      assert t[1..][1..][1..] == [""];
      assert Join(t[1..][1..], '/') == bin + "/" + "";
      assert Join(t[1..], '/') == version + "/" + (bin + "/" + "");
      assert Join(t, '/') == name + "/" + (version + "/" + (bin + "/" + ""));
    } else {
      assert t[1..][1..] == [bin];
      assert Join(t[1..], '/') == version + "/" + bin;
      assert Join(t, '/') == name + "/" + (version + "/" + bin);
    }
  }

  /** `<CELLAR>/<name>/<version>/(s)bin[/]` becomes `<PREFIX>/opt/<name>/(s)bin`. */
  lemma OptPathOfKeg(cellar: string, prefix: string, name: string, version: string, bin: string, trailing: bool)
    requires |name| > 0 && (forall i :: 0 <= i < |name| ==> KegNameChar(name[i]))
    requires |version| > 0 && '/' !in version
    requires bin == "bin" || bin == "sbin"
    ensures OptPath(cellar + "/" + name + "/" + version + "/" + bin + (if trailing then "/" else ""), cellar, prefix)
            == prefix + "/opt/" + name + "/" + bin
  {
    assert '/' !in name by {
      forall i | 0 <= i < |name| ensures name[i] != '/' {
        assert KegNameChar(name[i]);
      }
    }
    var tail := KegFields(name, version, bin, trailing);
    FieldsJoin(tail, '/');
    OptPathOfFields(cellar, prefix, Join(tail, '/'));
    KegJoin(cellar, name, version, bin, trailing);
  }

  /**
   * `satisfied_result_parent`: for a path result, the directory holding the
   * resolved path with the Cellar layout rewritten. `resolvedParent` stands
   * for `resolved_path.parent`, which consults the file system.
   */
  function SatisfiedResultParent(stored: Nilable<SatisfyResult>, resolvedParent: string -> string, cellar: string, prefix: string): (p: Nilable<string>)
    ensures p.Some? <==> stored.Some? && stored.value.PathResult?
    ensures p.Some? ==> p.value == OptPath(resolvedParent(stored.value.path), cellar, prefix)
  {
    if stored.Some? && stored.value.PathResult? then Some(OptPath(resolvedParent(stored.value.path), cellar, prefix))
    else Nil
  }

  /**
   * The PATH step of `modify_build_environment`: the parent is prepended
   * unless it is `<PREFIX>/bin` or already a PATH entry. `path` is PATH split
   * into its entries.
   */
  function PrependParent(path: seq<string>, parent: Nilable<string>, prefix: string): (r: seq<string>)
    ensures parent.Nil? ==> r == path
    ensures parent.Some? && parent.value != prefix + "/bin" ==> parent.value in r
    ensures parent == Some(prefix + "/bin") ==> r == path
    ensures r == path || (parent.Some? && parent.value !in path && r == [parent.value] + path)
  {
    if parent.Nil? then path
    else if parent.value == prefix + "/bin" then path
    else if parent.value in path then path
    else [parent.value] + path
  }

  /** Applying the PATH step twice is applying it once. */
  lemma PrependParentIdempotent(path: seq<string>, parent: Nilable<string>, prefix: string)
    ensures PrependParent(PrependParent(path, parent, prefix), parent, prefix) == PrependParent(path, parent, prefix)
  {
  }

  /**
   * `modify_build_environment`: re-evaluate `satisfied?`, then make the
   * satisfying path's directory reachable on PATH. The `env` block is
   * outside the model.
   */
  function ModifyBuildEnvironment(r: Requirement, stored: Nilable<SatisfyResult>, blockResult: SatisfyResult,
                                  resolvedParent: string -> string, cellar: string, prefix: string,
                                  path: seq<string>): (out: (Satisfaction, seq<string>))
    ensures out.0 == Satisfied(r, stored, blockResult)
    ensures var parent := SatisfiedResultParent(out.0.stored, resolvedParent, cellar, prefix);
            && (parent.Nil? ==> out.1 == path)
            && (parent == Some(prefix + "/bin") ==> out.1 == path)
            && (parent.Some? && parent.value != prefix + "/bin" ==> parent.value in out.1)
            && (out.1 == path || (parent.Some? && parent.value !in path && out.1 == [parent.value] + path))
  {
    var s := Satisfied(r, stored, blockResult);
    (s, PrependParent(path, SatisfiedResultParent(s.stored, resolvedParent, cellar, prefix), prefix))
  }

  /** Calling `modify_build_environment` again with the same block result adds nothing more to PATH. */
  lemma ModifyBuildEnvironmentTwice(r: Requirement, stored: Nilable<SatisfyResult>, blockResult: SatisfyResult,
                                    resolvedParent: string -> string, cellar: string, prefix: string,
                                    path: seq<string>)
    ensures var first := ModifyBuildEnvironment(r, stored, blockResult, resolvedParent, cellar, prefix, path);
            var second := ModifyBuildEnvironment(r, first.0.stored, blockResult, resolvedParent, cellar, prefix, first.1);
            second.0 == first.0 && second.1 == first.1
  {
    var first := ModifyBuildEnvironment(r, stored, blockResult, resolvedParent, cellar, prefix, path);
    var parent := SatisfiedResultParent(first.0.stored, resolvedParent, cellar, prefix);
    PrependParentIdempotent(path, parent, prefix);
  }

  // ---------------------------------------------------------------------------
  // Equality

  /** `Requirement#==` and `eql?`: same class, same name, same tags. */
  predicate Same(a: Requirement, b: Requirement)
  {
    a.klass == b.klass && a.name == b.name && a.tags == b.tags
  }

  /** `Requirement#hash`, combining a hash of the name with a hash of the tags. */
  function Hash(r: Requirement, hash: (string, seq<Tag>) -> int): (h: int)
    ensures forall s: Requirement :: Same(r, s) ==> h == hash(s.name, s.tags)
  {
    hash(r.name, r.tags)
  }

  /**
   * Two requirements made by `new` are equal exactly when they come from the
   * same class with the same tags; the rank plays no part.
   */
  lemma SameOfNew(k1: RequirementClass, t1: seq<Tag>, x: int, k2: RequirementClass, t2: seq<Tag>, y: int)
    ensures Same(New(k1, t1, x), New(k2, t2, y)) <==> k1 == k2 && t1 == t2
  {
    var a, b := New(k1, t1, x), New(k2, t2, y);
    if Same(a, b) {
      assert |t1| == |t2|;
      assert t1 == a.tags[..|t1|] == b.tags[..|t2|] == t2;
    }
  }

  /** Equality is an equivalence, and equal requirements hash alike. */
  lemma SameIsEquivalence(a: Requirement, b: Requirement, c: Requirement, hash: (string, seq<Tag>) -> int)
    ensures Same(a, a)
    ensures Same(a, b) ==> Same(b, a) && Hash(a, hash) == Hash(b, hash)
    ensures Same(a, b) && Same(b, c) ==> Same(a, c)
  {
  }
}
