# Homebrew dependency and requirement bookkeeping, in Dafny

This project models the part of Homebrew that decides which dependencies
and requirements a formula or cask has, and proves properties of that model.
It covers:

- the tag taxonomy shared by dependencies and requirements (`Dependable`);
- build options (`Option`, `DeprecatedOption`, `Options`);
- the `Dependencies` views and the `Requirements` collection, where a
  comparable requirement displaces or is rejected by members of its class;
- `Requirement`:
  - construction and name inference;
  - the unsatisfied message;
  - the satisfier and `satisfied?`;
  - the PATH fix-up of `modify_build_environment`;
  - equality;
  - `Requirement.expand` with its cache;
- the cask adapter `CaskDependent`;
- the string and set logic of Linux keg relocation;
- the end-of-run `Messages` accumulator;
- `CxxStdlib`.

Everything is a pure function over immutable values. Ruby mutation (`<<`,
`delete`, `dup`) becomes a function returning the new value. Ruby `nil` is
`Nilable`. A raised exception is the `Err` case of `Result`. Ruby symbols are
their names as strings.

Foreign code and the environment are parameters:
- `BuildOptions#with?` / `without?`;
- the dependency walk that `Dependency.expand` performs;
- `ArchRequirement.new`;
- `Formatter.url`;
- `Pathname#resolved_path`;
- `File.readable?`;
- ELF inspection and `stat`;
- the result of a satisfier block;
- the `HOMEBREW_PATCHELF_RB_WRITE` switch.

Modules, one per source file, plus helpers:

| file | module | models |
|---|---|---|
| wrappers.dfy | `Wrappers` | `nil`-or-value and value-or-raise |
| seqs.dfy | `Seqs` | `Array#include?`, `select`/`reject` |
| strings.dfy | `Strings` | `start_with?`, `include?`, `sub`, `split`, `join`, `downcase`, `blank?` |
| options.dfy | `Options` | Library/Homebrew/options.rb |
| dependable.dfy | `Dependable` | Library/Homebrew/dependable.rb |
| requirement.dfy | `Requirement` | Library/Homebrew/requirement.rb (instances) |
| dependencies.dfy | `Dependencies` | Library/Homebrew/dependencies.rb |
| requirement_expand.dfy | `Resolution` | `Requirement.expand`, `prune?`, `cache_id` of Library/Homebrew/requirement.rb |
| cask_dependent.dfy | `CaskDependent` | Library/Homebrew/cask_dependent.rb |
| keg_relocate.dfy | `KegRelocate` | Library/Homebrew/extend/os/linux/keg_relocate.rb |
| messages.dfy | `Messages` | Library/Homebrew/messages.rb |
| cxxstdlib.dfy | `CxxStdlib` | Library/Homebrew/cxxstdlib.rb |

`expand` is a separate module from the rest of requirement.rb. It needs the
`Requirements` collection, and dependencies.rb needs `Requirement`.

## Model

| member | source | states |
|---|---|---|
| Options.Option.Flag | Library/Homebrew/options.rb:14-23 | The flag is `--` followed by the option's name, so the name can be read back from it. |
| Options.Compare | Library/Homebrew/options.rb:25-30 | `<=>` is nil exactly when the other object is not an option. Otherwise it is -1, 0 or 1, and 0 exactly when the names are equal. |
| Options.CompareAntisymmetric | Library/Homebrew/options.rb:25-30 | Comparing two options one way is the negation of comparing them the other way. |
| Options.Equals | Library/Homebrew/options.rb:32-36 | An option equals another object exactly when that object is an option with the same flag, and so the same name. |
| Options.Hash | Library/Homebrew/options.rb:38-41 | Every option equal to this one hashes to the same value, the hash of its name. |
| Options.EqualOptionsHashAlike | Library/Homebrew/options.rb:32-41 | Option equality is symmetric and ignores the description. Equal options hash alike. |
| Options.DeprecatedOption.OldFlag | Library/Homebrew/options.rb:64-67 | The old flag is `--` followed by the old name, which can be read back from it. |
| Options.DeprecatedOption.CurrentFlag | Library/Homebrew/options.rb:69-72 | The current flag is `--` followed by the current name, which can be read back from it. |
| Options.DeprecatedFlagsIdentify | Library/Homebrew/options.rb:64-78 | Two deprecated options have the same old and current flags exactly when they are equal (both names equal). |
| Options.OptionName | Library/Homebrew/options.rb:92-95 | When a string starts like a flag, the derived name is the text after `--`. It is non-empty and has no `=` except possibly a final one. |
| Options.OptionNameOfFlag | Library/Homebrew/options.rb:92-95 | `create` turns the flag of a well-formed name (`foo` or `foo=`) back into that name. |
| Options.OptionNameStripsValue | Library/Homebrew/options.rb:92-95 | `--foo=bar` gives the name `foo=`: the value is dropped and the `=` kept. |
| Options.OptionNameKeepsPlain | Library/Homebrew/options.rb:92-95 | A single-line string that does not start with `--` and a non-`=` character is kept unchanged as the name. |
| Options.Create | Library/Homebrew/options.rb:92-100 | The collection has unique names. A name is present iff some input string derives it. Every description is empty. |
| Options.FromSeq | Library/Homebrew/options.rb:97-100 | A collection built from any options has unique names, holds exactly their names, and holds nothing else. |
| Options.AddAllFresh | Library/Homebrew/options.rb:97-100 | Options whose names are all new are appended in order. |
| Options.ReceiverFirst | Library/Homebrew/options.rb:113-131 | The set built from a receiver followed by more options keeps the receiver as its prefix. Its names are the union. |
| Options.Push | Library/Homebrew/options.rb:107-111 | `<<` keeps names unique and adds the option's name. The existing members stay first, in order. |
| Options.Plus | Library/Homebrew/options.rb:113-116 | `+` keeps names unique. Its names are the union, and the receiver's members come first. |
| Options.Union | Library/Homebrew/options.rb:128-131 | `|` keeps names unique, and its names are the union. |
| Options.Minus | Library/Homebrew/options.rb:118-121 | `-` has exactly the receiver's names that `other` lacks, taken from the receiver's members. |
| Options.Intersect | Library/Homebrew/options.rb:123-126 | `&` has exactly the names in both. Its members are taken from `other`, because `Set#&` walks an argument that is not a `Set`. |
| Options.IsEmpty | Library/Homebrew/options.rb:147-150 | `empty?` holds iff no name is present. |
| Options.AsFlags | Library/Homebrew/options.rb:152-155 | `as_flags` has one entry per member, in order, and each is `--` plus that member's name. |
| Options.EqualPairwise | Library/Homebrew/options.rb:141-145 | Two collections are equal exactly when they have the same length and their members are pairwise equal options, as comparing `to_a` does. |
| Options.IncludeInMatches | Library/Homebrew/options.rb:157-160 | The name-based reading of `include?` holds exactly when some member equals the object or is named or flagged by it, as the `any?` scan tests. |
| Options.Include | Library/Homebrew/options.rb:157-160 | `include?` holds exactly when some member equals the object, has it as its name, or has it as its flag. |
| Options.IncludeIn | Library/Homebrew/options.rb:157-160 | `include?` holds iff some member has the option's name (for an option), or has the string as its name or its flag (for a string). It is never true for any other object. |
| Options.CreateFromFlags | Library/Homebrew/options.rb:152-155 | Creating options from the flags of a collection with unique, well-formed names gives an equal collection. |
| Dependable.ReservedTagsAreReserved | Library/Homebrew/dependable.rb:15-17 | The reserved tags are exactly the six fixed symbols. Free-form and hash tags are never reserved. |
| Dependable.IsBuild | Library/Homebrew/dependable.rb:25-28 | `build?` holds iff `:build` is among the tags. |
| Dependable.IsOptional | Library/Homebrew/dependable.rb:30-33 | `optional?` holds iff `:optional` is among the tags. |
| Dependable.IsRecommended | Library/Homebrew/dependable.rb:35-38 | `recommended?` holds iff `:recommended` is among the tags. |
| Dependable.IsTest | Library/Homebrew/dependable.rb:40-43 | `test?` holds iff `:test` is among the tags. |
| Dependable.IsRequired | Library/Homebrew/dependable.rb:45-48 | `required?` holds iff no tag is build, test, optional or recommended. |
| Dependable.SinglePrecedenceRole | Library/Homebrew/dependable.rb:25-48 | An edge carrying one kind of precedence tag has exactly that role and is not required. |
| Dependable.OptionTags | Library/Homebrew/dependable.rb:50-53 | `option_tags` holds exactly the tags that are not reserved. |
| Dependable.OptionTagsOrder | Library/Homebrew/dependable.rb:50-53 | Removing the reserved tags distributes over concatenation, so order is kept, and is idempotent. |
| Dependable.HasHints | Library/Homebrew/dependable.rb:55-58 | Holds iff some tag is a hash. |
| Dependable.HintsKept | Library/Homebrew/dependable.rb:50-58 | `option_tags` keeps every hash tag, because hash tags are never reserved. |
| Dependable.TagOptions | Library/Homebrew/dependable.rb:55-58 | `options` raises iff some tag is a hash. Otherwise it is `Options.create` of the option tags. |
| Dependable.PruneFromOption | Library/Homebrew/dependable.rb:60-65 | An edge that is neither optional nor recommended is never pruned. Any other edge is pruned iff the build goes without it. |
| Dependable.PruneIfBuildAndNotDependent | Library/Homebrew/dependable.rb:67-73 | A non-build edge is never pruned. With no formula the result is whether the dependent is installed. Otherwise it is whether the formula is not the dependent. |
| Requirement.NewSatisfier | Library/Homebrew/requirement.rb:246-257 | A hash gives a deferred satisfier whose `build_env` is true unless the hash sets it false. Any other value is stored as the fixed result. |
| Requirement.SatisfyDsl | Library/Homebrew/requirement.rb:224-231 | With neither options nor a block, `satisfy` reads the current satisfier. A block alone installs a deferred one with `build_env` true. Options install the satisfier they describe. |
| Requirement.Yield | Library/Homebrew/requirement.rb:268-281 | A fixed satisfier returns its value and runs no block. A deferred one returns the block's result, inside a build environment iff `build_env` is set. |
| Requirement.FirstHint | Library/Homebrew/requirement.rb:33-38 | The value found is that of the first hash tag carrying the key, and no earlier tag carries it. Nil means no tag carries it. |
| Requirement.New | Library/Homebrew/requirement.rb:29-47 | `cask`/`download` come from the class when set there, else from the first hash tag carrying them. The given tags are kept as a prefix, and `:build` is appended iff the class is build-only. `build?` holds iff the class is build-only or `:build` was given. |
| Requirement.StripNamespacesSuffix | Library/Homebrew/requirement.rb:188 | What remains after stripping the namespaces is a suffix of the class name. |
| Requirement.StripNamespacesStep | Library/Homebrew/requirement.rb:188 | One leading `Mod::` segment is stripped and the rest is stripped in turn. |
| Requirement.StripKindSuffixOf | Library/Homebrew/requirement.rb:187 | Appending `Requirement` or `Dependency` to a name and stripping the suffix gives the name back. |
| Requirement.StripKindSuffix | Library/Homebrew/requirement.rb:187 | A trailing `Dependency` or `Requirement` is removed. Any other name is unchanged. |
| Requirement.InferName | Library/Homebrew/requirement.rb:184-194 | If the bare class name is not blank, the name is that, downcased. Otherwise it is the cask when present, else empty. |
| Requirement.StripQualified | Library/Homebrew/requirement.rb:188 | Any number of leading `Mod::` segments is removed, leaving the base name. |
| Requirement.InferNameOfQualifiedClass | Library/Homebrew/requirement.rb:184-189 | The class `A::B::FooRequirement` (or `…Dependency`) gets the name `foo`. |
| Requirement.BaseClassNameIsCask | Library/Homebrew/requirement.rb:184-194 | A plain `Requirement` takes its name from the cask it carries. |
| Requirement.OptionNames | Library/Homebrew/requirement.rb:49-52 | `option_names` is the one-element list of the name. |
| Requirement.LastSegment | Library/Homebrew/requirement.rb:57 | The class name's last `::` segment is a suffix of it. It is the whole name when there is no `::`. |
| Requirement.Message | Library/Homebrew/requirement.rb:54-73 | The message is the line `<Class> unsatisfied!`, then the cask hint exactly when a cask is set, then the download hint with the formatted URL exactly when a download is set. |
| Requirement.MessageCaskHint | Library/Homebrew/requirement.rb:59-64 | With a cask, the message contains the `brew install --cask <cask>` line. |
| Requirement.MessageDownloadHint | Library/Homebrew/requirement.rb:66-71 | With a download, the message contains the formatted URL on its own line. |
| Requirement.Satisfied | Library/Homebrew/requirement.rb:75-96 | Without a satisfier the requirement holds and the stored result is untouched. Otherwise the satisfier's result is stored, and the answer is that result's truthiness. |
| Requirement.Fatal | Library/Homebrew/requirement.rb:98-103 | `fatal?` holds iff the class sets `fatal true`. |
| Requirement.OptPath | Library/Homebrew/requirement.rb:110-112 | A path outside the Cellar is unchanged. |
| Requirement.OptPathOfFields | Library/Homebrew/requirement.rb:110-112 | A Cellar path whose `/`-fields form `<name>/<version>/(s)bin[/]` becomes `<PREFIX>/opt/<name>/(s)bin`. |
| Requirement.OptPathOfKeg | Library/Homebrew/requirement.rb:110-112 | The path `<CELLAR>/<name>/<version>/(s)bin`, with or without a trailing `/`, becomes `<PREFIX>/opt/<name>/(s)bin` for every valid name and version. |
| Requirement.SatisfiedResultParent | Library/Homebrew/requirement.rb:105-114 | There is a parent iff the stored result is a path. It is that path's resolved parent, rewritten to its `opt` path. |
| Requirement.PrependParent | Library/Homebrew/requirement.rb:135-140 | PATH is unchanged without a parent or when the parent is `<PREFIX>/bin`. Any other parent ends up in PATH, and PATH changes only by putting an absent parent first. |
| Requirement.PrependParentIdempotent | Library/Homebrew/requirement.rb:135-140 | Doing the PATH step twice is doing it once. |
| Requirement.ModifyBuildEnvironment | Library/Homebrew/requirement.rb:116-141 | `satisfied?` is re-evaluated first. PATH stays as it was without a satisfying path or when its directory is `<PREFIX>/bin`. Otherwise the directory is on PATH afterwards, and PATH changes only by putting it first when it was absent. |
| Requirement.ModifyBuildEnvironmentTwice | Library/Homebrew/requirement.rb:116-141 | A second call with the same block result changes neither the stored result nor PATH. |
| Requirement.SameOfNew | Library/Homebrew/requirement.rb:152-156 | Two requirements made by `new` are equal exactly when they come from the same class with the same tags. The rank plays no part. |
| Requirement.Hash | Library/Homebrew/requirement.rb:158-161 | Every requirement equal to this one hashes to the same value, computed from its name and tags. |
| Requirement.SameIsEquivalence | Library/Homebrew/requirement.rb:152-161 | Requirement equality (same class, name and tags) is an equivalence, and equal requirements hash alike. |
| Dependencies.OptionalDeps | Library/Homebrew/dependencies.rb:23-26 | `optional` holds exactly the edges tagged `:optional`. |
| Dependencies.RecommendedDeps | Library/Homebrew/dependencies.rb:28-31 | `recommended` holds exactly the edges tagged `:recommended`. |
| Dependencies.BuildDeps | Library/Homebrew/dependencies.rb:33-36 | `build` holds exactly the edges tagged `:build`. |
| Dependencies.RequiredDeps | Library/Homebrew/dependencies.rb:38-41 | `required` holds exactly the edges with no precedence tag. |
| Dependencies.DefaultDeps | Library/Homebrew/dependencies.rb:43-46 | `default` holds exactly the build, required and recommended edges. It is `build`, then `required`, then `recommended`, each in its own order. |
| Dependencies.ViewsConcat | Library/Homebrew/dependencies.rb:23-41 | Each view of a concatenation is the concatenation of the views, so the views keep order. |
| Dependencies.OptionalOnlyNotDefault | Library/Homebrew/dependencies.rb:43-46 | An edge that is optional, not build and not recommended is never in `default`. |
| Dependencies.ViewsOfOne | Library/Homebrew/dependencies.rb:23-46 | A single non-test edge with one precedence role lands in exactly one of the four views. |
| Dependencies.ViewsPartition | Library/Homebrew/dependencies.rb:23-46 | Without test edges and multi-role edges, `optional` and `default` together list every edge exactly once. |
| Dependencies.ValidCons | Library/Homebrew/dependencies.rb:57-76 | A collection with a member added in front satisfies both invariants iff the rest does and the new member is compatible with every other member. |
| Dependencies.SetAdd | Library/Homebrew/dependencies.rb:74 | Set insertion makes the requirement present, drops nothing and adds nothing else. It appends only when no equal member exists, so it never creates duplicates. |
| Dependencies.HasSameGrows | Library/Homebrew/dependencies.rb:60-63 | A collection that keeps every member of another holds an equal member wherever the other does. |
| Dependencies.FromSeq | Library/Homebrew/dependencies.rb:60-63 | `Requirements.new` has no duplicates, holds a member equal to every argument, and holds nothing else. |
| Dependencies.DropClassMembers | Library/Homebrew/dependencies.rb:67-71 | Deleting the members of a class keeps exactly the members of other classes. |
| Dependencies.FirstOutranking | Library/Homebrew/dependencies.rb:67-71 | The walk stops at the first same-class member that ranks strictly higher. No earlier member does, and such a member exists iff the requirement is outranked. |
| Dependencies.Sweep | Library/Homebrew/dependencies.rb:66-71 | The class walk reports whether it was stopped by a greater member. Every same-class member before that point is deleted and the rest is untouched. |
| Dependencies.SweepMembers | Library/Homebrew/dependencies.rb:66-71 | The walk deletes only members of the inserted requirement's class. |
| Dependencies.Insert | Library/Homebrew/dependencies.rb:65-75 | Members of other classes are kept, and nothing but the new requirement appears. A non-comparable requirement is plain set insertion. A comparable one no member outranks replaces its whole class and goes last. An outranked one is not added. |
| Dependencies.InsertIdempotent | Library/Homebrew/dependencies.rb:65-75 | Inserting a non-comparable requirement twice is inserting it once. |
| Dependencies.InsertOutranked | Library/Homebrew/dependencies.rb:67-69 | With at most one member per comparable class, a requirement outranked by that member leaves the collection unchanged. |
| Dependencies.InsertDisplaces | Library/Homebrew/dependencies.rb:67-74 | A comparable requirement no member outranks ends up present as the only member of its class, so on equal rank the incoming one wins. |
| Dependencies.InsertPreservesInvariants | Library/Homebrew/dependencies.rb:65-75 | Insertion keeps "no two equal members" and "at most one member per comparable class". |
| Dependencies.InsertIntoAbsentClass | Library/Homebrew/dependencies.rb:65-75 | A comparable requirement whose class is absent is appended. |
| Dependencies.DropClassSnocSame | Library/Homebrew/dependencies.rb:67-71 | Deleting a class from a collection that lacked it until one member was appended leaves the original collection. |
| Dependencies.InsertLesserFirst | Library/Homebrew/dependencies.rb:65-75 | When the lesser of two same-class comparable requirements is inserted first, the greater displaces it. |
| Dependencies.InsertGreaterFirst | Library/Homebrew/dependencies.rb:65-75 | When the greater of two same-class comparable requirements is inserted first, the lesser is rejected. |
| Dependencies.InsertOrderIndependent | Library/Homebrew/dependencies.rb:65-75 | Two same-class comparable requirements leave only the greater, whichever is inserted first. |
| Resolution.Prune | Library/Homebrew/requirement.rb:323-348 | With a block, a requirement is pruned iff the block calls `prune`. Without one, a non-optional, non-recommended requirement is never pruned, and the others are pruned iff the build does not ask for them. |
| Resolution.PruneIsPruneFromOption | Library/Homebrew/requirement.rb:332-348 | Pruning without a block is the requirement's own `prune_from_option?` against the dependent's build. |
| Resolution.GatherConcat | Library/Homebrew/requirement.rb:307-317 | Gathering over a concatenation of dependents gathers over the first part, then over the second. |
| Resolution.GatherValid | Library/Homebrew/requirement.rb:306-317 | Gathering from a valid collection keeps both collection invariants. |
| Resolution.GatherMembers | Library/Homebrew/requirement.rb:306-317 | Every gathered member was already present or is an unpruned requirement of some visited dependent. |
| Resolution.GatherKeeps | Library/Homebrew/requirement.rb:306-317 | Every unpruned requirement of a non-comparable class, from any visited dependent, is present afterwards. |
| Resolution.CacheId | Library/Homebrew/requirement.rb:352-354 | The cache id is exactly the dependent's full name, then `_`, then its class name: it starts and ends with these, and its length is their sum. |
| Resolution.Expand | Library/Homebrew/requirement.rb:300-321 | Without a present key the cache is unchanged and the result is gathered from the dependent, then its dependencies. With a present key a stored result is returned as is. Otherwise the result is gathered and stored under the key and the dependent's id. No other cache entry changes, and no other key appears. |
| Resolution.ExpandTwice | Library/Homebrew/requirement.rb:300-304 | A second expansion with the same present key returns the first result and leaves the cache alone, whatever dependencies or block it is given. |
| Resolution.ExpandValid | Library/Homebrew/requirement.rb:300-321 | Expansion returns a collection satisfying both invariants and keeps a valid cache valid. |
| Resolution.ExpandContents | Library/Homebrew/requirement.rb:306-320 | A freshly computed expansion holds only unpruned requirements of the visited dependents. It holds every such requirement of a non-comparable class. |
| Resolution.ExpandDependentFirst | Library/Homebrew/requirement.rb:308-317 | The dependent's own requirements are inserted before those of its dependencies. |
| CaskDependent.Name | Library/Homebrew/cask_dependent.rb:13-16 | `name` is the cask's token. |
| CaskDependent.FullName | Library/Homebrew/cask_dependent.rb:18-21 | `full_name` is the cask's full name. |
| CaskDependent.AnyVersionInstalled | Library/Homebrew/cask_dependent.rb:78-81 | `any_version_installed?` is the cask's `installed?`. |
| CaskDependent.Deps | Library/Homebrew/cask_dependent.rb:31-37 | There is one untagged dependency per `depends_on formula:` name, in order. |
| CaskDependent.DepsAllRequired | Library/Homebrew/cask_dependent.rb:31-37 | A cask's formula dependencies are all required: none is optional, build or recommended. |
| CaskDependent.ArchSymsShape | Library/Homebrew/cask_dependent.rb:46-49 | Each arch entry asks for one architecture, or two when it wants 64 bits. The last one asked for is the last entry's type. |
| CaskDependent.ArchSymsFrom | Library/Homebrew/cask_dependent.rb:46-49 | Every architecture asked for is `x86_64` or some entry's type. |
| CaskDependent.ArchSymsConcat | Library/Homebrew/cask_dependent.rb:46-49 | The architectures asked for by concatenated entry lists are concatenated in order. |
| CaskDependent.ArchReqs | Library/Homebrew/cask_dependent.rb:46-49 | There is one `ArchRequirement` per architecture asked for, in order. So each entry adds one requirement, plus one more when it wants 64 bits, and the last requirement is for the last entry's type. |
| CaskDependent.ArchReqsFrom | Library/Homebrew/cask_dependent.rb:46-49 | Every arch requirement is the `x86_64` one or the one for some entry's type. |
| CaskDependent.ArchReqsOne | Library/Homebrew/cask_dependent.rb:46-49 | A 64-bit entry contributes `x86_64` immediately before its type. Any other entry contributes only its type. |
| CaskDependent.ArchReqsConcat | Library/Homebrew/cask_dependent.rb:46-49 | The arch requirements of concatenated entry lists are concatenated in order. |
| CaskDependent.CaskRequirement | Library/Homebrew/cask_dependent.rb:50-52 | `Requirement.new([{ cask: ref }])` is a plain requirement with that cask and no download. Its name is the cask token when the token is not blank. |
| CaskDependent.CaskRequirements | Library/Homebrew/cask_dependent.rb:50-52 | There is one plain requirement per cask token, in order. Each is `Requirement.new([{ cask: token }])`. |
| CaskDependent.Requirements | Library/Homebrew/cask_dependent.rb:39-57 | The arch requirements come first. Next come the cask tokens' plain requirements, as `CaskRequirements` gives them: `Requirement.new([{ cask: token }])` for each token, in order. The macOS requirement comes last, iff declared. |
| CaskDependent.AsDependent | Library/Homebrew/cask_dependent.rb:69-76 | For requirement expansion the cask is a dependent with its full name, the class `CaskDependent` and its requirements. |
| CaskDependent.RuntimeDependencies | Library/Homebrew/cask_dependent.rb:23-29 | The runtime dependencies are exactly the recursive ones tagged neither `:build` nor `:test`. |
| CaskDependent.RuntimeDependenciesClean | Library/Homebrew/cask_dependent.rb:23-29 | The runtime view holds no build dependency, and filtering it again changes nothing. |
| CaskDependent.RuntimeDependenciesConcat | Library/Homebrew/cask_dependent.rb:23-29 | The runtime view of a concatenation is the concatenation of the views, so order is kept. |
| CaskDependent.RuntimeDependenciesKeepsRuntime | Library/Homebrew/cask_dependent.rb:23-29 | A list with no build or test tags is its own runtime view. |
| KegRelocate.SubAll | Library/Homebrew/extend/os/linux/keg_relocate.rb:31-32 | Each rpath entry has its first occurrence of the old prefix replaced, one for one. |
| KegRelocate.KeptEntries | Library/Homebrew/extend/os/linux/keg_relocate.rb:30-33 | The kept entries are the substituted old entries that lie under the new prefix or `$ORIGIN`. Each is kept as often as it occurs, nothing else is kept, and the order is kept. |
| KegRelocate.RpathEntries | Library/Homebrew/extend/os/linux/keg_relocate.rb:30-38 | `<new>/lib` is always an entry. Every entry is under the new prefix or `$ORIGIN`. `<new>/lib` is appended iff it was not already kept. |
| KegRelocate.NewRpath | Library/Homebrew/extend/os/linux/keg_relocate.rb:29-39 | The new rpath is nil iff the old one is nil. |
| KegRelocate.NewRpathSplits | Library/Homebrew/extend/os/linux/keg_relocate.rb:30-38 | With a non-empty new prefix free of `:`, splitting the joined rpath on `:` gives back its entries. |
| KegRelocate.NewRpathContents | Library/Homebrew/extend/os/linux/keg_relocate.rb:30-38 | A relocated rpath, read back as `:`-separated entries, contains `<new>/lib` and nothing outside the new prefix or `$ORIGIN`. |
| KegRelocate.NewInterpreter | Library/Homebrew/extend/os/linux/keg_relocate.rb:42-49 | A nil interpreter stays nil. Otherwise it becomes `<new>/lib/ld.so` when that file is readable, else the old one with the prefix substituted. It is unchanged if the old prefix does not occur in it. |
| KegRelocate.Changed | Library/Homebrew/extend/os/linux/keg_relocate.rb:40-50 | A field goes into the update iff its new value differs from the old one and is non-nil, and then it is the new value. |
| KegRelocate.ChangeLinuxRpath | Library/Homebrew/extend/os/linux/keg_relocate.rb:24-53 | There is no patch iff the file is not a dynamic ELF. The rpath and the interpreter are patched iff they change, and then to their new values. |
| KegRelocate.RelocateDynamicLinkage | Library/Homebrew/extend/os/linux/keg_relocate.rb:7-22 | `glibc` and `patchelf` are never patched. Every patch belongs to one of the keg's files and is that file's `change_linux_rpath` patch. |
| KegRelocate.RelocatePatchesDynamic | Library/Homebrew/extend/os/linux/keg_relocate.rb:7-26 | In any other keg there are exactly as many patches as dynamic ELF files. |
| KegRelocate.RelocatePatchesEvery | Library/Homebrew/extend/os/linux/keg_relocate.rb:7-22 | In a keg other than `glibc` and `patchelf`, every dynamic ELF file gets its own `change_linux_rpath` patch. |
| KegRelocate.ElfFiles | Library/Homebrew/extend/os/linux/keg_relocate.rb:70-86 | Only non-symlink, non-directory libraries and executables are kept, and no two share a `(dev, ino)` pair. Every candidate's inode is represented, each file by the first of its hard links. The kept files appear in walk order. |
| KegRelocate.AnyLinks | Library/Homebrew/extend/os/linux/keg_relocate.rb:59-65 | Some considered file links against the library iff one of its library names contains the soname. |
| KegRelocate.AnyLinksSnoc | Library/Homebrew/extend/os/linux/keg_relocate.rb:59-65 | One more file links against a library iff the earlier files do or that file itself does. |
| KegRelocate.DetectStep | Library/Homebrew/extend/os/linux/keg_relocate.rb:59-65 | Looking at one file keeps the list duplicate-free. A library is listed afterwards iff it was before, or the file is considered and links against it. |
| KegRelocate.DetectCxxStdlibs | Library/Homebrew/extend/os/linux/keg_relocate.rb:55-68 | There are no duplicates. `:libcxx` is present iff some considered file links a `libc++.so`, and `:libstdcxx` iff some links a `libstdc++.so`. Non-dynamic files are skipped, and executables too when asked. |
| KegRelocate.RelocationFormulae | Library/Homebrew/extend/os/linux/keg_relocate.rb:88-96 | The result is empty iff the Ruby ELF writer is enabled, and otherwise `patchelf` alone. |
| Messages.Fresh | Library/Homebrew/messages.rb:11-17 | A new accumulator has count 0 and no caveats, install times or exceptions. |
| Messages.RecordCaveats | Library/Homebrew/messages.rb:19-21 | One caveat entry is appended and nothing else changes. |
| Messages.PackageInstalled | Library/Homebrew/messages.rb:23-26 | The count rises by one and one time record is appended. Caveats and exceptions are unchanged. |
| Messages.CatchException | Library/Homebrew/messages.rb:52-57 | One exception is appended, of the same class, with the message `<package>: <message>`. It is shown iff asked, the failed flag is set, and nothing else changes. |
| Messages.DisplayCaveats | Library/Homebrew/messages.rb:33-41 | Nothing is shown iff at most one package was installed or there are no caveats. Otherwise a heading comes first, then every caveat in order. |
| Messages.DisplayInstallTimes | Library/Homebrew/messages.rb:43-50 | Nothing is shown iff there are no install times. Otherwise a heading comes first, then one row per record in order. |
| Messages.DisplayMessages | Library/Homebrew/messages.rb:28-31 | The caveats come first, then the install times only when asked for. |
| Messages.RaiseCaughtExceptions | Library/Homebrew/messages.rb:59-64 | Nothing is raised iff at most one package was installed or nothing was caught. Otherwise the single exception is re-raised, or all of them are raised together when there are several. |
| Messages.RunCounts | Library/Homebrew/messages.rb:19-57 | After any sequence of calls, the count, the time records, the caveats and the exceptions have each grown by the number of matching calls. The failed flag is set iff some exception was caught. |
| Messages.SinglePackageRunIsQuiet | Library/Homebrew/messages.rb:33-61 | A run that installed at most one package neither shows caveats nor raises. |
| Messages.MultiPackageRunRaises | Library/Homebrew/messages.rb:59-64 | A run that installed several packages and caught something raises: the single exception iff exactly one was caught. |
| CxxStdlib.Create | Library/Homebrew/cxxstdlib.rb:10-27 | `create` succeeds iff the type is nil, `libstdcxx` or `libcxx`, and then stores both arguments unchanged. Otherwise it raises "Invalid C++ stdlib type: <type>". |
| CxxStdlib.CxxMatchesDisjoint | Library/Homebrew/cxxstdlib.rb:31 | Two matches of `cxx` at a line end never overlap, so `gsub` rewrites every one of them. |
| CxxStdlib.ReplaceCxx | Library/Homebrew/cxxstdlib.rb:29-32 | The replacement keeps the string's length. |
| CxxStdlib.ReplaceCxxNone | Library/Homebrew/cxxstdlib.rb:29-32 | A string with no `cxx` at a line end is unchanged. |
| CxxStdlib.ReplaceCxxLine | Library/Homebrew/cxxstdlib.rb:29-32 | On a single line, a final `cxx` becomes `c++` and nothing else changes. A line not ending in `cxx` is unchanged. |
| CxxStdlib.TypeString | Library/Homebrew/cxxstdlib.rb:29-32 | A nil type gives the empty string. Any other type gives a string of the same length. |
| CxxStdlib.ReplaceCxxOfType | Library/Homebrew/cxxstdlib.rb:29-32 | A one-line name ending in `cxx` reads with `c++` in its place. |
| CxxStdlib.TypeStringOfValidTypes | Library/Homebrew/cxxstdlib.rb:29-32 | `libstdcxx` reads `libstdc++` and `libcxx` reads `libc++`. |
| CxxStdlib.CreateTypeString | Library/Homebrew/cxxstdlib.rb:10-32 | A value made by `create` reads as nothing, `libstdc++` or `libc++`. |
| CxxStdlib.Inspect | Library/Homebrew/cxxstdlib.rb:34-37 | `inspect` is `#<CxxStdlib: `, the compiler, a space, the type (empty for nil) and `>`. |

## Left out

- Regular-expression anchors:
  - Ruby's `^` and `$` match at every line boundary.
  - `Options.create` is modelled with line anchors.
  - `infer_name` and `satisfied_result_parent` are modelled with string anchors, because class names and paths never contain a newline.
  - `type_string` is modelled with line anchors for `$`.
- `downcase` and `blank?` are ASCII-only. Unicode case mapping and Unicode whitespace are not modelled.
- Subclasses:
  - requirement equality uses `other.is_a?(self.class)` and `Requirements#<<` uses `grep(other.class)`, and both also accept subclasses;
  - the model compares class descriptors exactly, so a subclass instance counts as a different class;
  - `<=>` between comparable requirements is an integer `rank` per instance.
- Options.Intersect: `other` is an Array or an `Options`, never a bare `Set`. For a `Set`, Ruby would walk the smaller operand. The result is computed in `other`'s order, but the contract states only its members and names, not that order.
- `Options#*`, `to_ary`, `inspect` and `dump_for_formula` are left out: they are console formatting.
- `Dependencies#eql?`, the `inspect` methods, `display_s` and `mktemp` are left out: they are not part of the decision logic.
- The environment blocks:
  - `env_proc` and the `env` DSL;
  - running a satisfier block inside `ENV.with_build_environment`;
  - `which` / `which_all`.
  These run foreign code. A satisfier block's result is an input.
- A hash satisfier without a block would fail on `T.must(@proc)`. The model treats it as deferred, with the block's result given.
- Requirement.PrependParent: PATH is given as its list of entries. `PATH.new` and `ENV.prepend_path` (which also drop empty and duplicate entries) are not modelled.
- `modify_build_environment` lists `<PREFIX>/bin` twice in its exclusion list (line 137). The model excludes that one directory, as written.
- `String#sub` with a string pattern still interprets backslash sequences in the replacement. The model substitutes the replacement literally.
- A `Regexp` `old_prefix` in `change_linux_rpath` is not modelled. Only the string form is.
- `bottle_dependencies` is left out: it needs the formula loader, compiler selection and toolchain versions.
- Install times are real numbers. The `%10.3f` formatting of `display_install_times` is not modelled: a row carries the package and the time.
- The global `Homebrew.failed` flag is returned as a boolean by `catch_exception` and by the run replay.
- `MultiplePackageErrors` is the list of caught exceptions.
- Requirement.New: `@tags << :build` appends to the caller's own array in Ruby. The model returns a new list and does not model that aliasing.
- Memoization (`@name`, `@deps`, `@requirements`, `@relocation_formulae`) is modelled by computing the value once: each depends only on fields that never change.
- `ensure_writable`, `patch!`, `patchelf`, `File.readable?`, `stat`, `Pathname#find` and ELF parsing are inputs: booleans, strings, `(dev, ino)` pairs and a list of directory entries in walk order.
- Dependency walks are inputs to the model:
  - `Dependency.expand`;
  - `recursive_dependencies` (for `runtime_dependencies`);
  - the dependents `expand` visits.
- CaskDependent.AsDependent: `recursive_requirements` is `Resolution.Expand` applied to this dependent. `ArchRequirement.new([sym])` is a parameter, because arch_requirement.rb is not part of this model.
- Requirement.Satisfied: the satisfier block is re-run on every call. Only its latest result is kept, and that is what is stored.
