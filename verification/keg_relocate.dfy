/**
 * The string and set logic of Library/Homebrew/extend/os/linux/keg_relocate.rb:
 * which kegs are relocated, how an ELF file's rpath and interpreter are
 * rewritten, which files are considered (hard links once), and which C++
 * standard libraries a keg links against. ELF inspection, `patchelf` and
 * the file system are inputs: an ELF file is described by what it reports.
 */
module KegRelocate {
  import opened Wrappers
  import opened Seqs
  import opened Strings

  /** `relocate_dynamic_linkage` returns at once for these kegs. */
  predicate RelocateSkipped(kegName: string)
  {
    kegName == "glibc" || kegName == "patchelf"
  }

  // ---------------------------------------------------------------------------
  // rpath

  /** Every entry with its first `oldPrefix` replaced by `newPrefix`. */
  function SubAll(xs: seq<string>, oldPrefix: string, newPrefix: string): (r: seq<string>)
    ensures |r| == |xs|
    ensures forall i :: 0 <= i < |xs| ==> r[i] == Sub(xs[i], oldPrefix, newPrefix)
  {
    if |xs| == 0 then [] else [Sub(xs[0], oldPrefix, newPrefix)] + SubAll(xs[1..], oldPrefix, newPrefix)
  }

  /** An rpath entry that survives relocation: under the new prefix or relative to the object. */
  function UnderPrefix(newPrefix: string): string -> bool
  {
    (x: string) => StartsWith(x, newPrefix) || StartsWith(x, "$ORIGIN")
  }

  /** The library directory every relocated rpath carries. */
  function LibPath(newPrefix: string): string
  {
    newPrefix + "/lib"
  }

  /** The old entries, prefix substituted, that lie under the new prefix or `$ORIGIN`, in order. */
  function KeptEntries(oldRpath: string, oldPrefix: string, newPrefix: string): (r: seq<string>)
    ensures forall x :: x in r ==> UnderPrefix(newPrefix)(x)
    ensures forall x :: x in r ==> x in SubAll(Split(oldRpath, ':'), oldPrefix, newPrefix)
    ensures forall x :: x in SubAll(Split(oldRpath, ':'), oldPrefix, newPrefix) && UnderPrefix(newPrefix)(x) ==> x in r
    ensures IsSubsequence(r, SubAll(Split(oldRpath, ':'), oldPrefix, newPrefix))
    ensures forall x :: multiset(r)[x]
                        == if UnderPrefix(newPrefix)(x) then multiset(SubAll(Split(oldRpath, ':'), oldPrefix, newPrefix))[x] else 0
  {
    var subbed := SubAll(Split(oldRpath, ':'), oldPrefix, newPrefix);
    FilterSubsequence(subbed, UnderPrefix(newPrefix));
    FilterCounts(subbed, UnderPrefix(newPrefix));
    Filter(subbed, UnderPrefix(newPrefix))
  }

  lemma LibPathUnderPrefix(newPrefix: string)
    ensures StartsWith(LibPath(newPrefix), newPrefix)
  {
    assert LibPath(newPrefix)[..|newPrefix|] == newPrefix;
  }

  /**
   * The entries of the new rpath: the kept entries, then `<new>/lib` unless
   * it is already among them.
   */
  function RpathEntries(oldRpath: string, oldPrefix: string, newPrefix: string): (r: seq<string>)
    ensures LibPath(newPrefix) in r
    ensures forall x :: x in r ==> StartsWith(x, newPrefix) || StartsWith(x, "$ORIGIN")
    ensures LibPath(newPrefix) in KeptEntries(oldRpath, oldPrefix, newPrefix) ==> r == KeptEntries(oldRpath, oldPrefix, newPrefix)
    ensures LibPath(newPrefix) !in KeptEntries(oldRpath, oldPrefix, newPrefix)
            ==> r == KeptEntries(oldRpath, oldPrefix, newPrefix) + [LibPath(newPrefix)]
  {
    var kept := KeptEntries(oldRpath, oldPrefix, newPrefix);
    LibPathUnderPrefix(newPrefix);
    if Includes(kept, LibPath(newPrefix)) then kept
    else
      var r := kept + [LibPath(newPrefix)];
      assert forall x :: x in r ==> x in kept || x == LibPath(newPrefix);
      r
  }

  /** The new rpath: nil without an old one, else the entries joined with `:`. */
  function NewRpath(oldRpath: Nilable<string>, oldPrefix: string, newPrefix: string): (r: Nilable<string>)
    ensures r.Nil? <==> oldRpath.Nil?
  {
    match oldRpath
    case Nil => Nil
    case Some(o) => Some(Join(RpathEntries(o, oldPrefix, newPrefix), ':'))
  }

  /** A string holding no `c` keeps holding none after a substitution that brings none in. */
  lemma SubKeepsOut(s: string, pat: string, rep: string, c: char)
    requires c !in s && c !in rep
    ensures c !in Sub(s, pat, rep)
  {
    match FindFrom(s, pat, 0)
    case Nil =>
    case Some(i) =>
      assert forall x :: x in s[..i] ==> x in s;
      assert forall x :: x in s[i + |pat|..] ==> x in s;
  }

  /** The pieces of a split never hold the separator. */
  lemma SplitNoSeparator(s: string, sep: char)
    ensures forall i :: 0 <= i < |Split(s, sep)| ==> sep !in Split(s, sep)[i]
  {
    var f := Fields(s, sep);
    var r := Split(s, sep);
    forall i | 0 <= i < |r| ensures sep !in r[i] {
      assert r[i] == f[i];
    }
  }

  /** With a new prefix free of `:`, no substituted entry holds a `:`. */
  lemma SubAllNoColon(rpath: string, oldPrefix: string, newPrefix: string)
    requires ':' !in newPrefix
    ensures forall x :: x in SubAll(Split(rpath, ':'), oldPrefix, newPrefix) ==> ':' !in x
  {
    var xs := Split(rpath, ':');
    SplitNoSeparator(rpath, ':');
    var subbed := SubAll(xs, oldPrefix, newPrefix);
    forall x | x in subbed ensures ':' !in x {
      var i :| 0 <= i < |subbed| && subbed[i] == x;
      SubKeepsOut(xs[i], oldPrefix, newPrefix, ':');
    }
  }

  /** With a non-empty new prefix free of `:`, every entry of the new rpath is non-empty and free of `:`. */
  lemma EntriesClean(rpath: string, oldPrefix: string, newPrefix: string)
    requires |newPrefix| > 0 && ':' !in newPrefix
    ensures forall x :: x in RpathEntries(rpath, oldPrefix, newPrefix) ==> ':' !in x && x != ""
  {
    SubAllNoColon(rpath, oldPrefix, newPrefix);
    var kept := KeptEntries(rpath, oldPrefix, newPrefix);
    var lib := LibPath(newPrefix);
    assert ':' !in lib by {
      assert forall c :: c in lib ==> c in newPrefix || c in "/lib";
    }
    assert forall x :: x in RpathEntries(rpath, oldPrefix, newPrefix) ==> x in kept || x == lib;
  }

  /**
   * With a non-empty new prefix free of `:`, splitting the new rpath on `:`
   * gives back exactly its entries.
   */
  lemma NewRpathSplits(rpath: string, oldPrefix: string, newPrefix: string)
    requires |newPrefix| > 0 && ':' !in newPrefix
    ensures Split(NewRpath(Some(rpath), oldPrefix, newPrefix).value, ':') == RpathEntries(rpath, oldPrefix, newPrefix)
  {
    var r := RpathEntries(rpath, oldPrefix, newPrefix);
    EntriesClean(rpath, oldPrefix, newPrefix);
    assert forall i :: 0 <= i < |r| ==> r[i] in r;
    SplitJoin(r, ':');
  }

  /** A relocated rpath always contains the new library directory and nothing outside the new prefix or `$ORIGIN`. */
  lemma NewRpathContents(rpath: string, oldPrefix: string, newPrefix: string)
    requires |newPrefix| > 0 && ':' !in newPrefix
    ensures var entries := Split(NewRpath(Some(rpath), oldPrefix, newPrefix).value, ':');
            && LibPath(newPrefix) in entries
            && forall x :: x in entries ==> StartsWith(x, newPrefix) || StartsWith(x, "$ORIGIN")
  {
    NewRpathSplits(rpath, oldPrefix, newPrefix);
  }

  // ---------------------------------------------------------------------------
  // Interpreter and patch

  /** The dynamic linker inside the new prefix. */
  function LdSo(newPrefix: string): string
  {
    newPrefix + "/lib/ld.so"
  }

  /**
   * The new interpreter: none stays none; otherwise the prefix's own `ld.so`
   * when it is readable, else the old one with the prefix substituted.
   */
  function NewInterpreter(current: Nilable<string>, oldPrefix: string, newPrefix: string, ldSoReadable: bool): (r: Nilable<string>)
    ensures r.Nil? <==> current.Nil?
    ensures current.Some? && ldSoReadable ==> r.value == LdSo(newPrefix)
    ensures current.Some? && !ldSoReadable ==> r.value == Sub(current.value, oldPrefix, newPrefix)
    ensures current.Some? && !ldSoReadable && !Contains(current.value, oldPrefix) ==> r == current
  {
    match current
    case Nil => Nil
    case Some(o) => if ldSoReadable then Some(LdSo(newPrefix)) else Some(Sub(o, oldPrefix, newPrefix))
  }

  /** What `change_linux_rpath` reports about an ELF file. */
  datatype ElfFile = ElfFile(
    path: string,
    elf: bool,
    dynamicElf: bool,
    binaryExecutable: bool,
    rpath: Nilable<string>,
    interpreter: Nilable<string>,
    dylibs: seq<string>)

  /** The arguments of `patch!`: a field is nil when it is left alone. */
  datatype Patch = Patch(interpreter: Nilable<string>, rpath: Nilable<string>)

  /** A field goes into the update only when its value changes. */
  function Changed(before: Nilable<string>, after: Nilable<string>): (r: Nilable<string>)
    ensures r.Some? <==> before != after && after.Some?
    ensures r.Some? ==> r == after
  {
    if before != after then after else Nil
  }

  /** `change_linux_rpath`: nothing for a file that is not a dynamic ELF, else the patch of the changed fields. */
  function ChangeLinuxRpath(file: ElfFile, oldPrefix: string, newPrefix: string, ldSoReadable: bool): (r: Nilable<Patch>)
    ensures r.Nil? <==> !file.elf || !file.dynamicElf
    ensures r.Some? ==> var newRpath := NewRpath(file.rpath, oldPrefix, newPrefix);
                        (r.value.rpath.Some? <==> file.rpath != newRpath)
                        && (r.value.rpath.Some? ==> r.value.rpath == newRpath)
    ensures r.Some? ==> var newInterp := NewInterpreter(file.interpreter, oldPrefix, newPrefix, ldSoReadable);
                        (r.value.interpreter.Some? <==> file.interpreter != newInterp)
                        && (r.value.interpreter.Some? ==> r.value.interpreter == newInterp)
  {
    if !file.elf || !file.dynamicElf then Nil
    else
      var newRpath := NewRpath(file.rpath, oldPrefix, newPrefix);
      var newInterp := NewInterpreter(file.interpreter, oldPrefix, newPrefix, ldSoReadable);
      Some(Patch(Changed(file.interpreter, newInterp), Changed(file.rpath, newRpath)))
  }

  /** A patched file: its path and the patch `patch!` receives. */
  datatype Patched = Patched(path: string, patch: Patch)

  /**
   * `relocate_dynamic_linkage`: the patches made to the keg's ELF files, in
   * order; none for the skipped kegs.
   */
  function RelocateDynamicLinkage(kegName: string, files: seq<ElfFile>, oldPrefix: string, newPrefix: string,
                                  ldSoReadable: bool): (r: seq<Patched>)
    ensures RelocateSkipped(kegName) ==> r == []
    ensures |r| <= |files|
    ensures forall p :: p in r ==> exists f :: f in files && f.path == p.path
                                    && ChangeLinuxRpath(f, oldPrefix, newPrefix, ldSoReadable) == Some(p.patch)
    decreases |files|
  {
    if RelocateSkipped(kegName) || |files| == 0 then []
    else
      var rest := RelocateDynamicLinkage(kegName, files[1..], oldPrefix, newPrefix, ldSoReadable);
      assert forall f :: f in files[1..] ==> f in files;
      match ChangeLinuxRpath(files[0], oldPrefix, newPrefix, ldSoReadable)
      case Nil => rest
      case Some(p) => [Patched(files[0].path, p)] + rest
  }

  /** Exactly the dynamic ELF files of a relocated keg are patched. */
  lemma {:induction false} RelocatePatchesDynamic(kegName: string, files: seq<ElfFile>, oldPrefix: string, newPrefix: string,
                                                 ldSoReadable: bool)
    requires !RelocateSkipped(kegName)
    ensures |RelocateDynamicLinkage(kegName, files, oldPrefix, newPrefix, ldSoReadable)|
            == |Filter(files, (f: ElfFile) => f.elf && f.dynamicElf)|
    decreases |files|
  {
    if |files| > 0 {
      RelocatePatchesDynamic(kegName, files[1..], oldPrefix, newPrefix, ldSoReadable);
    }
  }

  /** Every dynamic ELF file of a relocated keg gets its own patch. */
  lemma {:induction false} RelocatePatchesEvery(kegName: string, files: seq<ElfFile>, oldPrefix: string, newPrefix: string,
                                               ldSoReadable: bool)
    requires !RelocateSkipped(kegName)
    ensures forall f :: f in files && f.elf && f.dynamicElf ==>
              Patched(f.path, ChangeLinuxRpath(f, oldPrefix, newPrefix, ldSoReadable).value)
                in RelocateDynamicLinkage(kegName, files, oldPrefix, newPrefix, ldSoReadable)
    decreases |files|
  {
    if |files| > 0 {
      RelocatePatchesEvery(kegName, files[1..], oldPrefix, newPrefix, ldSoReadable);
      assert forall f :: f in files ==> f == files[0] || f in files[1..];
    }
  }

  // ---------------------------------------------------------------------------
  // Walking the keg: elf_files

  /** An entry of the keg's directory tree, as `path.find` yields it with its `stat`. */
  datatype Node = Node(path: string, symlink: bool, directory: bool, dylib: bool, binaryExecutable: bool,
                       dev: int, ino: int)

  /** An entry `elf_files` considers: a regular file that is a library or an executable. */
  predicate Candidate(n: Node)
  {
    !n.symlink && !n.directory && (n.dylib || n.binaryExecutable)
  }

  /** The identity of a file on disk; hard links share it. */
  function Inode(n: Node): (int, int)
  {
    (n.dev, n.ino)
  }

  /** `nodes[p]` is a candidate and no earlier candidate shares its inode: the first of its hard links. */
  predicate FirstOfInode(nodes: seq<Node>, p: int)
  {
    0 <= p < |nodes| && Candidate(nodes[p])
    && forall m :: 0 <= m < p && Candidate(nodes[m]) ==> Inode(nodes[m]) != Inode(nodes[p])
  }

  /** `f` is the entry at some position of the walk that is the first of its hard links. */
  predicate FirstLink(nodes: seq<Node>, f: Node)
  {
    exists p :: 0 <= p < |nodes| && FirstOfInode(nodes, p) && nodes[p] == f
  }

  /**
   * What the walk of `elf_files` knows after the first `k` entries: the files
   * kept so far are candidates with distinct inodes, `hardlinks` is the set of
   * their inodes and covers every candidate seen, and `firsts` records, in
   * increasing order, the position at which each kept file is the first of its
   * hard links.
   */
  ghost predicate Walked(nodes: seq<Node>, k: int, hardlinks: set<(int, int)>, files: seq<Node>, firsts: seq<int>)
  {
    && 0 <= k <= |nodes|
    && (forall f :: f in files ==> f in nodes[..k] && Candidate(f))
    && (forall i, j :: 0 <= i < j < |files| ==> Inode(files[i]) != Inode(files[j]))
    && hardlinks == (set f | f in files :: Inode(f))
    && (forall m :: 0 <= m < k && Candidate(nodes[m]) ==> Inode(nodes[m]) in hardlinks)
    && |firsts| == |files|
    && (forall i :: 0 <= i < |files| ==> firsts[i] < k && FirstOfInode(nodes, firsts[i]) && nodes[firsts[i]] == files[i])
    && (forall i, j :: 0 <= i < j < |firsts| ==> firsts[i] < firsts[j])
  }

  /** A candidate whose inode is new is the first of its hard links and is kept. */
  lemma WalkKeeps(nodes: seq<Node>, k: int, hardlinks: set<(int, int)>, files: seq<Node>, firsts: seq<int>)
    requires Walked(nodes, k, hardlinks, files, firsts) && k < |nodes|
    requires Candidate(nodes[k]) && Inode(nodes[k]) !in hardlinks
    ensures Walked(nodes, k + 1, hardlinks + {Inode(nodes[k])}, files + [nodes[k]], firsts + [k])
  {
    var n := nodes[k];
    forall m | 0 <= m < k && Candidate(nodes[m]) ensures Inode(nodes[m]) != Inode(n) {
      assert Inode(nodes[m]) in hardlinks;
    }
    assert FirstOfInode(nodes, k);
    forall i | 0 <= i < |files| ensures Inode(files[i]) != Inode(n) {
      assert files[i] in files;
    }
    assert forall f :: f in nodes[..k] ==> f in nodes[..k + 1];
    assert n in nodes[..k + 1];
  }

  /** Any other entry is skipped. */
  lemma WalkSkips(nodes: seq<Node>, k: int, hardlinks: set<(int, int)>, files: seq<Node>, firsts: seq<int>)
    requires Walked(nodes, k, hardlinks, files, firsts) && k < |nodes|
    requires !(Candidate(nodes[k]) && Inode(nodes[k]) !in hardlinks)
    ensures Walked(nodes, k + 1, hardlinks, files, firsts)
  {
    assert forall f :: f in nodes[..k] ==> f in nodes[..k + 1];
  }

  /** After the whole walk, the kept files are what `elf_files` promises. */
  lemma WalkDone(nodes: seq<Node>, hardlinks: set<(int, int)>, files: seq<Node>, firsts: seq<int>)
    requires Walked(nodes, |nodes|, hardlinks, files, firsts)
    ensures forall f :: f in files ==> f in nodes && Candidate(f)
    ensures forall n :: n in nodes && Candidate(n) ==> exists f :: f in files && Inode(f) == Inode(n)
    ensures forall i :: 0 <= i < |files| ==> FirstLink(nodes, files[i])
    ensures IsSubsequence(files, nodes)
  {
    assert nodes[..|nodes|] == nodes;
    forall n | n in nodes && Candidate(n) ensures exists f :: f in files && Inode(f) == Inode(n) {
      var m :| 0 <= m < |nodes| && nodes[m] == n;
      assert Inode(n) in hardlinks;
    }
    forall i | 0 <= i < |files| ensures FirstLink(nodes, files[i]) {
      var p := firsts[i];
      assert FirstOfInode(nodes, p) && nodes[p] == files[i];
    }
    PickedSubsequence(files, nodes, firsts);
  }

  /**
   * `elf_files`: the candidate entries in walk order, each inode once,
   * the first of its hard links standing for all.
   */
  method ElfFiles(nodes: seq<Node>) returns (files: seq<Node>)
    ensures forall f :: f in files ==> f in nodes && Candidate(f)
    ensures forall i, j :: 0 <= i < j < |files| ==> Inode(files[i]) != Inode(files[j])
    ensures forall n :: n in nodes && Candidate(n) ==> exists f :: f in files && Inode(f) == Inode(n)
    ensures forall i :: 0 <= i < |files| ==> FirstLink(nodes, files[i])
    ensures IsSubsequence(files, nodes)
  {
    var hardlinks: set<(int, int)> := {};
    files := [];
    ghost var firsts: seq<int> := [];
    var k := 0;
    while k < |nodes|
      invariant Walked(nodes, k, hardlinks, files, firsts)
    {
      var n := nodes[k];
      if Candidate(n) && Inode(n) !in hardlinks {
        WalkKeeps(nodes, k, hardlinks, files, firsts);
        hardlinks := hardlinks + {Inode(n)};
        files := files + [n];
        firsts := firsts + [k];
      } else {
        WalkSkips(nodes, k, hardlinks, files, firsts);
      }
      k := k + 1;
    }
    WalkDone(nodes, hardlinks, files, firsts);
  }

  // ---------------------------------------------------------------------------
  // detect_cxx_stdlibs

  datatype Stdlib = LibCxx | LibStdCxx

  /** The sonames whose presence among a file's libraries reveals each library. */
  const LibCxxSoname := "libc++.so"
  const LibStdCxxSoname := "libstdc++.so"

  /** A file `detect_cxx_stdlibs` looks at: dynamic, and not an executable when those are skipped. */
  predicate Considered(f: ElfFile, skipExecutables: bool)
  {
    f.dynamicElf && !(f.binaryExecutable && skipExecutables)
  }

  predicate LinksAgainst(f: ElfFile, soname: string)
  {
    exists s :: s in f.dylibs && Contains(s, soname)
  }

  /** `dylibs.any? { |s| s.include? soname }`. */
  function AnyContains(dylibs: seq<string>, soname: string): (b: bool)
    ensures b <==> exists s :: s in dylibs && Contains(s, soname)
  {
    if |dylibs| == 0 then false
    else Contains(dylibs[0], soname) || AnyContains(dylibs[1..], soname)
  }

  /** Some considered file among `files` links against `soname`. */
  function AnyLinks(files: seq<ElfFile>, skipExecutables: bool, soname: string): (b: bool)
    ensures b <==> exists f :: f in files && Considered(f, skipExecutables) && LinksAgainst(f, soname)
    decreases |files|
  {
    if |files| == 0 then false
    else
      var last := files[|files| - 1];
      var init := files[..|files| - 1];
      assert forall f :: f in files <==> f in init || f == last;
      AnyLinks(init, skipExecutables, soname) || (Considered(last, skipExecutables) && AnyContains(last.dylibs, soname))
  }

  /** Looking at one more file: the prefix `files[..k + 1]` links iff `files[..k]` does or file `k` itself does. */
  lemma AnyLinksSnoc(files: seq<ElfFile>, k: nat, skipExecutables: bool, soname: string)
    requires k < |files|
    ensures AnyLinks(files[..k + 1], skipExecutables, soname)
            == (AnyLinks(files[..k], skipExecutables, soname)
                || (Considered(files[k], skipExecutables) && AnyContains(files[k].dylibs, soname)))
  {
    assert files[..k + 1][..k] == files[..k];
  }

  /** No library is listed twice. */
  predicate Distinct(results: seq<Stdlib>)
  {
    forall i, j :: 0 <= i < j < |results| ==> results[i] != results[j]
  }

  /** What looking at one file adds: each library it reveals, unless already listed. */
  function DetectStep(results: seq<Stdlib>, f: ElfFile, skipExecutables: bool): (r: seq<Stdlib>)
    requires Distinct(results)
    ensures Distinct(r)
    ensures LibCxx in r <==> LibCxx in results || (Considered(f, skipExecutables) && AnyContains(f.dylibs, LibCxxSoname))
    ensures LibStdCxx in r <==> LibStdCxx in results || (Considered(f, skipExecutables) && AnyContains(f.dylibs, LibStdCxxSoname))
  {
    if !Considered(f, skipExecutables) then results
    else
      var withCxx := if AnyContains(f.dylibs, LibCxxSoname) && LibCxx !in results then results + [LibCxx] else results;
      if AnyContains(f.dylibs, LibStdCxxSoname) && LibStdCxx !in withCxx then withCxx + [LibStdCxx] else withCxx
  }

  /**
   * `detect_cxx_stdlibs`: each library at most once, present exactly when
   * some considered file links against it.
   */
  method DetectCxxStdlibs(files: seq<ElfFile>, skipExecutables: bool) returns (results: seq<Stdlib>)
    ensures forall i, j :: 0 <= i < j < |results| ==> results[i] != results[j]
    ensures LibCxx in results <==> exists f :: f in files && Considered(f, skipExecutables) && LinksAgainst(f, LibCxxSoname)
    ensures LibStdCxx in results <==> exists f :: f in files && Considered(f, skipExecutables) && LinksAgainst(f, LibStdCxxSoname)
  {
    results := [];
    var k := 0;
    while k < |files|
      invariant 0 <= k <= |files|
      invariant Distinct(results)
      invariant LibCxx in results <==> AnyLinks(files[..k], skipExecutables, LibCxxSoname)
      invariant LibStdCxx in results <==> AnyLinks(files[..k], skipExecutables, LibStdCxxSoname)
    {
      AnyLinksSnoc(files, k, skipExecutables, LibCxxSoname);
      AnyLinksSnoc(files, k, skipExecutables, LibStdCxxSoname);
      results := DetectStep(results, files[k], skipExecutables);
      k := k + 1;
    }
    assert files[..k] == files;
  }

  // ---------------------------------------------------------------------------
  // relocation_formulae

  /** `relocation_formulae`: `patchelf` is needed unless the Ruby ELF writer is enabled. */
  function RelocationFormulae(patchelfRbWrite: bool): (r: seq<string>)
    ensures patchelfRbWrite <==> r == []
    ensures !patchelfRbWrite ==> r == ["patchelf"]
  {
    if patchelfRbWrite then [] else ["patchelf"]
  }
}
