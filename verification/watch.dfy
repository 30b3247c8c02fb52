/**
 * The watch-set builder (`watchStyleSettings`): the same discovery as the
 * compiler, but over sorted section names and sorted fragment names, and
 * with a title file that only has to exist. It collects the title path and
 * the fragment paths of every section, hands each to the watch callback in
 * order and returns how many it handed over.
 */
module Watch {
  import opened Wrappers
  import opened Text
  import opened Sequences
  import opened SourceTree
  import opened Sorting
  import opened Compiler

  /** The watch callback: it records every path it is handed, in order. */
  class Watcher {
    var registered: seq<string>

    constructor()
      ensures registered == []
    {
      registered := [];
    }

    /** `watchAction(path)`. */
    method Watch(path: string)
      modifies this
      ensures registered == old(registered) + [path]
    {
      registered := registered + [path];
    }
  }

  /** `resolve(srcDir, section, mdFile)` for each fragment name, in order. */
  function FragmentPaths(dir: string, names: seq<string>): (paths: seq<string>)
    ensures |paths| == |names|
    ensures forall k | 0 <= k < |names| :: paths[k] == Resolve(dir, names[k])
  {
    if names == [] then [] else FragmentPaths(dir, names[..|names| - 1]) + [Resolve(dir, names[|names| - 1])]
  }

  /**
   * What one section adds to the watch set: nothing when its title file does
   * not exist; otherwise the title path followed by its fragment paths in
   * sorted name order. A section directory that cannot be listed aborts.
   */
  function SectionWatchPaths(fs: FileSystem, root: string, section: string): Result<seq<string>, RunError> {
    if !PathExists(fs, TitlePath(root, section)) then Ok([])
    else
      match ReadDir(fs, SectionDir(root, section))
      case None => Err(DirectoryUnreadable(SectionDir(root, section)))
      case Some(entries) =>
        Ok([TitlePath(root, section)] + FragmentPaths(SectionDir(root, section), Sort(FragmentNames(EntryNames(entries)))))
  }

  /** The watch set of the sections in the given order; the first error aborts. */
  function WatchList(fs: FileSystem, root: string, sections: seq<string>): (r: Result<seq<string>, RunError>)
    ensures r.Err? ==> exists k | 0 <= k < |sections| :: SectionWatchPaths(fs, root, sections[k]) == Err(r.error)
  {
    if sections == [] then Ok([])
    else
      match WatchList(fs, root, sections[..|sections| - 1])
      case Err(e) => Err(e)
      case Ok(paths) =>
        match SectionWatchPaths(fs, root, sections[|sections| - 1])
        case Err(e) => Err(e)
        case Ok(more) => Ok(paths + more)
  }

  /** The whole watch set: section names of the root, sorted, then section by section. */
  function WatchPaths(fs: FileSystem, root: string): Result<seq<string>, RunError> {
    match ReadDir(fs, root)
    case None => Err(DirectoryUnreadable(root))
    case Some(entries) => WatchList(fs, root, Sort(SectionNames(entries)))
  }

  /** Once a prefix of the sections has failed, later sections change nothing. */
  lemma {:induction false} WatchListErrorPersists(fs: FileSystem, root: string, sections: seq<string>, more: seq<string>)
    requires WatchList(fs, root, sections).Err?
    ensures WatchList(fs, root, sections + more) == WatchList(fs, root, sections)
    decreases |more|
  {
    if more == [] {
      assert sections + more == sections;
    } else {
      WatchListErrorPersists(fs, root, sections, more[..|more| - 1]);
      assert (sections + more)[..|sections + more| - 1] == sections + more[..|more| - 1];
    }
  }

  /** One more section: the watch set of the first `i + 1` sections, given that of the first `i`. */
  lemma WatchListStep(fs: FileSystem, root: string, sections: seq<string>, i: nat)
    requires i < |sections| && WatchList(fs, root, sections[..i]).Ok?
    ensures WatchList(fs, root, sections[..i + 1]) ==
      match SectionWatchPaths(fs, root, sections[i])
      case Err(e) => Err(e)
      case Ok(more) => Ok(WatchList(fs, root, sections[..i]).value + more)
  {
    assert sections[..i + 1][..i] == sections[..i];
  }

  /** An error in the first `i + 1` sections is the error of the whole run. */
  lemma WatchListAbort(fs: FileSystem, root: string, sections: seq<string>, i: nat)
    requires i < |sections| && WatchList(fs, root, sections[..i + 1]).Err?
    ensures WatchList(fs, root, sections) == WatchList(fs, root, sections[..i + 1])
  {
    WatchListErrorPersists(fs, root, sections[..i + 1], sections[i + 1..]);
    assert sections[..i + 1] + sections[i + 1..] == sections;
  }

  /** One more fragment name adds its path. */
  lemma FragmentPathsStep(dir: string, names: seq<string>, j: nat)
    requires j < |names|
    ensures FragmentPaths(dir, names[..j + 1]) == FragmentPaths(dir, names[..j]) + [Resolve(dir, names[j])]
  {
    assert names[..j + 1][..j] == names[..j];
  }

  /**
   * The discovery part of `watchStyleSettings`: lists the root, sorts the
   * section names and collects, for every section whose title file exists,
   * its title path and its sorted fragment paths, counting each one.
   */
  method CollectWatchPaths(fs: FileSystem, srcDir: string) returns (r: Result<seq<string>, RunError>, monitoringCounter: nat)
    ensures r == WatchPaths(fs, srcDir)
    ensures r.Ok? ==> monitoringCounter == |r.value|
  {
    monitoringCounter := 0;
    var entries := ReadDir(fs, srcDir);
    if entries.None? {
      return Err(DirectoryUnreadable(srcDir)), 0;
    }
    var sectionDirectories := Sort(SectionNames(entries.value));
    var watchedStyleSettingDefinitionFiles: seq<string> := [];

    var i := 0;
    while i < |sectionDirectories|
      invariant 0 <= i <= |sectionDirectories|
      invariant WatchList(fs, srcDir, sectionDirectories[..i]) == Ok(watchedStyleSettingDefinitionFiles)
      invariant monitoringCounter == |watchedStyleSettingDefinitionFiles|
    {
      var section := sectionDirectories[i];
      WatchListStep(fs, srcDir, sectionDirectories, i);
      var sectionTitleDefinition := TitlePath(srcDir, section);

      if !PathExists(fs, sectionTitleDefinition) {
        assert SectionWatchPaths(fs, srcDir, section) == Ok([]);
        assert watchedStyleSettingDefinitionFiles + [] == watchedStyleSettingDefinitionFiles;
        i := i + 1;
        continue;
      }

      ghost var before := watchedStyleSettingDefinitionFiles;
      watchedStyleSettingDefinitionFiles := watchedStyleSettingDefinitionFiles + [sectionTitleDefinition];
      monitoringCounter := monitoringCounter + 1;

      var dir := SectionDir(srcDir, section);
      var listing := ReadDir(fs, dir);
      if listing.None? {
        assert SectionWatchPaths(fs, srcDir, section) == Err(DirectoryUnreadable(dir));
        WatchListAbort(fs, srcDir, sectionDirectories, i);
        return Err(DirectoryUnreadable(dir)), monitoringCounter;
      }
      var sectionMdFiles := Sort(FragmentNames(EntryNames(listing.value)));

      ghost var title := before + [sectionTitleDefinition];
      var j := 0;
      while j < |sectionMdFiles|
        invariant 0 <= j <= |sectionMdFiles|
        invariant watchedStyleSettingDefinitionFiles == title + FragmentPaths(dir, sectionMdFiles[..j])
        invariant monitoringCounter == |watchedStyleSettingDefinitionFiles|
      {
        var path := Resolve(dir, sectionMdFiles[j]);
        FragmentPathsStep(dir, sectionMdFiles, j);
        AppendAssoc(title, FragmentPaths(dir, sectionMdFiles[..j]), [path]);
        watchedStyleSettingDefinitionFiles := watchedStyleSettingDefinitionFiles + [path];
        monitoringCounter := monitoringCounter + 1;
        j := j + 1;
      }
      assert sectionMdFiles[..j] == sectionMdFiles;
      assert SectionWatchPaths(fs, srcDir, section) == Ok([sectionTitleDefinition] + FragmentPaths(dir, sectionMdFiles));
      AppendAssoc(before, [sectionTitleDefinition], FragmentPaths(dir, sectionMdFiles));
      i := i + 1;
    }
    assert sectionDirectories[..i] == sectionDirectories;

    return Ok(watchedStyleSettingDefinitionFiles), monitoringCounter;
  }

  /**
   * `watchStyleSettings`: collects the watch set, then hands every collected
   * path to the callback in order and returns their number. A listing failure
   * aborts before any callback runs.
   */
  method WatchStyleSettings(fs: FileSystem, srcDir: string, watcher: Watcher) returns (r: Result<nat, RunError>)
    modifies watcher
    ensures r.Ok? <==> WatchPaths(fs, srcDir).Ok?
    ensures r.Ok? ==> (r.value == |WatchPaths(fs, srcDir).value|
                       && watcher.registered == old(watcher.registered) + WatchPaths(fs, srcDir).value)
    ensures r.Err? ==> (r.error == WatchPaths(fs, srcDir).error && watcher.registered == old(watcher.registered))
  {
    var collected, monitoringCounter := CollectWatchPaths(fs, srcDir);
    if collected.Err? {
      return Err(collected.error);
    }
    var watchedStyleSettingDefinitionFiles := collected.value;

    var k := 0;
    while k < |watchedStyleSettingDefinitionFiles|
      invariant 0 <= k <= |watchedStyleSettingDefinitionFiles|
      invariant watcher.registered == old(watcher.registered) + watchedStyleSettingDefinitionFiles[..k]
    {
      watcher.Watch(watchedStyleSettingDefinitionFiles[k]);
      assert watchedStyleSettingDefinitionFiles[..k + 1] == watchedStyleSettingDefinitionFiles[..k] + [watchedStyleSettingDefinitionFiles[k]];
      k := k + 1;
    }
    assert watchedStyleSettingDefinitionFiles[..k] == watchedStyleSettingDefinitionFiles;
    return Ok(monitoringCounter);
  }

  /** The sections that are watched: those whose title file exists, in the given order. */
  function Monitored(fs: FileSystem, root: string, sections: seq<string>): seq<string> {
    if sections == [] then []
    else
      var last := sections[|sections| - 1];
      Monitored(fs, root, sections[..|sections| - 1]) + (if PathExists(fs, TitlePath(root, last)) then [last] else [])
  }

  /**
   * The returned count: one per section whose title file exists plus one per
   * fragment file of those sections; and every such section's title is watched.
   */
  lemma {:induction false} WatchListCount(fs: FileSystem, root: string, sections: seq<string>)
    requires WatchList(fs, root, sections).Ok?
    ensures var watched := Monitored(fs, root, sections);
      && |WatchList(fs, root, sections).value| == |watched| + FragmentTotal(fs, root, watched)
      && forall k | 0 <= k < |watched| :: TitlePath(root, watched[k]) in WatchList(fs, root, sections).value
    decreases |sections|
  {
    if sections != [] {
      var rest := sections[..|sections| - 1];
      var last := sections[|sections| - 1];
      WatchListCount(fs, root, rest);
      var before := WatchList(fs, root, rest).value;
      var watchedBefore := Monitored(fs, root, rest);
      if PathExists(fs, TitlePath(root, last)) {
        var entries := ReadDir(fs, SectionDir(root, last)).value;
        var names := FragmentNames(EntryNames(entries));
        assert |Sort(names)| == |multiset(Sort(names))| == |multiset(names)| == |names|;
        var watched := watchedBefore + [last];
        assert watched[..|watched| - 1] == watchedBefore;
        var after := WatchList(fs, root, sections).value;
        assert after == before + ([TitlePath(root, last)] + FragmentPaths(SectionDir(root, last), Sort(names)));
        forall k | 0 <= k < |watched| ensures TitlePath(root, watched[k]) in after {
          if k < |watchedBefore| {
            assert watched[k] == watchedBefore[k];
            assert TitlePath(root, watched[k]) in before;
          } else {
            assert after[|before|] == TitlePath(root, last);
          }
        }
      } else {
        assert WatchList(fs, root, sections).value == before + [];
        assert Monitored(fs, root, sections) == watchedBefore + [];
        assert before + [] == before && watchedBefore + [] == watchedBefore;
      }
    }
  }

  /** The number `watchStyleSettings` returns, in terms of the root listing. */
  lemma WatchCount(fs: FileSystem, root: string)
    requires WatchPaths(fs, root).Ok?
    ensures ReadDir(fs, root).Some?
    ensures var watched := Monitored(fs, root, Sort(SectionNames(ReadDir(fs, root).value)));
      |WatchPaths(fs, root).value| == |watched| + FragmentTotal(fs, root, watched)
  {
    WatchListCount(fs, root, Sort(SectionNames(ReadDir(fs, root).value)));
  }

  /** How often a name occurs among the directory names of a listing. */
  lemma {:induction false} SectionNamesCount(entries: seq<DirEntry>, name: string)
    ensures multiset(SectionNames(entries))[name] == multiset(entries)[DirEntry(name, true)]
    decreases |entries|
  {
    if entries != [] {
      SectionNamesCount(entries[1..], name);
      assert entries == [entries[0]] + entries[1..];
      assert multiset(entries) == multiset([entries[0]]) + multiset(entries[1..]);
    }
  }

  /** How often a name occurs among the plain names of a listing. */
  lemma {:induction false} EntryNamesCount(entries: seq<DirEntry>, name: string)
    ensures multiset(EntryNames(entries))[name] == multiset(entries)[DirEntry(name, true)] + multiset(entries)[DirEntry(name, false)]
    decreases |entries|
  {
    if entries != [] {
      var head := entries[0];
      EntryNamesCount(entries[1..], name);
      assert entries == [head] + entries[1..];
      assert multiset(entries) == multiset{head} + multiset(entries[1..]);
      assert multiset(EntryNames(entries)) == multiset{head.name} + multiset(EntryNames(entries[1..]));
      assert head.name == name <==> head == DirEntry(name, true) || head == DirEntry(name, false);
    }
  }

  /** How often a name occurs among the fragment names: as often as among all names if it has the suffix, never otherwise. */
  lemma {:induction false} FragmentNamesCount(names: seq<string>, name: string)
    ensures multiset(FragmentNames(names))[name] == if EndsWith(name, DefinitionSuffix) then multiset(names)[name] else 0
    decreases |names|
  {
    if names != [] {
      FragmentNamesCount(names[1..], name);
      assert names == [names[0]] + names[1..];
      assert multiset(names) == multiset([names[0]]) + multiset(names[1..]);
    }
  }

  /** Listings with the same entries in any order yield the same section names up to order. */
  lemma SectionNamesPermutation(a: seq<DirEntry>, b: seq<DirEntry>)
    requires multiset(a) == multiset(b)
    ensures multiset(SectionNames(a)) == multiset(SectionNames(b))
  {
    forall name ensures multiset(SectionNames(a))[name] == multiset(SectionNames(b))[name] {
      SectionNamesCount(a, name);
      SectionNamesCount(b, name);
    }
  }

  /** Listings with the same entries in any order yield the same fragment names up to order. */
  lemma FragmentNamesPermutation(a: seq<DirEntry>, b: seq<DirEntry>)
    requires multiset(a) == multiset(b)
    ensures multiset(FragmentNames(EntryNames(a))) == multiset(FragmentNames(EntryNames(b)))
  {
    forall name ensures multiset(FragmentNames(EntryNames(a)))[name] == multiset(FragmentNames(EntryNames(b)))[name] {
      FragmentNamesCount(EntryNames(a), name);
      FragmentNamesCount(EntryNames(b), name);
      EntryNamesCount(a, name);
      EntryNamesCount(b, name);
    }
  }

  /** Two trees that differ at most in the order directories list their entries. */
  predicate SameUpToListingOrder(fs1: FileSystem, fs2: FileSystem) {
    && fs1.files == fs2.files
    && fs1.listings.Keys == fs2.listings.Keys
    && forall dir | dir in fs1.listings && dir in fs2.listings :: multiset(fs1.listings[dir]) == multiset(fs2.listings[dir])
  }

  lemma {:induction false} WatchListIgnoresListingOrder(fs1: FileSystem, fs2: FileSystem, root: string, sections: seq<string>)
    requires SameUpToListingOrder(fs1, fs2)
    ensures WatchList(fs1, root, sections) == WatchList(fs2, root, sections)
    decreases |sections|
  {
    if sections != [] {
      WatchListIgnoresListingOrder(fs1, fs2, root, sections[..|sections| - 1]);
      var dir := SectionDir(root, sections[|sections| - 1]);
      if dir in fs1.listings {
        FragmentNamesPermutation(fs1.listings[dir], fs2.listings[dir]);
        SortIgnoresOrder(FragmentNames(EntryNames(fs1.listings[dir])), FragmentNames(EntryNames(fs2.listings[dir])));
      }
    }
  }

  /**
   * Because both levels are sorted, the watch set (and so the callback order
   * and the count) does not depend on the order in which directories are
   * listed; the compiler, which keeps listing order, has no such guarantee.
   */
  lemma WatchIgnoresListingOrder(fs1: FileSystem, fs2: FileSystem, root: string)
    requires SameUpToListingOrder(fs1, fs2)
    ensures WatchPaths(fs1, root) == WatchPaths(fs2, root)
  {
    if root in fs1.listings {
      SectionNamesPermutation(fs1.listings[root], fs2.listings[root]);
      SortIgnoresOrder(SectionNames(fs1.listings[root]), SectionNames(fs2.listings[root]));
      WatchListIgnoresListingOrder(fs1, fs2, root, Sort(SectionNames(fs1.listings[root])));
    }
  }
}
