/**
 * The definition compiler (`generateStyleSettings`): for every section
 * directory of the source root, in listing order, whose sibling title file
 * `<section>.css.md` exists and reads, transform each `*.css.md` fragment of
 * the section directory, wrap the title and the fragments in one
 * `@settings` comment block, concatenate the blocks, write them to the
 * output file and report how many sections and fragments went in.
 */
module Compiler {
  import opened Wrappers
  import opened Text
  import opened SourceTree
  import opened LineTransform

  /** The fixed suffix of title files and fragment files. */
  const DefinitionSuffix: string := ".css.md"

  /** `entries.filter(e => e.isDirectory()).map(d => d.name)`. */
  function SectionNames(entries: seq<DirEntry>): (names: seq<string>)
    ensures |names| <= |entries|
  {
    if entries == [] then []
    else (if entries[0].isDirectory then [entries[0].name] else []) + SectionNames(entries[1..])
  }

  /** `.filter(f => f.endsWith('.css.md'))`. */
  function FragmentNames(names: seq<string>): (fragments: seq<string>)
    ensures |fragments| <= |names|
    ensures forall k | 0 <= k < |fragments| :: EndsWith(fragments[k], DefinitionSuffix)
  {
    if names == [] then []
    else (if EndsWith(names[0], DefinitionSuffix) then [names[0]] else []) + FragmentNames(names[1..])
  }

  /** Listing the entries of `a` and then those of `b` keeps the section names of each, in order. */
  lemma {:induction false} SectionNamesAppend(a: seq<DirEntry>, b: seq<DirEntry>)
    ensures SectionNames(a + b) == SectionNames(a) + SectionNames(b)
    decreases |a|
  {
    if a == [] {
      assert a + b == b;
    } else {
      SectionNamesAppend(a[1..], b);
      assert (a + b)[0] == a[0] && (a + b)[1..] == a[1..] + b;
    }
  }

  /** The `.css.md` filter distributes over concatenation, so kept names stay in listing order. */
  lemma {:induction false} FragmentNamesAppend(a: seq<string>, b: seq<string>)
    ensures FragmentNames(a + b) == FragmentNames(a) + FragmentNames(b)
    decreases |a|
  {
    if a == [] {
      assert a + b == b;
    } else {
      FragmentNamesAppend(a[1..], b);
      assert (a + b)[0] == a[0] && (a + b)[1..] == a[1..] + b;
    }
  }

  /** `resolve(srcDir, `${section}.css.md`)`: the title file beside the section directory. */
  function TitlePath(root: string, section: string): string {
    Resolve(root, section + DefinitionSuffix)
  }

  /** `resolve(srcDir, section)`. */
  function SectionDir(root: string, section: string): string {
    Resolve(root, section)
  }

  /** The section's title text; None when the title file is missing or cannot be read, and the section is skipped. */
  function SectionTitle(fs: FileSystem, root: string, section: string): Option<string> {
    if PathExists(fs, TitlePath(root, section)) then ReadFile(fs, TitlePath(root, section)) else None
  }

  /** What one fragment adds to its section: `lines.join('\n') + '\n\n'`. */
  function Chunk(lines: seq<string>): string {
    Join(lines, '\n') + "\n\n"
  }

  /** The pieces concatenated in order. */
  function Concat(parts: seq<string>): string {
    if parts == [] then "" else Concat(parts[..|parts| - 1]) + parts[|parts| - 1]
  }

  /** One included section: its title text and one chunk per fragment, in listing order. */
  datatype Block = Block(title: string, chunks: seq<string>)

  /** The fixed envelope around one section. */
  function Render(block: Block): string {
    "/* @settings\n\n" + block.title + "\nsettings:\n\n" + Concat(block.chunks) + "*/\n\n"
  }

  /** The rendered blocks concatenated in order. */
  function RenderAll(blocks: seq<Block>): string {
    if blocks == [] then "" else RenderAll(blocks[..|blocks| - 1]) + Render(blocks[|blocks| - 1])
  }

  /** How many fragments the blocks hold together. */
  function ChunkCount(blocks: seq<Block>): nat {
    if blocks == [] then 0 else ChunkCount(blocks[..|blocks| - 1]) + |blocks[|blocks| - 1].chunks|
  }

  /**
   * The chunks of the fragments `names` of directory `dir`, in order; the
   * first fragment that cannot be read or holds only comments aborts the run.
   * On success there is exactly one chunk per fragment, made from its transformed lines.
   */
  function FragmentChunks(fs: FileSystem, dir: string, names: seq<string>): (r: Result<seq<string>, RunError>)
    ensures r.Ok? ==> |r.value| == |names|
  {
    if names == [] then Ok([])
    else
      var last := names[|names| - 1];
      match FragmentChunks(fs, dir, names[..|names| - 1])
      case Err(e) => Err(e)
      case Ok(chunks) =>
        match DefinitionFileLines(fs, Resolve(dir, last))
        case Err(e) => Err(e)
        case Ok(lines) => Ok(chunks + [Chunk(lines)])
  }

  /**
   * What the chunks are: on success, chunk `k` is made from the transformed
   * lines of fragment `k`; on failure, some fragment failed with that error.
   */
  lemma {:induction false} FragmentChunksSpec(fs: FileSystem, dir: string, names: seq<string>)
    ensures var r := FragmentChunks(fs, dir, names);
      && (r.Ok? ==> forall k | 0 <= k < |names| ::
            DefinitionFileLines(fs, Resolve(dir, names[k])).Ok?
            && r.value[k] == Chunk(DefinitionFileLines(fs, Resolve(dir, names[k])).value))
      && (r.Err? ==> exists k | 0 <= k < |names| :: DefinitionFileLines(fs, Resolve(dir, names[k])) == Err(r.error))
    decreases |names|
  {
    if names != [] {
      var n := |names| - 1;
      var shorter := names[..n];
      FragmentChunksSpec(fs, dir, shorter);
      var before := FragmentChunks(fs, dir, shorter);
      var last := DefinitionFileLines(fs, Resolve(dir, names[n]));
      if before.Err? {
        var k :| 0 <= k < |shorter| && DefinitionFileLines(fs, Resolve(dir, shorter[k])) == Err(before.error);
        assert names[k] == shorter[k];
      } else if last.Err? {
        assert FragmentChunks(fs, dir, names) == Err(last.error) by {
          FragmentChunksFailsAt(fs, dir, names, n, last.error);
          assert names[..n + 1] == names;
        }
      } else {
        var chunks := before.value + [Chunk(last.value)];
        assert FragmentChunks(fs, dir, names) == Ok(chunks) by {
          FragmentChunksStep(fs, dir, names, n, before.value, last.value);
          assert names[..n + 1] == names;
        }
        forall k | 0 <= k < |names|
          ensures DefinitionFileLines(fs, Resolve(dir, names[k])).Ok?
          ensures chunks[k] == Chunk(DefinitionFileLines(fs, Resolve(dir, names[k])).value)
        {
          if k < n {
            assert names[k] == shorter[k];
          }
        }
      }
    }
  }

  /** The section's block; None when it has no readable title. Listing its directory or reading a fragment may abort. */
  function SectionBlock(fs: FileSystem, root: string, section: string): Result<Option<Block>, RunError> {
    match SectionTitle(fs, root, section)
    case None => Ok(None)
    case Some(title) =>
      match ReadDir(fs, SectionDir(root, section))
      case None => Err(DirectoryUnreadable(SectionDir(root, section)))
      case Some(entries) =>
        match FragmentChunks(fs, SectionDir(root, section), FragmentNames(EntryNames(entries)))
        case Err(e) => Err(e)
        case Ok(chunks) => Ok(Some(Block(title, chunks)))
  }

  /** The blocks of the sections in order, skipping sections without a readable title; the first error aborts. */
  function SectionBlocks(fs: FileSystem, root: string, sections: seq<string>): (r: Result<seq<Block>, RunError>)
    ensures r.Ok? ==> |r.value| <= |sections|
  {
    if sections == [] then Ok([])
    else
      match SectionBlocks(fs, root, sections[..|sections| - 1])
      case Err(e) => Err(e)
      case Ok(blocks) =>
        match SectionBlock(fs, root, sections[|sections| - 1])
        case Err(e) => Err(e)
        case Ok(None) => Ok(blocks)
        case Ok(Some(block)) => Ok(blocks + [block])
  }

  /** The artifact text and the two counters the compiler returns. */
  datatype Summary = Summary(text: string, sectionCount: nat, fragmentCount: nat)

  /** The number of fragments a titled section contributes; none for a section that is skipped or fails. */
  function SectionBlockChunks(fs: FileSystem, root: string, section: string): nat {
    match SectionBlock(fs, root, section)
    case Ok(Some(block)) => |block.chunks|
    case _ => 0
  }

  /** The whole run: list the root, build the blocks, render them and count sections and fragments. */
  function Compile(fs: FileSystem, root: string): Result<Summary, RunError> {
    match ReadDir(fs, root)
    case None => Err(DirectoryUnreadable(root))
    case Some(entries) =>
      match SectionBlocks(fs, root, SectionNames(entries))
      case Err(e) => Err(e)
      case Ok(blocks) => Ok(Summary(RenderAll(blocks), |blocks|, ChunkCount(blocks)))
  }

  /** Appending one more fragment: the result for the longer list, given the result for the shorter one. */
  lemma {:induction false} FragmentChunksErrorPersists(fs: FileSystem, dir: string, names: seq<string>, more: seq<string>)
    requires FragmentChunks(fs, dir, names).Err?
    ensures FragmentChunks(fs, dir, names + more) == FragmentChunks(fs, dir, names)
    decreases |more|
  {
    if more == [] {
      assert names + more == names;
    } else {
      var shorter := more[..|more| - 1];
      FragmentChunksErrorPersists(fs, dir, names, shorter);
      assert (names + more)[..|names + more| - 1] == names + shorter;
    }
  }

  /**
   * A fragment's chunk gives its transformed lines back: drop the closing
   * `\n\n` and split on `\n`. (A fragment whose output is empty, such as one
   * of blank lines only, contributes just `\n\n`.)
   */
  lemma ChunkRecoversLines(fs: FileSystem, path: string)
    requires DefinitionFileLines(fs, path).Ok? && DefinitionFileLines(fs, path).value != []
    ensures var chunk := Chunk(DefinitionFileLines(fs, path).value);
      && EndsWith(chunk, "\n\n")
      && Split(chunk[..|chunk| - 2], '\n') == DefinitionFileLines(fs, path).value
  {
    var lines := DefinitionFileLines(fs, path).value;
    TransformKeepsSingleLines(Split(ReadFile(fs, path).value, '\n'));
    SplitJoin(lines, '\n');
    assert Chunk(lines)[..|Chunk(lines)| - 2] == Join(lines, '\n');
  }

  /** The outcome of a sequence of sections followed by another: the first error wins, blocks concatenate. */
  function AppendBlocks(first: Result<seq<Block>, RunError>, second: Result<seq<Block>, RunError>): Result<seq<Block>, RunError> {
    if first.Err? then first
    else if second.Err? then second
    else Ok(first.value + second.value)
  }

  /** Compiling two runs of sections one after the other is compiling their concatenation. */
  lemma {:induction false} SectionBlocksAppend(fs: FileSystem, root: string, a: seq<string>, b: seq<string>)
    ensures SectionBlocks(fs, root, a + b) == AppendBlocks(SectionBlocks(fs, root, a), SectionBlocks(fs, root, b))
    decreases |b|
  {
    if b == [] {
      assert a + b == a;
      if SectionBlocks(fs, root, a).Ok? {
        assert SectionBlocks(fs, root, a).value + [] == SectionBlocks(fs, root, a).value;
      }
    } else {
      var b' := b[..|b| - 1];
      SectionBlocksAppend(fs, root, a, b');
      assert (a + b)[..|a + b| - 1] == a + b';
      assert (a + b)[|a + b| - 1] == b[|b| - 1];
      var x, y := SectionBlocks(fs, root, a), SectionBlocks(fs, root, b');
      if x.Ok? && y.Ok? {
        match SectionBlock(fs, root, b[|b| - 1])
        case Err(e) =>
        case Ok(None) =>
        case Ok(Some(block)) =>
          assert x.value + (y.value + [block]) == (x.value + y.value) + [block];
      }
    }
  }

  /** A section without a readable title contributes nothing, wherever it stands. */
  lemma UntitledSectionIgnored(fs: FileSystem, root: string, before: seq<string>, section: string, after: seq<string>)
    requires SectionTitle(fs, root, section).None?
    ensures SectionBlocks(fs, root, before + [section] + after) == SectionBlocks(fs, root, before + after)
  {
    SectionBlocksAppend(fs, root, before + [section], after);
    SectionBlocksAppend(fs, root, before, [section]);
    SectionBlocksAppend(fs, root, before, after);
    assert [section][..0] == [];
    var x := SectionBlocks(fs, root, before);
    if x.Ok? {
      assert x.value + [] == x.value;
    }
  }

  /** The sections that make it into the artifact: those with a readable title, in order. */
  function Titled(fs: FileSystem, root: string, sections: seq<string>): seq<string> {
    if sections == [] then []
    else
      var last := sections[|sections| - 1];
      Titled(fs, root, sections[..|sections| - 1]) + (if SectionTitle(fs, root, last).Some? then [last] else [])
  }

  /** The number of fragment files in the section's directory (0 when it cannot be listed). */
  function FragmentCount(fs: FileSystem, root: string, section: string): nat {
    match ReadDir(fs, SectionDir(root, section))
    case None => 0
    case Some(entries) => |FragmentNames(EntryNames(entries))|
  }

  /** The number of fragment files over all the given sections. */
  function FragmentTotal(fs: FileSystem, root: string, sections: seq<string>): nat {
    if sections == [] then 0
    else FragmentTotal(fs, root, sections[..|sections| - 1]) + FragmentCount(fs, root, sections[|sections| - 1])
  }

  /**
   * A successful run has exactly one block per titled section, in order, each
   * carrying that section's title and one chunk per fragment file.
   */
  lemma {:induction false} SectionBlocksShape(fs: FileSystem, root: string, sections: seq<string>)
    requires SectionBlocks(fs, root, sections).Ok?
    ensures var blocks := SectionBlocks(fs, root, sections).value;
      && |blocks| == |Titled(fs, root, sections)|
      && (forall k | 0 <= k < |blocks| ::
            && SectionBlock(fs, root, Titled(fs, root, sections)[k]) == Ok(Some(blocks[k]))
            && Some(blocks[k].title) == SectionTitle(fs, root, Titled(fs, root, sections)[k])
            && |blocks[k].chunks| == FragmentCount(fs, root, Titled(fs, root, sections)[k]))
      && ChunkCount(blocks) == FragmentTotal(fs, root, Titled(fs, root, sections))
    decreases |sections|
  {
    if sections != [] {
      var rest := sections[..|sections| - 1];
      var last := sections[|sections| - 1];
      SectionBlocksShape(fs, root, rest);
      var before := SectionBlocks(fs, root, rest).value;
      var titledBefore := Titled(fs, root, rest);
      match SectionBlock(fs, root, last)
      case Ok(None) =>
        assert SectionTitle(fs, root, last).None?;
        assert Titled(fs, root, sections) == titledBefore + [];
        assert titledBefore + [] == titledBefore;
      case Ok(Some(block)) =>
        var blocks := before + [block];
        var titled := titledBefore + [last];
        assert blocks[..|blocks| - 1] == before;
        assert titled[..|titled| - 1] == titledBefore;
        assert forall k | 0 <= k < |before| :: blocks[k] == before[k] && titled[k] == titledBefore[k];
    }
  }

  /**
   * The counters of a successful run: the first is the number of sections with
   * a readable title, the second the number of fragment files in those sections.
   */
  lemma CompileCounts(fs: FileSystem, root: string)
    requires Compile(fs, root).Ok?
    ensures ReadDir(fs, root).Some?
    ensures var sections := Titled(fs, root, SectionNames(ReadDir(fs, root).value));
      && Compile(fs, root).value.sectionCount == |sections|
      && Compile(fs, root).value.fragmentCount == FragmentTotal(fs, root, sections)
  {
    SectionBlocksShape(fs, root, SectionNames(ReadDir(fs, root).value));
  }

  /** One more section without a title: the blocks stay as they are. */
  lemma SectionBlocksSkip(fs: FileSystem, root: string, sections: seq<string>, i: nat, blocks: seq<Block>)
    requires i < |sections| && SectionBlocks(fs, root, sections[..i]) == Ok(blocks)
    requires SectionBlock(fs, root, sections[i]) == Ok(None)
    ensures SectionBlocks(fs, root, sections[..i + 1]) == Ok(blocks)
  {
    assert sections[..i + 1][..i] == sections[..i];
  }

  /** One more titled section whose fragments all transform: its block is appended. */
  lemma SectionBlocksStep(fs: FileSystem, root: string, sections: seq<string>, i: nat, blocks: seq<Block>, block: Block)
    requires i < |sections| && SectionBlocks(fs, root, sections[..i]) == Ok(blocks)
    requires SectionBlock(fs, root, sections[i]) == Ok(Some(block))
    ensures SectionBlocks(fs, root, sections[..i + 1]) == Ok(blocks + [block])
  {
    assert sections[..i + 1][..i] == sections[..i];
  }

  /** A section that fails after the first `i` succeeded: its error is the error of the whole run. */
  lemma SectionBlocksAbort(fs: FileSystem, root: string, sections: seq<string>, i: nat, e: RunError)
    requires i < |sections| && SectionBlocks(fs, root, sections[..i]).Ok?
    requires SectionBlock(fs, root, sections[i]) == Err(e)
    ensures SectionBlocks(fs, root, sections) == Err(e)
  {
    assert sections[..i + 1][..i] == sections[..i];
    SectionBlocksAppend(fs, root, sections[..i + 1], sections[i + 1..]);
    assert sections[..i + 1] + sections[i + 1..] == sections;
  }

  /** One more fragment that transforms: its chunk is appended. */
  lemma FragmentChunksStep(fs: FileSystem, dir: string, names: seq<string>, j: nat, chunks: seq<string>, lines: seq<string>)
    requires j < |names| && FragmentChunks(fs, dir, names[..j]) == Ok(chunks)
    requires DefinitionFileLines(fs, Resolve(dir, names[j])) == Ok(lines)
    ensures FragmentChunks(fs, dir, names[..j + 1]) == Ok(chunks + [Chunk(lines)])
  {
    assert names[..j + 1][..j] == names[..j];
  }

  /** A fragment that fails after the first `j` succeeded makes the first `j + 1` fail with its error. */
  lemma FragmentChunksFailsAt(fs: FileSystem, dir: string, names: seq<string>, j: nat, e: RunError)
    requires j < |names| && FragmentChunks(fs, dir, names[..j]).Ok?
    requires DefinitionFileLines(fs, Resolve(dir, names[j])) == Err(e)
    ensures FragmentChunks(fs, dir, names[..j + 1]) == Err(e)
  {
    assert names[..j + 1][..j] == names[..j];
  }

  /** An error in the first `j + 1` fragments is the error of the whole section. */
  lemma FragmentChunksAbort(fs: FileSystem, dir: string, names: seq<string>, j: nat)
    requires j < |names| && FragmentChunks(fs, dir, names[..j + 1]).Err?
    ensures FragmentChunks(fs, dir, names) == FragmentChunks(fs, dir, names[..j + 1])
  {
    FragmentChunksErrorPersists(fs, dir, names[..j + 1], names[j + 1..]);
    assert names[..j + 1] + names[j + 1..] == names;
  }

  /** Appending a block extends the artifact by its rendering and the count by its chunks. */
  lemma BlocksSnoc(blocks: seq<Block>, block: Block)
    ensures RenderAll(blocks + [block]) == RenderAll(blocks) + Render(block)
    ensures ChunkCount(blocks + [block]) == ChunkCount(blocks) + |block.chunks|
  {
    assert (blocks + [block])[..|blocks|] == blocks;
  }

  /** Appending a chunk extends the concatenation by it. */
  lemma ConcatSnoc(parts: seq<string>, part: string)
    ensures Concat(parts + [part]) == Concat(parts) + part
  {
    assert (parts + [part])[..|parts|] == parts;
  }

  /**
   * One pass of the inner loop of `generateStyleSettings`: transform fragment
   * `j` and append `lines.join('\n') + '\n\n'` to the section text so far.
   * `chunks` and `chunksAfter` are the chunks the text is made of before and
   * after; a fragment that fails fails the whole section.
   */
  method AppendFragment(fs: FileSystem, dir: string, names: seq<string>, j: nat, content: string, ghost chunks: seq<string>)
    returns (r: Result<string, RunError>, ghost chunksAfter: seq<string>)
    requires j < |names| && FragmentChunks(fs, dir, names[..j]) == Ok(chunks) && content == Concat(chunks)
    ensures r.Err? ==> FragmentChunks(fs, dir, names) == Err(r.error)
    ensures r.Ok? ==> FragmentChunks(fs, dir, names[..j + 1]) == Ok(chunksAfter) && r.value == Concat(chunksAfter)
  {
    var lines := ProcessDefinitionFileLines(fs, Resolve(dir, names[j]));
    if lines.Err? {
      FragmentChunksFailsAt(fs, dir, names, j, lines.error);
      FragmentChunksAbort(fs, dir, names, j);
      return Err(lines.error), chunks;
    }
    FragmentChunksStep(fs, dir, names, j, chunks, lines.value);
    ConcatSnoc(chunks, Chunk(lines.value));
    r := Ok(content + Chunk(lines.value));
    chunksAfter := chunks + [Chunk(lines.value)];
  }

  /**
   * The inner loop of `generateStyleSettings`: transform every fragment of one
   * section in order, append its chunk and count it. The first fragment that
   * fails aborts with its error.
   */
  method ConcatFragments(fs: FileSystem, dir: string, sectionMdFiles: seq<string>, counter: nat)
    returns (sectionMdContent: Result<string, RunError>, counterAfter: nat)
    ensures sectionMdContent == match FragmentChunks(fs, dir, sectionMdFiles)
                                case Err(e) => Err(e)
                                case Ok(chunks) => Ok(Concat(chunks))
    ensures sectionMdContent.Ok? ==> counterAfter == counter + |sectionMdFiles|
  {
    var content := "";
    counterAfter := counter;
    ghost var chunks: seq<string> := [];

    var j := 0;
    while j < |sectionMdFiles|
      invariant 0 <= j <= |sectionMdFiles|
      invariant FragmentChunks(fs, dir, sectionMdFiles[..j]) == Ok(chunks)
      invariant content == Concat(chunks)
      invariant counterAfter == counter + j
    {
      var appended;
      appended, chunks := AppendFragment(fs, dir, sectionMdFiles, j, content, chunks);
      if appended.Err? {
        return Err(appended.error), counterAfter;
      }
      content := appended.value;
      counterAfter := counterAfter + 1;
      j := j + 1;
    }
    assert sectionMdFiles[..j] == sectionMdFiles;
    sectionMdContent := Ok(content);
  }

  /**
   * The body of the outer loop of `generateStyleSettings` for one section:
   * None when its title file is missing or unreadable (the section is
   * skipped), otherwise the section's `@settings` comment block; an
   * unlistable directory or a failing fragment aborts. `counter` is the
   * fragment counter, advanced by one per fragment.
   */
  method CompileSection(fs: FileSystem, srcDir: string, section: string, counter: nat)
    returns (sectionContent: Result<Option<string>, RunError>, counterAfter: nat)
    ensures sectionContent == match SectionBlock(fs, srcDir, section)
                              case Err(e) => Err(e)
                              case Ok(None) => Ok(None)
                              case Ok(Some(block)) => Ok(Some(Render(block)))
    ensures sectionContent.Ok? ==> counterAfter == counter + SectionBlockChunks(fs, srcDir, section)
  {
    counterAfter := counter;
    var sectionDefinition := TitlePath(srcDir, section);
    if !PathExists(fs, sectionDefinition) {
      return Ok(None), counterAfter;
    }
    var sectionTitleContent := ReadFile(fs, sectionDefinition);
    if sectionTitleContent.None? {
      return Ok(None), counterAfter;
    }

    var dir := SectionDir(srcDir, section);
    var listing := ReadDir(fs, dir);
    if listing.None? {
      return Err(DirectoryUnreadable(dir)), counterAfter;
    }
    var sectionMdFiles := FragmentNames(EntryNames(listing.value));
    var sectionMdContent;
    sectionMdContent, counterAfter := ConcatFragments(fs, dir, sectionMdFiles, counterAfter);
    if sectionMdContent.Err? {
      return Err(sectionMdContent.error), counterAfter;
    }
    sectionContent := Ok(Some("/* @settings\n\n" + sectionTitleContent.value + "\nsettings:\n\n" + sectionMdContent.value + "*/\n\n"));
  }

  /**
   * `generateStyleSettings`: walks the sections in listing order, skips those
   * whose title file is missing or unreadable, transforms every fragment of
   * the others, accumulates the blocks and both counters, and writes the
   * artifact. Any other failure aborts the run before anything is written.
   */
  method GenerateStyleSettings(fs: FileSystem, srcDir: string, outputFile: string)
    returns (r: Result<Summary, RunError>, written: FileSystem)
    ensures r == Compile(fs, srcDir)
    ensures written == if r.Ok? then WriteFile(fs, outputFile, r.value.text) else fs
  {
    written := fs;
    var entries := ReadDir(fs, srcDir);
    if entries.None? {
      r := Err(DirectoryUnreadable(srcDir));
      return;
    }
    var sectionDirectories := SectionNames(entries.value);

    var sectionTitleCounter := 0;
    var sectionMdFileCounter := 0;
    var combinedContent := "";
    ghost var blocks: seq<Block> := [];

    var i := 0;
    while i < |sectionDirectories|
      invariant 0 <= i <= |sectionDirectories|
      invariant SectionBlocks(fs, srcDir, sectionDirectories[..i]) == Ok(blocks)
      invariant combinedContent == RenderAll(blocks)
      invariant sectionTitleCounter == |blocks|
      invariant sectionMdFileCounter == ChunkCount(blocks)
    {
      var sectionContent;
      sectionContent, sectionMdFileCounter := CompileSection(fs, srcDir, sectionDirectories[i], sectionMdFileCounter);
      if sectionContent.Err? {
        SectionBlocksAbort(fs, srcDir, sectionDirectories, i, sectionContent.error);
        r := Err(sectionContent.error);
        return;
      }
      if sectionContent.value.Some? {
        ghost var block := SectionBlock(fs, srcDir, sectionDirectories[i]).value.value;
        SectionBlocksStep(fs, srcDir, sectionDirectories, i, blocks, block);
        BlocksSnoc(blocks, block);
        combinedContent := combinedContent + sectionContent.value.value;
        sectionTitleCounter := sectionTitleCounter + 1;
        blocks := blocks + [block];
      } else {
        SectionBlocksSkip(fs, srcDir, sectionDirectories, i, blocks);
      }
      i := i + 1;
    }
    assert sectionDirectories[..i] == sectionDirectories;

    written := WriteFile(fs, outputFile, combinedContent);
    r := Ok(Summary(combinedContent, sectionTitleCounter, sectionMdFileCounter));
  }
}
