# Style Settings definition compiler — a Dafny model

This project models the Style Settings definition compiler of an Obsidian theme
template (`src/functions/StyleSettingsUtils.ts`) and proves properties of it.

A theme keeps its settings manifest as a tree of small hand-written files:

- `root/<section>.css.md` holds the section's title text;
- `root/<section>/*.css.md` hold its item fragments.

The compiler turns this tree into a chain of `/* @settings ... */` blocks.
It has three parts, and the model has one module for each:

- **Line transformer** (`LineTransform`). This is `removeComments` plus
  `processStyleSettingsDefinitionFileLines`. It reads one fragment, splits it
  on `\n`, drops comment lines (`/^[ \t]*;/`) and prepends an empty line when
  the first remaining line is content. It then runs the one-flag state
  machine (`lastLineWasEmpty`):
  - headings (`/^[ \t]*#/`) pass through unchanged;
  - blank lines emit a `null` placeholder and set the flag;
  - the first content line after a blank run is *replaced* by `\t-`;
  - every other content line is prefixed with `\t\t`.

  Finally it drops the placeholders.
- **Assembler** (`Compiler`). This is `generateStyleSettings`. It walks the
  section directories in listing order and skips a section whose title file is
  missing or unreadable. It transforms every fragment of the other sections,
  wraps each section in the fixed envelope, writes the artifact and returns
  two counters: sections included and fragments processed.
- **Watch-set builder** (`Watch`). This is `watchStyleSettings`. It does the
  same discovery over *sorted* section names and *sorted* fragment names. It
  needs only the title file's existence. It collects the title path and the
  fragment paths, hands each one to the watch callback in order, and returns
  their number.

Supporting modules:

- `Text` models `trim() === ''`, `split`, `join` and `endsWith`.
- `SourceTree` is the file system as an immutable value.
- `Sorting` models `Array.prototype.sort()` with no comparator.
- `Wrappers` holds `Option` and `Result`.
- `Sequences` holds a generic fact about concatenation that the loop proofs use.

Each imperative function is a `method` with the same loops, variables and
counters as the source. Each method is proved equal to a specification
function, and the properties are lemmas about those functions:

| method | specification function |
|---|---|
| `ProcessDefinitionFileLines`, `MapLines`, `DropPlaceholders` | `DefinitionFileLines`, `TransformLines`, `Reindent`, `Present` |
| `GenerateStyleSettings`, `CompileSection`, `ConcatFragments`, `AppendFragment` | `Compile`, `SectionBlock`, `FragmentChunks` |
| `CollectWatchPaths`, `WatchStyleSettings` | `WatchPaths` |

`generateStyleSettings` is split along its loops: `CompileSection` is the body
of the section loop, `ConcatFragments` the fragment loop and `AppendFragment`
one pass of it. The section counter is advanced once the section's block is
complete rather than right after the title is read; the two differ only on a
run that aborts, whose counters are never returned.

The watch callback is a `Watcher` object whose `registered` field records the
paths it has been handed.

Where the documented behaviour and the code differ, the model follows the code:

- The first content line after a blank run is replaced by the marker `\t-`,
  and its own text is lost (line 36). The marker is not emitted in front of
  that line. `HeaderDescriptionOption` and `MarkerReplacesContent` state this.
  The leading `unshift('')` (lines 11-14) applies the same replacement to the
  first line of every fragment that starts with content, so that line is lost
  too (`ContentFirstOpensWithMarker`). The comment at line 35 ("insert \t- as
  the last line of consecutive empty lines") favours the other reading, in
  which the marker is added in front of the content line and the line is
  kept. The `unshift('')` has a purpose under both readings. With an added
  marker, it gives a content-first fragment its opening `\t-` item marker.
  With replacement, it turns a fragment's opening `-` line into `\t-`. The
  code alone does not settle which behaviour is intended. The model follows
  the code as written and leaves the question open.
- A fragment that cannot be read is not skipped. The exception from line 83
  is not caught, so the whole run aborts with nothing written
  (`FragmentUnreadable`).
- A fragment made only of comment lines leaves `lines` empty. Then
  `firstLine.trim()` at line 12 throws a TypeError and the run aborts
  (`FragmentWithoutLines`).
- A section directory that cannot be listed (lines 78 and 115) aborts the
  run (`DirectoryUnreadable`).
- The compiler keeps listing order for sections and fragments. Only the watch
  set is sorted. `WatchIgnoresListingOrder` proves that the watch set is
  independent of listing order. No such lemma holds for the compiler.

## Model

| member | source | states |
|---|---|---|
| Text.IsBlank | src/functions/StyleSettingsUtils.ts:17 | reference definition, no contract: `line.trim() === ''`, every character in the ECMAScript trim set |
| Text.Join | src/functions/StyleSettingsUtils.ts:84 | reference definition, no contract: `parts.join(sep)` |
| Text.EndsWith | src/functions/StyleSettingsUtils.ts:78 | reference definition, no contract: `s.endsWith(suffix)`, as the fragment filters at lines 78 and 115 use it |
| Text.Split | src/functions/StyleSettingsUtils.ts:7 | `content.split('\n')` yields at least one piece, and no piece contains `\n` |
| Text.JoinSplit | src/functions/StyleSettingsUtils.ts:7 | joining the split pieces with the separator gives back the original text |
| Text.SplitJoin | src/functions/StyleSettingsUtils.ts:84 | splitting `lines.join('\n')` gives back the lines, when there is at least one and none contains `\n` |
| Text.BlankConcat | src/functions/StyleSettingsUtils.ts:17 | `trim() === ''` holds for a concatenation exactly when it holds for both parts |
| SourceTree.Resolve | src/functions/StyleSettingsUtils.ts:62 | reference definition, no contract: `resolve(base, name)` as `base + "/" + name`, without normalisation |
| SourceTree.PathExists | src/functions/StyleSettingsUtils.ts:64 | reference definition, no contract: `pathExists` holds for files and directories alike, as at line 107 too; so a directory named `<section>.css.md` counts as a title for the watch set but, unreadable as a file, is skipped by the compiler |
| SourceTree.ReadFile | src/functions/StyleSettingsUtils.ts:71 | reference definition, no contract: `readFile` gives the text, or None when it rejects, which includes a directory; also at line 6 |
| SourceTree.ReadDir | src/functions/StyleSettingsUtils.ts:53 | reference definition, no contract: `readdir` gives the entries in listing order, or None when it rejects; also at lines 78, 98 and 115 |
| SourceTree.EntryNames | src/functions/StyleSettingsUtils.ts:78 | the plain names of a listing, one per entry, in listing order |
| SourceTree.WriteFile | src/functions/StyleSettingsUtils.ts:91 | the output file then reads back the written text; every other file and every listing is unchanged |
| LineTransform.IsHeading | src/functions/StyleSettingsUtils.ts:20 | reference definition, no contract: `/^[ \t]*#/` |
| LineTransform.IsComment | src/functions/StyleSettingsUtils.ts:48 | reference definition, no contract: `/^[ \t]*;/` |
| LineTransform.MarkedNotBlank | src/functions/StyleSettingsUtils.ts:20-25 | a heading is never blank, so the heading test taking precedence over the blank test loses nothing |
| LineTransform.MarksExclusive | src/functions/StyleSettingsUtils.ts:20 | a line matches `/^[ \t]*x/` for at most one non-indent mark `x` |
| LineTransform.HeadingNotComment | src/functions/StyleSettingsUtils.ts:48 | a heading line is never a comment line |
| LineTransform.IndentKeepsMark | src/functions/StyleSettingsUtils.ts:40 | prefixing `\t\t` does not change whether a line is a heading or a comment |
| LineTransform.MarkerClass | src/functions/StyleSettingsUtils.ts:36 | the marker `\t-` is neither blank, nor a heading, nor a comment |
| LineTransform.RemoveComments | src/functions/StyleSettingsUtils.ts:47-49 | the result is no longer than the input and holds no comment line |
| LineTransform.RemoveCommentsEmpty | src/functions/StyleSettingsUtils.ts:47-49 | the result is empty exactly when every input line is a comment |
| LineTransform.RemoveCommentsMembership | src/functions/StyleSettingsUtils.ts:47-49 | a line is kept exactly when it occurs in the input and is not a comment |
| LineTransform.RemoveCommentsCount | src/functions/StyleSettingsUtils.ts:47-49 | every non-comment line is kept as often as it occurs, and a comment line never is |
| LineTransform.RemoveCommentsAppend | src/functions/StyleSettingsUtils.ts:47-49 | filtering distributes over concatenation, so kept lines stay in input order |
| LineTransform.RemoveCommentsKeepsCommentFree | src/functions/StyleSettingsUtils.ts:47-49 | comment-free input passes through unchanged |
| LineTransform.RemoveCommentsIdempotent | src/functions/StyleSettingsUtils.ts:47-49 | applying `removeComments` twice equals applying it once |
| LineTransform.RemoveCommentsAfterEmpty | src/functions/StyleSettingsUtils.ts:47-49 | a leading empty line survives `removeComments` in front of the rest |
| LineTransform.Normalize | src/functions/StyleSettingsUtils.ts:11-14 | exactly one `''` is prepended when the first line is content (neither blank nor a heading), otherwise the lines are unchanged; the result never starts with content |
| LineTransform.NormalizedFromInput | src/functions/StyleSettingsUtils.ts:11-14 | every normalized line is the inserted `''` or a comment-free input line |
| LineTransform.LeadingBlankUnobservable | src/functions/StyleSettingsUtils.ts:11-14 | when the first comment-free line is not a heading, the output equals that of the input with an explicit empty first line |
| LineTransform.ContentFirstOpensWithMarker | src/functions/StyleSettingsUtils.ts:11-37 | when the first comment-free line is content, the output opens with `\t-`, which replaces that line |
| LineTransform.Callback | src/functions/StyleSettingsUtils.ts:16-41 | one `map` step: a placeholder exactly for blank lines, never a blank value; the new flag is set by a blank line, kept by a heading and cleared by content |
| LineTransform.Reindent | src/functions/StyleSettingsUtils.ts:16-44 | the state machine with placeholders dropped emits at most one line per input line, and never a blank one |
| LineTransform.ReindentAppend | src/functions/StyleSettingsUtils.ts:16-41 | transforming `a + b` is transforming `a`, then `b` from the flag `a` leaves |
| LineTransform.HeadingsPassThrough | src/functions/StyleSettingsUtils.ts:20-22 | headings are emitted verbatim and leave the flag as it was, so a heading between a blank run and content does not cancel the marker |
| LineTransform.BlankRunEmitsNothing | src/functions/StyleSettingsUtils.ts:25-30 | a run of blank lines emits nothing and leaves the flag set |
| LineTransform.TrailingBlanksDropped | src/functions/StyleSettingsUtils.ts:25-30 | blank lines at the end produce no output, so there is no dangling marker |
| LineTransform.BlankRunCollapses | src/functions/StyleSettingsUtils.ts:25-37 | any run of one or more blank lines acts exactly like a single empty line |
| LineTransform.MarkerReplacesContent | src/functions/StyleSettingsUtils.ts:33-37 | after a blank run and any headings, the next content line is replaced by exactly `\t-`, and the flag is cleared for the rest |
| LineTransform.NoBlankLinesIndentsAll | src/functions/StyleSettingsUtils.ts:40 | without blank lines the output has one line per input line: a heading verbatim, any other line as `\t\t` + the untrimmed line |
| LineTransform.ReindentProvenance | src/functions/StyleSettingsUtils.ts:16-41 | every emitted line is an input heading, the marker, or `\t\t` + an input content line |
| LineTransform.ReindentCommentFree | src/functions/StyleSettingsUtils.ts:16-41 | comment-free input gives comment-free output |
| LineTransform.TransformLines | src/functions/StyleSettingsUtils.ts:7-44 | the transformation fails exactly when every line is a comment; otherwise it has no more lines than survive `removeComments` (the inserted `''` never emits one), and no blank line |
| LineTransform.TransformedHasNoComments | src/functions/StyleSettingsUtils.ts:7-49 | passing a transformed fragment back through `removeComments` leaves it unchanged |
| LineTransform.TransformKeepsSingleLines | src/functions/StyleSettingsUtils.ts:7-44 | no output line contains `\n` when no input line does |
| LineTransform.HeaderDescriptionOption | src/functions/StyleSettingsUtils.ts:16-44 | heading, description, blank, option gives heading, `\t\t` + description, `\t-`: the option line is replaced |
| LineTransform.DefinitionFileLines | src/functions/StyleSettingsUtils.ts:5-45 | reference definition, no contract: read the fragment, split on `\n`, transform; a read failure or an all-comment fragment is an error |
| LineTransform.Present | src/functions/StyleSettingsUtils.ts:44 | reference definition, no contract: the non-null values in order |
| LineTransform.MapLines | src/functions/StyleSettingsUtils.ts:16-41 | the `map` loop yields one value or placeholder per line, and the present values are the state machine's output |
| LineTransform.DropPlaceholders | src/functions/StyleSettingsUtils.ts:44 | the `filter` loop keeps exactly the present values, in order |
| LineTransform.ProcessDefinitionFileLines | src/functions/StyleSettingsUtils.ts:5-45 | the fragment's result is its read, split and transformed lines; a read failure or an all-comment fragment aborts |
| Compiler.SectionNames | src/functions/StyleSettingsUtils.ts:55 | the directory names of the root listing: no more than its entries |
| Compiler.SectionNamesAppend | src/functions/StyleSettingsUtils.ts:55 | the directory filter distributes over concatenation, so section names keep listing order |
| Compiler.FragmentNamesAppend | src/functions/StyleSettingsUtils.ts:78 | the `.css.md` filter distributes over concatenation, so fragment names keep listing order |
| Compiler.FragmentNames | src/functions/StyleSettingsUtils.ts:78 | the kept names all end in `.css.md`, and there are no more of them than names |
| Compiler.TitlePath | src/functions/StyleSettingsUtils.ts:62 | reference definition, no contract: the title file `resolve(srcDir, section + '.css.md')` beside the section directory, also at line 105 |
| Compiler.SectionDir | src/functions/StyleSettingsUtils.ts:78 | reference definition, no contract: the section directory `resolve(srcDir, section)`, also at lines 82 and 115 |
| Compiler.SectionTitle | src/functions/StyleSettingsUtils.ts:62-76 | reference definition, no contract: the title text when the title file exists and reads, otherwise nothing |
| Compiler.Chunk | src/functions/StyleSettingsUtils.ts:84 | reference definition, no contract: `lines.join('\n') + '\n\n'` |
| Compiler.Render | src/functions/StyleSettingsUtils.ts:88 | reference definition, no contract: the `/* @settings` envelope around title and chunks |
| Compiler.SectionBlock | src/functions/StyleSettingsUtils.ts:62-88 | reference definition, no contract: nothing for an untitled section, else its block or the first error |
| Compiler.Compile | src/functions/StyleSettingsUtils.ts:51-94 | reference definition, no contract: the artifact and both counters, or the first error |
| Compiler.FragmentChunks | src/functions/StyleSettingsUtils.ts:81-86 | on success there is one chunk per fragment |
| Compiler.FragmentChunksSpec | src/functions/StyleSettingsUtils.ts:81-86 | on success chunk `k` is `join('\n') + '\n\n'` of fragment `k`'s transformed lines; on failure, some fragment failed with that error |
| Compiler.FragmentChunksErrorPersists | src/functions/StyleSettingsUtils.ts:83 | once a fragment fails, later fragments change nothing: the first error is the section's error |
| Compiler.ChunkRecoversLines | src/functions/StyleSettingsUtils.ts:84 | a non-empty fragment output is recovered from its chunk by dropping the closing `\n\n` and splitting on `\n` |
| Compiler.SectionBlocks | src/functions/StyleSettingsUtils.ts:61-89 | at most one block per section |
| Compiler.SectionBlocksAppend | src/functions/StyleSettingsUtils.ts:61-89 | compiling two runs of sections one after the other is compiling their concatenation: blocks concatenate and the first error wins |
| Compiler.UntitledSectionIgnored | src/functions/StyleSettingsUtils.ts:64-76 | a section whose title file is missing or unreadable contributes nothing, wherever it stands |
| Compiler.SectionBlocksShape | src/functions/StyleSettingsUtils.ts:61-89 | one block per section with a readable title, in order; block `k` is exactly that section's own block (its title and the chunks of its fragments, see `FragmentChunksSpec`), with one chunk per `.css.md` file; the chunk total is the fragment total of those sections |
| Compiler.CompileCounts | src/functions/StyleSettingsUtils.ts:57-93 | the first counter is the number of sections with a readable title; the second is the number of `.css.md` fragments in those sections |
| Compiler.AppendFragment | src/functions/StyleSettingsUtils.ts:82-85 | one fragment: the section text grows by exactly that fragment's chunk, or the whole section fails with its error |
| Compiler.ConcatFragments | src/functions/StyleSettingsUtils.ts:79-86 | the fragment loop yields the concatenated chunks of all fragments in listing order and counts one per fragment; the first failing fragment's error otherwise |
| Compiler.CompileSection | src/functions/StyleSettingsUtils.ts:62-88 | a section with a missing or unreadable title yields nothing; otherwise its `@settings` block with its title and fragment chunks, or the first error; the fragment counter advances by the section's fragment count |
| Compiler.GenerateStyleSettings | src/functions/StyleSettingsUtils.ts:51-94 | the loops compute the artifact (the rendered blocks in listing order) and both counters of `Compile`; the artifact is written on success, and nothing is written on failure |
| Sorting.StrLe | src/functions/StyleSettingsUtils.ts:99 | reference definition, no contract: the default `.sort()` order, where a prefix comes first and otherwise the first differing character decides; also at line 115 |
| Sorting.StrLeReflexive | src/functions/StyleSettingsUtils.ts:99 | the sort order is reflexive |
| Sorting.StrLeTotal | src/functions/StyleSettingsUtils.ts:99 | any two names are comparable |
| Sorting.StrLeAntisymmetric | src/functions/StyleSettingsUtils.ts:99 | names that sort no later than each other are equal |
| Sorting.StrLeTransitive | src/functions/StyleSettingsUtils.ts:99 | the sort order is transitive |
| Sorting.Insert | src/functions/StyleSettingsUtils.ts:99 | inserting into a sorted sequence keeps it sorted and adds exactly the new element |
| Sorting.Sort | src/functions/StyleSettingsUtils.ts:99 | `.sort()` returns a sorted permutation of its input |
| Sorting.SortedUnique | src/functions/StyleSettingsUtils.ts:99 | two sorted permutations of the same names are equal, so any correct sort gives this result |
| Sorting.SortIgnoresOrder | src/functions/StyleSettingsUtils.ts:99 | permutations of each other sort to the same sequence |
| Watch.Watcher.Watch | src/functions/StyleSettingsUtils.ts:124 | the callback records the path it is handed after the earlier ones |
| Watch.SectionWatchPaths | src/functions/StyleSettingsUtils.ts:105-120 | reference definition, no contract: nothing without a title file, else the title path and the sorted fragment paths |
| Watch.WatchPaths | src/functions/StyleSettingsUtils.ts:96-121 | reference definition, no contract: the watch set over the sorted section names |
| Watch.FragmentPaths | src/functions/StyleSettingsUtils.ts:116-118 | one resolved path per fragment name, in order |
| Watch.WatchList | src/functions/StyleSettingsUtils.ts:104-121 | a failure is the listing failure of some section |
| Watch.WatchListErrorPersists | src/functions/StyleSettingsUtils.ts:115 | once a section directory fails to list, later sections change nothing |
| Watch.CollectWatchPaths | src/functions/StyleSettingsUtils.ts:98-121 | the discovery loops collect exactly the watch set (for each sorted section with a title file, the title path and then its sorted fragment paths), and the counter is its length |
| Watch.WatchStyleSettings | src/functions/StyleSettingsUtils.ts:96-128 | the callback is invoked exactly once per collected path, in order, and the count returned is their number; on failure no callback runs |
| Watch.WatchListCount | src/functions/StyleSettingsUtils.ts:102-120 | the count is one per section with a title file plus its number of `.css.md` files, and every such section's title path is watched |
| Watch.WatchCount | src/functions/StyleSettingsUtils.ts:96-127 | the returned count, in terms of the root listing |
| Watch.SectionNamesCount | src/functions/StyleSettingsUtils.ts:99 | a name occurs among the section names as often as a directory entry with that name occurs |
| Watch.EntryNamesCount | src/functions/StyleSettingsUtils.ts:115 | a name occurs among the plain names as often as entries with that name occur |
| Watch.FragmentNamesCount | src/functions/StyleSettingsUtils.ts:115 | a name occurs among the fragment names as often as in the input if it ends in `.css.md`, never otherwise |
| Watch.SectionNamesPermutation | src/functions/StyleSettingsUtils.ts:99 | listings with the same entries in any order give the same section names up to order |
| Watch.FragmentNamesPermutation | src/functions/StyleSettingsUtils.ts:115 | listings with the same entries in any order give the same fragment names up to order |
| Watch.WatchListIgnoresListingOrder | src/functions/StyleSettingsUtils.ts:104-121 | each section's watch paths are independent of the order its directory is listed in |
| Watch.WatchIgnoresListingOrder | src/functions/StyleSettingsUtils.ts:96-127 | trees that differ only in listing order have the same watch set, hence the same callback order and count |

## Left out

- File-system I/O is replaced by the `FileSystem` value:
  - `readdir`, `readFile`, `pathExists` and `writeFile` are lookups and one map update;
  - `path.resolve` is `base + "/" + name`, without normalisation of `..`, `.` or absolute names;
  - a directory passed to `readFile` is modelled only through its absence from `files`.
- `writeFile` always succeeds in the model. A failed write, which rejects the whole run, is not modelled.
- `console.warn` and `console.error` diagnostics are left out. So are the `async`/`await` scheduling and promises: the model runs every step in the source's fixed order.
- `Sorting.Sort` compares strings by Unicode scalar value. JavaScript compares UTF-16 code units, which orders names with characters beyond U+FFFF differently. Such names are not modelled.
- `Text.IsBlank`: `trim()` is modelled by its fixed set of ECMAScript WhiteSpace and LineTerminator code points. The Unicode category `Zs` is taken as of current Unicode versions and not derived.
- `Text.Split` splits on `\n` only. `\r` stays inside lines, as in the source, where a `\r\n` line ending leaves `\r` in the line.
- `Watch.WatchStyleSettings` is modelled as two methods. The discovery loops are in `CollectWatchPaths` and the callback loop is in `WatchStyleSettings`. The callback is the `Watcher` object; a callback that throws is not modelled.
- The build configuration (`vite.config.ts`), CSS merging (`src/functions/CssCombiningUtils.ts`), manifest and version scripts (`src/functions/ManifestUtils.ts`, `scripts/generate-manifest.js`, `version-bump.ts`) are not part of this model. They are I/O wiring with no decision logic of this component.
