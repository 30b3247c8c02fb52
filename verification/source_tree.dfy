/**
 * The file system as the compiler sees it: directory listings (`readdir`),
 * file contents (`readFile`), existence (`pathExists`), `path.resolve` and
 * `writeFile`, all as operations on one immutable value.
 */
module SourceTree {
  import opened Wrappers

  /** One entry of `readdir(dir, {withFileTypes: true})`. */
  datatype DirEntry = DirEntry(name: string, isDirectory: bool)

  /**
   * `listings` maps each listable directory to its entries in listing order;
   * `files` maps each regular file to its text, or to None when reading it fails.
   */
  datatype FileSystem = FileSystem(listings: map<string, seq<DirEntry>>, files: map<string, Option<string>>)

  /** The ways a compilation or watch-set run aborts. */
  datatype RunError =
    | DirectoryUnreadable(path: string)   // `readdir` rejected
    | FragmentUnreadable(path: string)    // `readFile` of a fragment rejected
    | FragmentWithoutLines(path: string)  // every line was a comment, so `lines[0].trim()` threw

  /** `path.resolve(base, name)` for a plain file or directory name. */
  function Resolve(base: string, name: string): string {
    base + "/" + name
  }

  /** `pathExists(path)`: true for files and directories alike. */
  predicate PathExists(fs: FileSystem, path: string) {
    path in fs.listings || path in fs.files
  }

  /** `readFile(path, 'utf-8')`; None when the promise rejects (missing, a directory, unreadable). */
  function ReadFile(fs: FileSystem, path: string): Option<string> {
    if path in fs.files then fs.files[path] else None
  }

  /** `readdir(path, {withFileTypes: true})`; None when the promise rejects. */
  function ReadDir(fs: FileSystem, path: string): Option<seq<DirEntry>> {
    if path in fs.listings then Some(fs.listings[path]) else None
  }

  /** The plain names `readdir(path)` returns, in listing order. */
  function EntryNames(entries: seq<DirEntry>): (names: seq<string>)
    ensures |names| == |entries|
    ensures forall k | 0 <= k < |names| :: names[k] == entries[k].name
  {
    if entries == [] then [] else [entries[0].name] + EntryNames(entries[1..])
  }

  /** `writeFile(path, content, 'utf-8')`: creates or overwrites the file. */
  function WriteFile(fs: FileSystem, path: string, content: string): (written: FileSystem)
    ensures ReadFile(written, path) == Some(content)
    ensures written.listings == fs.listings
    ensures forall p | p != path :: ReadFile(written, p) == ReadFile(fs, p)
  {
    fs.(files := fs.files[path := Some(content)])
  }
}
