/** The repository contents the auditors read, as plain values. */
module Fs {
  import opened Wrappers
  import opened Text

  /** A regular file met while walking a repository: its path relative to the
      walk root, its base name, and its text, or None when it cannot be read. */
  datatype File = File(path: string, name: string, content: Option<string>)

  /** A repository directory: its base name, its README.md (None when there is
      none), every file under it, and the names of its top-level files and folders. */
  datatype Repo = Repo(
    name: string,
    readme: Option<string>,
    files: seq<File>,
    topFiles: set<string>,
    topDirs: set<string>)

  /** An entry of the folder that holds the repositories. */
  datatype Entry = Directory(repo: Repo) | Plain(fileName: string) {
    function Name(): string {
      match this
      case Directory(r) => r.name
      case Plain(n) => n
    }
  }

  /** The file at the top-level path `README.md` has the base name `README.md`. */
  predicate ReadmeNamed(files: seq<File>) {
    forall k :: 0 <= k < |files| && files[k].path == "README.md" ==> files[k].name == "README.md"
  }

  /** The path of a walked file joined under `root`, as `os.path.join` and
      `Path /` build it. */
  function Under(root: string, f: File): string {
    root + "/" + f.path
  }

  /** Reading with errors caught: an unreadable file reads as the empty text. */
  function SafeRead(f: File): string {
    f.content.GetOr("")
  }

  /** `name.endswith(tuple_of_suffixes)`. */
  predicate EndsWithAny(name: string, suffixes: seq<string>) {
    exists k | 0 <= k < |suffixes| :: EndsWith(name, suffixes[k])
  }

  /** `pathlib.PurePath.suffix`: the text from the last dot, when that dot is
      neither the first nor the last character of the name; otherwise empty. */
  function Suffix(name: string): (r: string)
    ensures r != "" ==> |r| >= 2 && r[0] == '.' && '.' !in r[1..] && EndsWith(name, r) && |r| < |name|
  {
    var i := LastIndexOf(name, '.');
    if 0 < i < |name| - 1 then name[i..] else ""
  }

  /** Writing `text` to the file at `path` (the other files are untouched). */
  function Overwrite(files: seq<File>, path: string, text: string): (r: seq<File>)
    ensures |r| == |files|
    ensures forall i :: 0 <= i < |files| ==>
      r[i] == (if files[i].path == path then files[i].(content := Some(text)) else files[i])
  {
    if files == [] then []
    else
      var f := files[|files| - 1];
      Overwrite(files[..|files| - 1], path, text) + [if f.path == path then f.(content := Some(text)) else f]
  }

  /** A repository whose top-level README.md was rewritten to `text`. */
  function WithReadme(repo: Repo, text: string): (r: Repo)
    ensures r.readme == Some(text) && r.name == repo.name
    ensures r.topFiles == repo.topFiles && r.topDirs == repo.topDirs
  {
    repo.(readme := Some(text), files := Overwrite(repo.files, "README.md", text))
  }

  /** The names of the given files, in order. */
  function Names(files: seq<File>): (r: seq<string>)
    ensures |r| == |files|
    ensures forall i :: 0 <= i < |files| ==> r[i] == files[i].name
  {
    if files == [] then [] else Names(files[..|files| - 1]) + [files[|files| - 1].name]
  }
}
