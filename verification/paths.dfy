/** The two things the program asks of a `PathBuf`: its display text, and its
    final component as `file_name()` returns it. The path library is not
    modelled; both are taken as given facts about each path. */
module Paths {
  import opened Wrappers

  /** A final path component: valid UTF-8 (so `to_str` succeeds), or not, in
      which case it keeps its raw platform units (bytes on Unix, 16-bit units
      on Windows), so two different names are never one `FileName`. */
  datatype FileName = Utf8Name(text: string) | NonUtf8Name(raw: seq<nat>)

  /** `display` is `path.display()`, which is lossy for non-UTF-8 names;
      `fileName` is `path.file_name()`, which is `None` for a path ending in
      `..` or for a root. Two entries of one directory have different final
      components, so they are different `Path`s even when they display alike. */
  datatype Path = Path(display: string, fileName: Option<FileName>)
}
