/**
 * The local filesystem as `_convert_file` sees it: a mutable map from path to
 * text content, with the three operations the routine performs on it.
 */
module FileSystems {
  import opened Wrappers
  import opened PurePaths

  type Content = string

  class FileSystem {
    var files: map<Path, Content>

    constructor (initial: map<Path, Content>)
      ensures files == initial
    {
      files := initial;
    }

    /** `Path.stat().st_size`: the size of an existing file; None where `stat` raises FileNotFoundError. */
    method Stat(path: Path) returns (size: Option<nat>)
      ensures size.Some? <==> path in files
      ensures size.Some? ==> size.value == |files[path]|
    {
      if path in files {
        size := Some(|files[path]|);
      } else {
        size := None;
      }
    }

    /** `open(path, "w").write(text)`: creates or truncates the file and stores `text`; nothing else changes. */
    method Write(path: Path, text: Content)
      modifies this
      ensures files == old(files)[path := text]
    {
      files := files[path := text];
    }

    /** `Path.exists()`. */
    method Exists(path: Path) returns (present: bool)
      ensures present <==> path in files
    {
      present := path in files;
    }
  }
}
