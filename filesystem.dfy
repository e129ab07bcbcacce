/** The files `replace_file` reads and overwrites. Opening for reading fails when the path
    has no content; opening for writing fails when the path is not writable. */
module FileSys {
  import opened Options

  class FileSystem {
    /** The content of every readable file. */
    var contents: map<string, string>
    /** The paths that can be opened for writing. */
    var writable: set<string>

    constructor (contents: map<string, string>, writable: set<string>)
      ensures this.contents == contents && this.writable == writable
    {
      this.contents := contents;
      this.writable := writable;
    }

    /** `open(path, "r").read()`: the content, or a failure when the file cannot be read. */
    method Read(path: string) returns (r: Option<string>)
      ensures r.Some? <==> path in contents
      ensures r.Some? ==> r.value == contents[path]
    {
      if path in contents {
        r := Some(contents[path]);
      } else {
        r := None;
      }
    }

    /** `open(path, "w")` followed by writing `data`: on success the file holds exactly
        `data`; on failure no file changes. */
    method Write(path: string, data: string) returns (ok: bool)
      modifies this`contents
      ensures ok <==> path in writable
      ensures ok ==> contents == old(contents)[path := data]
      ensures !ok ==> contents == old(contents)
    {
      ok := path in writable;
      if ok {
        contents := contents[path := data];
      }
    }
  }
}
