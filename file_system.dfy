/**
 * The two filesystem queries the resolver makes, over an abstract snapshot:
 * `fileExists` (true for any existing entry, file or directory) and
 * `readdir` (the names in a directory, with their on-disk case).
 */
module FileSystemModel {
  import opened PathModel

  datatype FileSystem = FileSystem(existing: set<Path>, entries: map<Path, seq<string>>)
  {
    /** `fileExists(path)`; on a case-insensitive disk `existing` holds every spelling that resolves. */
    predicate FileExists(p: Path)
    {
      p in existing
    }

    /** `promises.readdir(dir)`; a directory without a listing reads as empty. */
    function ReadDir(dir: Path): seq<string>
    {
      if dir in entries then entries[dir] else []
    }
  }
}
