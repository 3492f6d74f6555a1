/** The document root as the request pipeline sees it. The server only asks
    whether a path exists, whether it is a directory, what a file holds and
    what a directory's stream enumerates, so a snapshot of those answers
    stands in for java.nio.file.Files. */
module Files {

  datatype FileSystem = FileSystem(
    paths: set<string>,                 // Files.exists
    directories: set<string>,           // Files.isDirectory
    contents: map<string, string>,      // Files.readAllBytes, decoded
    listings: map<string, seq<string>>  // Files.newDirectoryStream, as Path.toString() values in enumeration order
  )

  predicate Exists(fs: FileSystem, path: string) {
    path in fs.paths
  }

  predicate IsDirectory(fs: FileSystem, path: string) {
    path in fs.directories
  }

  /** A file whose bytes cannot be read leaves the source's `file` at its
      initial "". */
  function ReadAll(fs: FileSystem, path: string): string {
    if path in fs.contents then fs.contents[path] else ""
  }

  function Entries(fs: FileSystem, dir: string): seq<string> {
    if dir in fs.listings then fs.listings[dir] else []
  }
}
