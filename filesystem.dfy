/**
 * The filesystem as the operations see it. Reading is a value handed to
 * them; writing is a log of the copies they ask for.
 */
module FileSystem {

  /** One step of `os.walk(root)`: a directory, its sub-directories, its files. */
  datatype WalkEntry = WalkEntry(dir: string, subdirs: seq<string>, files: seq<string>)

  /** One `shutil.copy(source, target)`. */
  datatype Copy = Copy(source: string, target: string)

  /** What the disk yields: the walk of each root, and the lines of each text
      file (each line with its terminator, as iterating a file gives them). */
  datatype Disk = Disk(walk: string -> seq<WalkEntry>, lines: string -> seq<string>)
}
