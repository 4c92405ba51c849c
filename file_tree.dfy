/** The filesystem the scan walks, as a tree of directory entries. */
module FileTree {

  import opened Base

  /** What the metadata of a directory entry says it is. */
  datatype Node =
    | File(size: u64)                      // a regular file, with the byte size its metadata reports
    | Dir(readable: bool, items: seq<Item>) // a directory; listing it fails when not readable
    | Symlink                              // a symbolic link, to a file or a directory
    | Special                              // anything else: device, pipe, socket
    | NoMetadata                           // its metadata cannot be read

  /** One item of a directory listing, in the order the listing yields them;
      `BadEntry` is an item the listing itself reports as an error. */
  datatype Item = BadEntry | Entry(name: string, node: Node)

  /** The names within every directory are distinct, as on a real disk. */
  ghost predicate WellFormed(node: Node)
    decreases node
  {
    node.Dir? ==>
      (forall i, j ::
         0 <= i < j < |node.items| && node.items[i].Entry? && node.items[j].Entry?
         ==> node.items[i].name != node.items[j].name) &&
      (forall i :: 0 <= i < |node.items| && node.items[i].Entry? ==> WellFormed(node.items[i].node))
  }
}
