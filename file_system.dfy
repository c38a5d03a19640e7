/**
 * The file-system side of the generator: the items a generation produces
 * and the sink they are appended to.
 */
module GenzorFileSystem {

  /** A produced file-system item. Items are values: once built they are
      never edited. */
  datatype Item =
    | File(name: string, content: string)
    | Directory(name: string, children: seq<Item>)

  /** The sink contract: an ordered, append-only list of top-level items. */
  class FileSystem {
    /** The root of the file system, zero or more items in insertion order. */
    var Root: seq<Item>

    /** A new file system starts with an empty root. */
    constructor ()
      ensures Root == []
    {
      Root := [];
    }

    /** Appends `item` at the end of the root, keeping every earlier item in
        place; nothing is deduplicated. */
    method AddItem(item: Item)
      modifies this
      ensures Root == old(Root) + [item]
      ensures |Root| == |old(Root)| + 1 && Root[|Root| - 1] == item
      ensures forall i :: 0 <= i < |old(Root)| ==> Root[i] == old(Root)[i]
    {
      Root := Root + [item];
    }
  }

  /** Adding the same item twice keeps both copies, in order. */
  method AddTwiceKeepsBoth(x: Item) returns (root: seq<Item>)
    ensures root == [x, x]
  {
    var fs := new FileSystem();
    fs.AddItem(x);
    fs.AddItem(x);
    root := fs.Root;
  }
}
