/** The filesystem calls the walk makes (directory read, stat, file read and
    write), over an in-memory tree instead of a disk. */
module Disk {
  import opened FileTree

  /** Why a directory read fails: nothing at the path, or a file there. */
  datatype FsError = NoSuchEntry | NotADirectory

  datatype Result<T> = Ok(value: T) | Err(error: FsError)

  /** The names of a listing, in order. */
  function Names(cs: seq<Node>): (r: seq<string>)
    ensures |r| == |cs| && forall i :: 0 <= i < |cs| ==> r[i] == cs[i].name
  {
    seq(|cs|, i requires 0 <= i < |cs| => cs[i].name)
  }

  /** The entry at the walk's root path and everything under it; `None` when
      nothing exists at that path. Positions are relative to that entry. */
  class FileSystem {
    var tree: Option<Node>

    constructor (tree: Option<Node>)
      ensures this.tree == tree
    {
      this.tree := tree;
    }

    predicate Exists(loc: Loc)
      reads this
    {
      tree.Some? && ValidLoc(tree.value, loc)
    }

    function Get(loc: Loc): Node
      reads this
      requires Exists(loc)
    {
      At(tree.value, loc)
    }

    /** The directory read: the entry names in listing order, or the error the
        read raises. */
    method ReadDir(loc: Loc) returns (r: Result<seq<string>>)
      requires loc == [] || Exists(loc)
      ensures !Exists(loc) ==> r == Err(NoSuchEntry)
      ensures Exists(loc) && Get(loc).File? ==> r == Err(NotADirectory)
      ensures Exists(loc) && Get(loc).Dir? ==> r == Ok(Names(Get(loc).children))
    {
      if !Exists(loc) {
        r := Err(NoSuchEntry);
      } else if Get(loc).File? {
        r := Err(NotADirectory);
      } else {
        r := Ok(Names(Get(loc).children));
      }
    }

    /** The stat call's directory test. */
    method IsDirectory(loc: Loc) returns (b: bool)
      requires Exists(loc)
      ensures b <==> Get(loc).Dir?
    {
      b := Get(loc).Dir?;
    }

    method ReadFile(loc: Loc) returns (content: string)
      requires Exists(loc) && Get(loc).File?
      ensures content == Get(loc).content
    {
      content := Get(loc).content;
    }

    /** Replaces the file's whole text; its name and place stay. */
    method WriteFile(loc: Loc, content: string)
      requires Exists(loc) && Get(loc).File?
      modifies this
      ensures Exists(loc) && Get(loc) == File(old(Get(loc)).name, content)
      ensures tree == Some(Put(old(tree).value, loc, File(old(Get(loc)).name, content)))
    {
      tree := Some(Put(tree.value, loc, File(Get(loc).name, content)));
    }
  }
}
