/** The in-memory stand-in for the part of the filesystem the patch walk sees:
    a tree of files and directories, and positions inside it. */
module FileTree {

  datatype Option<T> = None | Some(value: T)

  /** A directory entry: a file with its text, or a directory with its listing
      in the order the directory read returns it. */
  datatype Node = File(name: string, content: string) | Dir(name: string, children: seq<Node>)

  /** A position in a tree: the index of the entry in each listing on the way down.
      The empty position is the tree's root. */
  type Loc = seq<nat>

  predicate ValidLoc(n: Node, loc: Loc)
    decreases loc
  {
    loc == [] || (n.Dir? && loc[0] < |n.children| && ValidLoc(n.children[loc[0]], loc[1..]))
  }

  /** The entry found at `loc`. */
  function At(n: Node, loc: Loc): Node
    requires ValidLoc(n, loc)
    decreases loc
  {
    if loc == [] then n else At(n.children[loc[0]], loc[1..])
  }

  /** `n` with the entry at `loc` replaced by `m`. */
  function Put(n: Node, loc: Loc, m: Node): (r: Node)
    requires ValidLoc(n, loc)
    ensures ValidLoc(r, loc) && At(r, loc) == m
    ensures loc != [] ==> r.Dir? && r.name == n.name && |r.children| == |n.children|
    decreases loc
  {
    if loc == [] then m
    else
      var c := Put(n.children[loc[0]], loc[1..], m);
      n.(children := n.children[loc[0] := c])
  }

  lemma {:induction false} AtChild(n: Node, loc: Loc, i: nat)
    requires ValidLoc(n, loc) && At(n, loc).Dir? && i < |At(n, loc).children|
    ensures ValidLoc(n, loc + [i]) && At(n, loc + [i]) == At(n, loc).children[i]
    decreases loc
  {
    if loc != [] {
      assert (loc + [i])[1..] == loc[1..] + [i];
      AtChild(n.children[loc[0]], loc[1..], i);
    }
  }

  /** Replacing one child of the directory at `loc` is replacing that directory. */
  lemma {:induction false} PutChild(n: Node, loc: Loc, i: nat, x: Node)
    requires ValidLoc(n, loc) && At(n, loc).Dir? && i < |At(n, loc).children|
    ensures ValidLoc(n, loc + [i])
    ensures Put(n, loc + [i], x) == Put(n, loc, At(n, loc).(children := At(n, loc).children[i := x]))
    decreases loc
  {
    AtChild(n, loc, i);
    if loc != [] {
      assert (loc + [i])[1..] == loc[1..] + [i];
      PutChild(n.children[loc[0]], loc[1..], i, x);
    }
  }

  /** A second replacement at the same position overrides the first. */
  lemma {:induction false} PutPut(n: Node, loc: Loc, m1: Node, m2: Node)
    requires ValidLoc(n, loc)
    ensures Put(Put(n, loc, m1), loc, m2) == Put(n, loc, m2)
    decreases loc
  {
    if loc != [] {
      PutPut(n.children[loc[0]], loc[1..], m1, m2);
    }
  }

  /** Putting back what is already there changes nothing. */
  lemma {:induction false} PutSame(n: Node, loc: Loc)
    requires ValidLoc(n, loc)
    ensures Put(n, loc, At(n, loc)) == n
    decreases loc
  {
    if loc != [] {
      PutSame(n.children[loc[0]], loc[1..]);
    }
  }
}
