/** The patch rule of the walk, as values: which entries it looks at, what it
    does to one file, and what a whole walk makes of a directory tree. */
module Patch {
  import opened FileTree

  /** The directive the walk puts at the top of every TypeScript file it reaches. */
  const MARKER: string := "// @ts-nocheck\n"
  const TS_EXTENSION: string := ".ts"

  predicate StartsWith(s: string, prefix: string) {
    |prefix| <= |s| && s[..|prefix|] == prefix
  }

  predicate EndsWith(s: string, suffix: string) {
    |suffix| <= |s| && s[|s| - |suffix|..] == suffix
  }

  /** Entries whose name begins with a dot are skipped with everything under them. */
  predicate IsHidden(name: string): (b: bool)
    ensures b <==> |name| > 0 && name[0] == '.'
  {
    StartsWith(name, ".")
  }

  /** Whether the text already begins with the marker, character for character. */
  predicate HasMarker(content: string): (b: bool)
    ensures b <==> |MARKER| <= |content| && content == MARKER + content[|MARKER|..]
  {
    StartsWith(content, MARKER)
  }

  /** The textual path of entry `name` in directory `dir`. */
  function Join(dir: string, name: string): (r: string)
    ensures StartsWith(r, dir) && EndsWith(r, name)
    ensures |r| > |dir| + |name| && r[|r| - |name| - 1] == '/'
  {
    dir + "/" + name
  }

  /** The extension test on the joined path is the extension test on the entry's
      own name, whatever the directory path is. */
  lemma JoinKeepsExtension(dir: string, name: string)
    ensures EndsWith(Join(dir, name), TS_EXTENSION) <==> EndsWith(name, TS_EXTENSION)
  {
    var p := Join(dir, name);
    if |name| >= 3 {
      assert p[|p| - 3..] == name[|name| - 3..];
    } else if |p| >= 3 {
      assert p[|p| - 1 - |name|] == '/';
      assert p[|p| - 3..][2 - |name|] == '/';
    }
  }

  /** The decision for one TypeScript file: keep a marked file, otherwise put
      the marker in front of the text. */
  function PatchContent(content: string): (r: string)
    ensures HasMarker(r)
    ensures HasMarker(content) ==> r == content
    ensures !HasMarker(content) ==> |r| == |MARKER| + |content| && r[|MARKER|..] == content
  {
    if HasMarker(content) then content else MARKER + content
  }

  /** What the walk makes of an entry it has decided to enter: a directory has
      each of its non-hidden entries patched, a `.ts` file has its content
      patched, any other file stays as it is. */
  function Patched(n: Node): (r: Node)
    ensures r.name == n.name && r.Dir? == n.Dir?
    ensures n.File? && !EndsWith(n.name, TS_EXTENSION) ==> r == n
    ensures n.File? && EndsWith(n.name, TS_EXTENSION) ==>
              HasMarker(r.content) && (HasMarker(n.content) ==> r == n)
    ensures n.Dir? ==> |r.children| == |n.children|
    ensures n.Dir? ==> forall i :: 0 <= i < |n.children| ==>
              r.children[i].name == n.children[i].name
              && (IsHidden(n.children[i].name) ==> r.children[i] == n.children[i])
    decreases n, 0
  {
    match n
    case File(name, content) =>
      if EndsWith(name, TS_EXTENSION) then File(name, PatchContent(content)) else n
    case Dir(name, children) =>
      Dir(name, seq(|children|, i requires 0 <= i < |children| => PatchedEntry(children[i])))
  }

  /** What the walk makes of one entry of a listing. */
  function PatchedEntry(n: Node): (r: Node)
    ensures r.name == n.name && r.Dir? == n.Dir?
    ensures IsHidden(n.name) || (n.File? && !EndsWith(n.name, TS_EXTENSION)) ==> r == n
    ensures !IsHidden(n.name) && n.File? && EndsWith(n.name, TS_EXTENSION) ==> HasMarker(r.content)
    decreases n, 1
  {
    if IsHidden(n.name) then n else Patched(n)
  }

  /** The listing `cs` after the walk has handled its first `k` entries. */
  ghost function PatchedPrefix(cs: seq<Node>, k: nat): (r: seq<Node>)
    ensures |r| == |cs|
  {
    seq(|cs|, i requires 0 <= i < |cs| => if i < k then PatchedEntry(cs[i]) else cs[i])
  }

  /** Whether the walk rewrites at least one file under `n`: some reachable
      `.ts` file lacks the marker. */
  predicate NeedsPatch(n: Node): (b: bool)
    ensures b && n.File? ==> EndsWith(n.name, TS_EXTENSION) && PatchContent(n.content) != n.content
    ensures b && n.Dir? ==> |n.children| > 0
    decreases n
  {
    match n
    case File(name, content) => EndsWith(name, TS_EXTENSION) && !HasMarker(content)
    case Dir(_, children) =>
      exists i :: 0 <= i < |children| && !IsHidden(children[i].name) && NeedsPatch(children[i])
  }

  /** Whether the walk reaches the entry at `loc`: no entry on the way there is hidden. */
  predicate Visible(n: Node, loc: Loc)
    requires ValidLoc(n, loc)
    decreases loc
  {
    loc == [] || (!IsHidden(n.children[loc[0]].name) && Visible(n.children[loc[0]], loc[1..]))
  }

  /** The tree with every file's text blanked: names and nesting only. */
  function Shape(n: Node): Node
    decreases n
  {
    match n
    case File(name, _) => File(name, "")
    case Dir(name, children) => Dir(name, seq(|children|, i requires 0 <= i < |children| => Shape(children[i])))
  }

  /** A file the walk reaches, with the `.ts` extension and without the marker. */
  predicate Unpatched(n: Node, loc: Loc) {
    ValidLoc(n, loc) && Visible(n, loc) && At(n, loc).File?
    && EndsWith(At(n, loc).name, TS_EXTENSION) && !HasMarker(At(n, loc).content)
  }

  // ---------------------------------------------------------------------------
  // Properties of the walk

  lemma PatchedKeepsName(n: Node)
    ensures Patched(n).name == n.name && Patched(n).Dir? == n.Dir?
    ensures n.Dir? ==> |Patched(n).children| == |n.children|
  {
  }

  lemma PatchedChild(n: Node, i: nat)
    requires n.Dir? && i < |n.children|
    ensures Patched(n).Dir? && |Patched(n).children| == |n.children|
    ensures Patched(n).children[i] == PatchedEntry(n.children[i])
  {
  }

  /** A walk over the result of a walk changes nothing. */
  lemma {:induction false} PatchedIdempotent(n: Node)
    ensures Patched(Patched(n)) == Patched(n)
    decreases n
  {
    match n
    case File(_, _) =>
    case Dir(name, cs) =>
      var once := Patched(n).children;
      var twice := Patched(Patched(n)).children;
      forall i | 0 <= i < |cs| ensures twice[i] == once[i] {
        PatchedChild(n, i);
        PatchedChild(Patched(n), i);
        if !IsHidden(cs[i].name) {
          PatchedIdempotent(cs[i]);
          PatchedKeepsName(cs[i]);
        }
      }
  }

  /** After a walk nothing is left to rewrite. */
  lemma {:induction false} PatchedNeedsNothing(n: Node)
    ensures !NeedsPatch(Patched(n))
    decreases n
  {
    match n
    case File(_, _) =>
    case Dir(name, cs) =>
      var once := Patched(n).children;
      forall i | 0 <= i < |once| && !IsHidden(once[i].name) ensures !NeedsPatch(once[i]) {
        PatchedChild(n, i);
        PatchedKeepsName(cs[i]);
        PatchedNeedsNothing(cs[i]);
      }
  }

  /** The walk changes the tree exactly when there is a file to rewrite. */
  lemma {:induction false} ChangedIffNeedsPatch(n: Node)
    ensures Patched(n) != n <==> NeedsPatch(n)
    decreases n
  {
    match n
    case File(name, content) =>
      if EndsWith(name, TS_EXTENSION) && !HasMarker(content) {
        assert |PatchContent(content)| != |content|;
      }
    case Dir(name, cs) =>
      var once := Patched(n).children;
      if NeedsPatch(n) {
        var i :| 0 <= i < |cs| && !IsHidden(cs[i].name) && NeedsPatch(cs[i]);
        ChangedIffNeedsPatch(cs[i]);
        PatchedChild(n, i);
        assert once[i] != cs[i];
      } else {
        forall i | 0 <= i < |cs| ensures once[i] == cs[i] {
          PatchedChild(n, i);
          if !IsHidden(cs[i].name) {
            ChangedIffNeedsPatch(cs[i]);
          }
        }
        assert once == cs;
      }
  }

  /** The walk rewrites file contents only: names and nesting stay as they were. */
  lemma {:induction false} PatchedKeepsShape(n: Node)
    ensures Shape(Patched(n)) == Shape(n)
    decreases n
  {
    match n
    case File(_, _) =>
    case Dir(name, cs) =>
      var once := Patched(n).children;
      forall i | 0 <= i < |cs| ensures Shape(once[i]) == Shape(cs[i]) {
        PatchedChild(n, i);
        if !IsHidden(cs[i].name) {
          PatchedKeepsShape(cs[i]);
        }
      }
  }

  /** Entry by entry: the walk patches what it reaches and leaves the rest. */
  lemma {:induction false} PatchedAt(n: Node, loc: Loc)
    requires ValidLoc(n, loc)
    ensures ValidLoc(Patched(n), loc)
    ensures At(Patched(n), loc) == if Visible(n, loc) then Patched(At(n, loc)) else At(n, loc)
    decreases loc
  {
    if loc != [] {
      var c := n.children[loc[0]];
      assert Patched(n).children[loc[0]] == PatchedEntry(c);
      if !IsHidden(c.name) {
        PatchedAt(c, loc[1..]);
      }
    }
  }

  /** Nothing inside a hidden entry is touched. */
  lemma {:induction false} HiddenUntouched(n: Node, loc: Loc)
    requires ValidLoc(n, loc) && !Visible(n, loc)
    ensures ValidLoc(Patched(n), loc) && At(Patched(n), loc) == At(n, loc)
  {
    PatchedAt(n, loc);
  }

  /** A file without the `.ts` extension is never touched, hidden or not. */
  lemma {:induction false} OtherFilesUntouched(n: Node, loc: Loc)
    requires ValidLoc(n, loc) && At(n, loc).File? && !EndsWith(At(n, loc).name, TS_EXTENSION)
    ensures ValidLoc(Patched(n), loc) && At(Patched(n), loc) == At(n, loc)
  {
    PatchedAt(n, loc);
  }

  /** Every `.ts` file the walk reaches ends up starting with the marker, followed
      by its old text when it had no marker, and unchanged when it had one. */
  lemma {:induction false} ReachedFilesMarked(n: Node, loc: Loc)
    requires ValidLoc(n, loc) && Visible(n, loc) && At(n, loc).File?
    requires EndsWith(At(n, loc).name, TS_EXTENSION)
    ensures ValidLoc(Patched(n), loc)
    ensures At(Patched(n), loc).name == At(n, loc).name && At(Patched(n), loc).File?
    ensures HasMarker(At(Patched(n), loc).content)
    ensures HasMarker(At(n, loc).content) ==> At(Patched(n), loc) == At(n, loc)
    ensures !HasMarker(At(n, loc).content) ==>
              At(Patched(n), loc).content == MARKER + At(n, loc).content
  {
    PatchedAt(n, loc);
  }

  /** `NeedsPatch` holds exactly when some file is `Unpatched`: this direction
      gives the witness. */
  lemma {:induction false} NeedsPatchWitness(n: Node)
    requires NeedsPatch(n)
    ensures exists loc :: Unpatched(n, loc)
    decreases n
  {
    match n
    case File(_, _) =>
      assert Unpatched(n, []);
    case Dir(_, cs) =>
      var i :| 0 <= i < |cs| && !IsHidden(cs[i].name) && NeedsPatch(cs[i]);
      NeedsPatchWitness(cs[i]);
      var sub :| Unpatched(cs[i], sub);
      var loc := [i] + sub;
      assert loc[0] == i && loc[1..] == sub;
      assert Unpatched(n, loc);
  }

  /** ... and this direction: one unpatched file is enough. */
  lemma {:induction false} UnpatchedNeedsPatch(n: Node, loc: Loc)
    requires Unpatched(n, loc)
    ensures NeedsPatch(n)
    decreases loc
  {
    if loc != [] {
      var c := n.children[loc[0]];
      UnpatchedNeedsPatch(c, loc[1..]);
    }
  }
}
