/** One run of the patch: the console lines it prints, the recursive walk that
    rewrites files in place, and the flag the walk sets. */
module Patcher {
  import opened FileTree
  import opened Patch
  import opened Disk

  /** The root the run walks, relative to the working directory. */
  const NODE_MODULES_PATH: string := "./node_modules/"

  /** The console lines of a run. */
  datatype Line =
    | Disabling       // the start line
    | FoundUnignored  // the warning that unpatched files were found
    | RestartHint     // the request to restart the TypeScript server
    | Disabled        // the end line

  /** What a run does, in order: a console line, or the start of the walk. */
  datatype Event = Printed(line: Line) | WalkStarted

  /** The events of a run whose flag reads `flagAtCheck` at the warning test and
      whose walk succeeds or not. */
  function ExpectedTrace(flagAtCheck: bool, walkOk: bool): (t: seq<Event>)
    ensures |t| >= 2 && t[0] == Printed(Disabling)
    ensures WalkStarted in t
    ensures (Printed(FoundUnignored) in t) == flagAtCheck
    ensures (Printed(Disabled) in t) == walkOk
  {
    [Printed(Disabling)]
    + (if flagAtCheck then [Printed(FoundUnignored), Printed(RestartHint)] else [])
    + [WalkStarted]
    + (if walkOk then [Printed(Disabled)] else [])
  }

  /** The warning is tested while the flag still holds its initial `false`, so
      it is never printed: a run is the start line, the walk, and the end line
      when the walk succeeds. */
  lemma WarningNeverPrinted(walkOk: bool)
    ensures Printed(FoundUnignored) !in ExpectedTrace(false, walkOk)
    ensures Printed(RestartHint) !in ExpectedTrace(false, walkOk)
    ensures ExpectedTrace(false, walkOk)
            == [Printed(Disabling), WalkStarted] + (if walkOk then [Printed(Disabled)] else [])
  {
  }

  /** What a whole run makes of the entry at the root path: the read of the
      root fails, or the patched tree. */
  function Walk(tree: Option<Node>): (r: Result<Node>)
    ensures r.Err? <==> tree.None? || tree.value.File?
    ensures tree.None? ==> r == Err(NoSuchEntry)
    ensures tree.Some? && tree.value.File? ==> r == Err(NotADirectory)
    ensures r.Ok? ==> r.value == Patched(tree.value)
    ensures r.Ok? ==> Shape(r.value) == Shape(tree.value)
    ensures r.Ok? ==> !NeedsPatch(r.value)
  {
    match tree
    case None => Err(NoSuchEntry)
    case Some(n) =>
      if n.File? then Err(NotADirectory)
      else
        PatchedKeepsShape(n);
        PatchedNeedsNothing(n);
        Ok(Patched(n))
  }

  /** A run over the result of a successful run changes nothing and finds
      nothing to rewrite. */
  lemma WalkIdempotent(tree: Option<Node>)
    requires Walk(tree).Ok?
    ensures Walk(Some(Walk(tree).value)) == Walk(tree)
    ensures !NeedsPatch(Walk(tree).value)
  {
    PatchedIdempotent(tree.value);
  }

  /** The closure environment of one run: the flag the walk sets and the
      events of the run so far. */
  class Run {
    const fs: FileSystem
    var foundFilesThatWerentIgnored: bool
    var trace: seq<Event>

    constructor (fs: FileSystem)
      ensures this.fs == fs && !foundFilesThatWerentIgnored && trace == []
    {
      this.fs := fs;
      foundFilesThatWerentIgnored := false;
      trace := [];
    }

    method Log(line: Line)
      modifies this`trace
      ensures trace == old(trace) + [Printed(line)]
    {
      trace := trace + [Printed(line)];
    }

    /** The start line, then the warning and the restart hint if the flag is
        set at this point. */
    method Announce()
      modifies this`trace
      ensures trace == old(trace) + [Printed(Disabling)]
                       + (if foundFilesThatWerentIgnored then [Printed(FoundUnignored), Printed(RestartHint)] else [])
    {
      Log(Disabling);
      if foundFilesThatWerentIgnored {
        Log(FoundUnignored);
        Log(RestartHint);
      }
    }

    /** The entry at `loc`, for the termination measure of the walk. */
    ghost function Subtree(loc: Loc): Node
      reads this, fs
    {
      if fs.Exists(loc) then fs.Get(loc) else File("", "")
    }

    /** The walk over the directory at `loc`, whose textual path is `path`:
        every non-hidden entry in listing order, directories entered, `.ts`
        files without the marker rewritten with it. */
    method Recurse(path: string, loc: Loc) returns (r: Result<()>)
      requires loc == [] || fs.Exists(loc)
      modifies fs, this`foundFilesThatWerentIgnored
      ensures !old(fs.Exists(loc)) ==> r == Err(NoSuchEntry)
      ensures old(fs.Exists(loc)) && old(fs.Get(loc)).File? ==> r == Err(NotADirectory)
      ensures r.Err? ==> fs.tree == old(fs.tree)
                         && foundFilesThatWerentIgnored == old(foundFilesThatWerentIgnored)
      ensures r.Ok? <==> old(fs.Exists(loc)) && old(fs.Get(loc)).Dir?
      ensures r.Ok? ==> fs.tree == Some(Put(old(fs.tree).value, loc, Patched(old(fs.Get(loc)))))
      ensures r.Ok? ==> foundFilesThatWerentIgnored
                        == (old(foundFilesThatWerentIgnored) || NeedsPatch(old(fs.Get(loc))))
      decreases Subtree(loc)
    {
      var listing := fs.ReadDir(loc);
      if listing.Err? {
        return Err(listing.error);
      }
      var names := listing.value;
      ghost var root := fs.tree.value;
      ghost var dir := fs.Get(loc);
      ghost var cs := dir.children;
      ghost var found := foundFilesThatWerentIgnored;
      PutSame(root, loc);
      assert PatchedPrefix(cs, 0) == cs;
      for i := 0 to |names|
        invariant fs.tree == Some(Put(root, loc, Dir(dir.name, PatchedPrefix(cs, i))))
        invariant foundFilesThatWerentIgnored
                  == (found || exists j :: 0 <= j < i && !IsHidden(cs[j].name) && NeedsPatch(cs[j]))
      {
        ghost var before := Put(root, loc, Dir(dir.name, PatchedPrefix(cs, i)));
        ghost var done := Dir(dir.name, PatchedPrefix(cs, i + 1));
        assert PatchedPrefix(cs, i)[i := PatchedEntry(cs[i])] == PatchedPrefix(cs, i + 1);
        AtChild(before, loc, i);
        PutChild(before, loc, i, PatchedEntry(cs[i]));
        PutPut(root, loc, Dir(dir.name, PatchedPrefix(cs, i)), done);
        assert fs.Get(loc + [i]) == cs[i];

        var name := names[i];
        if IsHidden(name) {
          assert PatchedPrefix(cs, i + 1) == PatchedPrefix(cs, i);
          continue;
        }
        var childPath := Join(path, name);
        var isDirectory := fs.IsDirectory(loc + [i]);
        if isDirectory {
          var sub := Recurse(childPath, loc + [i]);
          assert sub.Ok?;
        } else {
          JoinKeepsExtension(path, name);
          if EndsWith(childPath, TS_EXTENSION) {
            var content := fs.ReadFile(loc + [i]);
            if StartsWith(content, MARKER) {
              assert PatchedPrefix(cs, i + 1) == PatchedPrefix(cs, i);
              continue;
            }
            var newContent := MARKER + content;
            fs.WriteFile(loc + [i], newContent);
            foundFilesThatWerentIgnored := true;
          } else {
            assert PatchedPrefix(cs, i + 1) == PatchedPrefix(cs, i);
          }
        }
      }
      assert PatchedPrefix(cs, |cs|) == Patched(dir).children;
      r := Ok(());
    }
  }

  /** A run: print the start line, test the flag for the warning, walk the
      root, print the end line. A failed read of the root aborts the run
      before the end line. */
  method DisableNodeModulesIssues(fs: FileSystem) returns (run: Run, r: Result<()>)
    modifies fs
    ensures fresh(run) && run.fs == fs
    ensures run.trace == ExpectedTrace(false, r.Ok?)
    ensures r.Ok? <==> Walk(old(fs.tree)).Ok?
    ensures r.Err? ==> r.error == Walk(old(fs.tree)).error && fs.tree == old(fs.tree)
    ensures r.Ok? ==> fs.tree == Some(Walk(old(fs.tree)).value)
    ensures run.foundFilesThatWerentIgnored <==> r.Ok? && NeedsPatch(old(fs.tree).value)
  {
    run := new Run(fs);
    run.Announce();
    run.trace := run.trace + [WalkStarted];
    r := run.Recurse(NODE_MODULES_PATH, []);
    if r.Ok? {
      run.Log(Disabled);
    }
  }

  /** As written, a run that rewrites a file still prints no warning: the
      tree below holds one unmarked `.ts` file, the walk succeeds, and the
      trace has no warning line. */
  lemma WarningMissed()
    ensures var tree := Some(Dir("node_modules", [File("x.ts", "export const x=1;")]));
            Walk(tree).Ok? && NeedsPatch(tree.value)
            && Printed(FoundUnignored) !in ExpectedTrace(false, Walk(tree).Ok?)
  {
    var n := Dir("node_modules", [File("x.ts", "export const x=1;")]);
    assert EndsWith(n.children[0].name, TS_EXTENSION);
    assert !HasMarker(n.children[0].content) by {
      assert n.children[0].content[0] != MARKER[0];
    }
    assert !IsHidden(n.children[0].name) by {
      assert n.children[0].name[0] == 'x';
    }
    assert NeedsPatch(n.children[0]);
  }

  /** The events of a run that tests the flag after the walk: the start line,
      the walk, and when the walk succeeds the warning (if `found`) and the end
      line. */
  function IntendedTrace(found: bool, walkOk: bool): (t: seq<Event>)
    ensures |t| >= 2 && t[..2] == [Printed(Disabling), WalkStarted]
    ensures (Printed(FoundUnignored) in t) <==> walkOk && found
    ensures (Printed(RestartHint) in t) <==> walkOk && found
    ensures (Printed(Disabled) in t) <==> walkOk
  {
    [Printed(Disabling), WalkStarted]
    + (if walkOk then (if found then [Printed(FoundUnignored), Printed(RestartHint)] else []) + [Printed(Disabled)]
       else [])
  }

  /** A run with the warning test moved after the walk: the warning is printed
      exactly when the walk rewrote a file. */
  method DisableNodeModulesIssuesWarningAfterWalk(fs: FileSystem) returns (run: Run, r: Result<()>)
    modifies fs
    ensures fresh(run) && run.fs == fs
    ensures run.trace == IntendedTrace(run.foundFilesThatWerentIgnored, r.Ok?)
    ensures r.Ok? <==> Walk(old(fs.tree)).Ok?
    ensures r.Err? ==> r.error == Walk(old(fs.tree)).error && fs.tree == old(fs.tree)
    ensures r.Ok? ==> fs.tree == Some(Walk(old(fs.tree)).value)
    ensures run.foundFilesThatWerentIgnored <==> r.Ok? && NeedsPatch(old(fs.tree).value)
    ensures (Printed(FoundUnignored) in run.trace) <==> r.Ok? && NeedsPatch(old(fs.tree).value)
  {
    run := new Run(fs);
    run.Log(Disabling);
    run.trace := run.trace + [WalkStarted];
    r := run.Recurse(NODE_MODULES_PATH, []);
    if r.Ok? {
      if run.foundFilesThatWerentIgnored {
        run.Log(FoundUnignored);
        run.Log(RestartHint);
      }
      run.Log(Disabled);
    }
  }

  /** Two runs of the source's order back to back: the second rewrites
      nothing and leaves its flag unset. */
  method RunTwiceAsWritten(fs: FileSystem) returns (first: Run, second: Run)
    modifies fs
    ensures first.foundFilesThatWerentIgnored <==> Walk(old(fs.tree)).Ok? && NeedsPatch(old(fs.tree).value)
    ensures !second.foundFilesThatWerentIgnored
    ensures Walk(old(fs.tree)).Ok? ==> fs.tree == Some(Walk(old(fs.tree)).value)
    ensures !Walk(old(fs.tree)).Ok? ==> fs.tree == old(fs.tree)
  {
    ghost var start := fs.tree;
    var r1, r2;
    first, r1 := DisableNodeModulesIssues(fs);
    second, r2 := DisableNodeModulesIssues(fs);
    if Walk(start).Ok? {
      WalkIdempotent(start);
    }
  }

  /** Two runs with the warning test after the walk, back to back: the second
      rewrites nothing, leaves its flag unset and prints no warning. */
  method RunTwice(fs: FileSystem) returns (first: Run, second: Run)
    modifies fs
    ensures first.foundFilesThatWerentIgnored <==> Walk(old(fs.tree)).Ok? && NeedsPatch(old(fs.tree).value)
    ensures !second.foundFilesThatWerentIgnored && Printed(FoundUnignored) !in second.trace
    ensures Walk(old(fs.tree)).Ok? ==> fs.tree == Some(Walk(old(fs.tree)).value)
    ensures !Walk(old(fs.tree)).Ok? ==> fs.tree == old(fs.tree)
  {
    ghost var start := fs.tree;
    var r1, r2;
    first, r1 := DisableNodeModulesIssuesWarningAfterWalk(fs);
    second, r2 := DisableNodeModulesIssuesWarningAfterWalk(fs);
    if Walk(start).Ok? {
      WalkIdempotent(start);
    }
  }
}
