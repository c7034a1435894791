# node-modules-vscode-problems-patch, modelled in Dafny

The tool hides TypeScript problems that come from dependency code. It walks
`./node_modules/` and puts the directive `// @ts-nocheck` followed by a line
break at the top of every `.ts` file that does not already start with it. It
skips every entry whose name starts with a dot, along with everything under
it. It sets a flag, `foundFilesThatWerentIgnored`, when it rewrites a file,
and it prints a start line and an end line.

The model swaps the disk for an in-memory tree and follows the source step by
step:

- `FileTree` (tree.dfy): the tree of files and directories (`Node`), a position
  in it (`Loc`, the index of the entry in each listing on the way down), and
  reading (`At`) and replacing (`Put`) the entry at a position.
- `Patch` (patch.dfy): the patch rule as values. The marker constant, the
  hidden-name and extension tests, the decision for one file
  (`PatchContent`), and `Patched`, which is what a whole walk makes of a
  directory. `NeedsPatch` says whether a walk rewrites anything. The lemmas
  state what the walk promises: idempotence, marker placement, hidden
  subtrees and other files left alone, the structure kept, and the meaning
  of the flag.
- `Disk` (disk.dfy): the filesystem calls the walk makes. These are the
  directory read, the stat directory test, the file read and the file write,
  all as methods of a `FileSystem` object holding the tree found at the root
  path. The directory read fails with `NoSuchEntry` when nothing exists there
  and with `NotADirectory` when a file is there.
- `Patcher` (patcher.dfy): one run. `Run` is the closure environment: the
  mutable flag and the trace of what the run does. `Run.Recurse` is the
  recursive walk: a `for` loop over the listing that rewrites files in place.
  It is proved against `Patch.Patched`, and its flag against
  `Patch.NeedsPatch`. `DisableNodeModulesIssues` is the ordered sequence of
  console lines and the walk.

Facts about the source that shape the model:

- The marker `"// @ts-nocheck\n"` is hard-coded (src/index.ts:63-64).
- The root `./node_modules/` is hard-coded (src/index.ts:36).
- `IOptions` (src/index.ts:38-48) is never read, so there is no glob mode, no ignore patterns and no quiet mode.
- The run keeps a flag (src/index.ts:51), not a count of patched files.
- The warning test comes before the walk (src/index.ts:73, 79; see Findings).

## Model

| member | source | states |
|---|---|---|
| `Patch.IsHidden` | src/index.ts:55 | a name is hidden exactly when it is non-empty and its first character is a dot |
| `Patch.HasMarker` | src/index.ts:63 | the text begins with `MARKER`, the literal `"// @ts-nocheck\n"`, character for character |
| `Patch.Join` | src/index.ts:56 | the child path starts with the directory path, ends with the entry name, and has a separator just before the name |
| `Patch.Patched` | src/index.ts:52-70 | what one walk makes of an entry it enters: name and kind kept; a file not ending in `.ts` unchanged; a `.ts` file starts with the marker afterwards and is unchanged if it already did; a directory keeps its listing length and every entry name, and each hidden entry is kept as it was |
| `Patch.PatchedEntry` | src/index.ts:55-67 | what the loop does with one listed entry: a hidden entry or a non-`.ts` file is kept as it was, a reached `.ts` file starts with the marker afterwards, name and kind always kept |
| `Patch.NeedsPatch` | src/index.ts:61-66 | whether the walk rewrites a file under the entry; when it holds of a file, that file ends in `.ts` and patching changes its text; when it holds of a directory, the directory is not empty (its exact meaning is stated by `Patch.ChangedIffNeedsPatch`, `Patch.NeedsPatchWitness` and `Patch.UnpatchedNeedsPatch`) |
| `Patch.PatchContent` | src/index.ts:63-64 | the result always starts with the marker; marked content is kept as is; unmarked content gets the marker in front and the original text follows it unchanged |
| `Patch.JoinKeepsExtension` | src/index.ts:56-61 | the `.ts` test on the joined child path gives the same answer as the test on the entry's own name |
| `Patch.PatchedIdempotent` | src/index.ts:52-70 | walking the result of a walk gives the same tree again |
| `Patch.PatchedNeedsNothing` | src/index.ts:52-70 | after a walk no reachable `.ts` file lacks the marker, so a second walk leaves the flag unset |
| `Patch.ChangedIffNeedsPatch` | src/index.ts:61-66 | a walk changes the tree if and only if some reachable `.ts` file lacked the marker beforehand |
| `Patch.NeedsPatchWitness` | src/index.ts:61-66 | if the walk has something to rewrite, there is a position holding a reachable, unmarked `.ts` file |
| `Patch.UnpatchedNeedsPatch` | src/index.ts:61-66 | one reachable, unmarked `.ts` file at any position is enough for the walk to rewrite something |
| `Patch.PatchedKeepsShape` | src/index.ts:54-61 | a walk keeps every name and the nesting of the tree; only file text changes |
| `Patch.PatchedAt` | src/index.ts:52-70 | entry by entry: every position stays valid; an entry the walk reaches becomes its patched form; an entry under a hidden name stays as it was |
| `Patch.HiddenUntouched` | src/index.ts:55 | nothing at or below an entry whose name starts with a dot is changed |
| `Patch.OtherFilesUntouched` | src/index.ts:61 | a file whose name does not end in `.ts` is never changed |
| `Patch.ReachedFilesMarked` | src/index.ts:61-65 | every reachable `.ts` file starts with the marker afterwards; an already marked file is unchanged; otherwise its text is the marker followed by the original text |
| `Disk.FileSystem.ReadDir` | src/index.ts:53 | returns the entry names in listing order, or fails with NoSuchEntry when nothing exists at the path and with NotADirectory when a file is there |
| `Disk.FileSystem.IsDirectory` | src/index.ts:57-58 | true exactly when the entry at the position is a directory |
| `Disk.FileSystem.ReadFile` | src/index.ts:62 | returns the file's whole text |
| `Disk.FileSystem.WriteFile` | src/index.ts:65 | replaces the file's text and nothing else in the tree |
| `Patcher.Run.constructor` | src/index.ts:51 | a run starts with the flag unset and nothing printed |
| `Patcher.Run.Log` | src/index.ts:72-80 | one `console.log` call: the line is appended to the run's trace and nothing else changes |
| `Patcher.Run.Announce` | src/index.ts:72-78 | prints the start line, then the warning and the restart hint exactly when the flag is set at that moment |
| `Patcher.Run.Recurse` | src/index.ts:52-70 | a read of a missing or non-directory path fails and changes nothing; on a directory the tree becomes the old tree with that directory replaced by its patched form, and the flag becomes its old value or-ed with whether anything needed rewriting |
| `Patcher.Walk` | src/index.ts:53 | a whole-run result fails with NoSuchEntry when the root is missing and with NotADirectory when it is a file; otherwise it is the patched root, which keeps its shape and leaves nothing to rewrite |
| `Patcher.WalkIdempotent` | src/index.ts:52-79 | a run over the result of a successful run gives the same tree and finds nothing to rewrite |
| `Patcher.ExpectedTrace` | src/index.ts:72-80 | a run opens with the start line and contains the walk; the warning appears exactly when the flag was set at the test; the end line appears exactly when the walk succeeded |
| `Patcher.WarningNeverPrinted` | src/index.ts:51-80 | with the flag still false at the test, a run is the start line, the walk, and the end line if the walk succeeded, with no warning and no restart hint |
| `Patcher.DisableNodeModulesIssues` | src/index.ts:50-81 | the trace is the start line, the walk, then the end line on success; the tree, the error and the flag are those of the walk over the root |
| `Patcher.WarningMissed` | src/index.ts:73-79 | a tree with one unmarked `.ts` file is rewritten, yet the trace of the run has no warning |
| `Patcher.IntendedTrace` | src/index.ts:72-80 | with the test after the walk: the start line, the walk, then on success the warning exactly when the flag is set, and the end line |
| `Patcher.DisableNodeModulesIssuesWarningAfterWalk` | src/index.ts:72-80 | the warning is printed if and only if the walk succeeded and rewrote a file; the effect on the tree is that of the source's run |
| `Patcher.RunTwiceAsWritten` | src/index.ts:50-81 | two runs in the source's order: the second leaves its flag unset, and the tree is the patched tree of the first run (unchanged when the root read fails) |
| `Patcher.RunTwice` | src/index.ts:50-81 | two runs in the corrected order of `Patcher.DisableNodeModulesIssuesWarningAfterWalk`, not the source's: the second leaves its flag unset and prints no warning, and the tree is the patched tree of the first run |

## Left out

- The real `readdir`, `statSync`, `readFile` and `writeFile` calls are left out. They are foreign I/O; the model replaces them with the methods of `Disk.FileSystem` over an in-memory tree.
- Only the entry at `./node_modules/` and what lies under it are modelled. The walk never reaches anything else.
- `Patch.Join`: does not reproduce path normalisation. The joined path is directory, `/`, name. Only the extension test on the joined path is used, and `Patch.JoinKeepsExtension` shows that this test depends on the name alone.
- Entries are addressed by their position in each listing, not by path string. A real directory has distinct names, so the two address the same entry.
- The `async`/`await` machinery is left out. Every step is awaited in turn, so the walk is ordinary sequential code.
- Failure of a directory read below the root is not modelled. The model can reach it only after the stat said "directory", and in the in-memory tree that read always succeeds.
- Permission errors, vanished files and failing reads or writes of files are left out. They are host behaviour; the only failure modelled is the directory read of the root.
- Symbolic links and cycles are left out. The tree here is finite, acyclic and has no links. The stat call and the directory read follow links, so on a real disk `Patch.HiddenUntouched` holds only for link-free trees. For example, in pnpm's layout a visible `node_modules/foo` links into the hidden `node_modules/.pnpm/...`, and files inside the hidden directory are patched through the link path.
- UTF-8 decoding is left out: file text is a sequence of characters.
- The console text, emoji included, is modelled as the abstract lines of `Patcher.Line`.
- The esbuild plugin wrapper (src/index.ts:83-90) and the direct-run check (src/index.ts:92-94) are left out. They are the host's plugin protocol and runtime detection.
- The `IOptions` declaration (src/index.ts:38-48) is left out, because nothing reads it.

## Findings

| source | as written | input that shows it | evidently intended | confidence | as-written member | corrected member |
|---|---|---|---|---|---|---|
| src/index.ts:73-79 | the flag `foundFilesThatWerentIgnored` is tested for the warning before `recurse` runs, while it still holds its initial `false`, so the warning and restart hint are never printed | `./node_modules/` holding one file `x.ts` with text `export const x=1;`: the file is rewritten, the flag ends up set, no warning is printed | test the flag after the walk and print the warning exactly when a file was rewritten | high; not executed | `Patcher.WarningMissed` (with `Patcher.DisableNodeModulesIssues`) | `Patcher.DisableNodeModulesIssuesWarningAfterWalk` |
