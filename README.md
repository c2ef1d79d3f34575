# svgtxt2path core, modelled in Dafny

svgtxt2path turns the `<text>` elements of an SVG into outlines while keeping
the text selectable. It runs Inkscape three times:

1. a sanitize pass;
2. an export pass with `--export-text-to-path`;
3. a final sanitize pass.

Between the second and third passes, it merges the two trees. Each SVG text of the sanitized copy is made fully transparent (`fill-opacity: 0`). Where the converted tree has an element with the same `id`, the text is replaced by a `g` holding a clone of the text followed by that element.

This project models the core of `src/module.ts`:

- `binary_resolver.dfy` (module `BinaryResolver`) covers `findInkscapeBinaries`, modelled as pure functions:
  - it splits `PATH` with JavaScript `split` semantics;
  - it removes duplicate directories the way a `Set` does (first occurrence wins, in insertion order);
  - it forms the directory × extension candidates;
  - it keeps those the file system reports as regular files.

  The environment, the platform and the file system are parameters.
- `process_invoker.dfy` (module `ProcessInvoker`) covers `invokeInkscape`:
  - The default binary is chosen with `ChooseBin`.
  - `SpawnTarget` is the check `spawn` makes on its file argument: an undefined or empty binary makes it throw before any process starts, and the promise rejects.
  - The event handlers are modelled as a class `Invocation`. Its chunk arrays and promise state are fields that the handler methods update.
  - `InvokeInkscape` feeds an abstract trace of process events to those handlers. It is proved equal to the fold `Settle`, and the outcome lemmas are proved about `Settle`.
- `dom.dfy` (module `Dom`) models XML trees as values:
  - nodes are addressed by child-index paths;
  - document order is defined on paths;
  - `Select` is the `.//…` search, in document order;
  - `FirstMatch` is the first element with a given `id`;
  - `ReplaceAt` models `replaceChild`;
  - `RemoveAt` models the removal that `appendChild` performs when it moves a node out of its tree.
- `reconciler.dfy` (module `Reconciler`) models the rest of `convertSVGTextToPath`:
  - `setFillOpacity0` is both a function and a method that reassigns its local style;
  - the merge loop is `MergeTexts`, a `while` loop proved equal to the fold `MergeSpec` of `Step`;
  - the three Inkscape passes are the pipeline `ConvertWith`.

The snapshot of text elements records each text's path and node as they were before the loop. A text nested inside a text that has already been grouped is no longer in the document, because the group holds a clone of its ancestor. `Attached` tracks this. Such a text still consumes its match from the converted tree and still produces its warnings, exactly as the detached node objects of the source do.

A matched text at the top level of the document has no parent element, so `parent.replaceChild` throws. The model records this as `crashed`, and the conversion fails with `NullParentElement`. In an SVG document every text sits under the root `svg`, so this cannot happen there. `MergeCompletes` proves that the merge completes when no text is at the top level.

All XML is namespace-qualified. The search is for `svg:text` in the SVG namespace, so the worked example `MergeExample` writes its elements in that namespace. Without an `xmlns`, no text would be selected.

## Model

| member | source | states |
|---|---|---|
| BinaryResolver.Split | src/module.ts:28 | `PATH.split(delimiter)`: at least one part, no part contains the delimiter, and joining the parts with it gives back the input |
| BinaryResolver.SplitJoin | src/module.ts:28 | splitting a delimiter-joined list of delimiter-free parts returns exactly those parts |
| BinaryResolver.Dedupe | src/module.ts:27-29 | `Array.from(new Set(xs))` built by appending each element not yet kept: never longer than its input, and it starts with the input's first element |
| BinaryResolver.DedupeSpec | src/module.ts:27-29 | `Array.from(new Set(xs))` has the same members as `xs`, no duplicates, and keeps the order of first occurrences |
| BinaryResolver.SearchDirsFirstOccurrence | src/module.ts:27-29 | the search directories are the PATH entries without duplicates, in order of first occurrence |
| BinaryResolver.Candidates | src/module.ts:34-36 | the flatMap of each directory's row of `join(dir, "inkscape" + ext)`, one candidate per directory and extension |
| BinaryResolver.KeepRegularFiles | src/module.ts:37-39 | the filter keeps exactly the candidates that exist as regular files, and no more elements than it was given |
| BinaryResolver.FindInkscapeBinaries | src/module.ts:26-41 | every path found is a regular file; at most unique directories × extensions are found |
| BinaryResolver.FoundAreCandidates | src/module.ts:34-40 | a path is found if and only if it is `join(dir, "inkscape" + ext)` for a search directory and an extension and it is a regular file |
| BinaryResolver.FoundAreNonEmpty | src/module.ts:34-40 | no path found is the empty string |
| BinaryResolver.FindsUsrBinInkscape | src/module.ts:26-41 | concrete case: with `PATH=/usr/bin` on Linux and an Inkscape there, exactly `/usr/bin/inkscape` is found |
| BinaryResolver.FoundInSearchOrder | src/module.ts:34-40 | results are ordered by directory first, then by extension within a directory |
| BinaryResolver.OffWin32OneCandidatePerDir | src/module.ts:30-33 | off win32 the only extension is `""`, so there is one candidate `dir/inkscape` per directory |
| BinaryResolver.OneExtension | src/module.ts:33-36 | with the single extension `""` the candidates are `join(dir, "inkscape")` in directory order |
| BinaryResolver.Win32WithoutPathExtFindsNothing | src/module.ts:30-32 | on win32 without PATHEXT the extension list is empty and nothing is found |
| ProcessInvoker.ParseNatText | src/module.ts:61 | the decimal text of an exit code reads back as that code |
| ProcessInvoker.CodeText | src/module.ts:61 | the rendering of a code (`null` when there is none) is non-empty and free of `:` |
| ProcessInvoker.CodeTextInjective | src/module.ts:61 | different codes, including null, render differently |
| ProcessInvoker.ExitMessage | src/module.ts:60-64 | the rejection message: `Process exited with code ` and the code text, then `: ` and the decoded stderr, which ends the message |
| ProcessInvoker.ExitMessageDetermines | src/module.ts:60-64 | the rejection message determines both the exit code and the stderr text |
| ProcessInvoker.CloseOutcome | src/module.ts:55-67 | on close the promise resolves if and only if the code is exactly 0, with the concatenated stdout; otherwise it rejects with `Process exited with code <code>: <stderr>` |
| ProcessInvoker.Settle | src/module.ts:53-67 | the promise state after a trace of handler calls, as a fold: pending exactly while no close event has arrived; a rejection from it is always the exit error |
| ProcessInvoker.ChunksInArrivalOrder | src/module.ts:51-54 | stdout and stderr chunks are accumulated in arrival order, each stream separately |
| ProcessInvoker.PendingWithoutClose | src/module.ts:55 | without a close event the promise stays pending |
| ProcessInvoker.SettledByFirstClose | src/module.ts:55-67 | the first close settles the promise from the chunks received before it; later events change nothing |
| ProcessInvoker.ResolvesIffExitCodeZero | src/module.ts:56-66 | over a whole trace: resolved if and only if the first close has code 0, with all stdout before it; else the exit message with the stderr before it |
| ProcessInvoker.Invocation.constructor | src/module.ts:50-52 | both chunk arrays start empty and the promise pending |
| ProcessInvoker.Invocation.OnStdoutData | src/module.ts:53 | appends the chunk to the stdout chunks and changes nothing else |
| ProcessInvoker.Invocation.OnStderrData | src/module.ts:54 | appends the chunk to the stderr chunks and changes nothing else |
| ProcessInvoker.Invocation.OnClose | src/module.ts:55-67 | settles a pending promise by the close outcome; a settled one stays as it is |
| ProcessInvoker.ChooseBin | src/module.ts:48 | an explicit binary wins; otherwise the first binary found; none when nothing is found |
| ProcessInvoker.SpawnTarget | src/module.ts:50 | the file-argument check of `spawn`: a binary is spawned exactly when it is defined and non-empty, and it is spawned as given; a refusal is never an exit error |
| ProcessInvoker.InvokeInkscape | src/module.ts:43-71 | spawns a process if and only if a binary is chosen and it is non-empty, with that binary, the arguments and stdin, and its outcome is then the settlement of the event trace; with no binary it rejects because the file argument is undefined, with an empty one because the file argument is empty, spawning nothing |
| Dom.ReplaceAt | src/module.ts:159 | `replaceChild` as a tree edit at a path, leaving the number of top-level nodes unchanged |
| Dom.RemoveAt | src/module.ts:158 | the removal `appendChild` makes when it moves a node out of its tree: the forest loses one top-level node exactly when the path is valid and top-level |
| Dom.ReplaceAtSelf | src/module.ts:159 | after `replaceChild` the new node is at the old node's position |
| Dom.ReplaceAtDisjoint | src/module.ts:159 | replacing one node leaves every node neither inside its subtree nor on the path down to it where and what it was |
| Dom.ReplaceAtKeepsSubtree | src/module.ts:129 | changing an element's attributes leaves its descendants where and what they were |
| Dom.ReplaceAtBelow | src/module.ts:159 | replacing a node inside an element's subtree keeps the element at its position with its name and attributes |
| Dom.BeforeCases | src/module.ts:125-128 | a node earlier in document order is an ancestor of a later one or lies outside its subtree, never inside it |
| Dom.BeforeAsymmetric | src/module.ts:125-128 | document order is asymmetric |
| Dom.Select | src/module.ts:125-128 | the `.//…` search: the paths of the matching elements in document order; each leads to a matching element |
| Dom.FirstMatch | src/module.ts:139-144 | `select(...)[0]`: absent exactly when nothing is selected, and otherwise a path to a matching element |
| Dom.SelectSound | src/module.ts:125-128 | every selected path leads to a matching element |
| Dom.SelectComplete | src/module.ts:125-128 | every matching element is selected |
| Dom.SelectOrdered | src/module.ts:125-128 | the selection is in document order |
| Dom.FirstMatchSpec | src/module.ts:139-144 | the first match has the id, and every other element with that id comes after it in document order; no match only when no element has the id |
| Dom.MoveOutLeavesFewerMatches | src/module.ts:158 | moving a matching element out of the converted tree leaves strictly fewer matches in it |
| Reconciler.FillOpacity0Style | src/module.ts:110-114 | empty style gives exactly `fill-opacity: 0;`; otherwise the old style is a prefix, one `;` is inserted exactly when it does not end in one, and `fill-opacity: 0;` ends the result |
| Reconciler.FillOpacity0StyleTwice | src/module.ts:111-114 | a second rewrite appends only the declaration, because the first leaves a style ending in `;` |
| Reconciler.WithFillOpacity0 | src/module.ts:109-116 | only the `style` attribute changes; the name, the children and every other attribute are kept |
| Reconciler.SetFillOpacity0 | src/module.ts:109-116 | the method's result is the element with its style rewritten: the old style, `;` exactly when it lacks a closing one, then the declaration |
| Reconciler.Snapshot | src/module.ts:125-128 | the snapshot lists each selected SVG text with its path and its node before any change |
| Reconciler.SnapshotSpec | src/module.ts:125-128 | every SVG text of the copy is in the snapshot, and the snapshot is in document order |
| Reconciler.Step | src/module.ts:129-159 | one iteration of the loop for one snapshot entry: a crashed state is final; it records at most the entry's own position as grouped, and adds at most one warning to those already printed |
| Reconciler.CrashIsFinal | src/module.ts:155-159 | once `replaceChild` has thrown, no later iteration runs |
| Reconciler.MergeTexts | src/module.ts:125-160 | the loop over the snapshot computes the merge fold, stopping at a throw |
| Reconciler.StepKeepsLaterText | src/module.ts:155-159 | an iteration leaves every later text in the document where and what it was |
| Reconciler.StepKeepsInPlace | src/module.ts:155-159 | the iteration for one text leaves every later text still in the document where and what it was |
| Reconciler.UnvisitedTextsStayInPlace | src/module.ts:125-160 | before each iteration, every unvisited text still in the document is exactly where and what the snapshot recorded |
| Reconciler.UnmatchedTextWarns | src/module.ts:129-154 | a text without id, or whose id matches nothing, keeps its position with only its style changed; exactly one warning of the right kind is added; the converted tree and the groups are unchanged; a text no longer in the document leaves it unchanged, and every node neither inside the text's subtree nor on the path down to it stays where and what it was |
| Reconciler.MatchedTextGrouped | src/module.ts:138-159 | a matched text is replaced at its position by a `g` of its transparent clone then the first element with its id, which leaves the converted tree (fewer matches remain); no warning; a text no longer in the document leaves it unchanged, and every node neither inside the text's subtree nor on the path down to it stays where and what it was |
| Reconciler.TopLevelMatchedTextCrashes | src/module.ts:155-159 | a matched text without a parent element makes the loop throw and end |
| Reconciler.EveryTextAccountedFor | src/module.ts:125-160 | without a throw every visited text is either grouped or warned about, once; warnings only accumulate |
| Reconciler.NoCrashBelowTopLevel | src/module.ts:155 | a loop over texts that all have a parent never throws |
| Reconciler.MergeCompletes | src/module.ts:125-160 | when no text sits at the top level the merge completes, and warnings plus groups number the SVG texts of the copy |
| Reconciler.SnapshotBefore | src/module.ts:125-128 | of two snapshot entries, the earlier listed is earlier in document order |
| Reconciler.StepShape | src/module.ts:129-159 | an iteration that does not throw records at most its own position as grouped; it edits the document only at the text's position, and only while the text is in the document |
| Reconciler.StepSettles | src/module.ts:129-159 | after its iteration, a text still in the document is its faded element, or a `g` of its faded clone and an element with its id when it was grouped |
| Reconciler.ReplaceKeepsSettles | src/module.ts:159 | replacing a node later in document order keeps an earlier text's group intact, and keeps an ungrouped text's name and attributes |
| Reconciler.EditKeepsSettled | src/module.ts:129-159 | the edits of a later iteration keep what an earlier iteration left at its text's position |
| Reconciler.StepKeepsSettled | src/module.ts:125-160 | a later iteration keeps an earlier text settled |
| Reconciler.ReplacedPrecede | src/module.ts:125-160 | every position grouped so far precedes, in document order, every text not yet visited |
| Reconciler.SettledFrom | src/module.ts:125-160 | once visited, a text stays settled through every later iteration that does not throw |
| Reconciler.MergeOutcome | src/module.ts:125-160 | after a merge that completes, each text still in the document is either an attribute-less `g` holding its transparent clone then an element with its id, or an `svg:text` with its attributes kept except the style, which is the rewritten one |
| Reconciler.Target | src/module.ts:48-50 | the binary a pass spawns is the non-empty binary `ChooseBin` picks |
| Reconciler.LaterPasses | src/module.ts:123-161 | after the first pass: a refused launch exactly when the pass binary is undefined or empty, then nothing more is spawned; a success used all three processes; the later processes run that binary, export from the sanitized copy, then sanitize |
| Reconciler.ConvertWith | src/module.ts:118-162 | at most three processes; a success used all three: sanitize on the input, export, sanitize; each pass uses the binary chosen for it and none is spawned with an empty name; a launch is refused exactly when the first pass's binary is undefined or empty, or the first pass succeeded and the later passes' binary is |
| Reconciler.LaunchRefusedReason | src/module.ts:48-50 | a refused launch is never an exit error; its reason is the empty file argument exactly when the binary of the pass that refused is `""` |
| Reconciler.ConvertSVGTextToPath | src/module.ts:118-162 | corrected definition (see Findings): every process runs the binary chosen from the option, the given one when there is one; the launch is refused, with nothing spawned, exactly when no non-empty binary can be chosen; an explicit `""` is refused as an empty file argument |
| Reconciler.ConvertSVGTextToPathAsWritten | src/module.ts:122-123 | the first pass runs the binary chosen without the option; the later passes run the one chosen with it |
| Reconciler.ConvertPassOrder | src/module.ts:122-161 | a success sanitizes the input, exports from the sanitized copy, merges, and returns the sanitize of the merged copy; its warnings are the merge's |
| Reconciler.WarningsAreNotFatal | src/module.ts:134-154 | when every pass succeeds and no text is at the top level, the conversion succeeds however many texts go unmatched |
| Reconciler.AsWrittenFirstPassIgnoresBinary | src/module.ts:122 | as written, the first pass runs the first Inkscape on PATH even when a binary was given, and is refused for an undefined binary when none is on PATH |
| Reconciler.AsWrittenSpawnsBinaryFromPath | src/module.ts:122 | concrete case: the as-written conversion spawns `/usr/bin/inkscape` although `/opt/inkscape/bin/inkscape` was given; the corrected one spawns the given one |
| Reconciler.AsWrittenFailsWithoutPath | src/module.ts:122 | concrete case: without PATH the as-written conversion fails although a binary was given; the corrected one succeeds |
| Reconciler.MergeExample | src/module.ts:118-162 | `<svg><text id="t1">Hi</text></svg>` merged with `<svg><path id="t1" d="M0 0"/></svg>` gives `<svg><g><text id="t1" style="fill-opacity: 0;">Hi</text><path id="t1" d="M0 0"/></g></svg>`, leaves `<svg/>` as the converted tree, and warns nothing |

## Left out

- Spawning the process, the pipes, and the single `stdin.write` and `end` (src/module.ts:50, 68-69) are OS I/O. The process is an abstract event trace, and `Spawn` records what would be started.
- `spawn` raising an `error` event for a binary that cannot be executed is not modelled, because the source attaches no handler for it.
- `Buffer.toString` and `TextDecoder` are a parameter `decode`, because Unicode decoding is outside Dafny's string model.
- xmldom parsing and serialisation, TextEncoder, and the xpath engine are foreign libraries. Documents are value trees, and searches are plain functions.
- The DOM nodes are updated in place in the source. Here they are values addressed by path, so object identity is captured only through the snapshot's paths and `Attached`.
- The clone at src/module.ts:122 is not modelled: the input document is a value, so it is never mutated.
- Inkscape's own behaviour is the `Runner` parameter: its sanitising, its conversion, its id assignment, and the parse of its output.
- Reconciler.ConvertWith: a `Runner` failure stands for any rejection of a pass, process exit or parse error alike, as one message. The environment, the platform and the file system are one snapshot for the whole conversion, although each pass without an explicit binary re-runs discovery when it starts (src/module.ts:48). So a binary that disappears between passes, after the first process ran, is not modelled; the binary-choice clauses of `ConvertWith` and `ConvertSVGTextToPath` hold for that snapshot.
- `path.join` normalisation (`..`, repeated separators, a trailing separator) is not modelled; only an empty directory is special-cased. The string handling of the join is a library concern.
- An id containing `'` makes the XPath query at src/module.ts:141 malformed. The model compares ids as plain strings.
- `os.platform()`, `process.env`, and `fs.existsSync` with `statSync` are the parameters `platform`, `Env` and a file-system map.
- `console.warn` is the `warnings` sequence. `WarningText` gives the printed text.
- src/cli.ts is command-line parsing and stream wiring. src/inkscape.test.ts only prints the output of real Inkscape calls. Neither is part of this model.

## Findings

| source | as written | input that shows it | evidently intended | confidence | as-written member | corrected member |
|---|---|---|---|---|---|---|
| src/module.ts:122 | the first `sanitizeSVG` call passes no `{ inkscape }`, so that pass falls back to the first Inkscape on PATH | `inkscape` = `/opt/inkscape/bin/inkscape` with `/usr/bin/inkscape` on PATH: the first pass spawns `/usr/bin/inkscape`; with PATH unset the conversion fails although a binary was given | every pass runs the given binary, as lines 123 and 161 do | high for the mismatch, not executed | Reconciler.ConvertSVGTextToPathAsWritten, Reconciler.AsWrittenSpawnsBinaryFromPath, Reconciler.AsWrittenFailsWithoutPath | Reconciler.ConvertSVGTextToPath |
