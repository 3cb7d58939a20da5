# Verified models of the emulator's state-keeping code

This project models the parts of the repository that keep state over many calls
and have to agree with something simpler: the skyline rectangle packer and the
undo store that come with the user interface library, the SSE4.2 string
compare, the bounded tables behind the diagnostics, the planning of guest and
host addresses, and the text and byte formats that are written in one place and
read in another. Each operation is a method over the state the program keeps,
specified by a function of an unbounded history or of plain values, and the
promises of the program are lemmas about that specification. `dafny verify
dfyconfig.toml` checks the whole project.

The modules, by what they model:

- `Skyline`, `RectPack`, `PackRects`, `NodePool`: the packer. `Skyline` is the
  theory of column heights; `RectPack` is the node pool with its two linked
  lists, held as one array of nodes that link by index, rewired in place and tied
  to a ghost path for each list; `PackRects` is the packing of a whole array;
  `NodePool` says when the pool can run dry.
- `Edits`, `UndoStore`, `TextEditor`, `EditRuns`: the undo store as two stacks of
  edits in one pair of arrays, the editing operations on top of it, and runs of
  edits, undos and redos.
- `Masks`, `Sse42`: the string compare against the operation of section 4.1 of
  volume 2 of the Intel 64 and IA-32 Architectures Software Developer's Manual.
- `DllSearch`, `TailRing`, `ReportLimiter`, `Fairness`, `Budgets`: bounded
  tables and counters against unbounded histories, the last one as interleaved
  steps of any number of threads.
- `Bits`, `MapPlan`, `LowAlias`: host-page planning and the translation between
  guest and host addresses.
- `RegistryLines`, `Registry`, `RegistryRepairs`, `RegistryTexts`, `WineRepairs`:
  registry insertion, the repairs built on it, and the texts they leave.
- `Sxs`, `SxsQueue`, `FxState`: side-by-side manifest names and the floating-point
  part of a signal frame.
- `Letters`, `ModuleNames`, `ManifestNames`: case folding letter by letter, and which
  paths name which module or manifest.
- `Texts`, `Options`, `Numbers`: shared helpers.

Eight places where the code differs from what it or its architecture says, each
with the exact condition under which it agrees and with inputs for which it does
not:

- The packer's documentation promises that rounded widths never run out of nodes
  (lib/imgui/imstb_rectpack.h:145-146 and 251-252). They do, because positions
  advance by the unrounded width: for every target wider than its number of nodes
  `NodePool.DrainPool` builds the run that uses up the pool, after which a unit
  box that still fits is turned down. It still fits if and only if the target has
  a second row or the rounded width leaves room for it in the one row there is.
  `PackRects.NodesSuffice` proves the case that is safe.
- An undo that has to discard redo records completes its record in a slot other
  than the one it filled (lib/imgui/imstb_textedit.h:1235), so the record left for
  redoing tells another step. `UndoStore.UndoState.Undo` states exactly when it is
  the right one, and `EditRuns.SpoiledRedo` is a run in which it is not.
- Once that has happened, a later undo may find that discarding cannot make the
  room it needs. If all redo records give back too little, it takes the return the
  code says never happens (lib/imgui/imstb_textedit.h:1229-1230) and so does every
  undo after it (`EditRuns.SwallowedUndos`: insert 900, 700 and 450 characters,
  then undo). If one gives back too much, the number of characters to move at line
  1128 is negative (`EditRuns.UndoBeyond`: 550, 500 and 600 characters).
- Redoing what such a record tells can take the redo characters past the end of
  their array, and the next undo that keeps characters saves them there
  (lib/imgui/imstb_textedit.h:1237-1242). It does if and only if it takes characters
  out, they do not fill the store, and the redo characters begin past the end
  (`UndoStore.Spills`); `EditRuns.SpilledUndo` is the run (100, 400 and 560
  characters each put in before the others, three undos, two redos).
- Redoing such a record can also take characters out of the text without room to
  keep them (lib/imgui/imstb_textedit.h:1285-1287). The text before leads the way
  back if and only if there was room or the text did not change
  (`TextEditor.WayAfterRedo`); `EditRuns.LostText` is a run after which no number of
  undos brings the text back (500, 600 and 450 characters).
- An undo whose characters would fill the store keeps none of them
  (lib/imgui/imstb_textedit.h:1221-1223), and the redo puts none back.
  `UndoStore.UndoState.Undo` has the condition. `EditRuns.CutShort` and
  `EditRuns.RedoBeyond` are runs without any discard (insert 1000 characters and one
  behind them): the second redo tells a place past the end of the text.
- Equal-ordered turns down a match that runs off the end of the register
  (include/sse42_string_compare.h:145), where the manual's loop ends and the bit
  stays set. `Sse42.MatchedIsAggregated` says the two agree at a position if and
  only if this is not the case there, and `Sse42.OrderedDeparts` is a family
  of operands for which it is.
- Adding the registry value `a=b` makes a missing value `a` readable
  (`RegistryLines.EqualsSignSpoils`); `RegistryLines.OthersUnchanged` has the
  exact condition, and names without an equals sign always meet it.

An undo takes effect if and only if its record keeps inside the text and either
nothing has to be discarded for it or some number of oldest redo records gives back
enough characters and not too many, unless it spills (`UndoStore.Takes`). As long as
both stacks are in place, which only a discard ends, the store can take every undo
(`UndoStore.SoundTakes`), and an edit puts both in place again. When an undo leaves
the arrays or the text is stated as well (`UndoStore.BeyondExactly`).

## Model

| member | source | states |
|---|---|---|
| Skyline.RestYIsPeak | lib/imgui/imstb_rectpack.h:315-325 | the y a box rests at is the greatest height below it, and is reached |
| Skyline.EmptyAreaOverFlat | lib/imgui/imstb_rectpack.h:330-336 | a flat stretch adds width times gap to the area left empty below a box |
| Skyline.EmptyAreaRaised | lib/imgui/imstb_rectpack.h:321-329 | raising the base adds one rectangle over everything visited so far |
| Skyline.RaiseKeepsPacked | lib/imgui/imstb_rectpack.h:468-503 | a box put where it rests, with the skyline raised over it, overlaps nothing, stays inside, and lowers the skyline nowhere |
| Skyline.SlideLeft | lib/imgui/imstb_rectpack.h:369-379 | the lowest position over every x is reached at the start of some segment |
| Skyline.PlaceShows | lib/imgui/imstb_rectpack.h:475-503 | the rewired profile spells out exactly the raised heights, so no column is lost or raised by mistake |
| Skyline.PlaceIncreases | lib/imgui/imstb_rectpack.h:505-511 | the list stays strictly increasing in x and grows by at most one node |
| Skyline.FitsMonotone | lib/imgui/imstb_rectpack.h:459-466 | what fits on a higher skyline fits on a lower one, so a refusal stays justified |
| Skyline.FewSegments | lib/imgui/imstb_rectpack.h:141-142 | distinct segment starts bound the number of active nodes by the width |
| RectPack.WasteIsEmptyArea | lib/imgui/imstb_rectpack.h:315-342 | waste is exactly the area left empty below the box, whenever the box starts where its first segment starts or that segment is above the floor |
| RectPack.ScanIsExact | lib/imgui/imstb_rectpack.h:318-339 | what the scan has accumulated is exact after any number of segments |
| RectPack.BestIsLowest | lib/imgui/imstb_rectpack.h:369-451 | the position chosen is the lowest over all x, not only over node positions |
| RectPack.NothingFits | lib/imgui/imstb_rectpack.h:363-450 | when both passes find no link, no position on the skyline fits |
| RectPack.NothingFitsBetter | lib/imgui/imstb_rectpack.h:396-445 | after both best-fit passes no left- or right-aligned position scores better |
| RectPack.ListsSpliced | lib/imgui/imstb_rectpack.h:468-527 | after the rewiring both lists are chains, share no node, hold every node, and the active one spells the placed profile |
| RectPack.SkylinePlaced | lib/imgui/imstb_rectpack.h:453-530 | a placement keeps heights within the target and all boxes disjoint |
| RectPack.PlacedSound | lib/imgui/imstb_rectpack.h:468-530 | rewired lists, raised heights and the new box together keep the packer's whole invariant |
| RectPack.Packer.constructor | lib/imgui/imstb_rectpack.h:262-292 | the initial state satisfies the whole invariant with every user node free |
| RectPack.Packer.SetupHeuristic | lib/imgui/imstb_rectpack.h:230-240 | changing the heuristic between calls keeps the invariant |
| RectPack.Packer.SetupAllowOutOfMem | lib/imgui/imstb_rectpack.h:242-260 | changing the alignment between calls keeps the invariant |
| RectPack.Packer.FindMinY | lib/imgui/imstb_rectpack.h:295-343 | the resting height is exact from any start inside a segment, and the waste is what the scan defines |
| RectPack.Packer.TryLeftEdges | lib/imgui/imstb_rectpack.h:369-393 | after the first pass no left-aligned position beats the best |
| RectPack.Packer.TryRightEdges | lib/imgui/imstb_rectpack.h:414-445 | after the second pass no right-aligned position beats the best, and the best never got worse |
| RectPack.AlignUpRounds | lib/imgui/imstb_rectpack.h:358-360 | the width sought is the least multiple of the alignment that is at least the box's |
| RectPack.Packer.FindBestPos | lib/imgui/imstb_rectpack.h:351-451 | a link exactly when the box can be placed under the heuristic with its width rounded up to the least multiple of the alignment, and then the best position and its resting height |
| RectPack.Packer.PackRectangle | lib/imgui/imstb_rectpack.h:453-530 | packs if and only if a node is free and some position fits the rounded width; adds exactly that box; otherwise nothing changes; the invariant holds either way |
| RectPack.Packer.FreeCovered | lib/imgui/imstb_rectpack.h:491-497 | exactly the covered nodes move to the front of the free list, in reverse |
| RectPack.Packer.Insert | lib/imgui/imstb_rectpack.h:468-487 | the first free node is tied in before or behind the segment found, and no other link changes |
| RectPack.Packer.TieIn | lib/imgui/imstb_rectpack.h:499-503 | the new node leads to the first kept one, pulled right to the box's edge if it starts left of it |
| RectPack.Packer.Splice | lib/imgui/imstb_rectpack.h:468-503 | the node pool after the rewiring spells the placed profile |
| RectPack.Packer.PlaceBox | lib/imgui/imstb_rectpack.h:468-503 | one placement keeps lists, skyline and boxes in agreement |
| PackRects.Unsorted | lib/imgui/imstb_rectpack.h:563-565 | sorting by the marks puts every rectangle back at its own index |
| PackRects.NodesSuffice | lib/imgui/imstb_rectpack.h:141-142 | with at least as many nodes as columns the free list is never empty |
| PackRects.NoRoomStays | lib/imgui/imstb_rectpack.h:570-582 | a rectangle refused once would be refused on every later skyline |
| PackRects.BackInOrder | lib/imgui/imstb_rectpack.h:584-585 | after sorting back, index i holds the caller's rectangle i with its own result |
| PackRects.PlacedInOrder | lib/imgui/imstb_rectpack.h:567-582 | boxes are placed tallest first, wider first among equals |
| PackRects.PackOne | lib/imgui/imstb_rectpack.h:571-581 | empty goes to the origin, packed gets its box, unpacked gets the mark; with enough nodes unpacked means nothing fits |
| PackRects.OutcomeIs | lib/imgui/imstb_rectpack.h:571-592 | an outcome in plain terms: without width or height at the origin and counted as packed; otherwise packed exactly with a box of its own size where it lies |
| PackRects.PackSorted | lib/imgui/imstb_rectpack.h:570-582 | every rectangle is settled once and every new box belongs to one rectangle |
| PackRects.SetFlags | lib/imgui/imstb_rectpack.h:587-592 | the flag is 1 exactly for empty and placed rectangles; no placed box carries the unpacked mark |
| PackRects.PackRects | lib/imgui/imstb_rectpack.h:558-596 | the whole call: identity of the inputs, outcome of each, the returned flag, order of placement, and no room for what was left out |
| PackRects.NoOverlap | lib/imgui/imstb_rectpack.h:558-596 | what one call packs is inside the target and pairwise disjoint |
| PackRects.PackMany | lib/imgui/imstb_rectpack.h:130-139 | any number of calls on one target, each set up anew and on any array, the same one again too: all that the calls packed, as each left it, is inside the target and pairwise disjoint; the rectangles keep their identity and sizes |
| PackRects.SharedApart | lib/imgui/imstb_rectpack.h:130-139 | rectangles with boxes of their own among those placed, from one call or from two, do not overlap |
| NodePool.RoundedFits | lib/imgui/imstb_rectpack.h:252-258 | the rounded unit width still fits beside all earlier unit boxes |
| NodePool.NextStep | lib/imgui/imstb_rectpack.h:453-503 | the next unit box goes right behind the last one and uses up one node |
| NodePool.StillFits | lib/imgui/imstb_rectpack.h:145-146 | with one node gone per unit box another unit box fits if and only if there is a second row or the rounded width still fits beside them |
| NodePool.DrainPool | lib/imgui/imstb_rectpack.h:145-146 | for every target wider than its node count the pool runs dry with the default settings, and a unit box is turned down that fits if and only if there is a second row or the rounded width leaves room, against the documentation |
| Edits.InverseUndoes | lib/imgui/imstb_textedit.h:1201-1208 | swapping the two lengths of a record, with the characters taken out, undoes it |
| Edits.KeptIsLongest | lib/imgui/imstb_textedit.h:1155-1169 | making room keeps the longest run of newest edits that leaves enough characters and a record |
| UndoStore.UndoShifted | lib/imgui/imstb_textedit.h:1104-1112 | discarding the oldest undo record leaves all others with their own characters |
| UndoStore.RedoShifted | lib/imgui/imstb_textedit.h:1128-1143 | discarding the oldest redo record leaves all others with their own characters |
| UndoStore.UndoFramed | lib/imgui/imstb_textedit.h:1203-1242 | work on the redo side does not touch the undo stack |
| UndoStore.RedoFramed | lib/imgui/imstb_textedit.h:1270-1296 | work on the undo side does not touch the redo stack |
| UndoStore.UndoState.FlushRedo | lib/imgui/imstb_textedit.h:1091-1095 | empties the redo stack and establishes the full invariant |
| UndoStore.UndoState.DiscardUndo | lib/imgui/imstb_textedit.h:1097-1114 | the undo stack loses exactly its oldest edit |
| UndoStore.UndoState.DropOldest | lib/imgui/imstb_textedit.h:1116-1148 | on any redo side with its pointers inside the arrays: what one discard gives back, where every other record and its characters go, and when the number of characters to move would be negative |
| UndoStore.UndoState.DiscardRedo | lib/imgui/imstb_textedit.h:1116-1148 | keeps the pointers inside the arrays on any redo side; a sound redo stack loses exactly its oldest step, and there the discard never fails |
| UndoStore.UndoState.MakeRoom | lib/imgui/imstb_textedit.h:1150-1172 | terminates with a record and enough characters free, keeping the longest possible run of newest edits; an edit too long empties the stack |
| UndoStore.UndoState.MakeUndo | lib/imgui/imstb_textedit.h:1174-1192 | pushes exactly the edit that restores the replaced characters |
| UndoStore.NotMakeable | lib/imgui/imstb_textedit.h:1227-1234 | discarding cannot make the room when all records together give back too little, or when one that is needed gives back too much |
| UndoStore.ReleasedIsSize | lib/imgui/imstb_textedit.h:1121-1124 | on a sound redo side the records give back exactly the characters their steps restore |
| UndoStore.UndoState.RoomForRedo | lib/imgui/imstb_textedit.h:1227-1234 | on any redo side inside the arrays the loop makes the room if and only if some number of oldest records can, discarding as few as will do; it returns early if and only if all of them together give back too little, and otherwise a move has a negative length; the records that stay, and their characters, have moved up together |
| UndoStore.UndoState.SaveForRedo | lib/imgui/imstb_textedit.h:1203-1243 | the redo record on any redo side: kept with its characters, kept without them when they fill the store, or, after a discard, telling what the newest redo record told, with the other records and characters moved up; by the exact guard given up, or outside the arrays or the text |
| UndoStore.UndoState.KeepTaken | lib/imgui/imstb_textedit.h:1224-1243 | the characters taken out are stored right below those of the redo records that stay, after a discard or without one; past the array's end exactly when the redo characters already begin there |
| UndoStore.UndoState.Undo | lib/imgui/imstb_textedit.h:1194-1260 | from every state whose undo side is intact, whatever the redo side tells and wherever its characters begin: takes effect if and only if its record keeps inside the text, it does not spill, and nothing has to be discarded or discarding can make the room; then the text before the newest edit comes back and the rest of the undo stack stays, else nothing is undone; the redo record tells that edit if and only if nothing was cut, and nothing was discarded unless the stale record has the same shape |
| UndoStore.BeyondExactly | lib/imgui/imstb_textedit.h:1126-1242 | an undo goes outside if and only if it would keep characters past the array's end, move a negative number of them, or its record tells a place outside the text |
| UndoStore.UndidIs | lib/imgui/imstb_textedit.h:1203-1260 | both halves of an undo together are what an undo promises |
| UndoStore.SoundTakes | lib/imgui/imstb_textedit.h:1226-1234 | with both stacks in place discarding always makes the room, so every undo takes effect |
| UndoStore.UndoReaches | lib/imgui/imstb_textedit.h:1194-1260 | undoing keeps the undo side intact, and an undo that is given up loses no undo record |
| UndoStore.UndoState.SaveForUndo | lib/imgui/imstb_textedit.h:1269-1296 | the undo record keeps the characters the redo takes out |
| UndoStore.UndoState.Redo | lib/imgui/imstb_textedit.h:1262-1311 | carries out what the newest redo record tells, exactly when that keeps inside the text and the store, and pushes its inverse, or an empty record when there is no room; every other record and all characters beyond the undo stack stay as they were; with both stacks in place it is the edit last undone, and there is always room |
| UndoStore.ForthIs | lib/imgui/imstb_textedit.h:1269-1311 | both halves of a redo together are what a redo promises |
| UndoStore.RedoReaches | lib/imgui/imstb_textedit.h:1262-1311 | redoing keeps the undo side intact, whatever the redo record told |
| TextEditor.RedoneAfterUndone | lib/imgui/imstb_textedit.h:1194-1311 | a redo after an undo gives back text and both stacks |
| TextEditor.RedosRestore | lib/imgui/imstb_textedit.h:1194-1311 | k undos and then k redos give back text and both stacks, for every k |
| TextEditor.RecentTexts | lib/imgui/imstb_textedit.h:1155-1169 | dropping oldest edits and oldest texts keeps the newest texts reachable |
| TextEditor.ChangeRemembered | lib/imgui/imstb_textedit.h:1313-1336 | after a change, undoing gives the texts before the newest surviving changes |
| TextEditor.TextEdit.Change | lib/imgui/imstb_textedit.h:1313-1336 | in every state edits, undos and redos reach: the change is applied, redo is flushed, both stacks are in place, and the reachable past is the old one cut to what is kept, plus the old text |
| TextEditor.WentBackIs | lib/imgui/imstb_textedit.h:1194-1260 | an undo that takes effect leads to the newest remembered text and keeps all older ones reachable, whatever the redo side tells |
| TextEditor.TextEdit.Undo | lib/imgui/imstb_textedit.h:766-769 | while a text is remembered goes back to the newest one if and only if the store can take the undo, and stays where undoing is possible; with both ways intact and nothing cut or discarded, the way forward gains the text left |
| TextEditor.WayAfterRedo | lib/imgui/imstb_textedit.h:1281-1304 | after a redo the text before it leads the way back if and only if the redo had room to keep what it took out or changed nothing |
| TextEditor.WentForwardIs | lib/imgui/imstb_textedit.h:1262-1311 | a redo keeps every remembered text exactly then, and otherwise none; with the way forward intact it leads to the text last undone |
| TextEditor.TextEdit.Redo | lib/imgui/imstb_textedit.h:771-774 | goes forward to the text last undone, or does what the newest redo record tells, also after a redo that was cut |
| TextEditor.TextEdit.Delete | lib/imgui/imstb_textedit.h:588-594 | removes the range and remembers the text before |
| TextEditor.TextEdit.Clamp | lib/imgui/imstb_textedit.h:575-586 | cursor and selection end inside the text and move only if they were outside |
| TextEditor.TextEdit.DeleteSelection | lib/imgui/imstb_textedit.h:596-610 | removes exactly the selected text in either direction and puts the cursor at its start |
| TextEditor.TextEdit.Cut | lib/imgui/imstb_textedit.h:693-702 | removes the selected text and returns whether there was a selection; without one nothing changes |
| TextEditor.TextEdit.Paste | lib/imgui/imstb_textedit.h:704-716 | replaces the selection by the pasted text; the text without the selection is the newest one remembered |
| TextEditor.TextEdit.TypeChar | lib/imgui/imstb_textedit.h:732-758 | overtypes, replaces the selection or inserts, remembering the text just before; refuses a line break in single-line mode |
| EditRuns.UndoThenRedo | lib/imgui/imstb_textedit.h:1194-1311 | k undos, up to as many as there are texts remembered, and then k redos on the field give back text, both stacks, remembered texts and pointers, whenever the pointers leave room to keep what each undo takes out |
| EditRuns.AfterTwo | lib/imgui/imstb_textedit.h:1226-1243 | where two undos lead when the second discards what the first kept: the new record takes the place of the discarded one and gives back as many characters as that did |
| EditRuns.SwallowedUndos | lib/imgui/imstb_textedit.h:1228-1230 | after such a discard the next undo, and each of any number after it, is given up, and the first text stays (such as 900, 700 and 450 characters) |
| EditRuns.UndoBeyond | lib/imgui/imstb_textedit.h:1126-1128 | after such a discard the next undo would move a negative number of characters (such as 550, 500 and 600 characters) |
| EditRuns.SpoiledRedo | lib/imgui/imstb_textedit.h:1228-1235 | for any three texts whose last two do not fit the store together, two undos leave a redo record that tells where the third text went, past the end of the first |
| EditRuns.FrontThird | lib/imgui/imstb_textedit.h:1226-1243 | the undo that discards leaves two records of one text whose characters overlap |
| EditRuns.SpilledUndo | lib/imgui/imstb_textedit.h:1237-1242 | after two redos of those the redo characters begin past the array's end, and the next undo would save characters there (such as 100, 400 and 560 characters) |
| EditRuns.LostText | lib/imgui/imstb_textedit.h:1285-1287 | after one redo of such a record the whole text is gone, and no number of undos brings it back (such as 500, 600 and 450 characters) |
| EditRuns.CutShort | lib/imgui/imstb_textedit.h:1221-1223 | an insertion as long as the store and one behind it are undone; the redo of the first puts nothing back, and nothing was discarded |
| EditRuns.RedoBeyond | lib/imgui/imstb_textedit.h:1304-1308 | the redo of the second then tells a place past the end of the text (such as 1000 characters and one) |
| Sse42.LengthIsMagnitude | include/sse42_string_compare.h:46-59 | the explicit length is the absolute value of the register read as a signed number, cut to the element count, the most negative value included |
| Sse42.ImplicitLength | include/sse42_string_compare.h:61-74 | the number of elements before the first zero element |
| Sse42.AnyEqual | include/sse42_string_compare.h:105-114 | the bit says whether some valid element of the first operand is equal |
| Sse42.InRange | include/sse42_string_compare.h:115-127 | the bit says whether some complete valid range holds the element |
| Sse42.ElementsAreBytes | include/sse42_string_compare.h:78-85 | elements compare as their bytes do: words low byte first, signed ones in two's complement |
| Sse42.ControlBits | include/sse42_string_compare.h:41-43 | which bits of the control byte give data size, sign, aggregation, polarity and form of the result |
| Sse42.MatchIsRaw | include/sse42_string_compare.h:100-160 | bit j of IntRes1 in terms of the operands' bytes and the control byte's bits alone, for all four aggregations |
| Sse42.RawResultIs | include/sse42_string_compare.h:100-207 | mask, index and length flags in the same terms |
| Sse42.EachEqual | include/sse42_string_compare.h:128-136 | the bit says equal, or both invalid |
| Sse42.Ordered | include/sse42_string_compare.h:137-155 | the bit says the whole first operand stands in the valid second one from here |
| Sse42.MatchedIsAggregated | include/sse42_string_compare.h:104-156 | the code's bit is the manual's IntRes1 bit if and only if equal-ordered does not run off the register there |
| Sse42.OrderedDeparts | include/sse42_string_compare.h:145-148 | whenever the second operand's last byte begins a two-byte search string, the manual sets the last bit and the code does not |
| Sse42.Aggregate | include/sse42_string_compare.h:100-160 | every bit of IntRes1, and none beyond the element count |
| Sse42.Polarize | include/sse42_string_compare.h:162-174 | every bit of IntRes2 under the four polarities of the manual |
| Sse42.FindIndex | include/sse42_string_compare.h:177-189 | the lowest or highest set bit, or the element count |
| Sse42.MaskRegister | include/sse42_string_compare.h:190-204 | the expanded or plain mask, byte for byte |
| Sse42.Compare | include/sse42_string_compare.h:91-210 | mask, index, register and four flags equal the manual's for all operands, lengths and control bytes away from that case; and mask, index and length flags in terms of raw bytes and control bits for all of them |
| Sse42.StrcmpIndex | include/sse42_string_compare.h:162-189 | with 0x1a the index is the first place the two operands differ |
| Sse42.StringsDiffer | include/sse42_string_compare.h:61-210 | on two C-string chunks 0x1a gives the first difference up to and including the terminator, or 16 |
| Letters.LettersFold | include/dll_search_trace.h:111-112 | the 26 letters fold to their small ones, and no other character changes |
| Letters.FoldedAlike | include/dll_search_trace.h:111-112 | two texts fold alike if and only if they differ in the case of letters only |
| DllSearch.ModuleName | include/dll_search_trace.h:111-153 | a name is a lowercased last component that ends in .dll and fits |
| ModuleNames.NameIs | include/dll_search_trace.h:111-153 | of a folder and a last component: the component in small letters if it has 4 to 63 characters and ends in .dll in any case, else none |
| ModuleNames.SameModule | include/dll_search_trace.h:158-165 | paths that differ in the case of letters only name the same module, if any |
| DllSearch.ReadModuleName | include/dll_search_trace.h:114-153 | the loops compute that name |
| DllSearch.Session.Holds | include/dll_search_trace.h:204-229 | while no more than 256 names were opened, the table holds exactly those |
| DllSearch.Session.NoteResolved | include/dll_search_trace.h:208-229 | notes the name once; a full table drops it and never evicts |
| DllSearch.Session.WasResolved | include/dll_search_trace.h:231-239 | true exactly for the names in the table |
| DllSearch.OthersMayOpen | include/dll_search_trace.h:155-170 | what other processes open leaves this process's table right |
| DllSearch.Reprobed | include/dll_search_trace.h:314-319 | probing a name that has a slot keeps one newest slot per name |
| DllSearch.TakenOver | include/dll_search_trace.h:320-356 | giving a spare slot to a new name loses no live miss |
| DllSearch.AllSlotsLive | include/dll_search_trace.h:321-326 | a full table of live misses means 32 of them |
| DllSearch.Trace.FindVictim | include/dll_search_trace.h:327-346 | the oldest spare slot, or the oldest of all only when none is spare |
| DllSearch.Trace.VictimIsNoMiss | include/dll_search_trace.h:321-346 | with fewer than 32 live misses and at most 256 opened names the victim is never a live miss |
| DllSearch.Trace.NoteResult | include/dll_search_trace.h:304-363 | the history grows by the probe, every live miss keeps its slot while those bounds hold, and other processes' tables stay right |
| DllSearch.NewestIsMostRecent | include/dll_search_trace.h:371-392 | the live slot with the highest sequence is the most recent miss of the whole history |
| DllSearch.Trace.LastUnresolvedModule | include/dll_search_trace.h:365-402 | exactly the most recently probed name that no process ever opened, cut to the buffer, or empty |
| DllSearch.OneMoreProbe | include/dll_search_trace.h:304-363 | one more probe by any process keeps a trace in step with the run, and complete while the run fits the tables |
| DllSearch.Diagnose | include/dll_search_trace.h:304-402 | after any interleaved run of probes by any number of processes, each is told the module it searched for most recently that none has opened, if at most 256 names were opened and it had fewer than 32 live misses before each of its probes |
| TailRing.EntryIsCall | include/syscall_tail_ring.h:58-76 | entry k holds the k-th call begun, under its number |
| TailRing.EntryIsLastClose | include/syscall_tail_ring.h:78-84 | a call reads as pending until its token is closed and then as its latest close |
| TailRing.StaysFor | include/syscall_tail_ring.h:126-141 | a record keeps its slot for exactly 96 further calls |
| TailRing.SyscallTailRing.Begin | include/syscall_tail_ring.h:58-76 | the log gains the call; missing arguments read as zeroes |
| TailRing.SyscallTailRing.Complete | include/syscall_tail_ring.h:78-80 | closes in the log, and in the ring only if the ring still has the record |
| TailRing.SyscallTailRing.Restart | include/syscall_tail_ring.h:82-84 | the same for a call that will run again |
| TailRing.SyscallTailRing.CloseRecord | include/syscall_tail_ring.h:127-141 | a late close changes no slot |
| TailRing.SyscallTailRing.ForEach | include/syscall_tail_ring.h:86-102 | exactly the last 96 entries of the unbounded log, oldest first, none skipped |
| TailRing.SyscallTailRing.ClaimDump | include/syscall_tail_ring.h:106-114 | true the first time only |
| ReportLimiter.ShouldReport | include/bounded_syscall_report.h:129-136 | the bit trick recognises exactly the early numbers and the powers of two |
| ReportLimiter.SyscallAnswers | include/bounded_syscall_report.h:66-103 | while the total lasts: full at 1, repeats at 2, 3, 4, 8, 16 and 32, the last at 64, else silence |
| ReportLimiter.MmapAnswers | include/guest_mmap_diagnostics.h:164-206 | while the total lasts: the powers of two, the last at 2^15 |
| ReportLimiter.StreakIsTimes | include/bounded_syscall_report.h:66-79 | a key has been seen as often as it occurs behind the entry that took its slot last |
| ReportLimiter.AnsweredByNumber | include/bounded_syscall_report.h:80-103 | while lines are left, a sighting is answered by its number since then |
| ReportLimiter.Emitted | include/bounded_syscall_report.h:88-94 | over any history the lines never exceed the total |
| ReportLimiter.Limiter.Count | include/bounded_syscall_report.h:80-103 | one sighting's decision is the history's, and the slot's counters stay right |
| ReportLimiter.Limiter.Record | include/bounded_syscall_report.h:66-103 | occurrences and decision are those of the unbounded history since the key's slot was last taken over, for any slot function |
| ReportLimiter.Limiter.Reset | include/bounded_syscall_report.h:109-114 | starts a new history |
| Fairness.GetrusageFairness.Observe | include/getrusagefairness.h:57-92 | the decision is the one the whole history since the reset calls for |
| Fairness.GetrusageFairness.Reset | include/getrusagefairness.h:94-100 | starts a new history |
| Fairness.WindowBound | include/getrusagefairness.h:41-44 | with a steady clock calls within T microseconds hold at most T / 4000 + 1 throttles |
| Fairness.SpinsFirst | include/getrusagefairness.h:59-80 | every throttle follows 32 gaps in a row of at most 5000 microseconds |
| Fairness.ThrottlesExactly | include/getrusagefairness.h:57-92 | a call throttles if and only if 32 rapid gaps in a row lead up to it and no throttle came less than 4000 microseconds before; it activates exactly at the 32nd |
| Fairness.AnnouncedFirst | include/getrusagefairness.h:74-80 | the first activation is announced exactly at the first call that activates |
| Fairness.AnnouncedOnce | include/getrusagefairness.h:14-17 | the first activation is announced at most once between resets |
| Budgets.StepKeepsGood | include/dll_search_trace.h:281-293 | every step of every thread keeps the answers given so far in order |
| Budgets.AnswersInOrder | include/dll_search_trace.h:281-293 | in every interleaving 1023 reports, then exactly one exhausted, then silence; for the dialog budget 64, one, and silence |
| Budgets.NobodyBlocks | include/guest_dialog_trace.h:159-171 | from every reachable state an idle thread running alone has its answer in two steps |
| Bits.SingleBit | include/native_map_plan.h:95-98 | p & (p - 1) is zero exactly at the powers of two |
| Bits.MaskRoundsDown | include/native_map_plan.h:107-108 | x & ~(p - 1) is the last multiple of p up to x |
| MapPlan.OnePlan | include/native_map_plan.h:112-130 | maximal alternating runs over the same pages are unique |
| MapPlan.RunAgrees | include/native_map_plan.h:112-130 | a run agrees with the query on every host page it has |
| MapPlan.OneMorePage | include/native_map_plan.h:117-129 | adding a page keeps the runs tiling, alternating and in agreement with the query |
| MapPlan.NoBytesNoRun | include/native_map_plan.h:128-134 | the runs of one kind add up to no bytes exactly when there is none |
| MapPlan.OnePageGrouped | include/native_map_plan.h:117-134 | one more page keeps runs and counters in step |
| MapPlan.CountedIs | include/native_map_plan.h:117-137 | the counters are the sums over the runs: reused bytes over the reused ones, mapped bytes over the others; no page of a kind means no run of it |
| MapPlan.GroupPages | include/native_map_plan.h:112-137 | the runs plan every page of the interval; the counters are the sums over the runs of their kind, without leaving 64 bits |
| MapPlan.LayOut | include/native_map_plan.h:107-110 | the tightest enclosing host-page interval; exact exactly when both ends are aligned |
| MapPlan.EveryGapFree | include/native_map_plan.h:139-150 | whether every run not already owned is free |
| MapPlan.PlanNativeAnonymousMap | include/native_map_plan.h:84-152 | refused exactly for the requests named invalid; Ok exactly when every gap is free; and then or otherwise the whole plan, its counters summed over its runs |
| LowAlias.HostIs | include/guest_low_alias.h:209-214 | in each lane what the two bit operations amount to |
| LowAlias.GuestIs | include/guest_low_alias.h:222-239 | the way back for every host address: one window is moved down, one up, and all else is left alone |
| LowAlias.RoundTrip | include/guest_low_alias.h:222-239 | the host address leads back to the guest address |
| LowAlias.Injective | include/guest_low_alias.h:175-182 | no two hostable addresses share a host byte, across all three lanes |
| LowAlias.Onto | include/guest_low_alias.h:189-191 | the lanes fill the host block up to the arena's end, with no unreachable gap |
| LowAlias.Contiguous | include/guest_low_alias.h:248-266 | a hostable range maps to one host range, byte after byte |
| LowAlias.RangeExactly | include/guest_low_alias.h:248-266 | a range is hostable exactly when it is not empty and lies in one of the three windows |
| LowAlias.HostableBytes | include/guest_low_alias.h:248-266 | a range is hostable if and only if each of its bytes is |
| RegistryLines.InsertedLookup | include/guest_wine_audio_registration.h:13-41 | what every lookup gives after an insertion |
| RegistryLines.FoundAfterwards | include/guest_wine_audio_registration.h:13-41 | the value is found afterwards, with its old text if it had one |
| RegistryLines.AddedOnce | include/guest_wine_audio_registration.h:33-37 | the second insertion does nothing |
| RegistryLines.OthersUnchanged | include/guest_wine_audio_registration.h:13-15 | another lookup changes if and only if it was missing from the same section and the new line reads as it |
| RegistryLines.OnlyItself | include/guest_wine_audio_registration.h:21-22 | among names without an equals sign only the value itself does |
| RegistryLines.EqualsSignSpoils | include/guest_wine_audio_registration.h:21-22 | with one, another missing value becomes readable |
| Registry.FindHeader | include/guest_wine_audio_registration.h:23-25 | the first place at the start of a line where the header stands, or none |
| Registry.HasValue | include/guest_wine_audio_registration.h:33-37 | whether a line strictly inside the section begins with the value's name |
| Registry.EndRow | include/guest_wine_audio_registration.h:31-32 | the place where the search stops ends the section's last line |
| Registry.ValueRow | include/guest_wine_audio_registration.h:31-37 | the character scan finds the value exactly when the lookup over lines does |
| Registry.AddedAt | include/guest_wine_audio_registration.h:38-41 | the text inserted at that place has the lines the insertion calls for |
| Registry.RegistryFile.AppendSection | include/guest_wine_audio_registration.h:26-30 | a missing section is appended with its value |
| Registry.RegistryFile.InsertAt | include/guest_wine_audio_registration.h:38-40 | the assignment goes in on a line of its own |
| Registry.RegistryFile.InsertMissing | include/guest_wine_audio_registration.h:16-42 | only puts text in at one place, for any input; for plain names it reports and performs exactly the missing insertion |
| RegistryRepairs.KeepsFound | include/guest_wine_audio_registration.h:13-15 | no insertion loses or changes a value that is there |
| RegistryRepairs.RepairedOnce | include/guest_wine_audio_registration.h:44-147 | a repair done twice is a repair done once, for any list of classes |
| RegistryRepairs.RepairedKeeps | include/guest_wine_audio_registration.h:61-65 | a repair of both widths replaces no value the file already has |
| RegistryRepairs.Register | include/guest_wine_audio_registration.h:47-59 | one class: the threading model only with a missing server, whose texts RegistryTexts.RegisteredTexts has; changed exactly when something was missing |
| RegistryRepairs.Repair | include/guest_wine_audio_registration.h:44-147 | all classes for the projected widths; reports no change exactly when all were registered |
| RegistryTexts.SectionsDiffer | include/guest_wine_audio_registration.h:44-147 | classes, widths, servers and folders have sections of their own |
| RegistryTexts.RegisteredTexts | include/guest_wine_audio_registration.h:51-59 | after one class: the server's path where it was missing, with the threading model beside it where that was missing too; otherwise both as before; the parsing flag where it was missing |
| RegistryTexts.RepairedServes | include/guest_wine_audio_registration.h:44-147 | after a whole repair every class has those texts in each projected width and its old ones in the other |
| RegistryTexts.RepairedApart | include/guest_wine_audio_registration.h:44-147 | every other section reads as before, missing values included |
| WineRepairs.ProvidesEach | include/guest_wine_audio_registration.h:44-147 | the same with sections and texts spelled out: 64-bit servers in system32, 32-bit ones in syswow64 |
| WineRepairs.RegisterWineAudioEnumerator | include/guest_wine_audio_registration.h:44-61 | the repair for the audio enumerator, with the texts it leaves in each width |
| WineRepairs.RegisterWineDxDiagProvider | include/guest_wine_audio_registration.h:66-81 | the repair for the diagnostics provider, with the texts it leaves in each width |
| WineRepairs.RegisterWineDocumentsFolder | include/guest_wine_audio_registration.h:85-103 | the repair for the documents folder, with the texts it leaves and its parsing flag |
| WineRepairs.RegisterWineWbemLocator | include/guest_wine_audio_registration.h:107-126 | the repair for the three locator classes, with the texts it leaves |
| WineRepairs.RegisterWineMediaDeviceEnumerator | include/guest_wine_audio_registration.h:129-147 | the repair for the two device classes, with the texts it leaves |
| WineRepairs.RunAgain | include/guest_wine_audio_registration.h:44-147 | each of the five, run again, reports no change |
| Sxs.ReadStem | include/guest_sxs_activation.h:143-168 | the loops compute the last component without its suffix, cut to the buffer |
| Sxs.StemOfPath | include/guest_sxs_activation.h:143-168 | a path to a file of that name gives the name back |
| ManifestNames.StemIs | include/guest_sxs_activation.h:143-168 | of a folder and a last component: what comes before .manifest in any case, if anything does, cut to 207 characters; else none |
| ManifestNames.FittingIs | include/guest_sxs_activation.h:170-181 | a buffer holds as much of the beginning as leaves a terminator |
| Sxs.ParseManifestStem | include/guest_sxs_activation.h:183-223 | the marks from the right and the scan from the left give the parsed fields |
| Sxs.ParseJoined | include/guest_sxs_activation.h:183-223 | parsing a printed name gives back its fields, underscores in the name included |
| Sxs.ParsedIsJoined | include/guest_sxs_activation.h:183-223 | only printed names parse |
| Sxs.StagedIsRead | scripts/stage-wine64-sxs-assemblies.py:95-99 | the name the staging script prints, found under any directory, is read back lowercased |
| SxsQueue.OnePerAssembly | include/guest_sxs_activation.h:331-349 | no assembly is reported twice |
| SxsQueue.FirstOutcome | include/guest_sxs_activation.h:331-349 | each line is the first outcome decided for its assembly |
| SxsQueue.NoneLost | include/guest_sxs_activation.h:55-59 | up to eight assemblies, each is reported |
| SxsQueue.ReportQueue.Queue | include/guest_sxs_activation.h:335-356 | the accepted lines are those of the unbounded history |
| SxsQueue.ReportQueue.TakeReport | include/guest_sxs_activation.h:287-300 | lines come out in order, none lost, none twice |
| FxState.TagClasses | include/guest_signal_frame64.h:58-64 | empty, zero, normal, or anything else, by significand and exponent |
| FxState.RegistersReturn | include/guest_signal_frame64.h:39-84 | for every stack top each register returns to its physical place and stays empty or not |
| FxState.StateReturns | include/guest_signal_frame64.h:58-84 | the visible state returns exactly when tags were as computed, the exception summary bit was as recomputed and the upper half of MXCSR was clear |
| FxState.SavedAgain | include/guest_signal_frame64.h:41-84 | saving after restoring gives the same area exactly when the summary bit was as recomputed and the upper half of MXCSR was clear |
| FxState.PendingIs | source/emulation/cpu/common/fpu.cpp:179-185 | an exception is pending exactly when one of the six low bits is set in the status word and clear in the control word |
| FxState.SummaryStays | source/emulation/cpu/common/fpu.cpp:179-192 | recomputing the summary bit twice is recomputing it once, and the stack top is not touched |
| FxState.StaysTold | source/emulation/cpu/common/fpu.cpp:124-127 | loading the control word, raising or clearing exceptions and restoring all leave the summary bit as it is recomputed |
| FxState.RunsSaveAgain | source/emulation/cpu/cpu64.cpp:5097-5104 | from the initial MXCSR and status word, after any run of loads, raised and cleared exceptions, restores and signal returns, saving after restoring gives the same area |
| FxState.FrameSays | include/guest_signal_frame64.h:124-136 | what a frame says of itself: sizes, components and magic numbers with XSAVE, nothing without |
| FxState.FrameReturns | include/guest_signal_frame64.h:124-160 | with XSAVE on, vector registers return with their upper halves |
| FxState.AbsentIsInitial | include/guest_signal_frame64.h:138-160 | a component the frame lacks comes back in its initial state |
| FxState.LegacyAlone | include/guest_signal_frame64.h:138-160 | without the extended part only the legacy area counts, and the upper halves are cleared |
| FxState.LegacyReturns | include/guest_signal_frame64.h:124-160 | with XSAVE off, everything but the upper halves returns |
| FxState.Cpu.SaveFx | include/guest_signal_frame64.h:41-56 | the loops store stack order and physical tags |
| FxState.Cpu.RestoreFx | include/guest_signal_frame64.h:66-84 | the loops put them back, and the summary bit is recomputed from the control word |
| FxState.Cpu.SaveFrame | include/guest_signal_frame64.h:124-136 | the whole frame, with or without the extended area |
| FxState.Cpu.RestoreFrame | include/guest_signal_frame64.h:138-160 | the whole restore, after any edit of the frame |

## Left out

- RectPack.Packer.constructor: demands a width and a node count of at least one, because the program divides by the node count and its first segment would otherwise meet the sentinel.
- RectPack.Packer.FindMinY: the waste is not related to an area when the first node starts left of the box on the floor of the target, where the program's sum is not exact either; it is only a tie-breaker there. Integers are unbounded, so an overflow of the waste is not modelled.
- RectPack.Packer.FindBestPos: the limit 1 << 30 the program starts the best y and waste from is taken as beyond every score.
- PackRects.Sort: stands in for the library sort, as some permutation that sorts; nothing is claimed about its order among equals.
- UndoStore.UndoState.Undo: where the program's behaviour is not defined (a move of a negative number of characters, characters saved past the end of the array, characters read outside the text) the model returns `Beyond` and claims nothing about the state after it.
- UndoStore.UndoState.Redo: the same where a record tells a place outside the text or the store, or its characters would be saved past the end of the array.
- EditRuns.RedoBeyond: so nothing is claimed about the field after that redo.
- TextEditor.TextEdit.Paste: inserting characters always succeeds, so the paths at lib/imgui/imstb_textedit.h:717-720 are not modelled; nor are mouse handling, cursor movement and text layout.
- DllSearch.Trace.NoteResult: the locks, the enable flag, the probe counter and the side-by-side half of the call are left out.
- DllSearch.ModuleName: a text is a sequence of characters without a terminator; missing pointers are not modelled.
- TailRing.SyscallTailRing.Begin: sequence numbers do not wrap; resetting with tokens kept from before is not modelled.
- ReportLimiter.Limiter.Record: the slot hash is any function into the 32 slots; counters do not wrap; the mapping detail budget beside it is left out as the easier of the two.
- Budgets.AnswersInOrder: a relaxed load may return any value the counter has held; nothing else about the memory model is used.
- MapPlan.PlanNativeAnonymousMap: the two queries are functions of the range and do not change while a plan is made.
- LowAlias.RoundTrip: addresses are natural numbers below 2^64 and the bit operations are defined on them bit by bit.
- Registry.RegistryFile.InsertMissing: case folding is that of the C locale on ASCII; for names with brackets or line breaks only the insertion at one place is claimed.
- Sxs.ParseManifestStem: a failed parse leaves no partly written report; the classification of paths around it (include/guest_sxs_activation.h:238-285) is left out as one branch each.
- Sxs.StagedIsRead: lowercasing is ASCII; the script's walk through PE resources and XML is not modelled.
- FxState.RunsSaveAgain: the copy of an external translator's registers (ios/runtime/src/BVNFEXCPU64Adapter.mm:105), which takes MXCSR over unmasked, is not modelled.
- FxState.Cpu.SaveFx: the status word stands for itself with the stack top filled in, and a register never sits in a floating-point cache; the byte layout of the padding is one info record.
- Wine NT stub recognition, the mapping detail budget, signal frame placement and the conversion of MXCSR to the host's register: each is a check of constants or one branch per case.
- Kernel, process, socket, file and device headers have no bodies in the repository's headers and are not modelled; neither are graphics bridges, host calls and build scripts.
