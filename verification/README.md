# Verification of the vis text core

Dafny models of the algorithmic core of the vis editor, with proofs of what that core is for.
Where the C code changes things step by step, the model does: pieces, text changes, revisions,
transcript entries and map nodes are heap objects whose pointers are rewritten in place, blocks
are arrays, and every loop of the original is a loop here.  `dafny verify dfyconfig.toml` checks
everything.

## The piece chain and its undo tree (text.c, text-io.c, text-iterator.c)

A document is a doubly linked chain of pieces that point into append-only blocks.  An edit
replaces one stretch of the chain by another and remembers both in a change; changes belong to
revisions, which form a tree.  Four modules describe this as values, and one class is the heap
that always equals such a value:

- `History` has the chains a document ever had as a tree of versions, and the `prev`/`next`
  fields of all pieces.  Its invariant `LinkInv` says which stale pointers a removed piece keeps;
  `UndoStep` and `RedoStep` show that swapping spans rewrites exactly two fields and lands in the
  invariant of the other version.
- `Extents` reads a chain as a sequence of addresses and, through memory, as bytes.  Data pointers
  are (block, offset) pairs.
- `Store` joins the two and shows that an edit in place changes no byte any other chain refers to.
- `Revisions` says what `prev`, `next`, `earlier`, `later` and the lists of changes are;
  `UndoTree` is what a user sees: revisions with their contents, the current one, the child a redo
  goes to, and the saved one.  Its theorems are about all runs of operations.
- `PieceChain.Text` is the structure itself.  Ghost fields hold the value of its heap, and `Valid`
  ties them to the real fields.  `Blocks`, `Editing`, `Splices`, `Insertion`, `Cache` and
  `Deletion` are its operations.  Every operation is proved to be the `UndoTree` function of the
  same name, so `Session.RunAll` makes every sequence of calls a run, and what holds of all runs
  holds of all texts.

`Cursors` says where undo, redo, earlier and later leave the cursor, over whole sessions.

Three more fast forms sit on top and are proved against the sequence of bytes: iterators
(`Iterators`), the one-entry line cache (`Lines`, and `Requests` for whole sessions), and marks as
raw addresses (`Marks`).

## The crit-bit map (map.c)

`CritBit` has the trees as values, with the invariant that bit positions grow along every path and
that the keys below a fork agree before its bit and are split by it.  `Maps.Map` overwrites cells
in place through a moving pointer and refines a finite map from NUL-free byte strings to values;
values are natural numbers with 0 for NULL.

## The sam transcript (sam.c)

`Transcripts` records changes against the original text in a sorted, conflict-checked list.
`Replay` makes them one after the other with a running offset and is proved to be the
simultaneous substitution.  `Extraction` is the loop of x and y, for any deterministic search
function.  `Substitution` joins all three: what `x/re/ c/text/` does to a text, end to end.

## Selections, brackets, string search (main.c, text-util.c, text-motions.c, text-objects.c)

`Selections` has the merge loops as set operations.  `Brackets` has both scanners that match
brackets, each with an independent specification by nesting depth, and exactly when the two agree.
`Finding` is the search for a string in both directions.

## Five places where the code does not keep its promise

Each is stated with the exact condition under which it does, and with an instance where it does not.

- A request past the last line parks the line cache at the end of the file, and a later request
  for that line returns this place rather than its first byte (`Lines.PosByLineno`,
  `Requests.Serve`, `Requests.Parked`; instance `Lines.ParkedAtEnd`).
- Marks are addresses, so an edit in place moves bytes under them: a mark inside the cached piece
  and behind the edit is left behind or lost (`Marks.TrackInsert`, `Marks.TrackDelete`; instance
  `Marks.MarksSlip`).
- A map emptied by `map_delete` keeps the last value in its root, and `map_closest` returns it
  (`Maps.Map.ClosestValue`; instance `Maps.StaleValue`).
- `text_restore` does not go to the closest revision if that is the current one and the time asked
  for is after it (`Session.FindRevision`; instance `Session.SkipsCloser`).
- The two bracket scanners disagree where brackets in strings do not balance
  (`Brackets.ObjectMatches`; instance `Brackets.ScannersDiffer`).

## Model

| member | source | states |
|---|---|---|
| History.UndoStep | text.c:237-255 | from the links of a version, relinking its replaced stretch in the parent's chain (two fields) gives exactly the links of the parent: all prev/next of the chain, and the stale pointers every other change needs |
| History.RedoStep | text.c:237-255 | the converse: relinking the new stretch gives exactly the links of the child again, on every branch |
| History.CreatedBelow | text.c:510-546 | a piece a change created occurs only in versions below that change, so other branches never see it |
| History.RemovedBelow | text.c:510-546 | a piece a change removed occurs in no version below that change |
| History.AppendLinks | text.c:429-485 | a new version on top of the current one keeps the links of the whole tree, if the new pieces point into their chain |
| Store.SwapOutStore | text.c:487-494 | undoing the newest change keeps the whole store consistent and restores the size of the parent version |
| Store.SwapInStore | text.c:496-508 | redoing a change keeps the whole store consistent and restores the size it had |
| Store.FillStore | text.c:478-484 | committing a change whose spans have been computed gives a consistent store with the spliced chain |
| Store.RewriteOthers | text-io.c:122-150 | rewriting the bytes of the piece at the end of the last block changes neither the addresses nor the bytes of any chain without it |
| Store.RewriteChain | text-io.c:122-150 | and in a chain with it, exactly its own bytes are replaced |
| Store.EditStore | text.c:184-216 | an edit in place of a piece of the newest change keeps all spans, sizes and chains consistent |
| Store.EditElsewhere | text.c:184-216 | and every earlier version keeps bytes, addresses and chain |
| Store.SpanGrowth | text.c:218-255 | the two spans of any change differ by as much as the texts before and after it |
| Revisions.SproutHist | text.c:259-287 | a new revision threads into tree and list: child of the current one, newest in time |
| Revisions.GrowHist | text.c:374-390 | a further change becomes the newest of its revision |
| Revisions.RetargetHist | text.c:536-546 | pointing a parent at another child keeps all other threads |
| Revisions.LoadedSound | text.c:602-638 | begin, one piece and end, with one change and one revision, are a consistent text with the loaded bytes |
| UndoTree.StepKeeps | text.c:429-739 | every operation keeps the tree well formed and every closed revision's bytes, addresses, chain and parent |
| UndoTree.ClosedForever | text.c:510-582 | over every run of insert, delete, snapshot, undo, redo, earlier, later, restore and save, a closed revision keeps its bytes, addresses and chain for ever |
| UndoTree.ComingBack | text.c:510-582 | a run that returns to a closed revision shows exactly what it showed, whatever branches it visited |
| UndoTree.EditedWellFormed | text.c:374-390 | an edit of the open revision, or a new child, keeps the tree well formed with the current revision on the redo path |
| UndoTree.RebranchLeads | text.c:536-546 | after a branch switch the redo pointers lead from the root to the target |
| UndoTree.RebranchSame | text.c:536-546 | a branch switch changes nothing if and only if they already did |
| UndoTree.RebranchOnly | text.c:536-546 | and only changes pointers of proper ancestors of the target |
| UndoTree.ForkIsAnc | text.c:548-565 | undoing until the redo pointer leads elsewhere ends at an ancestor of the target |
| UndoTree.Traversed | text.c:548-574 | a traversal keeps the tree well formed |
| UndoTree.RedoAfterUndo | text.c:510-534 | redo takes back an undo that did something |
| UndoTree.LaterAfterEarlier | text.c:576-582 | later after an earlier that moved returns to the same revision and contents |
| UndoTree.EarlierVisitsAll | text.c:576-578 | n times earlier shows the n-th revision before, as it was, whichever branch it is on |
| UndoTree.EditedAlone | text.c:510-534 | undo, redo, snapshot and save close the revision, a redo with nothing to redo too: the next edit is a revision of its own, and one undo takes back just that |
| UndoTree.EditedFurther | text.c:548-582 | later at the newest revision changes nothing, and an open revision stays open for the next edit |
| UndoTree.SavedStays | text-io.c:170-176 | over every run the saved revision is the one current at the last save, and its contents are those of that moment |
| UndoTree.UnmodifiedIsSaved | text.c:774-776 | if the text is unmodified its bytes are those at the last save, or at load, for every run |
| Blocks.Block.constructor | text-io.c:11-25 | a new block is empty and has the default size, or the size asked for if that is more |
| Blocks.Block.Load | text-io.c:38-77 | a block of file content holds just that, with spare room only if it is read and small |
| Blocks.Block.Append | text-io.c:107-118 | bytes go to the end, and where they start is returned |
| Blocks.Block.Insert | text-io.c:122-133 | inserts the bytes if position and capacity allow, else changes nothing |
| Blocks.Block.Delete | text-io.c:137-150 | removes the bytes if they lie in the used part, else changes nothing |
| PieceChain.Text.Load | text.c:602-638 | a valid text with one revision, which is current and saved, holding the given bytes |
| PieceChain.Text.SpanInit | text.c:218-228 | the length of a span is the number of bytes of the pieces it names |
| PieceChain.Text.SpanSwap | text.c:237-255 | in all four cases exactly the two pointers around the spans change, and the size by the difference |
| PieceChain.Text.PieceGetIntern | text.c:340-349 | the piece and offset of a position, at a boundary the piece to its left, never offset 0 of a data piece; NULL exactly beyond the end |
| PieceChain.Text.RevisionUndo | text.c:487-494 | undoes all changes of a revision, newest first, and returns the position of the oldest |
| PieceChain.Text.OldestChange | text.c:496-501 | the walk to the last element of the list ends at the first change made |
| PieceChain.Text.RevisionRedo | text.c:496-508 | redoes all changes of a revision, oldest first, and returns where the newest ended |
| PieceChain.Text.Undo | text.c:510-521 | closes the revision and goes to the parent with its bytes, links and size; at the root EPOS |
| PieceChain.Text.Redo | text.c:523-534 | closes the revision and goes to the child the redo pointer names; without one EPOS |
| PieceChain.Text.HistoryChangeBranch | text.c:536-546 | redirects the redo pointers towards a revision and tells whether any changed |
| PieceChain.Text.RedoTo | text.c:548-574 | redoing along the redo pointers reaches a revision below |
| PieceChain.Text.UndoTo | text.c:548-574 | undoing reaches an ancestor |
| PieceChain.Text.LeaveBranch | text.c:548-574 | undoing while the parent's redo pointer leads back ends where the new branch forks off |
| PieceChain.Text.HistoryTraverseTo | text.c:548-574 | terminates at the given revision from any other, with the redo pointers leading there; from below it returns the place of the first change of the revision undone last, from elsewhere the end of the last change of the one reached; NULL does nothing |
| PieceChain.ArrivesAt | text.c:548-574 | the position the loops end with is that of the revision undone or redone last |
| PieceChain.Text.Earlier | text.c:576-578 | goes to the previous revision in time, if there is one; the position is where the revision left began if that is its child, else where the one reached ended |
| PieceChain.Text.Later | text.c:580-582 | goes to the next revision in time, if there is one; the position is where that ended |
| PieceChain.Text.Snapshot | text-io.c:162-168 | closes the revision and forgets the cached piece, so that the next edit opens a new one |
| PieceChain.Text.MarkSaved | text-io.c:170-176 | the current revision is the saved one, and closed |
| PieceChain.Text.Modified | text.c:774-776 | true exactly if the current revision is not the saved one |
| Editing.RevisionAlloc | text.c:259-287 | allocates and threads the new revision |
| Editing.TextChangeAlloc | text.c:374-390 | opens a revision if none is open and adds an empty change, without changing what the document shows |
| Editing.BlockStore | text.c:140-151 | the bytes are stored behind all bytes in use, in the last block, or in a new one exactly if that has no room |
| Editing.CachePiece | text.c:153-159 | exactly a piece that ends at the end of the last block is cached |
| Editing.ForgetLines | text.c:435-436 | the line cache is reset exactly if it lies behind the edited position |
| Editing.SpotRecorded | text.c:374-390 | the change an edit records lies at the position edited, in the open revision or as the first of a new one, and its spans differ by as much as the texts |
| Splices.BetweenFills | text.c:455-462 | splicing one piece in at a boundary is a committable change that inserts its bytes |
| Splices.InsideFills | text.c:463-480 | splitting a piece in two around a new one is a committable change that inserts its bytes |
| Deletion.RestFills | text.c:704-737 | replacing a stretch by what is left of its ends is a committable change |
| Cache.CacheContains | text.c:161-182 | true exactly if the piece is the cached one, was created by the newest change of the open revision and ends the last block |
| Cache.InPlaceSound | text.c:184-216 | an edit in place leaves store, history and all other revisions sound |
| Cache.InPlaceText | text.c:184-216 | and replaces exactly the bytes of the piece in the document |
| Cache.InPlaceAddrs | text.c:184-216 | and exactly the addresses of that piece, which keeps its first ones |
| Cache.LocatedHit | text.c:438-444 | an edit happens in place exactly if it starts behind a byte of the cached piece, fits, and, for a deletion, ends in it |
| Cache.OneStretch | text.c:161-182 | at most one stretch of the document can be edited in place |
| Cache.CacheInsert | text.c:184-200 | inserts into the cached piece exactly if it is the one and the block has room: the document is edited in its open revision and keeps its chain, and the new addresses come behind the piece; else nothing at all changes |
| Cache.CacheDelete | text.c:202-216 | deletes from the cached piece exactly if it is the one and holds the range, never all of it: its length stays above 0, and its last addresses go; else nothing at all changes |
| Cache.SpotWider | text.c:184-216 | an edit in place moves no recorded position and widens the last change by the difference |
| Cache.StretchStays | text.c:184-216 | the piece edited in place stays the cached one, and its stretch grows or shrinks by the edit |
| Cache.InPlaceIs | text.c:161-200 | an insertion happens in place exactly if the last block has room and the position is behind the first byte of the cached piece or where it ends |
| Insertion.InsertBetween | text.c:446-462 | the slow path at a boundary: addresses and bytes of the data are inserted, everything else stays |
| Insertion.InsertInside | text.c:463-484 | the slow path inside a piece, likewise |
| Insertion.Insert | text.c:429-485 | on all paths the bytes become old[..pos] + data + old[pos..] in the open revision or a new one; refused exactly if pos lies beyond the end, and then nothing in the whole structure changes; in place exactly if the last block has room and the cached piece holds the byte before, and the addresses say where; what was inserted belongs to the next stretch to edit in place; the change is recorded at pos |
| Insertion.NewPieceCached | text.c:482-484 | the piece of an insertion that is not in place holds exactly the inserted stretch and is cached |
| Deletion.SkipDeleted | text.c:698-702 | the walk over the pieces to delete ends at the piece where the range ends |
| Deletion.DeletePieces | text.c:678-738 | exactly the addresses of the range go, those before and behind stay in order |
| Deletion.Delete | text.c:658-739 | on all paths the bytes become old[..pos] + old[pos+len..]; refused exactly if the range leaves the document, and then nothing in the whole structure changes; in place exactly if the range lies in the cached piece behind its first byte, and the addresses say which are gone; the change is recorded at pos |
| Session.PicksClosest | text.c:590-594 | with clocks that never run backwards, the choice among neighbours is the closest revision exactly if the current one is not the closer one behind the time asked for |
| Session.WalkBack | text.c:586-587 | the first loop stops at a revision that is not too young, or at the oldest, and every revision it passed was too young |
| Session.WalkOn | text.c:588-589 | after both, with clocks that never run backwards, the revision is not too old, or the newest, and its predecessor is too old, or it is exactly right |
| Session.FindRevision | text.c:584-595 | text_restore picks some revision, and the closest one exactly under that condition; of two as close, the younger |
| Session.SkipsCloser | text.c:584-595 | the instance: of two revisions made at 0 and 10, the first being current, time 1 picks the second |
| Session.RestoreTime | text.c:584-596 | and goes there |
| Session.Perform | text.c:429-582 | every command is one step of the undo tree |
| Session.RunAll | text.c:429-582 | every sequence of commands is a run, so the theorems on runs hold of the data structure |
| Session.ComeBack | text.c:510-582 | after any commands that lead back to a closed revision the chain is the same piece objects, with every prev and next pointer, and the bytes, as before |
| Cursors.Type | text.c:429-485 | text typed piece by piece at one place is one revision from where it began to where it ended, however the pieces are stored |
| Cursors.RunUndoRedo | text.c:487-534 | after any commands that lead back to a closed revision, undo and redo return the places recorded when it was made |
| Cursors.TypeUndoRedo | text.c:429-534 | what was typed is undone to where typing began and redone to where it ended, with the texts of then, whatever has happened since |
| Cursors.EraseUndoRedo | text.c:487-739 | a deletion is undone and redone at its position, likewise |
| Cursors.TypeEarlierLater | text.c:429-582 | from the newest revision, earlier and later lead to the same two places |
| Cursors.EraseEarlierLater | text.c:548-739 | and to the one of a deletion |
| Session.EditFile | text.c:602-776 | from loading over any commands to text_modified: if that says no, the document shows the bytes last saved or loaded |
| Iterators.PieceGetExtern | text.c:356-370 | the piece and offset of a position, at a boundary the piece to its right; at the end of the file the end of the last piece |
| Iterators.Iterator.constructor | text.c:800-809 | the iterator stands at the position, in a data piece unless the text is empty |
| Iterators.Iterator.Next | text.c:811-814 | goes to the start of the following piece |
| Iterators.Iterator.Prev | text.c:816-820 | goes to the end of the preceding piece |
| Iterators.Iterator.ByteGet | text-iterator.c:4-16 | the byte of the document at the position, NUL at the end of the file |
| Iterators.Iterator.ByteNext | text-iterator.c:18-43 | one byte forward across pieces, with NUL once at the end, then nothing |
| Iterators.Iterator.BytePrev | text-iterator.c:45-65 | one byte back across pieces, stopping before the first |
| Iterators.ScanForward | util.c:62-69 | the first occurrence in a stretch of memory |
| Iterators.ScanReverse | util.c:51-60 | the last occurrence in a stretch of memory |
| Iterators.Iterator.ByteFindPrev | text-iterator.c:67-79 | the last occurrence before the position in the whole document, or its start |
| Iterators.Iterator.ByteFindNext | text-iterator.c:81-93 | the first occurrence from the position on in the whole document, or its end |
| Lines.LineBegin | text-motions.c:99-102 | the start of the line: behind the last newline before the position |
| Lines.LineEnd | text-motions.c:122-126 | the end of the line: the first newline from the position on |
| Lines.LineNext | text-motions.c:128-133 | behind the first newline from the position on |
| Lines.LinesCount | text.c:844-866 | the number of newlines in a range |
| Lines.LinesSkipForward | text.c:869-893 | behind as many newlines as asked for, or the end of the file with the number there were |
| Lines.LinenoByPos | text.c:922-937 | 1 + the newlines before min(pos, size), whatever was cached; the cache stays right |
| Lines.PosByLineno | text.c:900-920 | EPOS exactly if there are fewer lines; else a position with n-1 newlines before it, which is cached; it is the first byte of the line exactly if n is 1, the cache was not on that line, or was at its start; a cache at a line start stays at one exactly if the request is answered or the last line is empty |
| Lines.ParkedAtEnd | text.c:900-920 | the instance: asked for line 3 and then line 2 of "a\nb" it answers 3 |
| Requests.ServeOne | text.c:429-937 | from a cache at a line start the answer to one request is the first byte of its line, and the cache leaves line starts exactly by an unanswered request on a text whose last line is not empty; edits, undo, redo and traversals never do that |
| Requests.Serve | text.c:429-937 | over every sequence of commands and line requests after loading, each answer is on its line, and its first byte unless an earlier request went unanswered on a text whose last line was not empty |
| Requests.Parked | text.c:900-920 | after such a request the one for the last line is answered with its first byte exactly if it is the only line or empty |
| Marks.MarkSet | text.c:939-946 | the address of the byte at the position, with special values at and beyond the end |
| Marks.MarkGet | text.c:948-965 | the only position with that address, or EPOS |
| Marks.MarkRoundTrip | text.c:939-965 | a mark resolves to its position exactly if that was at most the size |
| Marks.MarkAfterInsert | text.c:446-484 | an insertion that is not in place moves exactly the marks from its position on |
| Marks.MarkAfterDelete | text.c:674-738 | a deletion that is not in place loses exactly the marks it covers and moves those behind |
| Marks.MarkInsertedInPlace | text.c:184-200 | one in place moves exactly the marks behind the cached piece, so a mark follows its byte exactly if that does not come from the position on in that piece |
| Marks.MarkRemovedInPlace | text.c:202-216 | one in place loses exactly the marks of the last bytes of the cached piece, so a mark does what it should exactly if its byte precedes the range, is behind that piece, or is both deleted and one of the last |
| Marks.TrackInsert | text.c:429-485 | for every insertion: the mark set before resolves to its byte after it exactly if the old state does not put the insertion in place with the mark between it and the end of the cached piece |
| Marks.TrackDelete | text.c:658-739 | for every deletion, likewise |
| Marks.MarksSlip | text.c:202-216 | the instance: after typing "abc" and deleting "b", the mark of "b" is on "c" and that of "c" is lost |
| Marks.MarkComesBack | text.c:510-582 | after any run that returns to a closed revision every mark set there resolves to its old position |
| Ranges.OverlapShares | text-util.c:34-39 | non-empty ranges overlap exactly if they share a position |
| Ranges.OverlapEmpty | text-util.c:34-39 | an empty range overlaps exactly those that reach beyond it on both sides |
| Ranges.RangeNew | text-util.c:20-25 | a range of the positions between two ends, in either order |
| Ranges.RangeUnion | text-util.c:1-11 | the least range that has both; an invalid range on either side is neutral |
| Ranges.RangeIntersect | text-util.c:13-18 | the intersection, invalid exactly if they do not overlap |
| Selections.Union | main.c:700-731 | a sorted disjoint list of exactly the positions in either list, two neighbours in one range exactly if they are in one range of either list |
| Selections.Determined | main.c:700-789 | there is only one sorted list with the same positions and the same neighbours together |
| Selections.Intersect | main.c:743-754 | a sorted disjoint list; a stretch lies in one of its ranges exactly if it lies in one range of each list |
| Selections.Complement | main.c:775-789 | a sorted disjoint list; a stretch of the universe lies in one of its ranges exactly if it meets no range given |
| Selections.Minus | main.c:806-827 | a sorted disjoint list; a stretch lies in one of its ranges exactly if it lies in one range of the first list and meets none of the second |
| Brackets.SearchForward | text-motions.c:483-495 | finds the partner of a bracket ahead within the limits, if there is one |
| Brackets.SearchBackward | text-motions.c:496-509 | finds the partner of a bracket behind within the limits, if there is one |
| Brackets.MatchSymbol | text-motions.c:475-512 | the match within the limits, or the position itself exactly if there is none |
| Brackets.PartnerUnique | text-motions.c:475-512 | a bracket has at most one partner, in either direction |
| Brackets.MatchQuote | text-motions.c:532-559 | itself exactly if there is no other quote of its kind and level within the limits, else one of the two next to it: on the same line if possible, and if both or none are, the one the next character suggests, or the one before |
| Brackets.QuoteMatchMeans | text-motions.c:532-559 | the rules the code decides by amount to that |
| Brackets.BracketMatchSymbol | text-motions.c:514-565 | a bracket of the four kinds matches its partner within the limits, or itself exactly if there is none; a quote of the three kinds what MatchQuote says; everything else, and what is not among the symbols, itself |
| Brackets.MatchMeans | text-motions.c:514-565 | the case distinction of the code amounts to that |
| Brackets.SameLineIs | text-motions.c:543-550 | two positions have the same line number exactly if no newline separates them |
| Brackets.MatchInvolution | text-motions.c:514-565 | for (), {}, [], <>: the match of the match is the bracket, with quoted strings in between too |
| Brackets.FindOpening | text-objects.c:226-234 | the innermost unclosed opening bracket at or before the position |
| Brackets.FindClosing | text-objects.c:236-245 | the innermost unopened closing bracket from the position on |
| Brackets.ObjectBracket | text-objects.c:201-250 | for either bracket of a pair, the range inside the innermost pair of that kind around the position, none exactly if there is none; for a quote, what lies between it and its match, or between the nearest ones around; none for other kinds |
| Brackets.FoundPair | text-objects.c:226-245 | what the two loops find is a balanced pair, and every other enclosing pair is further out |
| Brackets.ScannersAgree | text-motions.c:475-512 | a pair found ignoring strings is one found minding them exactly if its ends are on one quote level and the brackets on the other level between them balance and never outweigh those that count |
| Brackets.DepthSplits | text-motions.c:475-512 | the depth counted without minding strings is the sum of those counted inside and outside of strings |
| Brackets.SameOnOneLevel | text-motions.c:475-512 | if all brackets between two are on one quote level the two scanners agree on whether they are a pair |
| Brackets.ObjectMatches | text-objects.c:201-250 | text_bracket_match leads from either end of a bracket object to the other exactly if the brackets in strings between them balance |
| Brackets.OneLevelMatches | text-objects.c:201-250 | it does if all its brackets are on one quote level |
| Brackets.ScannersDiffer | text-objects.c:201-250 | the instance: in (")") the first scan pairs the outer, the second the inner bracket |
| Finding.FindNext | text-motions.c:32-51 | the first occurrence behind the position, on the same line if asked, else the position |
| Finding.FindPrev | text-motions.c:61-83 | the last occurrence before the position, likewise |
| Bits.ByteBits | map.c:94-106 | bytes with the same bits are the same |
| Bits.ByteOrder | map.c:103-106 | of two bytes the one with the 1 at their first different bit is greater |
| Bits.HighestBit | map.c:103-106 | the loop finds the highest bit in which two bytes differ |
| CritBit.ClosestIn | map.c:31-47 | closest ends at a key of the tree, and at the key itself if it is in there |
| CritBit.InsertGood | map.c:108-143 | inserting beside the first subtree that differs in the new bit keeps the tree invariant and adds exactly the new entry |
| CritBit.RemoveGood | map.c:158-189 | raising the sibling keeps the tree invariant and removes exactly the one entry |
| CritBit.BitOrder | map.c:194-201 | strings that first differ in a bit are ordered by it |
| CritBit.EntriesSorted | map.c:194-201 | left to right, the leaves are all entries, each once, by strictly increasing key |
| CritBit.PrefixBits | map.c:244-258 | a string starts with a prefix exactly if the bits of the prefix agree |
| CritBit.TopHasAll | map.c:244-256 | all keys with the prefix are below the subtree returned |
| CritBit.TopHasOnly | map.c:258-263 | and the keys below it all have the prefix or all lack it |
| CritBit.PrefixGood | map.c:234-266 | so it stands for exactly the entries with the prefix |
| Maps.Closest | map.c:31-47 | the walk through the heap ends at the cell of the closest leaf |
| Maps.Difference | map.c:94-106 | the first bit in which two keys differ, none exactly if they are equal |
| Maps.WriteReplaces | map.c:140-142 | writing a cell replaces the subtree there and keeps the rest of the tree |
| Maps.Map.constructor | map.c:314-317 | an empty map |
| Maps.Map.Get | map.c:49-58 | the value of the key, NULL exactly if it has none |
| Maps.Map.FindPlace | map.c:122-138 | the second walk ends at the cell where insertion keeps the order of bits |
| Maps.Map.Put | map.c:68-144 | adds exactly the entry; refused exactly for a NULL value or a key that is there, and then nothing changes |
| Maps.Map.FindLeaf | map.c:148-174 | the walk with a parent ends at the closest leaf and at the fork above it |
| Maps.Map.Delete | map.c:146-192 | removes exactly the key and returns its value, or NULL if it has none |
| Maps.Map.CopyCell | map.c:287-299 | all entries below a cell go into the map, replacing those with the same keys |
| Maps.Map.Copy | map.c:301-307 | the map is overridden by the other one, which stays as it is; copying onto itself is allowed |
| Maps.IterateCell | map.c:194-201 | the handler sees the entries from left to right and nothing after it asked to stop |
| Maps.Map.InOrderIs | map.c:203-210 | the order of iteration is all entries by strictly increasing unsigned bytes |
| Maps.Map.Iterate | map.c:203-210 | the handler sees a prefix of that order: all of it, or up to where it stopped |
| Maps.Map.First | map.c:217-232 | the entry with the least key, none exactly if the map is empty |
| Maps.PrefixCell | map.c:244-265 | the walk returns the cell of that subtree, or an empty one if the prefix does not occur |
| Maps.Map.Prefix | map.c:234-266 | a map of exactly the entries with the prefix, empty exactly if there are none |
| Maps.UnambiguousIs | map.c:60-66 | a subtree that is a leaf is the only key with the prefix |
| Maps.UnambiguousMeans | map.c:60-66 | a key is found even if it is a prefix of others; what is no key stands for the only key it is a prefix of, and for nothing if there are several or none |
| Maps.Map.ClosestValue | map.c:60-66 | the exact match, else the only key with the prefix, else NULL: exactly if the map has keys or its root holds no value |
| Maps.StaleValue | map.c:60-66 | the instance: after put and delete of a key, map_closest still returns its value |
| Transcripts.SubstitutedTail | sam.c:1093-1132 | making the last change first and then the rest gives the same text |
| Transcripts.SimultaneousIsLastFirst | sam.c:1093-1132 | simultaneous substitution is what making the changes from the last to the first does |
| Transcripts.SubstitutedBytes | sam.c:1093-1132 | for every mixture of deletions, insertions and both: exactly the bytes in ranges to delete go, every other byte stays in its place, and the data of each insertion stands where its range starts |
| Transcripts.DeletionsLeave | sam.c:1098-1106 | deletions alone leave exactly the bytes no range covers, in order |
| Transcripts.RepeatedIs | sam.c:1108-1111 | the data inserted `count` times is its bytes over and over, so many times |
| Transcripts.PointFrom | sam.c:310-324 | a change that ends before the position lies before the insertion point |
| Transcripts.ConflictAtPoint | sam.c:325-328 | a range conflicts with some recorded change exactly if it does with the one at the insertion point |
| Transcripts.RecordedSorted | sam.c:329-338 | without a conflict the list stays sorted and disjoint |
| Transcripts.RecordedInOrder | sam.c:314-324 | a change is recorded behind those that end by its start, earlier ones at the same place included, and before all others |
| Transcripts.Transcript.FindPoint | sam.c:314-324 | scanning from the latest change or from the head finds the same point |
| Transcripts.Transcript.ChangeNew | sam.c:310-341 | splices the change in at its point; refused exactly for an invalid range or one that shares something with a recorded range, which sets the error |
| Transcripts.Transcript.Record | sam.c:360-385 | the change with its data, or an error, likewise |
| Replay.SubstitutedMore | sam.c:1093-1132 | one more change acts on the untouched rest of the text |
| Replay.BeforeChange | sam.c:1093-1096 | the shifted range of the next change lies in the text as it is now |
| Replay.AfterChange | sam.c:1095-1111 | making it there keeps the text the substitution of the changes so far, and the delta its growth |
| Replay.DeleteRange | text.c:741-746 | removes exactly the range |
| Replay.InsertTimes | sam.c:1108-1111 | inserts the data count times |
| Replay.ReplayChange | sam.c:1095-1131 | one round of the loop: the range goes if the change deletes, the data comes `count` times if it inserts, and the delta follows the length of the text |
| Replay.ReplayAll | sam.c:1093-1132 | for every sorted list of disjoint changes inside the text, the result is the simultaneous substitution of the original, and byte by byte what SubstitutedBytes says |
| Replay.Apply | sam.c:1086-1134 | and it is one revision: the document is at the same revision with the same contents, or a single undo takes all of it back |
| Extraction.Extract | sam.c:1250-1309 | the ranges of x and y in order; the simulated run counts exactly those the real run executes |
| Extraction.XIsMatches | sam.c:1250-1309 | for non-empty matches the ranges of x are the matches |
| Extraction.XAndYTile | sam.c:1250-1309 | and with those of y they tile the range: gap, match, gap, ..., gap |
| Extraction.XOrdered | sam.c:1250-1309 | the ranges of x are in order and disjoint, whatever the search finds, empty matches included |
| Extraction.RightFlags | sam.c:1260-1267 | the search is told REG_NOTBOL exactly where it starts behind the range's start and not at the start of a line: how it answers otherwise changes nothing |
| Extraction.AnchoredStarts | sam.c:1260-1267 | for a search that finds only lines, every range of x starts at a line or where the whole range does |
| Extraction.NothingMissed | sam.c:1259-1309 | whatever can be found from every position before it, told the truth, is met by a range of x, except at the end behind a final newline |
| Extraction.EmptyRanges | sam.c:1274-1288 | an empty range of x never starts where the one before ends, nor at the end behind a final newline, unless found at once |
| Extraction.YGaps | sam.c:1250-1309 | for any search the ranges of y are the gaps between those of x; a last one may follow, which begins where the last match ended or one byte behind |
| Extraction.GapLost | sam.c:1274-1293 | the instance of the latter: with `y/^/` the first byte of "ab" is in no match and in no gap |
| Extraction.ExtractLines | sam.c:1310-1325 | the form without a regex cuts the range into lines |
| Extraction.LinesUnique | sam.c:1310-1325 | there is only one way to do so, so the simulated count is the executed one |
| Substitution.NextRange | sam.c:310-341 | a range behind all recorded ones never conflicts and is recorded last |
| Substitution.Substitute | sam.c:1054-1135 | x/re/ c/text/ raises no conflict and replaces every range at once, as one revision |
| Substitution.ReplacedIsWoven | sam.c:1093-1132 | replacing all matches of a tiling leaves the gaps in order with the data between them |
| Substitution.SubstituteMeans | sam.c:1054-1135 | for non-empty matches the text is what precedes the range, the gaps with the data between them, and what follows |

## Left out

- Failing allocations, everything that frees memory (`text_free`, `map_clear`, `map_free`, freeing deleted keys): an allocation succeeds, and objects that become unreachable stay in the ghost heaps.
- Reading and writing files, mmap, ACLs and SELinux contexts (rest of text-io.c): a text starts from given bytes, and saving is the call that marks the current revision as saved.
- The null entry an empty file leaves in the array of blocks: an empty text starts without a block.
- Data pointers as machine addresses: a pointer is a (block, offset) pair, so pointers into different blocks never compare as neighbours.
- Positions that do not fit `size_t`: positions are natural numbers; where EPOS is a result, None or the number itself stands for it, and `Substitution.Substitute` and `Replay.Apply` ask that the changed text stays below EPOS bytes.
- The clock: revisions carry no time; `Session.RestoreTime` takes any record of when they were made.
- The normalisation of selections in vis-marks.c: the set operations take sorted disjoint non-empty ranges as their inputs.
- Regular expressions: a search is any deterministic function of where to look; its sub-matches and the registers they go to are not modelled.
- Selections, windows, modes and cursors in the loop of `sam_cmd`: only the text is modelled, for one file at a time.
- Parsing sam commands and the other commands: `c` is what x and y execute in the end-to-end theorem, and insertions and deletions are covered by the theorems on transcripts.
- Characters, words, sentences, paragraphs, display width and encodings: foreign or locale-dependent.
- User interface, key handling, Lua, subprocesses and option tables.
- Extraction.XAndYTile: holds for non-empty matches; with empty ones the code can leave a byte out (`Extraction.GapLost`), and `Extraction.XOrdered`, `Extraction.NothingMissed` and `Extraction.YGaps` are what holds for all.
- Cache.CacheDelete: asks that an offset of 0 comes with an empty piece, which `PieceChain.Text.PieceGetIntern` guarantees.
- Brackets.ObjectBracket: returns None for the empty range the code builds from EPOS.
- Maps.Map.Copy: asks that the two maps share no nodes, unless they are the same map.
