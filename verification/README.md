# Verification of libtecla's editing core

These Dafny files model the parts of libtecla that have invariants worth proving, and prove them. Where the C code
changes things in place, so does the model: arrays, linked nodes and counters are fields of classes, and every method is
proved to do to them what a plain function on sequences says. What the library promises is then proved of those
functions, for all inputs and over whole runs.

`dafny verify dfyconfig.toml` checks all of it.

## What is modelled

* **The history store** (`history.c`). `Segments.dfy` describes chains of 16-character segments in one buffer as
  values; `LineStore.dfy` is the buffer, the hash table and the reference counts; `LineList.dfy` is the doubly linked
  list of lines; `GlHistory.dfy` puts them together, and proves each operation to do what `HistorySpec.dfy` says of a
  plain sequence of (id, timestamp, group, text). `RecallSession.dfy` and `HistoryRuns.dfy` prove what follows over
  runs of operations, `HistorySearch.dfy` says which line each recall finds; `HistorySession.dfy` carries out whole
  recall sessions on the store itself; `HistoryParams.dfy` says which parameter lines are accepted, and
  `HistoryFile.dfy` is the format of history files, with the round trip through them.
* **The output queue** (`chrqueue.c`) and the **free-list** (`freelist.c`). `FreeList.dfy` threads the nodes of its
  blocks through their first word; `CharQueue.dfy` takes its buffers from it, and links them through the same word;
  `QueueSpec.dfy` is what a queue does, given any schedule of answers from the write function (`IoUtil.dfy`) and any
  amount of memory.
* **The edit buffer** (`getline.c`). `EditBuffer.dfy` has the bounded, NUL-terminated line, cut and undo buffers, and
  the buffer primitives, cutting, pasting, word, undo and bracket functions on them; `EditSpec.dfy` and `Brackets.dfy`
  say what these do, and prove the round trips; `EditEffects.dfy` says of each action which characters it takes out or
  adds, and where it leaves the cursor.
* **Patterns** (`expand.c`, `cplfile.c`). `Glob.dfy` has the backtracking matcher, what it means for a name to match,
  and the escaping of names.
* **Completions** (`cplmatch.c`). `Completion.dfy` has the recording of matches, their common prefix, and their
  listing in columns.

`CStrings.dfy` and `Arithmetic.dfy` are shared helpers.

## Conditions on callers

The code does not do what it is meant to outside of these; the methods require them.

* While a search prefix is held, a line that gets as far as being stored, because it is added or because a session has
  to be opened for it, fits in the buffer together with the prefix (`HistorySpec.MayAdd`, `HistorySpec.MayRecall`);
  and a prefix that is held fits in a buffer that the history is resized to. Otherwise the loops that discard lines
  (`libtecla/history.c:2192-2193`, `libtecla/history.c:1688`) run out of lines. In a recall session that is a
  condition on the line it starts from only; see `RecallSession.SessionPermitted`.
* No prefix is held when all lines are cleared, since the prefix is not reset (`libtecla/history.c:1811-1840`).
* No session is open when the number of lines is limited, or a prefix of positive length is set. Then the case of a
  discarded line that is both the recalled one and the last does not arise in `_glh_discard_line`.
* Search prefixes have no `*`, `?`, `[` or `\`; patterns have no unescaped `[`, and do not end in the middle of an
  escape.
* The word search backward starts no further left than where inserting started.

## Where the code and its documentation differ

The model follows the code.

* The ids of lines start at 0, but `_glh_recall_line` is documented to take 0 for "no such line". Zero is an id like
  any other: see `HistorySearch.RecalledById` and `HistoryRuns.IdZeroIsRecalled`.
* Saving with a limit of 0 lines saves one line, if there is one; see `HistoryFile.SavedWithin`.
* A history line is loaded although there is no group on the line in front of it, as one of group 0; the comment there
  asks for a number. See `HistoryParams.ParamsAre` and `HistoryParams.GroupMissing`.
* A typed line with a newline in it comes back from a recall session only up to the newline, unless no session was
  opened; see `RecallSession.SessionGivesBackExactly` and `RecallSession.NewlineIsLost`.
* A line that does not fit even in an empty history is refused only after all other lines have been discarded; see
  `HistoryRuns.RefusalIsHarmless` and `HistoryRuns.RefusalEmpties`.
* `gl_make_gap_in_buffer` returns 1 in every case, although 1 is documented to mean that there is no room.
* `gl_update_buffer` sets the length to `linelen+1` when it finds no terminator in the first `linelen+1` characters.
* A `*` never tries to match what is left of a name with nothing left of it (`libtecla/expand.c:845-849`). That only
  matters to patterns that end with two of them; see `Glob.RightUnlessStars` and `Glob.TwoStars`.
* A set of completions all of which are empty is not listed at all; see `Completion.MatchIsListed`.

## Model

| member | source | states |
|---|---|---|
| Segments.ThreadBuffer | libtecla/history.c:1716-1722 | the segments from any one on are linked into a single acyclic chain of each of them once, and those before it are left alone |
| Segments.CopyLine | libtecla/history.c:1699-1712 | a line copied segment by segment to the front of another buffer is the same line, whatever its segments were |
| Segments.SegmentText | libtecla/history.c:1054-1059 | a stored line goes on exactly to the terminator in its last segment: its length is 16 for each earlier segment and the length of the string in the last |
| Segments.CostRemove | libtecla/history.c:2254-2306 | the space taken by a set of texts is the sum over the texts, in whatever order they are taken away |
| Segments.CostMonotone | libtecla/history.c:2162-2241 | storing fewer texts takes no more space, so that discarding can only make room |
| LineStorage.HashNode.IsLine | libtecla/history.c:2376-2397 | the segmented comparison agrees with equality of the whole strings, across all segment boundaries |
| LineStorage.HashNode.ReturnLine | libtecla/history.c:2460-2475 | the buffer holds the first min(length, dim-1) characters of the stored text, terminated; nothing is written beyond dim |
| LineStorage.HashNode.MatchesPrefix | libtecla/history.c:2410-2449 | on prefixes without wildcards, agrees with the prefix relation on the whole strings, although the streams deliver the first character twice |
| LineStorage.HashNode.ContainsGlob | libtecla/history.c:2591-2617 | a prefix without wildcards is never taken for a pattern |
| LineStorage.LineStream.constructor | libtecla/history.c:2548-2553 | the first character is there, but not consumed |
| LineStorage.LineStream.Step | libtecla/history.c:2563-2577 | delivers the characters of the stored text one after the other, then its terminator for ever |
| LineStorage.LineStore.FindBucket | libtecla/history.c:2324-2334 | the bucket depends on the first n characters only, with the hash reduced modulo the width of an unsigned long |
| LineStorage.LineStore.FindHashNode | libtecla/history.c:2348-2360 | finds the node of a text if and only if that text is stored |
| LineStorage.LineStore.StoreLine | libtecla/history.c:2200-2234 | a text that is new is stored in segments taken from the unused chain, and everything stored before still is, under the same nodes |
| LineStorage.LineStore.DiscardCopy | libtecla/history.c:2254-2306 | one reference is given back; with the last one the text is forgotten and its segments are unused again, and no other text is touched |
| LineStorage.LineStore.Resize | libtecla/history.c:1691-1732 | after compaction into a buffer of another size every stored text is as it was, and the rest of the new buffer is unused |
| LineStorage.LineStore.Clear | libtecla/history.c:1811-1840 | nothing is stored, and all of the buffer is one unused chain again |
| LineStorage.LineStore.BufferPartitioned | libtecla/history.c:2162-2306 | in every valid store each segment is in the unused chain or in the chain of exactly one line, the chains are acyclic, nbusy + nfree == nbuff, and a line of n characters has exactly (n+1+15)/16 segments |
| LineStorage.LineStore.SharedText | libtecla/history.c:2324-2397 | two nodes are the same if and only if their texts are equal, which makes comparing pointers comparing texts |
| LineLists.LineList.Append | libtecla/history.c:471-497 | the node becomes the newest, and the links run both ways through all of the nodes in order |
| LineLists.LineList.Remove | libtecla/history.c:1896-1918 | exactly that node is taken out; the others stay linked in order, in both directions |
| HistoryStore.GlHistory.constructor | libtecla/history.c:243-331 | a new history is empty and enabled, without limit on its lines, with (buflen+15)/16 segments |
| HistoryStore.GlHistory.UsesCounted | libtecla/history.c:2162-2306 | reference counts are exact: one for each node of the list that has the line, one more if it is the held prefix, and no stored line has none |
| HistoryStore.GlHistory.AddHistory | libtecla/history.c:396-507 | the linked structures do to the plain sequence of lines what HistorySpec.Add says, including failure and the lines lost on the way |
| HistoryStore.GlHistory.AcquireCopy | libtecla/history.c:2162-2241 | the oldest lines are discarded just until the text fits; none is discarded for a text that is stored already |
| HistoryStore.GlHistory.DiscardLine | libtecla/history.c:1889-1927 | one line leaves the sequence; the cached node for id lookups never points outside of the list |
| HistoryStore.GlHistory.CancelSearch | libtecla/history.c:696-721 | the line being typed is taken off the end, and its id is free again |
| HistoryStore.GlHistory.FindBackwards | libtecla/history.c:523-594 | refines the search over the plain sequence, from the saved state to the text left in the line buffer; the buffer is untouched if nothing is found |
| HistoryStore.GlHistory.FindForwards | libtecla/history.c:611-681 | refines the search over the plain sequence, and ends the session when it comes back to the line being typed |
| HistoryStore.GlHistory.OldestLine | libtecla/history.c:785-843 | refines HistorySpec.OldestLine |
| HistoryStore.GlHistory.CurrentLine | libtecla/history.c:858-893 | refines HistorySpec.CurrentLine: recall moves to the end of the list and the session is over |
| HistoryStore.GlHistory.RecallLine | libtecla/history.c:949-981 | refines HistorySpec.RecallLine, a lookup by id in the plain sequence |
| HistoryStore.GlHistory.FindId | libtecla/history.c:2015-2049 | the search from the cached node, in the direction in which the ids lead, equals a plain lookup over the whole list for every cache state |
| HistoryStore.GlHistory.PrepareForRecall | libtecla/history.c:2490-2520 | refines HistorySpec.Prepare: a session is dropped if its line has been changed, and one is opened if there is none |
| HistoryStore.GlHistory.PrefixMatches | libtecla/history.c:2410-2449 | a node of the list matches if and only if its text has the prefix that is held, if any |
| HistoryStore.GlHistory.SearchPrefix | libtecla/history.c:734-771 | refines HistorySpec.SearchPrefix: the old prefix is let go, and room is made for the new one by discarding the oldest lines |
| HistoryStore.GlHistory.SetGroup | libtecla/history.c:1382-1408 | refines HistorySpec.SetGroup |
| HistoryStore.GlHistory.ToggleHistory | libtecla/history.c:1874-1878 | only whether the history is enabled changes |
| HistoryStore.GlHistory.LimitHistory | libtecla/history.c:1749-1784 | the newest max lines are kept, each as it was |
| HistoryStore.GlHistory.ClearHistory | libtecla/history.c:1796-1864 | all of the lines go, or those of the current group; every segment that they alone used is free again |
| HistoryStore.GlHistory.ResizeHistory | libtecla/history.c:1622-1737 | refines HistorySpec.Resize through compaction into the new buffer |
| HistoryStore.GlHistory.SaveHistory | libtecla/history.c:1002-1072 | writes for each saved line its parameters and its text, whole, from the segments |
| HistoryStore.GlHistory.LoadHistory | libtecla/history.c:1148-1264 | adds the lines that are read, each with the timestamp and group that precede it, up to the first that is malformed |
| HistorySpec.NearestOlder | libtecla/history.c:555-593 | finds the nearest older line of the group that has the prefix and a different text, and none that is nearer matches |
| HistorySpec.NearestNewer | libtecla/history.c:641-680 | finds the nearest newer line of the group that has the prefix and a different text, and none that is nearer matches |
| HistorySpec.OldestOf | libtecla/history.c:815-842 | finds the first line of the group |
| HistorySpec.WithIdAt | libtecla/history.c:2015-2049 | ids increase along the list, so a line with an id is the one a lookup from the start finds |
| HistorySpec.WithIdBeyond | libtecla/history.c:2015-2049 | the id of any one line tells on which side of it another id can be |
| HistorySpec.TrimIsSuffix | libtecla/history.c:446-468 | what is kept to make room is a suffix, and no longer suffix leaves room |
| HistorySpec.ShrinkIsSuffix | libtecla/history.c:1688-1689 | what is kept in a smaller buffer is a suffix, and no longer suffix fits |
| HistorySpec.EmptyBuffer | libtecla/history.c:1640-1650 | without a buffer nothing is stored |
| HistorySpec.AddSucceeds | libtecla/history.c:396-497 | a line that is to be stored is refused if and only if it does not fit in the buffer beside the prefix; if it is refused, all other lines have gone |
| HistorySpec.AddKeeps | libtecla/history.c:396-507 | adding keeps the ids increasing, the texts storable, the segments and lines within their limits |
| HistorySpec.PrepareKeeps | libtecla/history.c:2490-2520 | opening or keeping a session keeps the invariant, with the line being typed last |
| HistorySpec.SearchPrefixKeeps | libtecla/history.c:734-771 | taking a prefix keeps the invariant; its text counts as stored |
| HistorySpec.LimitKeeps | libtecla/history.c:1749-1784 | limiting the lines keeps the invariant |
| HistorySpec.ClearKeeps | libtecla/history.c:1796-1864 | clearing keeps the invariant, and the order of the lines of other groups |
| HistorySpec.OthersKeep | libtecla/history.c:1843-1860 | exactly the lines of other groups are left, in their order |
| HistorySpec.ResizeKeeps | libtecla/history.c:1622-1737 | resizing keeps the invariant |
| HistoryRuns.RunKeeps | libtecla/history.c:396-1878 | every history reached from a well-formed one by any run of allowed operations, the loading of files among them, is well-formed |
| HistoryRuns.LoadKeeps | libtecla/history.c:1148-1264 | loading any file, well-formed or not, keeps the invariant |
| HistoryRuns.NewHistory | libtecla/history.c:243-331 | a new history is well-formed, whatever its size, so the runs that start from it are covered |
| HistoryRuns.AddKeepsLongest | libtecla/history.c:446-497 | adding a line, forced or not, with or without a session open, keeps the longest suffix that leaves room for it, each line with its id, group and text; when nothing would, everything has gone and the line is refused |
| HistoryRuns.RefusalIsHarmless | libtecla/history.c:446-497 | a line that is to be stored is either stored, or leaves the other lines alone, if and only if it fits in the buffer beside the prefix, or there were no other lines |
| HistoryRuns.RefusalEmpties | libtecla/history.c:446-497 | a line of two segments empties a history of one segment, and is refused |
| HistoryRuns.ResizeKeepsLongest | libtecla/history.c:1622-1737 | changing between sizes that are not zero keeps the longest suffix that fits, each line as it was, with or without a session open; the same number of segments changes nothing |
| HistoryRuns.LimitKeepsNewest | libtecla/history.c:1749-1784 | a limit keeps exactly the newest lines, as many as it allows, each as it was |
| HistoryRuns.ForwardUndoesBackward | libtecla/history.c:523-681 | a search forward right after a search backward returns the text that the search backward started from |
| HistoryRuns.IdZeroIsRecalled | libtecla/history.c:936-981 | the first line ever added has id zero and is recalled by it, so zero does not stand for no line |
| HistoryRuns.GroupChosen | libtecla/history.c:1382-1408 | another group ends the session and becomes that of the lines to come; the same group changes nothing |
| HistoryRuns.ClearLeaves | libtecla/history.c:1796-1864 | clearing ends the session, and leaves no lines, or exactly those of the other groups in the order of their ids |
| HistoryRuns.PrefixTaken | libtecla/history.c:734-771 | a prefix takes the place of any other if it fits in the buffer, with the longest suffix of the lines that leaves room for it; if not, neither prefix nor lines are left; an empty one only lets the other go |
| HistoryRuns.OnlyBlankIgnored | libtecla/history.c:409-445 | an unforced line is left out if and only if there is nothing but the six white-space characters before its newline; while the history is disabled nothing changes at all |
| HistorySearch.SearchedAre | libtecla/history.c:2490-2520 | what is gone through is the open session, unless it has come back to the line being typed and that has been edited; otherwise the longest suffix of the lines that leaves room, and the line being typed |
| HistorySearch.Prepared | libtecla/history.c:2490-2520 | a recall goes ahead if and only if a session goes on or the line fits beside the prefix; if not, all of the lines have gone |
| HistorySearch.BackwardsFinds | libtecla/history.c:523-594 | a line is found if and only if some line older than that last recalled is of the group, has another text and has the prefix; it is the newest of these, recall moves to it, and its text is returned as far as it fits; otherwise recall stays |
| HistorySearch.ForwardsFinds | libtecla/history.c:611-681 | a line is found if and only if some line newer than that last recalled is of the group, has another text and has the prefix; it is the oldest of these, and the session is over if it is the line that was being typed |
| HistorySearch.OldestFinds | libtecla/history.c:785-843 | the first line of the group is recalled, and the session is over if that is the line being typed |
| HistorySearch.RecalledById | libtecla/history.c:949-981 | for every id, zero included, the text of the one line that has it is returned, and recall moves there, if and only if it is of the group; otherwise recall stays |
| HistorySearch.CurrentIsLast | libtecla/history.c:858-893 | the last line is returned and leaves the list, and the session is over |
| HistorySearch.NothingRecalled | libtecla/history.c:536-553 | nothing changes and nothing is returned while the history is disabled, for a line that does not fit in its own buffer, or without a session to go forward or return in |
| RecallSession.SessionRollsBack | libtecla/history.c:2490-2520 | after any run of searches and recalls started on a typed line, returning to the current line gives that line back up to its newline, and leaves the history as it was but for the oldest lines if the typed line only fitted without them |
| RecallSession.SessionGivesBackExactly | libtecla/history.c:858-893 | the typed line comes back unchanged if and only if it has no newline in it, or no session was opened: the history was disabled, the line did not fit beside the prefix, or there were only searches forward |
| RecallSession.NewlineIsLost | libtecla/history.c:858-893 | the line "a\nb" does not come back from one search backward and the return to it |
| RecallSession.SessionPermitted | libtecla/history.c:2490-2520 | what callers have to see to is met at every step of a run if and only if it is met by the line that the run starts on, or the run has only searches forward |
| HistorySession.RecallRun | libtecla/getline.c:5262-5330 | a run of recalls on the store itself, each passed the line buffer that the one before left, does what RecallSession.Run says |
| HistorySession.RecallAndReturn | libtecla/history.c:523-893 | on the store itself, any run of recalls from a typed line and the return to the current line leave the line as typed, up to its newline, and the lines as they were, but for the oldest if the typed line only fitted without them |
| RecallSession.RunReaches | libtecla/history.c:523-681 | the invariant of a session: the lines kept at its start, followed by the typed line, whatever has been recalled since |
| RecallSession.OutcomeKeeps | libtecla/history.c:523-981 | each recall operation keeps the invariant of the history, and leaves a line without NULs in the buffer |
| HistoryFile.ReadLine | libtecla/history.c:1191-1200 | what is read and what is left make up the file; something is read unless the file is at its end |
| HistoryFile.DecimalValue | libtecla/history.c:1051-1051 | a number that has been printed is read back as itself |
| HistoryFile.ParamsReadBack | libtecla/history.c:1203-1232 | the parameters written for a line are read back, with the same group and with the time that the timestamp stands for |
| HistoryFile.RecordReadBack | libtecla/history.c:1046-1064 | what is written for a line is read back as the two lines of the file that it was written as, and no more |
| HistoryFile.LoadRecords | libtecla/history.c:1191-1257 | saved lines that fit together are added behind those there are, discarding none, whatever follows them in the file |
| HistoryFile.SaveThenLoad | libtecla/history.c:1002-1264 | saving all of the lines and loading the file into a history of the same size gives the same texts and groups in the same order, each with the time that its timestamp stands for, and nothing is discarded on the way |
| HistoryFile.SavedWithin | libtecla/history.c:1031-1038 | what is saved is a suffix of the lines; it is within the limit if and only if that is above zero or there are no lines |
| HistoryFile.NewestSaved | libtecla/history.c:1031-1038 | the newest lines are saved, exactly as many as asked for, or one if that is zero, or all of them |
| HistoryFile.FileWritten | libtecla/history.c:1046-1064 | each line adds to the file the comment, its timestamp and its group, with one space between them, on one line, and its text on the next |
| HistoryFile.LoadStops | libtecla/history.c:1191-1241 | the lines in front of one that is malformed, or that has none behind it, are loaded and stay; then loading fails |
| HistoryParams.ParamsAre | libtecla/history.c:1203-1232 | the line in front of a history line is accepted if and only if it is made of the comment, a timestamp and a group, with blanks around them; and these are the time and the group |
| HistoryParams.GroupMissing | libtecla/history.c:1218-1224 | the line "# ?" is accepted, although there is no group on it |
| HistoryFile.StampedKeeps | libtecla/history.c:1240-1257 | replacing the timestamp and the group of the newest line keeps the invariant |
| FreeLists.ThreadBlock | libtecla/freelist.c:373-380 | the nodes of a block are linked in order, and the last one ends the chain |
| FreeLists.FreeList.constructor | libtecla/freelist.c:70-123 | a first block of at least one node, all of them idle |
| FreeLists.FreeList.Extend | libtecla/freelist.c:333-364 | a new block adds its nodes to those there are, none of which it shares memory with |
| FreeLists.FreeList.New | libtecla/freelist.c:224-263 | the node handed out is not one that is outstanding, and its memory is no other node's; new memory is only asked for when no node is idle, and nothing changes if there is none |
| FreeLists.FreeList.Del | libtecla/freelist.c:274-293 | the node is idle again, and all others are what they were |
| FreeLists.FreeList.Reset | libtecla/freelist.c:133-165 | one acyclic chain holds every node of every block exactly once, and none is busy |
| FreeLists.FreeList.NoAliasing | libtecla/freelist.c:224-293 | the chain of idle nodes is acyclic and has exactly ntotal - nbusy nodes, none of them outstanding; every node is one or the other, and no two nodes share memory |
| FreeLists.GatherAll | libtecla/freelist.c:133-165 | the nodes accounted for are exactly those of all of the blocks |
| FreeLists.BlocksApart | libtecla/freelist.c:333-364 | no two blocks share a node, and no node is twice in one |
| IoUtil.Writer.Write | libtecla/ioutil.h:50-53 | the contract of a write function: any answer from 0 to n, or -1; requests are not empty and are inside of their buffer |
| QueueSpec.FlushConserves | libtecla/chrqueue.c:320-416 | whatever the write function does, what it has accepted followed by what is queued stays the same; done exactly when nothing is queued, and blocked or failed exactly as it last answered |
| QueueSpec.AppendConserves | libtecla/chrqueue.c:160-261 | appending k characters adds exactly the first k to what has been accepted and is queued; fewer than all only if the write function failed or memory ran out |
| QueueSpec.RunConserves | libtecla/chrqueue.c:160-416 | over any run of appends and flushes and any write schedule, the characters accepted followed by those still queued are those appended, in order |
| QueueSpec.RunInOneBlock | libtecla/chrqueue.c:191-213 | if the write function always accepts at least one character, the queue never owns more memory than it started with, and takes everything |
| QueueSpec.WillingFlush | libtecla/chrqueue.c:320-416 | such a write function empties the queue in one flush, after which the positions start again at zero |
| QueueSpec.WillingAppend | libtecla/chrqueue.c:160-261 | with such a write function an append takes every character and no new block |
| QueueSpec.AppendInRoom | libtecla/chrqueue.c:183-256 | characters for which there is room in the blocks that are owned all go there, and nothing is written |
| QueueSpec.AppendGrows | libtecla/chrqueue.c:191-213 | blocks are added no more often than the write function, when asked to make room, has accepted nothing |
| QueueSpec.FlushKeeps | libtecla/chrqueue.c:320-416 | a flush keeps the positions within the blocks, and owns no more of them than before |
| QueueSpec.AppendKeeps | libtecla/chrqueue.c:160-261 | an append keeps the positions within the blocks that are owned |
| QueueSpec.RequestIs | libtecla/chrqueue.c:334-360 | what the code works out to request, from the positions and from whether the first block is the last, is what the first block still holds: never nothing, and all of the text only if there is one block |
| QueueSpec.SentBlock | libtecla/chrqueue.c:366-395 | after a whole block that is not the last, the next one starts at its first character |
| QueueSpec.UsedAfter | libtecla/chrqueue.c:183-256 | the blocks used are always those from floor(nflush/N) to ceil(ntotal/N) |
| CharQueues.CharQueue.constructor | libtecla/chrqueue.c:89-123 | a new queue is empty and owns one block |
| CharQueues.CharQueue.Append | libtecla/chrqueue.c:160-261 | the linked buffers and positions do what QueueSpec.Append says, with the write function left in the state it says |
| CharQueues.CharQueue.Flush | libtecla/chrqueue.c:320-416 | the linked buffers and positions do what QueueSpec.Flush says; terminates on the characters left |
| CharQueues.CharQueue.Empty | libtecla/chrqueue.c:269-282 | nothing is queued, all blocks are idle, and no memory is given up |
| CharQueues.CharQueue.CharCount | libtecla/chrqueue.c:292-295 | counts the characters that are queued |
| CharQueues.CharQueue.FirstRequest | libtecla/chrqueue.c:334-360 | the request made of the write function is the start of the queued text, inside of the first buffer |
| EditBuffers.EditBuffer.BufferChar | libtecla/getline.c:12011-12032 | one character is overwritten, or appended with a new terminator; refused when the buffer is full |
| EditBuffers.EditBuffer.BufferString | libtecla/getline.c:12049-12066 | the string overwrites what is there, extending the line as needed; what does not fit is left out, and that is reported |
| EditBuffers.EditBuffer.MakeGapInBuffer | libtecla/getline.c:12081-12098 | what follows moves up to leave a gap; if there is no room nothing moves; the value returned is 1 either way |
| EditBuffers.EditBuffer.RemoveFromBuffer | libtecla/getline.c:12110-12117 | the characters are taken out, and the line ends with its terminator |
| EditBuffers.EditBuffer.TruncateBuffer | libtecla/getline.c:12130-12137 | the line is its own first n characters, or the length is refused |
| EditBuffers.EditBuffer.UpdateBuffer | libtecla/getline.c:12147-12174 | the length is that of the string in the buffer; linelen+1, one more than is allowed, if it is not terminated in time |
| EditBuffers.EditBuffer.PlaceCursor | libtecla/getline.c:7788-7807 | the cursor is kept on the line, on a character in vi command mode |
| EditBuffers.EditBuffer.SaveForUndo | libtecla/getline.c:7820-7835 | in command mode the first save of an action is kept, and later ones are ignored |
| EditBuffers.EditBuffer.DeleteChars | libtecla/getline.c:4364-4438 | refines EditSpec.DeleteChars in place, in each of the editing modes |
| EditBuffers.EditBuffer.DeleteLine | libtecla/getline.c:4247-4273 | refines EditSpec.DeleteLine in place |
| EditBuffers.EditBuffer.KillLine | libtecla/getline.c:4279-4304 | refines EditSpec.KillLine in place |
| EditBuffers.EditBuffer.ExchangePointAndMark | libtecla/getline.c:4961-4976 | refines EditSpec.ExchangePointAndMark |
| EditBuffers.EditBuffer.KillRegion | libtecla/getline.c:4982-5017 | refines EditSpec.KillRegion in place, with the mark on either side of the cursor or beyond the line |
| EditBuffers.EditBuffer.ForwardDeleteWord | libtecla/getline.c:4505-4524 | refines EditSpec.ForwardDeleteWord in place |
| EditBuffers.EditBuffer.BackwardDeleteWord | libtecla/getline.c:4530-4551 | refines EditSpec.BackwardDeleteWord in place, back to where inserting started at the most |
| EditBuffers.EditBuffer.NthWordEndForward | libtecla/getline.c:7501-7539 | the index loops compute EditSpec.NthWordEndForward |
| EditBuffers.EditBuffer.NthWordStartForward | libtecla/getline.c:7552-7578 | the index loops compute EditSpec.NthWordStartForward |
| EditBuffers.EditBuffer.NthWordStartBackward | libtecla/getline.c:7591-7624 | the index loops compute EditSpec.NthWordStartBackward |
| EditBuffers.EditBuffer.AddStringToLine | libtecla/getline.c:3062-3104 | the string is inserted at the cursor, which ends up behind it; nothing at all is if there is no room |
| EditBuffers.EditBuffer.Yank | libtecla/getline.c:5061-5092 | refines EditSpec.Yank in place, for any count |
| EditBuffers.EditBuffer.ViUndo | libtecla/getline.c:7842-7896 | swapping the two buffers in place swaps their texts, whichever is longer, each with its terminator |
| EditBuffers.EditBuffer.IndexOfMatchingParen | libtecla/getline.c:8117-8170 | the index loops compute Brackets.MatchingParen, or -1 |
| EditSpec.CutThenYank | libtecla/getline.c:4247-5092 | in emacs mode, for every text, cursor, mark and count, a yank after any one of the five cuts restores the line |
| EditSpec.YankThenKill | libtecla/getline.c:4982-5092 | in emacs mode, killing the region undoes a yank, however many copies there was room for |
| EditSpec.UndosSwap | libtecla/getline.c:7842-7896 | an even number of undos restores the texts of the line and of the undo buffer, and an odd number swaps them |
| EditSpec.UndoAction | libtecla/getline.c:7820-7896 | in vi command mode one undo restores the line that any one of these actions changed |
| EditSpec.ExchangeTwice | libtecla/getline.c:4961-4976 | swapping the cursor with a mark in the line twice changes nothing |
| EditSpec.DeleteKeeps | libtecla/getline.c:4364-4438 | the line, cut and undo buffers stay within their capacity and free of NULs, and the cursor stays on the line |
| EditSpec.DeleteWordKeeps | libtecla/getline.c:4505-4551 | the same of deleting words |
| EditSpec.RegionKeeps | libtecla/getline.c:4982-5017 | the same of killing a region |
| EditSpec.YankKeeps | libtecla/getline.c:5061-5092 | the same of yanking |
| EditSpec.UndoKeeps | libtecla/getline.c:7842-7896 | the same of undoing |
| EditSpec.WordEndsAre | libtecla/getline.c:7501-7539 | for any count, the result is the end of a word with exactly count - 1 word ends between it and the cursor; or the line ended first, with fewer than count of them |
| EditSpec.WordStartsAre | libtecla/getline.c:7552-7578 | for any count, the result is the start of a word with exactly count - 1 word starts between the cursor and it; or the line ended first, with fewer than count of them |
| EditSpec.WordsBackAre | libtecla/getline.c:7591-7624 | for any count, the result is the start of the count-th word back from the cursor; or there were fewer before the insertion point |
| EditEffects.DeleteTakesOut | libtecla/getline.c:4364-4438 | as many characters from the cursor on as asked for, or as there are, go; in vi overwrite mode what was there before is put back instead; they are cut if so asked; the cursor stays |
| EditEffects.LineCut | libtecla/getline.c:4247-4273 | the whole line goes to the cut buffer |
| EditEffects.EndCut | libtecla/getline.c:4279-4304 | what is left is as long as the cursor says, and with what is cut makes up the line |
| EditEffects.RegionCut | libtecla/getline.c:4982-5017 | exactly the characters between the cursor and the mark, on either side, are taken out and cut, and cursor and mark are left there |
| EditEffects.WordTakenOut | libtecla/getline.c:4505-4524 | what lies between the cursor and the word end (in emacs mode) or word start (otherwise) that is searched for is taken out, and cut in emacs and in vi command mode |
| EditEffects.WordTakenBack | libtecla/getline.c:4530-4551 | what lies between the word start that is searched for and the cursor is taken out, and cut in emacs and in vi command mode |
| EditEffects.NthEnd | libtecla/getline.c:7501-7539 | the search goes to the count-th word end behind the cursor, or to the last character of a line that has fewer |
| EditEffects.NthStart | libtecla/getline.c:7552-7578 | the search goes to the count-th word start behind the cursor, or to the end of a line that has fewer |
| EditEffects.NthStartBack | libtecla/getline.c:7591-7624 | the search goes to the count-th word start before the cursor, or to where inserting started if there are fewer |
| EditEffects.WordChars | libtecla/getline.c:5785-5788 | words are made of ASCII letters and digits, and of the characters _ * ? \ [ ] |
| EditEffects.PlacedClosest | libtecla/getline.c:7788-7807 | the cursor is placed as close to the position asked for as it may be |
| EditEffects.Exchanged | libtecla/getline.c:4961-4976 | the mark goes to where the cursor was, and the cursor as close to the mark as it may be |
| EditEffects.Yanked | libtecla/getline.c:5061-5092 | as many copies of what was cut as asked for, or as there is room for, are added at the cursor; the mark is before them, and the cursor behind them, or in vi mode on the last character |
| EditEffects.Undone | libtecla/getline.c:7842-7896 | the line and the undo buffer are swapped, and the cursor goes to the leftmost of where it is, where it was, and the end of the line |
| Brackets.ForwardIsPair | libtecla/getline.c:8133-8142 | from an opening bracket exactly the bracket is found that it is paired with, the text between them being balanced |
| Brackets.BackwardIsPair | libtecla/getline.c:8147-8156 | from a closing bracket exactly the bracket is found that it is paired with |
| Brackets.MatchingIsMate | libtecla/getline.c:8117-8170 | from a bracket of any kind the code finds q if and only if q is its mate |
| Brackets.JumpsBack | libtecla/getline.c:8117-8170 | jumping from a bracket to its match and on again comes back to where it started |
| Brackets.NotOnBracket | libtecla/getline.c:8161-8164 | away from a bracket the code finds the first closing bracket of any kind behind the cursor, and at the end of the line none |
| Brackets.AnyClose | libtecla/getline.c:8161-8164 | away from a bracket the first closing one is found, and there is none before it |
| Glob.StringMatchesPattern | libtecla/expand.c:808-909 | the loop with its recursion terminates, and computes Glob.Match of the parsed pattern |
| Glob.PatternsMean | libtecla/expand.c:808-909 | what a pattern stands for: characters for themselves, escaped ones too, ? for any one character, * for any string |
| Glob.MatchSound | libtecla/expand.c:808-909 | a name that is accepted can be cut into one part for each token of the pattern, each of which that token may stand for; a first character to be matched explicitly is not left to a wildcard |
| Glob.MatchComplete | libtecla/expand.c:808-909 | every name that can be cut up like that is accepted, unless the pattern ends with two `*` |
| Glob.RightUnlessStars | libtecla/expand.c:843-850 | a pattern is matched by the code exactly as it should be, for all names, if and only if it does not end with two `*` (or starts with a wildcard where none is allowed) |
| Glob.TwoStars | libtecla/expand.c:843-850 | the pattern ** is refused the empty name, which * accepts |
| Glob.EscapedMatchesItself | libtecla/cplfile.c:825-866 | the escaped form of a name accepts that name and no other, with or without the rule for a first character |
| Glob.EscapedReadsBack | libtecla/cplfile.c:825-866 | a command line that starts with the escaped form is read as that name, up to the first unescaped space or tab, with the rest left |
| Glob.BackslashesAdded | libtecla/cplfile.c:825-845 | one backslash is added for each space, tab, backslash, *, ? and [, and for nothing else |
| Glob.EscapeLength | libtecla/cplfile.c:825-845 | the backslashes counted are those added; without any the escaped form is the name |
| Glob.CompleteFile.PrepareSuffix | libtecla/cplfile.c:807-868 | the work buffer holds the suffix, escaped if that is asked for, terminated; when escaped it is read back as that suffix |
| Completion.EndsSuffice | libtecla/cplmatch.c:447-462 | the common prefix of only the first and the last of strings in order is the longest common prefix of all of them |
| Completion.SamePrefix | libtecla/cplmatch.c:420-474 | the longest common prefix does not depend on the order in which strings were added, nor on how often |
| Completion.CommonSuffixIs | libtecla/cplmatch.c:420-474 | sorted in any order of insertion, the two ends give the longest common prefix of all recorded suffixes |
| Completion.SortedKeeps | libtecla/cplmatch.c:385-407 | sorting by suffix orders the matches and keeps each of them |
| Completion.WordCompletion.AddCompletion | libtecla/cplmatch.c:288-348 | one match is recorded behind those there are, growing the array by 100 when it is full; none without a suffix |
| Completion.WordCompletion.SortSuffixes | libtecla/cplmatch.c:385-389 | the recorded matches are sorted in place |
| Completion.WordCompletion.CommonSuffix | libtecla/cplmatch.c:420-474 | the suffix recorded is the longest common prefix of all suffixes, and the matches are the same ones |
| Completion.WordCompletion.PlanListing | libtecla/cplmatch.c:1022-1073 | computes Completion.Plan in loops |
| Completion.WordCompletion.FormatLine | libtecla/cplmatch.c:1094-1170 | writes the line and its end, or as much of it as the write function accepts before it falls short; nothing for a line out of bounds |
| Completion.WordCompletion.OutputCompletions | libtecla/cplmatch.c:636-663 | writes the lines of the listing in order, and stops at the first that fails; nothing without a terminal width or a write function |
| Completion.PlanIs | libtecla/cplmatch.c:1043-1071 | there are as many columns as fit on the terminal, but at least one, and just as many lines as they need |
| Completion.InListing | libtecla/cplmatch.c:636-663 | in the listing as a whole each match is written in full, behind the lines before its own and the columns before its own, and the listing ends with its last line |
| Completion.GapIsBlank | libtecla/cplmatch.c:1138-1158 | what lies between a match and the next column is blank |
| Completion.LexLeMeans | libtecla/cplmatch.c:402-407 | suffixes are ordered by the first character in which they differ, a prefix first |
| Completion.EachOnce | libtecla/cplmatch.c:1063-1071 | each match is in exactly one column of exactly one line of the listing |
| Completion.MatchIsListed | libtecla/cplmatch.c:1117-1158 | each match is written in full at the start of its column, at column*(column_width+2), on its line, if and only if not all of them are empty |
| Completion.ColumnStarts | libtecla/cplmatch.c:1138-1158 | the padding brings the k-th column of every line that reaches it to k*(column_width+2) |
| Completion.LinesFit | libtecla/cplmatch.c:1022-1158 | every line fits within the terminal if and only if the longest match does |
| Completion.WritePadding | libtecla/cplmatch.c:1138-1157 | pieces of at most twenty spaces add up to the padding |

## Left out

- Terminal input and output, terminal capabilities, signals, prompts, cursor movement and redisplay: calls into the
  system and display; the display calls of the editing functions do nothing here.
- Key bindings, directory and home-directory lookup, and the caches for them: operating-system state.
- Character ranges in patterns, and patterns in history searches: the loops for them can stall, or see a first
  character twice.
- HistoryStore.GlHistory.SaveHistory: files are strings and timestamps are rendered by a parameter; opening, closing
  and write errors are not modelled.
- HistoryStore.GlHistory.LoadHistory: timestamps are decoded by a parameter, and read errors are not modelled.
- HistoryFile.SaveThenLoad: how timestamps are rendered and decoded is a parameter, because calendars are not
  modelled; the time loaded is the one that decoding gives.
- Glob.StringMatchesPattern: patterns with ranges, and patterns that end in the middle of an escape, are excluded.
- LineStorage.HashNode.MatchesPrefix: prefixes that contain wildcards are excluded.
- LineStorage.LineStore.FindBucket: characters are taken modulo 256, and unsigned long has 64 bits.
- Completion.WordCompletion.SortSuffixes: the library's qsort() is a stable sort here; only that the result is ordered
  and has the same matches is used.
- Completion.WordCompletion.CommonSuffix: running out of memory is not modelled.
- EditBuffers.EditBuffer.NthWordEndForward: letters and digits are those of ASCII, not of a locale.
- FreeLists.FreeList.constructor: rounding of the node size up to that of a pointer is not modelled, since memory is
  not a sequence of bytes here.
- CharQueues.CharQueue.Flush: there is always a write function; a null one, documented to discard what is queued, is
  not modelled.
- EditBuffers.EditBuffer.SaveForUndo: the record of the vi action to repeat is not modelled, since it holds key
  bindings.
- EditBuffers.EditBuffer.ViUndo: that it becomes the action to repeat is not modelled, for the same reason.
- Glob.CompleteFile.PrepareSuffix: the return for insufficient memory is not modelled.
- Completion.WordCompletion.AddCompletion: failing allocations, and the error returned for them, are not modelled.
- Running out of memory, except for the nodes of the free-list: allocations succeed.
- The widths of the C integers that count characters, nodes and lines: they do not wrap around here.
- Deleting histories, queues and free-lists, error messages, showing the history, and removing duplicate completions.
