# Verified models of Fuchsia host tools

This project models the state machines inside several Fuchsia host tools and scripts, and proves what
each of them promises. Files, sockets, git, GN and cgpt are inputs; everything that the tools compute
from those inputs is modelled, with the integer widths, branches and error paths of the code.

`dafny verify dfyconfig.toml` checks the whole project.

| files | what they model |
|---|---|
| `NetbootSender.dfy`, `NetbootReceiver.dfy`, `NetbootSystem.dfy`, `NetbootProgress.dfy` | the netboot file transfer: the host's NACK-driven sender, the device's packet handler, and both over a channel that loses, duplicates, delays and reorders |
| `DemoFifo.dfy` | the demo-fifo driver: free-running 32-bit counters over a ring, as a bounded queue with two wakeup signals |
| `BuildGraph.dfy`, `BuildGraphLoad.dfy` | the build-graph analysis: listing parser, reference index, quotient graph, batches of referrers |
| `SymbolizerIndex.dfy`, `LogParser.dfy` | the symbolizer: markup lines, module tables, address lookup |
| `GcsReader.dfy` | random access on top of a forward-only stream |
| `FileTree.dfy` | the license checker's tree with parent pointers, its worklist iterator and license lookup |
| `StemHistory.dfy` | the incremental cache of integration commits |
| `Installer.dfy` | the disk layout and the writes of the installer image |
| `Completions.dfy` | label segments, the trie of labels and the completions read off it |
| `FormatSize.dfy` | the size formatter of the memory treemap |
| `SymbolIndex.dfy` | the symbol-index file: reading, saving, and the operations on its entries |
| `Strings.dfy`, `Machine.dfy` | splitting and joining text, lines, 32- and 64-bit arithmetic |

State that the source updates in place is a class here, and each of its methods is proved against a
function of the old state; the theorems are about those functions, over every run.

## Where the code falls short of what one would expect

Each of these has a result that says exactly when the code meets the expectation, and a failing input.

- Netboot, status 0: the host reports success although the device holds nothing when a delayed copy of
  `NB_SEND_FILE` arrives after the report, because the device then opens the file again
  (`ReportTrueExactly` for single runs, `StatusZeroIsTrueExactly` for channels; `RestartLosesTheFile`).
  Even then the device did hold the whole file at some point of the run (`StatusZeroWasTrue`).
- Netboot, progress: the device answers `NB_SEND_FILE` with an acknowledgement that names the file
  size. A second copy of that answer sends a host that has sent no packet to the end of the file,
  where it waits for a report that cannot come (`CanFinishExactly`; `Stuck`). Empty files end up there
  at once (`EmptyNeverFinishes`). Answers with cookie 0, after a wrap of the counter, are not obeyed.
- Netboot, replies: a reply with a wrong magic, or with the cookie of a later message, is logged as bad
  but obeyed all the same (`TurnFailsExactly`, `TurnDoes`).
- demo-fifo: a request of length zero clears a wakeup signal that should stay up
  (`NoLostWakeupExactly`; `EmptyReadLosesWakeup`).
- Stem history: when a pinned revision moves backwards, the reversed map depends on the updates that
  filled the cache (`UpdateStemHistory`, `BlocksSameExactly`; `BackwardPinsDiffer`).
- Log parser: a number that does not fit its type is accepted, and the variable keeps whatever it held
  (`NumeralParses`, for every number).
- Symbolizer: module ids are 64 bits wide but keys are ints, so ids that agree in their lower 32 bits
  share an entry (`KeysMeetExactly`).
- File tree: `getPath` drops empty components, so files are listed under their directory only for
  directories without them (`FileIterator`, `NamesExactly`; `AbsolutePathDiffers`); for a directory of
  one component `getProjectLicense` does not look at the directory itself (`GetProjectLicense`;
  `OneComponentMissed`).
- gcsReader: an empty request past the end reports EOF only when the stream stood at the end already
  (`ReadAt`; `EmptyRequestTwice`).
- Size formatter: sizes from 1024^7 on can run past the last unit, which is an index error
  (`FormatSize`; `HugeSizeFails`).
- Symbol index: an entry survives a save and a load only when it is storable: absolute paths, no tab
  or line break, no blank at the end of the line (`SaveLoadExactly`; `TrailingBlankLost`).

## Model

| member | source | states |
|---|---|---|
| NetbootSender.TurnsAgree | tools/bootserver_old/netboot.c:291-365 | against any sequence of replies the positions agree at every loop head, and every packet ever sent is file[arg..arg+len], 1 to 1280 bytes, last exactly at the file size |
| NetbootSender.TurnFailsExactly | tools/bootserver_old/netboot.c:30-180 | against any reply, exactly the turns that end with an error: a failed read or select, no reply, an error reply to no later message, a refused write, a position that cannot be reached |
| NetbootSender.TurnDoes | tools/bootserver_old/netboot.c:118-363 | every other turn: when it sends, where it leaves reader, current_pos and cookie, and that it is the last exactly when it reads NB_FILE_RECEIVED |
| NetbootSender.TurnsTrace | tools/bootserver_old/netboot.c:291-366 | the loop goes through the turns one by one, ends in the last state, and has sent exactly what its running states send |
| NetbootSender.XferData.constructor | tools/bootserver_old/netboot.c:243-266 | a reader at position 0 over a buffer or a file |
| NetbootSender.XferData.XRead | tools/bootserver_old/netboot.c:190-206 | returns the next slice of the data and moves the position by its length, less when fread breaks off; an error exactly when a broken fread yields nothing |
| NetbootSender.XferData.XSeek | tools/bootserver_old/netboot.c:208-219 | moves the position, or fails and leaves it: for a buffer exactly when it ends before the offset, for a file exactly when fseek fails |
| NetbootSender.ReactTo | tools/bootserver_old/netboot.c:341-363 | the in-place reaction to an acknowledgement does what the step function says |
| NetbootSender.SendAndReact | tools/bootserver_old/netboot.c:307-363 | the loop body after the read refines the step function: packet, last mark, cookie, exchange, reaction |
| NetbootSender.OneTurn | tools/bootserver_old/netboot.c:295-364 | the in-place loop body on reader, current_pos, msg->arg and cookie refines one turn of the step function |
| NetbootSender.TransferLoop | tools/bootserver_old/netboot.c:291-367 | the loop run against any script of events yields the phase, log and position of the step function, and every packet in the log is a true slice |
| NetbootReceiver.Bootloader.constructor | src/bringup/bin/netsvc/netboot.cc:307-315 | the handler's static state before any message |
| NetbootReceiver.DataExactly | src/bringup/bin/netsvc/netboot.cc:377-445 | any data packet: which bytes of the buffer change, the four answers, and what is remembered |
| NetbootReceiver.OthersExactly | src/bringup/bin/netsvc/netboot.cc:330-445 | any other message: a repeated one gets the last answer and changes nothing, NB_SEND_FILE opens or refuses, the rest leave the file alone; and which are acknowledged |
| NetbootReceiver.ActsExactly | src/bringup/bin/netsvc/netboot.cc:403-428 | the device boots exactly on a new NB_BOOT, and reboots exactly on a new NB_REBOOT, when the paver did not fail |
| NetbootReceiver.Bootloader.Append | src/bringup/bin/netsvc/netboot.cc:384-401 | the data branch: append at the offset, an answer that names the offset, or too large |
| NetbootReceiver.Bootloader.OpenFile | src/bringup/bin/netsvc/netboot.cc:349-375 | an accepted file gets an empty buffer of its size, a rejected one none, with their answers |
| NetbootReceiver.Bootloader.HandleNew | src/bringup/bin/netsvc/netboot.cc:340-445 | a message that repeats nothing: new state, reply and action of the handler function |
| NetbootReceiver.Bootloader.BootloaderRecv | src/bringup/bin/netsvc/netboot.cc:307-464 | the in-place handler refines the handler function for every datagram: other ports and short datagrams do nothing, repeated messages get the last answer, boot and reboot act only when new and the paver did not fail |
| NetbootSystem.DeviceHoldsPrefix | tools/bootserver_old/netboot.c:295-367 | in every reachable state the device holds a prefix of the file, all packets on the wire are true slices, and the device never answered too large |
| NetbootSystem.FailureHasCause | tools/bootserver_old/netboot.c:295-364 | a turn fails only through the operating system or a refused file, never through an acknowledgement |
| NetbootSystem.ReportTrueExactly | tools/bootserver_old/netboot.c:295-367 | for every run over a channel that loses, duplicates and reorders: the device holds the whole file in every state in which the receipt is reported if and only if no NB_SEND_FILE is delivered after the report |
| NetbootSystem.SuccessMeansWhole | tools/bootserver_old/netboot.c:356-367 | every run that ends with status 0, and delivers no NB_SEND_FILE after the report, leaves the whole file on the device |
| NetbootSystem.StatusZeroWasTrue | tools/bootserver_old/netboot.c:356-367 | on every channel a report means that the device held the whole file in some state of the run |
| NetbootProgress.CanFinishExactly | tools/bootserver_old/netboot.c:283-367 | for every start cookie, a running transfer can still end with status 0 if and only if the report is on the wire, or the device has the file open and the host has a packet to send, has sent one with a cookie other than 0, or has sent the whole file in one |
| NetbootProgress.Stuck | tools/bootserver_old/netboot.c:307-355 | every transfer, of any file and with any start cookie, can reach a running state that can never finish |
| NetbootProgress.EmptyNeverFinishes | tools/bootserver_old/netboot.c:307-312 | the transfer of an empty file never ends with status 0 |
| NetbootProgress.RestartLosesTheFile | src/bringup/bin/netsvc/netboot.cc:349-375 | for every non-empty file there is a run that ends with status 0 and leaves the device empty |
| NetbootProgress.StatusZeroIsTrueExactly | tools/bootserver_old/netboot.c:356-367 | over all runs of a channel, status 0 means that the device holds the whole file if and only if the channel delivers no NB_SEND_FILE after the report |
| FifoSpec.FirstInFirstOut | examples/drivers/fifo/demo-fifo.c:64-107 | over any run the bytes delivered followed by those stored are exactly the bytes accepted |
| FifoSpec.NoLostWakeupExactly | examples/drivers/fifo/demo-fifo.c:64-107 | a run never loses a wakeup if and only if each empty request meets a state that could serve no request either |
| FifoSpec.EmptyReadLosesWakeup | examples/drivers/fifo/demo-fifo.c:64-84 | after a write of one byte, a read of length 0 takes the readable signal down |
| FifoSpec.PositiveRequestsKeepAwake | examples/drivers/fifo/demo-fifo.c:64-107 | runs of requests with positive length never lose a wakeup |
| DemoFifo.FifoDev.constructor | examples/drivers/fifo/demo-fifo.c:121-144 | a bound device is empty, writable and not readable |
| DemoFifo.FifoDev.FifoPut | examples/drivers/fifo/demo-fifo.c:34-47 | one copy appends a prefix of the buffer, limited by free room, the end of the ring and the length |
| DemoFifo.FifoDev.FifoGet | examples/drivers/fifo/demo-fifo.c:49-62 | one copy removes and returns the oldest bytes within the same limits |
| DemoFifo.FifoDev.FifoRead | examples/drivers/fifo/demo-fifo.c:64-84 | the retry loop removes exactly the first min(len, stored) bytes, in order, with the status and signals of the queue |
| DemoFifo.FifoDev.FifoWrite | examples/drivers/fifo/demo-fifo.c:86-107 | the retry loop appends exactly the first min(len, free) bytes, with the status and signals of the queue |
| DemoFifo.Serve | examples/drivers/fifo/demo-fifo.c:64-107 | any run of requests on a bound device: its contents, signals, accepted and delivered bytes are those of the queue |
| GraphSpec.SoleReferrer | scripts/unification/can_i_move_out.py:136-144 | an index entry equals the one-element list if and only if that label refers once and nothing else refers |
| BuildGraphs.BuildGraph.constructor | scripts/unification/can_i_move_out.py:20-22 | every dependency gets a node, and the index is the exact transpose, with multiplicities |
| BuildGraphs.BuildGraph.AppendReferrer | scripts/unification/can_i_move_out.py:38-41 | the inner loop counts the label once per dependency |
| BuildGraphs.BuildGraph.BuildIndex | scripts/unification/can_i_move_out.py:35-43 | the loop over all entries builds the exact transpose |
| BuildGraphs.BuildGraph.AddMissingNodes | scripts/unification/can_i_move_out.py:25-33 | exactly the missing dependencies get an empty entry |
| BuildGraphs.BuildGraph.ComputeRefs | scripts/unification/can_i_move_out.py:24-43 | the same for a recomputation |
| BuildGraphs.BuildGraph.AddImages | scripts/unification/can_i_move_out.py:58-64 | the inner loop adds exactly the images other than the node itself |
| BuildGraphs.BuildGraph.MergeImages | scripts/unification/can_i_move_out.py:52-64 | the loop over all nodes yields the merged images |
| BuildGraphs.BuildGraph.EnumerateAll | scripts/unification/can_i_move_out.py:65 | the merged sets as lists, each element once |
| BuildGraphs.BuildGraph.CollapseNodes | scripts/unification/can_i_move_out.py:45-66 | the graph becomes exactly its quotient, without repeats, and its index the exact transpose without repeats |
| BuildGraphs.BuildGraph.UnblockedBy | scripts/unification/can_i_move_out.py:136-144 | exactly the dependencies that the label lists once and nothing else refers to; without repeats, exactly those with the label as sole referrer |
| BuildGraphs.BuildGraph.NextBatch | scripts/unification/can_i_move_out.py:232-237 | the inner loops collect exactly the unseen referrers of a batch |
| BuildGraphs.BuildGraph.ListBatches | scripts/unification/can_i_move_out.py:226-239 | the batch loop ends, its batches are the layers, and together they are all transitive referrers |
| BuildGraphs.BuildGraph.Inspect | scripts/unification/can_i_move_out.py:219-242 | not found if and only if the label is no node, movable if and only if nothing refers to it; otherwise batch k is exactly the set at shortest distance k, and all referrers are listed |
| GraphListing.GroupedInOrder | scripts/unification/can_i_move_out.py:103 | the dictionary of lists holds each label's children in listing order |
| GraphListing.LineExactly | scripts/unification/can_i_move_out.py:94-103 | any line: refused exactly when its indentation is odd or more than one level below the stack; its label, its parent, and the stack behind it |
| GraphListing.ParseListing | scripts/unification/can_i_move_out.py:91-105 | the loop with the edited label stack records the pairs of the step function, or stops where the script fails |
| GraphListing.ListingRoundTrip | scripts/unification/can_i_move_out.py:84-103 | parsing the printed listing of any forest of labels recovers exactly its parent and child pairs, in order, top-level labels under the root |
| MoveOut.StripExactly | scripts/unification/can_i_move_out.py:193-198 | every label in a directory is mapped to the directory, with or without a target behind its colon, and to nothing when the directory is one of the four that hold libraries |
| MoveOut.BatchesAreDirectories | scripts/unification/can_i_move_out.py:193-239 | every listed referrer is colon-free and the directory of some printed label |
| MoveOut.Analyse | scripts/unification/can_i_move_out.py:193-242 | collapse and inspection together report on the graph of directories |
| MoveOut.Report | scripts/unification/can_i_move_out.py:75-242 | from the printed listing of any forest to batches of directories by exact distance, all of them, where directories are described by the labels that lie in them |
| SymbolizerIndex.Predecessor | tools/symbolizer/symbolizer_impl.cc:141-142 | the largest base not above the address, or none |
| SymbolizerIndex.KeyKeeps | tools/symbolizer/symbolizer_impl.h:74 | ids below 2^31 are their own keys |
| SymbolizerIndex.KeysMeetExactly | tools/symbolizer/symbolizer_impl.h:74 | two ids share a key if and only if their lower 32 bits agree |
| SymbolizerIndex.Tables.constructor | tools/symbolizer/symbolizer_impl.cc:87-89 | empty tables |
| SymbolizerIndex.Tables.ResetTables | tools/symbolizer/symbolizer_impl.cc:87-89 | both tables become empty |
| SymbolizerIndex.Tables.DeclareModule | tools/symbolizer/symbolizer_impl.cc:99-102 | name and build id are set and a known base is kept |
| SymbolizerIndex.Tables.MapModule | tools/symbolizer/symbolizer_impl.cc:104-133 | the new tables, and which of the four notes is printed, exactly when and with which values |
| SymbolizerIndex.Tables.FindModule | tools/symbolizer/symbolizer_impl.cc:139-148 | the module of the predecessor, when the 64-bit distance is within its size |
| SymbolizerIndex.RunMatches | tools/symbolizer/symbolizer_impl.cc:87-133 | over every run the tables hold for each key its last name and build id and, once mapped, its base and largest extent, and nothing else |
| SymbolizerIndex.ScanUnique | tools/symbolizer/symbolizer_impl.cc:139-148 | a scan of disjoint extents has one answer |
| SymbolizerIndex.LookupIsScan | tools/symbolizer/symbolizer_impl.cc:87-148 | over every run with sane extents the lookup finds the module containing the address, else the one ending there, else none |
| SymbolizerIndex.RunMatchesById | tools/symbolizer/symbolizer_impl.cc:87-133 | with ids below 2^31, the same over extents kept by the declared ids themselves |
| SymbolizerIndex.LookupIsScanById | tools/symbolizer/symbolizer_impl.cc:87-148 | with ids below 2^31 and sane extents, the lookup finds the declared id of the module containing the address, else of the one ending there, else none |
| Strings.JoinPieces | src/lib/fxl/strings/split_string.cc:30-57 | joining the pieces gives back the text |
| Strings.PiecesJoin | src/lib/fxl/strings/split_string.cc:30-57 | splitting joined fields gives back the fields |
| Strings.SplitString | src/lib/fxl/strings/split_string.cc:30-57 | the loop yields all pieces, or all non-empty ones |
| Strings.NonEmptyExactly | src/lib/fxl/strings/split_string.cc:51-53 | exactly the pieces that are not empty are kept |
| Strings.LinesRoundTrip | tools/symbol-index/reader.cc:21-31 | written lines are read back, with or without a line break at the end |
| Numerals.NumeralParses | tools/symbolizer/log_parser.cc:18-30 | every number, decimal or hexadecimal, for every integer type: read back when it fits, refused when negative for an unsigned type, and otherwise accepted without a value |
| Numerals.RejectedExactly | tools/symbolizer/log_parser.cc:18-30 | exactly the fields that are not taken for a number |
| Numerals.DigitsAre | tools/symbolizer/log_parser.cc:29 | ten figures and six letters in either case, and nothing else |
| LogParser.Parser.constructor | tools/symbolizer/main.cc:86-88 | a parser at the start of its input, with empty tables |
| LogParser.Parser.Dispatch | tools/symbolizer/log_parser.cc:69-134 | a call changes the symbolizer's tables as its command does; a backtrace changes nothing |
| LogParser.Parser.Echo | tools/symbolizer/log_parser.cc:57 | the line is echoed and the tables stay those of the commands so far |
| LogParser.Parser.Perform | tools/symbolizer/log_parser.cc:50-53 | a call has its effect under the current context, and the tables follow |
| LogParser.Parser.ProcessMarkup | tools/symbolizer/log_parser.cc:61-137 | the markup's call, or none |
| LogParser.Parser.ProcessLine | tools/symbolizer/log_parser.cc:42-58 | a line with valid markup is a call, any other is echoed verbatim; the context is set also for invalid markup |
| LogParser.Parser.ProcessOneLine | tools/symbolizer/log_parser.cc:34-59 | consumes exactly one line and has its one effect, or reports the end exactly when nothing is left |
| LogParser.Parser.ProcessAll | tools/symbolizer/main.cc:86-88 | over any input stream every line has its effect, in order, and the tables are those of the commands in it |
| LogParser.MarkupFoundExactly | tools/symbolizer/log_parser.cc:42-51 | context and markup of a line are found if and only if no triple of braces starts too early in either |
| LogParser.RenderRoundTrip | tools/symbolizer/log_parser.cc:34-137 | any renderable command, with any mixture of decimal and hexadecimal numbers, behind any context and with any text after it, parses back to the same call and context, as long as no triple of braces starts too early |
| LogParser.CallsExactly | tools/symbolizer/log_parser.cc:61-137 | exactly the fields that make a call: known tag, enough fields, numbers where they belong, "elf" and "load" |
| LogParser.FurtherFields | tools/symbolizer/log_parser.cc:61-137 | fields behind those that a command needs change nothing |
| LogParser.HasMarkupExactly | tools/symbolizer/log_parser.cc:42-48 | a line has markup if and only if closing braces follow opening ones |
| LogParser.EchoesExactly | tools/symbolizer/log_parser.cc:42-58 | a line is echoed, as it is, if and only if it has no markup or none that is a command |
| GcsReader.Stream.Read | tools/bootserver/image.go:108-133 | a forward-only stream: reads may be short, and the end may come with or after the last bytes |
| GcsReader.ReadAtLeast | tools/bootserver/image.go:151 | reads until the buffer is full or the stream ends, and says which |
| GcsReader.GcsFile.constructor | tools/bootserver/image.go:102-106 | nothing open yet |
| GcsReader.GcsFile.Skip | tools/bootserver/image.go:149-156 | reads up to the offset, or to the end; only a stream that stood at its end reports it |
| GcsReader.GcsFile.ReadAt | tools/bootserver/image.go:135-164 | in any order of calls, content[offset..min(offset+len, size)], with EOF exactly when fewer bytes came back; the index stays the stream's position and ends where the read did; the exact EOF condition of empty requests |
| GcsReader.EmptyRequestTwice | tools/bootserver/image.go:135-164 | the same empty request past the end, twice: EOF only the second time |
| FileTrees.PathIsDirectoryExactly | tools/check-licenses/file_tree.go:120-186 | a node's path string is the directory that led to it if and only if that directory has no empty component |
| FileTrees.AbsolutePathDiffers | tools/check-licenses/file_tree.go:168-186 | the directory "/a" is spelled "a/" |
| FileTrees.NamesExactly | tools/check-licenses/file_tree.go:119-138 | the spelled names of any added files are, as a multiset, their directory/base names if and only if no directory has an empty component |
| FileTrees.FileTree.Root | tools/check-licenses/file_tree.go:114-117 | a root: nameless, empty, without a parent |
| FileTrees.FileTree.Child | tools/check-licenses/file_tree.go:126-127 | an empty child that knows its name and parent |
| FileTrees.Checker.constructor | tools/check-licenses/file_tree.go:114-117 | an empty tree |
| FileTrees.Checker.AddChild | tools/check-licenses/file_tree.go:125-128 | the tree grows by one empty node and keeps what it holds |
| FileTrees.Checker.GetSetCurr | tools/check-licenses/file_tree.go:119-133 | returns the node whose path is the directory's components, adding what is missing and losing nothing |
| FileTrees.Checker.AppendFile | tools/check-licenses/file_tree.go:137 | adds one file under the node's path and keeps the tree |
| FileTrees.Checker.SetLicense | tools/check-licenses/file_tree.go:142 | adds the license file under the node's path and keeps the tree |
| FileTrees.Checker.AddFile | tools/check-licenses/file_tree.go:135-138 | records the call: one more file under its directory, also when it is there already |
| FileTrees.Checker.AddSingleLicenseFile | tools/check-licenses/file_tree.go:140-143 | adds the license file under its directory |
| FileTrees.Checker.GetPath | tools/check-licenses/file_tree.go:168-186 | rebuilds, through parent pointers, the path that led down |
| FileTrees.Checker.ListFiles | tools/check-licenses/file_tree.go:224-227 | the strings of one node |
| FileTrees.Checker.ListChildren | tools/check-licenses/file_tree.go:229-231 | each child once, in any order |
| FileTrees.Checker.FileIterator | tools/check-licenses/file_tree.go:213-237 | ends and yields exactly the multiset of spelled names of the files added, which is the multiset of directory/base names if and only if no directory has an empty component |
| FileTrees.Checker.GetProjectLicense | tools/check-licenses/file_tree.go:145-166 | the deepest licensed node on the way, if and only if the directory has two components or more or is not licensed itself; for one component, the root or none |
| FileTrees.OneComponentMissed | tools/check-licenses/file_tree.go:145-166 | a license added in directory "a" is missed by a lookup in "a" |
| StemHistory.ReverseCommits | scripts/sync-from-stem.py:37-46 | the nested loops fill the map in which later entries win |
| StemHistory.Git.StemExactly | scripts/sync-from-stem.py:113-118 | exactly the commits of the history that touch the manifest |
| StemHistory.PutOld | scripts/sync-from-stem.py:179 | assigning an existing key keeps its place |
| StemHistory.StemCache.constructor | scripts/sync-from-stem.py:64-68 | an empty cache |
| StemHistory.StemCache.AddRanges | scripts/sync-from-stem.py:167-179 | the loop appends the entries of the new pairs, one fewer on a first run |
| StemHistory.StemCache.TakeNews | scripts/sync-from-stem.py:95-179 | the part that runs when the cache is out of date: new commits, head, pairs and ranges |
| StemHistory.StemCache.AbsorbNews | scripts/sync-from-stem.py:95-179 | the same, as one more block |
| StemHistory.StemCache.UpdateStemHistory | scripts/sync-from-stem.py:49-183 | whatever updates came before, the cached range map holds exactly the entries of a build from scratch; each update adds one block at the end; the returned map equals the one reversed from scratch if and only if no revision came with two updates |
| StemHistory.BlocksSameExactly | scripts/sync-from-stem.py:37-179 | after any number of updates with distinct commits: the map reversed from the cache equals the one reversed from a build from scratch if and only if no revision was brought by two updates |
| StemHistory.BackwardPinsDiffer | scripts/sync-from-stem.py:37-179 | pins 0, 2, 0, 2: the two maps differ |
| StemHistory.MapsToOldestIncluding | scripts/sync-from-stem.py:37-183 | with pins that never move back, whatever order the cache was filled in, exactly the revisions after the oldest pin and up to the newest are mapped, each to the oldest commit that includes it |
| StemHistory.ForwardSame | scripts/sync-from-stem.py:37-183 | with pins that never move back the two maps are always the same |
| Installer.NewPartition | scripts/mkinstaller/mkinstaller.py:131-156 | whole sectors, room for the file, less than a sector more than needed or the FAT32 minimum; fails exactly for a path that is no regular file, and without file and size |
| Installer.OffsetAligned | scripts/mkinstaller/mkinstaller.py:290-297 | every partition begins on a sector |
| Installer.OffsetsApart | scripts/mkinstaller/mkinstaller.py:290-297 | partitions do not overlap |
| Installer.TableDescribesLayout | scripts/mkinstaller/mkinstaller.py:210-222 | the entries passed to cgpt cover the partitions exactly, in sectors: the first behind the table area, each next where the last ends, the kernel marked bootable |
| Installer.MisalignedExactly | scripts/mkinstaller/mkinstaller.py:206-209 | the checks refuse exactly what is not aligned |
| Installer.WrittenElsewhere | scripts/mkinstaller/mkinstaller.py:285-297 | between the table areas nothing but file bytes is ever written |
| Installer.WrittenFile | scripts/mkinstaller/mkinstaller.py:285-297 | every file survives all later writes, those of cgpt included |
| Installer.TablesUntouched | scripts/mkinstaller/mkinstaller.py:285-297 | the writes of partitions never touch the tables: both areas hold what the last run of cgpt left |
| Installer.FinishedImage | scripts/mkinstaller/mkinstaller.py:275-299 | a finished disk keeps its size, begins each partition with its whole file, is unchanged in the gaps, and holds what cgpt left in the table areas |
| Installer.NeverMisaligned | scripts/mkinstaller/mkinstaller.py:206-209 | the alignment errors never occur for partitions made by the constructor |
| Installer.Image.constructor | scripts/mkinstaller/mkinstaller.py:178-191 | two table areas and the reserved partition |
| Installer.Image.AddPartition | scripts/mkinstaller/mkinstaller.py:234-244 | the announced size stays one table area at each end plus the partitions |
| Installer.Image.WritePart | scripts/mkinstaller/mkinstaller.py:246-273 | for any positive block size the whole file is written at the offset; for block size 0 nothing |
| Installer.Image.AddEntry | scripts/mkinstaller/mkinstaller.py:197-232 | the entry of one partition: the outcome and the disk that its run of cgpt leaves |
| Installer.Image.WriteNext | scripts/mkinstaller/mkinstaller.py:292-297 | one round: the entry first, the partition only when it was added |
| Installer.Image.WritePartitions | scripts/mkinstaller/mkinstaller.py:290-297 | the loop writes all partitions, or exactly those before the first failing entry |
| Installer.Image.Finalise | scripts/mkinstaller/mkinstaller.py:275-299 | never an alignment error; cgpt and partition writes in their order, up to the first failing entry; a completed image holds every file when cgpt writes nothing but the table areas |
| LabelSegments.SplitPath | scripts/gn_complete/complete.py:221-230 | the loop cuts before every slash but one at the beginning, and the cut segments rebuild the path |
| LabelSegments.SplitToolchain | scripts/gn_complete/complete.py:205-210 | fails if and only if a closing parenthesis at the end has no opening one; otherwise cuts before the last opening one |
| LabelSegments.SplitBody | scripts/gn_complete/complete.py:212-230 | directory segments without a colon, a target that begins with its colon, "//" split off |
| LabelSegments.SplitLabel | scripts/gn_complete/complete.py:184-238 | for every label but those with an unmatched ")" at the end: segments that rebuild it and begin exactly at its start, behind a leading "//", at the first colon before the toolchain, and at each slash of the directory but one that begins it |
| LabelSegments.SegmentsUnique | scripts/gn_complete/complete.py:184-238 | there is only one such list of segments |
| Completing.InsertHolds | scripts/gn_complete/complete.py:57-59 | the trie holds exactly the prefixes of what was inserted |
| Completing.SuggestionIsPrefix | scripts/gn_complete/complete.py:81-98 | every completion is a prefix of some inserted label |
| Completing.NothingForgotten | scripts/gn_complete/complete.py:81-98 | every inserted label extends some completion or is a prefix of all of them |
| Completing.Completions.constructor | scripts/gn_complete/complete.py:37-40 | nothing inserted |
| Completing.Completions.InsertLabel | scripts/gn_complete/complete.py:45-59 | adds the segments of the label behind the prefix; fails exactly without the prefix or with an unmatched ")" |
| Completing.Completions.AppendAll | scripts/gn_complete/complete.py:97-98 | exactly one completion per child |
| Completing.Completions.Descend | scripts/gn_complete/complete.py:84-91 | descends while there is one way on, and only then |
| Completing.Completions.ListCompletions | scripts/gn_complete/complete.py:61-98 | in terms of the inserted lists: the stem is what all of them share, behind it there is a choice or nothing, and the completions are exactly the stem with each way on, or the stem alone; none is listed twice; nothing exactly when nothing was inserted |
| FormatSizes.FormatSize | scripts/memory/treemap.py:91-129 | ends for every integer; exact without a decimal, exactly when the unit divides; else the remainder in the unit below rounded to the nearest hundred 1024ths, less than a tenth of the unit off; the unit is the first at which less than 10000, and no nonzero multiple of 1024, is left; the index error if and only if there is none, for sizes of 0 or more if and only if the last is not one |
| FormatSizes.TenthsRound | scripts/memory/treemap.py:123-124 | the digit is the remainder in hundreds of 1024ths, to the nearest |
| FormatSizes.SmallSizesPrint | scripts/memory/treemap.py:108-121 | every size below 1024^7 is printed |
| FormatSizes.HugeSizeFails | scripts/memory/treemap.py:108-121 | 10000 of the last unit is an index error |
| SymbolIndexFile.Read | tools/symbol-index/reader.cc:15-44 | an error exactly for a stream that cannot be opened or breaks off; otherwise the rows of all lines but empty ones and comments, in order |
| SymbolIndexFile.TrimExactly | src/lib/fxl/strings/trim.cc:9-16 | exactly the blanks around a text go |
| SymbolIndexFile.RowExactly | tools/symbol-index/reader.cc:33-40 | a line is skipped exactly when it is blank or its first other character is a hash; otherwise its non-empty columns |
| SymbolIndexFile.EntryExactly | tools/symbol-index/symbol_index.cc:71-88 | a row makes an entry exactly when its first column, and its second if it has one, are absolute paths |
| SymbolIndexFile.EntriesExactly | tools/symbol-index/symbol_index.cc:71-89 | the entries loaded are exactly those of the lines |
| SymbolIndexFile.RowNotEmpty | tools/symbol-index/symbol_index.cc:72 | the check that a row has a first field never fails |
| SymbolIndexFile.LineRoundTripExactly | tools/symbol-index/symbol_index.cc:35-88 | a written line is read back as the same entry if and only if the entry is storable |
| SymbolIndexFile.SaveLoadExactly | tools/symbol-index/symbol_index.cc:53-178 | saving and loading gives back any list of entries if and only if all are storable |
| SymbolIndexFile.TrailingBlankLost | tools/symbol-index/symbol_index.cc:35-178 | a path with a blank at its end does not survive a save and a load |
| SymbolIndexFile.AddedAllExactly | tools/symbol-index/symbol_index.cc:93-138 | adding a file appends exactly its entries with new paths, the first for each path, with their build directories and in their order |
| SymbolIndexFile.CanonicalsAre | tools/symbol-index/symbol_index.cc:127-134 | the entries offered: both columns behind the prefix, in canonical form |
| SymbolIndexFile.AddAllTwice | tools/symbol-index/symbol_index.cc:107-138 | adding the same file again changes nothing |
| SymbolIndexFile.RemovedFirst | tools/symbol-index/symbol_index.cc:140-149 | removing drops the first entry with the path and keeps the others in order |
| SymbolIndexFile.RemovedDistinct | tools/symbol-index/symbol_index.cc:140-149 | where paths are distinct, the path is gone and they stay distinct |
| SymbolIndexFile.ChangesKeepDistinct | tools/symbol-index/symbol_index.cc:93-149 | no sequence of calls makes two entries share a path |
| SymbolIndexFile.SymbolIndex.AppendRows | tools/symbol-index/symbol_index.cc:71-89 | the loop appends the entries of the valid rows |
| SymbolIndexFile.SymbolIndex.Load | tools/symbol-index/symbol_index.cc:53-91 | the entries of all well-formed lines replace the old ones; a missing file is empty; a reader error leaves none and is returned |
| SymbolIndexFile.SymbolIndex.Save | tools/symbol-index/symbol_index.cc:166-178 | writes every entry on its own line, or nothing when the file cannot be opened |
| SymbolIndexFile.SymbolIndex.Add | tools/symbol-index/symbol_index.cc:93-105 | appends the canonical entry, or returns false exactly when its path is present |
| SymbolIndexFile.SymbolIndex.AddAll | tools/symbol-index/symbol_index.cc:107-138 | adds the entries of all rows in order, relative to the file; a reader error changes nothing |
| SymbolIndexFile.SymbolIndex.Remove | tools/symbol-index/symbol_index.cc:140-149 | drops the first entry with the canonical path, and returns whether there was one |

## Left out

- NetbootSender.TransferLoop: the loop of the source has no bound of its own; the model runs it on a finite script of events of any length, and a result in phase Running is a transfer still going.
- NetbootSender.XferData.constructor: a file whose size cannot be determined is not modelled; sizes are known and below 2^32, as `arg` is 32 bits wide.
- NetbootSystem.SuccessMeansWhole: one transfer from a device that has just started; the memory of an earlier transfer is not modelled.
- Netboot sockets, select timeouts and retries on errno are one nondeterministic answer per call; packet pacing and progress printing are left out.
- NetbootReceiver.Bootloader.OpenFile: the cleaning of the file name and the choice of a buffer are one boolean; what booting and rebooting do is outside the model.
- `tftp.c`, `netcp.c`, `netprotocol.c` and the Go bootserver's other code are thin layers over the OS or an unseen library.
- Strings.SplitString: the whitespace-trimming mode and several delimiters at once, which the modelled callers do not use.
- FileTrees.Checker.GetSetCurr: takes the directory that Go's filepath.Dir cuts from a path.
- FileTrees.Checker.AddFile: takes the directory and the base name that Go's filepath.Dir and filepath.Base cut a path into.
- FileTrees.Checker.AddSingleLicenseFile: the list of licenses kept with each license file is not modelled, only its name.
- Locks, goroutines and channels of the license checker, NewFileTree's directory walk and the single-license iterator, which would repeat the file iterator.
- StemHistory.StemCache.UpdateStemHistory: git, jiri and the JSON file are inputs; the integration history grows at its new end only. A rewritten integration history is not modelled.
- StemHistory.StemCache.TakeNews: the same restriction to a growing integration history.
- StemHistory.StemCache.AbsorbNews: the same restriction to a growing integration history.
- StemHistory.MapsToOldestIncluding: revisions are positions on a linear branch, as the claim is about such branches; BlocksSameExactly holds for any git log.
- Installer.Image.Finalise: what cgpt writes into the table areas is arbitrary; a device that is too small for the partitions, which cgpt is expected to refuse, gets no promise about its files.
- Size parsing and printing, and timing, in `mkinstaller.py`.
- GN's subprocess, the label made from a library's type and name, the scan of all libraries, `find_libraries` and the sorted printing in `can_i_move_out.py`; what GN prints is assumed for the listing round trip only.
- zxdb sessions, symbol download and the printing of frames in `symbolizer_impl.cc`; the lookup at the head of a backtrace is modelled without the unnamed entry that `modules_[id]` could create, since every indexed id is a module.
- GcsReader.ReadAtLeast: the stream ends but does not fail otherwise.
- GcsReader.GcsFile.ReadAt: opening the object again succeeds and the stream does not fail.
- `concat_labels` and `make_label_relative` in `complete.py`: pure string helpers with easy claims.
- `sum_area`, `populate_process` and the HTML output in `treemap.py`: sums over dictionaries, and a float division.
- `SymbolIndex::Purge`, whose result reads moved-from elements; CanonicalPath is a parameter; the texts of error messages.
- `make-fuchsia-vol`, the floating-point examples, regex-driven rewriting scripts, command lines and wrappers around other programs.
