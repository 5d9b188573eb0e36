# Verified models of the course projects

Six programs of the repository are modelled, each as it is written, with its defects. Where a promise
does not hold of the code, the project proves exactly when it does.

- **p1, the compacting allocator.** `Allocator` keeps the block list, the two halves of the buffer and the
  byte copies as the program does; `BlockLayout` judges every edit of the list on values, and `HeapLayout`
  says at which address every live block lies. Each public
  method is proved to be one step of `HeapSpec`, a plain map from live handle to byte string with a
  capacity, and theorems about all runs are proved there; `AllocatorSession` drives an allocator through any
  requests of a client and shows that what happens is such a run. Addresses are offsets into the buffer; the
  C++ lists are sequences, and iterators are positions.
- **p2, the chat server.** `Framing` and `FrameDecoder` are the wire format and the incremental decoder,
  `ChunkQueue` and `SendQueue` the send queue in 1024-byte chunks. `ChatServer` is the server as a state
  machine in which the network chooses all sizes and the order of events. When a frame ends
  exactly at the end of a new chunk the code leaves `end_offset` as it was; such a queue is called
  stranded (not `Synced`). `Server` has the objects at work and shows that whatever they do is a run of that
  machine.
- **p3, the relay.** `Relay` has the handlers of one session and the network as a relation; any pending
  operation may move bytes or complete next; the class `Client` keeps the fields of the session.
- **p4, the inverted index.** `IndexBuild`, `IndexMerge` and `IndexRead` are the two passes and the reader, over
  files as byte sequences (`RecordFile`, `IndexFile`); `IndexSpec` says what an inverted index is, and
  `IndexPipeline` joins both passes. `IndexInput` and `IndexStale` are what the unchecked reads do: over an input that
  ends inside of a record, and over a run without records. `IndexBytes` gives all files byte by byte.
- **p5, the shell.** `ShellParser` is the parser, `ShellText` lines as they are written, `ShellSymbols` the two
  characters it borrows, and `ShellWritten` says of the line as it was written what is read; `ShellLine` is the meaning of a line and the walk along the parsed list, `ShellWait` that walk
  with other children outstanding, `ShellRun` the shell with its descriptors and children, and `ShellMain` goes from
  the text of a line to its run.
- **p8, merge sort.** `MergeSort` is the sequential program, `ParallelSort` all interleavings of its parallel
  sections, one memory access at a time.

`Bytes` has the little-endian fields, `Common` a few shared definitions.

How children end, which files can be opened, which child is waited for first, how many bytes a socket takes or
returns, how the network orders events and what memory holds that was never written are parameters or
unconstrained choices.

## What turned out not to hold

- A stranded send queue misplaces later messages; the counter can even exceed what is stored
  (`ChunkQueue.AppendsExactlyWhenSynced`, `ChunkQueue.StrandedExample`). In a run that is so when a broadcast fills a
  chunk of a client to its end and another one comes before the client is drained (`ChatServer.IntactExactly`,
  `ChatServer.LostExactly`).
- A payload with a zero byte is cut (`FrameDecoder.TextsExact`, `ChatServer.TakenExactly`), a length of 2^32 or more does not fit
  (`Framing.FrameRoundTrip`), and an empty last message waits for the next byte (`Framing.StreamRoundTrip`).
- `deleteSockFd` never removes anything (`FrameDecoder.MessageReceiver.DeleteSockFd`).
- The merged index repeats an id that two blocks list for one word (`IndexSpec.MergedIsDirect`); with the word id
  2^64-1 the merge ends before its first word (`IndexMerge.MergeIndex`); a full block without words makes the
  merge take the word before a second time, over memory that nothing has filled (`IndexPipeline.EmptyBlockShows`). The
  index comes out right exactly when none of the three happens (`IndexPipeline.BuildIndex`). Word id 0 reads as the
  end of the header (`IndexRead.ReadIndex`).
- Sizes in bytes are computed in 32 bits, so that a list of 2^29 ids or more does not fit the buffer made for it
  (`RecordFile.RoomSuffices`). This is a limit of the program: it is what `Fits` and `GoodDocs` ask for.
- An input that ends inside of a record gives a document with the words that the buffer happens to hold
  (`IndexInput.ReadDocument`).
- A pipeline behind `&&` or `||` is passed over only up to its first command (`ShellLine.RunIsEvalExactly`); a file called
  "pipe" is taken for the mark of a pipe (`ShellText.MarksAreExact`); `@` is read as `||` and `$` as `&&`
  (`ShellSymbols.AtSignIsOr`, `ShellSymbols.DollarIsAnd`, `ShellWritten.ReadAsWrittenExactly`); a background child can take
  the place of the one that is waited for (`ShellWait.CaughtInEveryOrder`, `ShellWait.RightInEveryOrderExactly`).
- An empty read from the server makes the relay echo the user's next bytes (`Relay.SafeExactlyWithoutZeroRead`).

## Model

| member | source | states |
|---|---|---|
| `HeapSpec.CapacityHolds` | p1/allocator.cpp:38-60 | Over every run of allocations, frees, resizes, compactions and client writes the live handles never hold more than half of the buffer. |
| `HeapSpec.UnnamedIsUntouched` | p1/allocator.cpp:116-247 | Over every run, a handle that no operation names stays live and keeps every byte, whatever happens to the others. |
| `HeapSpec.PrefixSurvives` | p1/allocator.cpp:177-247 | Over every run, the first k bytes behind a handle survive all resizes, moves and compactions, unless its client frees it, overwrites them or shrinks below k. |
| `HeapSpec.StepKeepsCapacity` | p1/allocator.cpp:38-60 | A single operation keeps the capacity, alloc and growing realloc included. |
| `HeapSpec.StepKeepsOthers` | p1/allocator.cpp:177-247 | A single operation leaves every handle it does not name live with the same bytes. |
| `HeapSpec.FootprintRemove` | p1/allocator.cpp:91-101 | The bytes held by all handles are the sum over the handles, in whatever order they are counted; removing one handle takes off exactly its bytes. |
| `Allocator.FootprintIsLive` | p1/allocator.cpp:14-26 | The bytes the clients hold together are the bytes of the live blocks of the list. |
| `Allocator.Allocator.Accounting` | p1/allocator.cpp:38-41 | In every valid state live bytes plus `size_free_memory` are the size of one half. |
| `Allocator.Allocator.constructor` | p1/allocator.cpp:14-26 | The first half is one free block; nothing is live; the invariant holds. |
| `Allocator.Allocator.FindBlock` | p1/allocator.cpp:29-36 | First fit: the first free block that is large enough, or the end if there is none. |
| `Allocator.Allocator.Alloc` | p1/allocator.cpp:38-60 | Fails exactly when N exceeds the free bytes, and then changes nothing; otherwise hands out N bytes without touching any other handle. The new block begins where the first free block that is large enough began, and no other block moves; exactly if there is none, all blocks are compacted first and it lies behind them. |
| `Allocator.Allocator.FindRoom` | p1/allocator.cpp:41-45 | The first free block that is large enough is found and nothing changes; if there is none a compaction comes first, and the room is then right behind all live blocks. The second search cannot miss. |
| `Allocator.Allocator.Take` | p1/allocator.cpp:47-59 | The chosen free block is handed out whole or split; exactly a new handle with N bytes appears. |
| `Allocator.Allocator.AppendFollowAt` | p1/allocator.cpp:62-69 | The block behind is removed from the list and its bytes are added to this one; nothing else changes. |
| `Allocator.Allocator.JoinFree` | p1/allocator.cpp:71-89 | From a list in which only block k may have free neighbours, restores the whole invariant: tiling, distinct blocks, no free neighbours, the same free bytes, the same contents for the clients. |
| `Allocator.Allocator.Free` | p1/allocator.cpp:91-101 | Fails exactly on a null handle; otherwise the handle is cleared, exactly its bytes disappear from the map and are free again, and no other block moves. |
| `Allocator.Allocator.TrimFree` | p1/allocator.cpp:103-114 | Splits a free block so that block k has exactly n bytes, at the same place, invisibly to the clients. |
| `Allocator.Allocator.Evacuate` | p1/allocator.cpp:126-131 | One copy into the other half puts the block right behind those already moved, with its old bytes, and writes nowhere else; the two ranges never overlap. |
| `Allocator.Allocator.SourceIntact` | p1/allocator.cpp:124-135 | At every point of a compaction the block to be moved next has not been overwritten and still fits into the other half. |
| `Allocator.Allocator.EvacuateExcept` | p1/allocator.cpp:151-164 | The copying loop moves every live block but the given one, in list order, with its bytes, and writes only to the other half. |
| `Allocator.Allocator.Defrag` | p1/allocator.cpp:116-140 | Contents of all handles unchanged; the live blocks keep identity, size and order; one free block with all free bytes ends the half; nothing outside the new half is written. |
| `Allocator.Allocator.DefragWithLast` | p1/allocator.cpp:143-175 | As for defrag, with the chosen block last and the free memory right behind it. |
| `Allocator.Allocator.Shrink` | p1/allocator.cpp:185-202 | Shrinking never moves any block, keeps the first N bytes of this one, and the bytes cut off become free and coalesced. |
| `Allocator.Allocator.GrowInPlace` | p1/allocator.cpp:213-218 | Growing into the free block behind keeps the address and all old bytes, takes exactly the difference, and moves no other block. |
| `Allocator.Allocator.MoveInto` | p1/allocator.cpp:230-242 | Growing by moving: the same block object gets the room at the beginning of the given free block, with its old bytes in front; its old room becomes free and coalesced, no other handle changes and no other block moves. |
| `Allocator.Allocator.Approach` | p1/allocator.cpp:207-211 | Exactly if N bytes are not free, all blocks are compacted with this one last and all free memory right behind it, so that the in-place branch applies. |
| `Allocator.Allocator.Grow` | p1/allocator.cpp:203-246 | Growing always succeeds when the difference is free, however the free memory is scattered. The block stays where it is whenever N bytes are free and the block behind has room; the half changes exactly when fewer than N bytes are free, or neither the block behind nor any other free block has room. Every address afterwards is given. |
| `Allocator.Allocator.Realloc` | p1/allocator.cpp:177-247 | Fails exactly when the difference exceeds the free bytes, and then changes nothing; otherwise the block has N bytes, the first min(old, N) are kept, all other handles are untouched, and the invariant holds again. On null it allocates. Shrinking moves nothing; growing stays in place and changes the half exactly as said of `Grow`, and all addresses afterwards are given. |
| `HeapLayout.GrownMeans` | p1/allocator.cpp:207-229 | When the half changes and when the block stays, read off the rule for growing. |
| `HeapLayout.PackedInOrder` | p1/allocator.cpp:122-135 | After a compaction each live block lies right behind the live blocks that were before it in the list. |
| `HeapLayout.AfterCompaction` | p1/allocator.cpp:116-140 | After a compaction the only free block is the last one, right behind all live bytes. |
| `Allocator.Allocator.Store` | p1/allocator_test.cpp:27-33 | A write through a handle changes that byte of that handle and no other byte of any handle. |
| `AllocatorSession.Session.Perform` | p1/allocator.cpp:38-247 | Any single request of a client, valid or not, is served by exactly one operation, the one that answers it, and the handles follow; it is refused exactly when it names a handle the client does not have, frees a null handle or writes outside of its block. |
| `AllocatorSession.Session.Drive` | p1/allocator.cpp:38-247 | Any list of requests whatsoever: they are answered in order by one operation each, but for exactly those that are refused; what the allocator does is a run of `HeapSpec`, so that the theorems about runs hold of it, and the bytes held never exceed one half. |
| `BlockLayout.AppendFreeView` | p1/allocator.cpp:62-69 | Merging two free blocks is invisible to the clients. |
| `BlockLayout.MoversStep` | p1/allocator.cpp:124-135 | Blocks moved so far and the next one always fit into one half together. |
| `BlockLayout.CompactedWellFormed` | p1/allocator.cpp:136-139 | The list after a compaction tiles the new half, has distinct blocks, one free block and the same free bytes. |
| `BlockLayout.EvacuateView` | p1/allocator.cpp:126-131 | One copy of a compaction preserves what the clients see of all blocks moved so far. |
| `BlockLayout.CompactedView` | p1/allocator.cpp:136-140 | What the clients see after a compaction is what they saw before it. |
| `BlockLayout.GrowExact` | p1/allocator.cpp:213-218 | A live block that absorbs the free block behind it keeps its bytes, and the list stays well formed. |
| `BlockLayout.CopyIsPrivate` | p1/allocator.cpp:231-236 | A copy into a free block is invisible to all clients. |
| `BlockLayout.MoveToResizes` | p1/allocator.cpp:230-242 | After block and free block have changed places the client sees its old bytes in front of the larger room; all others see what they saw. |
| `Bytes.FieldRoundTrip` | p2/messageforsend.cpp:15 | A number stored in a field of fixed width reads back exactly when it fits the width. |
| `Bytes.BytesRoundTrip` | p2/message.cpp:68 | Any bytes are the field of the number they read as. |
| `Bytes.Digit` | p2/messageforsend.cpp:15 | Byte i of a field is digit i of its number to the base 256, the lowest digit first. |
| `Framing.DecodeResumes` | p2/message.cpp:48-78 | Decoding may stop anywhere: decoding a, then its rest followed by b, gives the messages of a followed by b. |
| `Framing.RestIsFinal` | p2/message.cpp:23-38 | The undecoded rest holds no further message. |
| `Framing.FrameRoundTrip` | p2/messageforsend.cpp:13-17 | A single frame decodes to its message exactly when the length fits 32 bits and is not zero. |
| `Framing.FrameBytes` | p2/messageforsend.cpp:13-17 | Every byte of a frame: four digits of the length, the lowest first, and then the message. |
| `Framing.StreamRoundTrip` | p2/message.cpp:23-78 | The frames of messages that fit decode to these messages in order; only an empty last one stays behind as a bare header. |
| `Framing.PrefixDelivered` | p2/message.cpp:23-78 | However much of a stream has arrived, the messages decoded so far are a prefix of those sent. |
| `Framing.StreamDelivers` | p2/message.cpp:23-78 | A stream that has arrived whole delivers all its messages, but for an empty last one; exactly then nothing is missing. |
| `FrameDecoder.TextsExact` | p2/message.cpp:40-46 | Whatever pieces the payloads are put together from, the delivered texts are the payloads exactly when no payload contains a zero byte. |
| `FrameDecoder.FrameReader.constructor` | p2/message.cpp:3-14 | The first piece is taken in whole. |
| `FrameDecoder.FrameReader.AddPart` | p2/message.cpp:48-78 | A piece is appended to what is pending, through header, payload and left-over buffers. |
| `FrameDecoder.FrameReader.GetMessages` | p2/message.cpp:23-38 | Returns what the recursive decoder yields on the pending bytes, keeps exactly its rest, and terminates because each round leaves fewer bytes. |
| `FrameDecoder.MessageReceiver.Process` | p2/messagereceiver.cpp:3-12 | A piece of one socket delivers exactly what it completes there and leaves the decoders of all other sockets as they were. |
| `FrameDecoder.MessageReceiver.DeleteSockFd` | p2/messagereceiver.cpp:14-21 | Removes nothing, whatever the socket. |
| `ChunkQueue.AddInOrder` | p2/messageforsend.cpp:11-48 | On an orderly queue the frame is appended to the bytes, and order is kept exactly when the frame does not end at the end of a new chunk. |
| `ChunkQueue.EraseFront` | p2/messageforsend.cpp:71-83 | Erasing n bytes, up to one chunk, drops exactly the first n; afterwards the queue is orderly exactly when it was, or is empty. |
| `ChunkQueue.FirstFrame` | p2/messageforsend.cpp:34-45 | The first frame comes out right; afterwards the queue is orderly exactly when the frame is not a multiple of the chunk size. |
| `ChunkQueue.AppendsExactlyWhenSynced` | p2/messageforsend.cpp:24-32 | Of every single frame: it is appended in order, whatever the fresh memory holds, exactly when `end_offset` is where the bytes end. |
| `ChunkQueue.StrandedExample` | p2/messageforsend.cpp:34-46 | A first message of 1020 bytes and any second one of up to 1020 bytes leave a counter that exceeds what is stored. |
| `SendQueue.MessageForSend.AddMessage` | p2/messageforsend.cpp:11-48 | The loops over chunks do exactly what `Added` says of frame, layout and offsets, the stale offset included. |
| `SendQueue.MessageForSend.GetBitArray` | p2/messageforsend.cpp:50-69 | Returns the first min(len, count) queued bytes, up to one chunk, and changes nothing. |
| `SendQueue.MessageForSend.Erase` | p2/messageforsend.cpp:71-83 | Drops exactly the first len queued bytes. |
| `SendQueue.MessageForSend.SendOnce` | p2/server.cpp:106-107 | What the socket took is dropped, and the next bytes offered are the front of what remains. |
| `SendQueue.MessageForSend.WriteOut` | p2/server.cpp:87-123 | For every sequence of partial sends: what was sent is the front of what was queued, and it is all of it or all that the socket takes, at most a chunk at a time; the rest stays queued, and `need_write` says whether anything is left. |
| `SendQueue.MessageSender.AddClient` | p2/messagesender.cpp:3-6 | A new client gets an empty queue; a client that has a queue keeps it. |
| `SendQueue.MessageSender.AddMessage` | p2/messagesender.cpp:8-14 | Every client gets the frame, each according to its own layout. |
| `SendQueue.MessageSender.DeleteSockFd` | p2/messagesender.cpp:16-23 | Removes nothing, whatever the socket. |
| `ChatServer.InvHolds` | p2/server.cpp:56-124 | In every reachable state: bytes sent and bytes queued of each client are together the frames of the greeting and of everything broadcast since it connected, and everything received has been decoded into log and outbox. |
| `ChatServer.DeliveredIsPrefix` | p2/server.cpp:85-124 | In every reachable state, what a client can decode is a prefix of "Welcome" followed by the broadcasts since it connected. |
| `ChatServer.DrainedIsComplete` | p2/server.cpp:85-124 | With an empty queue the client can decode all of it exactly when the last message due is not empty. |
| `ChatServer.SameOrder` | p2/messagesender.cpp:8-14 | Two clients see the same broadcasts in the same order from the later arrival on. |
| `ChatServer.SenderInOrder` | p2/server.cpp:75-79 | The broadcasts of one sender are a prefix of the messages it framed, and all of them once its bytes have arrived. |
| `ChatServer.TakenExactly` | p2/message.cpp:40-46 | In every reachable state, what has been taken from a sender are the messages in its bytes so far exactly when none of them holds a zero byte. |
| `ChatServer.BroadcastIntactExactly` | p2/messageforsend.cpp:24-32 | Whatever the fresh memory holds, the bytes sent to a client and queued for it remain the frames it is due after the next broadcast exactly when its queue is not stranded. |
| `ChatServer.StrandedExactly` | p2/messageforsend.cpp:34-45 | In terms of events: a queue is stranded exactly when some broadcast has filled a chunk of it to its end and it has not been drained since. |
| `ChatServer.LostExactly` | p2/messageforsend.cpp:24-45 | In terms of events: a client is given up exactly when a chunk of its queue was filled to the end and the next broadcast came before it was drained. |
| `ChatServer.IntactExactly` | p2/messageforsend.cpp:24-45 | Over every run: a client that was never hit has all it is due, and the next broadcast is sure to leave it so exactly when its queue has been drained since a chunk was filled. |
| `Server.Server.AcceptClient` | p2/server.cpp:161-163 | The objects take one step of the machine: a new client gets the greeting in an empty queue. |
| `Server.Server.ReceivePiece` | p2/server.cpp:75 | Decoding a piece is one step of the machine; what it delivers is what is now to be broadcast. |
| `Server.Server.BroadcastNext` | p2/server.cpp:76-77 | Adding a message to all queues is one step of the machine. |
| `Server.Server.ReadClient` | p2/server.cpp:75-79 | Whatever piece arrives, all it completes is broadcast and nothing else is done; the objects are still on a run of the machine. |
| `Server.Server.SendSome` | p2/server.cpp:87-107 | A partial send is one step of the machine: the socket takes the front of the queue and the rest stays. |
| `RecordFile.RoomSuffices` | p4/main.cpp:70 | The size computed in 32 bits is enough for n ids exactly when n is below 2^29. |
| `RecordFile.InFile.ReadRecord` | p4/main.cpp:180-185 | Reads the next record of a run, or finds that there is none. |
| `IndexInput.EveryInput` | p4/main.cpp:66-71 | Any bytes whatsoever are complete records followed by the beginning of one. |
| `IndexInput.ReadDocument` | p4/main.cpp:66-71 | On any input, cut off or not: the id if it is there, and the words that count and buffer then hold, filled by the reads or not. |
| `IndexInput.CutWords` | p4/main.cpp:69-71 | The words of a cut-off record do not depend on what stands before it, and with it the input is used up. |
| `IndexInput.NextDocument` | p4/main.cpp:66-71 | Reading goes through the complete records and then, if its id is there, through the cut-off one. |
| `IndexBuild.IdAloneIsListed` | p4/main.cpp:67-75 | A file that ends right behind an id lists that id under the words of the document before it, and changes no other list. |
| `IndexBuild.CutWordsAreListed` | p4/main.cpp:69-75 | A file that ends among the words of a document lists its complete words, and in place of the missing ones what the buffer holds. |
| `IndexBytes.RecordBytes` | p4/main.cpp:27-36 | Every byte of a file of records: key, count and items with their lowest bytes first, one record right behind the other. |
| `IndexSpec.AscendingIsUnique` | p4/main.cpp:26 | There is only one ascending list with given elements. |
| `IndexSpec.SortSorts` | p4/main.cpp:189 | Sorting gives a sorted permutation. |
| `IndexSpec.RunLists` | p4/main.cpp:73-75 | A run lists for every word exactly the ids of the documents of its block that contain it. |
| `IndexSpec.BlocksCover` | p4/main.cpp:77-91 | Cutting the input into blocks loses no listing, whatever the block size. |
| `IndexSpec.WordByWord` | p4/main.cpp:177-189 | For each word the merged list is the direct one exactly where the lists of the blocks are disjoint. |
| `IndexSpec.MergedIsDirect` | p4/main.cpp:156-194 | Merging the runs of all blocks is direct grouping exactly when no id is listed for one word in two blocks. |
| `IndexSpec.DistinctIdsSuffice` | p4/main.cpp:53-94 | Distinct document ids are enough for that, for any block size. |
| `IndexBuild.SaveIndexFile` | p4/main.cpp:22-39 | A dictionary is written as the run that lists it in order, and its words join the set of words. |
| `IndexBuild.AddDocument` | p4/main.cpp:73-75 | Adding the words of one document turns the grouping of a block into that of the block with the document. |
| `IndexBuild.CreateIndexFiles` | p4/main.cpp:53-94 | On any input, also one that ends inside of a record: the files are the runs of the consecutive blocks, a shorter last one only if it has a word; the set holds exactly the words that occur. |
| `IndexFile.SaveWordids` | p4/main.cpp:96-106 | The header has one slot of 16 bytes per word in order, with offset zero, and a zero slot at its end. |
| `IndexFile.SaveOffsets` | p4/main.cpp:107-115 | The walk over the offsets stays aligned with the header: each slot receives the offset of its own word, and nothing else changes. |
| `IndexMerge.FindLeast` | p4/main.cpp:157-168 | The least current word below the sentinel and exactly the positions that show it; the sentinel if none does. |
| `IndexMerge.DueIsLeast` | p4/main.cpp:157-170 | While words are left, the least word shown is the next word in order; at the end all runs show the sentinel. |
| `IndexMerge.DueLists` | p4/main.cpp:177-179 | The lists joined for a word are its lists in all runs, in file order. |
| `IndexMerge.TakeAll` | p4/main.cpp:177-188 | The lists at the given positions are joined and exactly these runs move on. |
| `IndexMerge.SumCounts` | p4/main.cpp:171-173 | The 32-bit sum of the counts is the length of the joined list. |
| `IndexMerge.MergeNext` | p4/main.cpp:156-194 | One round writes the sorted list of the next word, notes its offset and leaves every run read up to the word after it. |
| `IndexMerge.Sentinel` | p4/main.cpp:138 | The sentinel is above all words, or zero if the greatest word is 2^64-1. |
| `IndexMerge.ReadFirst` | p4/main.cpp:147-153 | The first record of a run; of a run without records, the word and the count of the run before over a buffer that was not filled. |
| `IndexStale.GatherSeen` | p4/main.cpp:147-153 | A run without records adds as many ids to the list of the stale word as the stale count says. |
| `IndexMerge.MergeIndex` | p4/main.cpp:127-198 | Without the word id 2^64-1 the file is that of the merge of the runs as they are taken, runs without records included, each offset patched to where its list begins; with it the merge writes no list at all. The loop ends after as many rounds as there are words. |
| `IndexPipeline.RunsAreGood` | p4/main.cpp:146-154 | The runs of the first pass, as the merge takes them, are what it relies on, if the first block has a word. |
| `IndexPipeline.ListsFit` | p4/main.cpp:171-175 | No merged list is longer than there are documents, runs without records included, so that counts and sizes do not wrap below 2^29 documents. |
| `IndexPipeline.SameFileSameIndex` | p4/main.cpp:96-115 | Two indexes over equally many words with the same file are the same index: each list says how long it is. |
| `IndexPipeline.EmptyBlockShows` | p4/main.cpp:147-153 | A block without words makes some list of the index too long. |
| `IndexPipeline.MergedExactly` | p4/main.cpp:146-194 | The merge of the runs, as it takes them, is direct grouping exactly when every block has a word and no id is listed for one word in two blocks. |
| `IndexPipeline.FileIsIndex` | p4/main.cpp:231-246 | The same for the bytes of the file. |
| `IndexPipeline.HeaderIsNoIndex` | p4/main.cpp:170 | A header without lists is not the file of an index with words. |
| `IndexBytes.FileBytes` | p4/main.cpp:96-115 | Every byte of the index file: slots of word and offset, a slot of zeros, and at each offset the count and the ids of the list, the lists right behind each other. |
| `IndexPipeline.BuildIndex` | p4/main.cpp:231-246 | From the bytes of any input whose first block has a word to the bytes of the index, every one of which is given: the file is that of the direct grouping exactly when the word id 2^64-1 does not occur, every block has a word and no id is listed for one word in two blocks. |
| `IndexRead.ReadHeader` | p4/main.cpp:208-214 | Reading the header recovers each word with its offset, up to the first slot with word zero. |
| `IndexRead.ReadIndex` | p4/main.cpp:200-229 | From the file of an index the reader recovers its first `cap` records exactly; nothing at all if the first word is zero. |
| `ShellLine.JobRuns` | p5/main.cpp:174-208 | A job that is entered is run to its end, whatever its stages return, and has the status of its last stage. |
| `ShellLine.LineRuns` | p5/main.cpp:162-211 | On a line in which no longer operand is passed over, the walk starts the commands that the line means and ends with its status. |
| `ShellLine.DirtyLine` | p5/main.cpp:166-172 | Otherwise it starts a command of an operand that ought to have been passed over. |
| `ShellLine.RunIsEvalExactly` | p5/main.cpp:154-212 | For all exit statuses: a run starts the same commands and ends with the same status as the left-associative evaluator exactly when no operand of more than one stage was passed over. |
| `ShellLine.RightForAllExitsExactly` | p5/main.cpp:166-172 | A line is run right whatever its commands return exactly when only single commands stand behind the conditional operators. |
| `ShellLine.StartsExactly` | p5/main.cpp:166-172 | Wherever a walk stands, the command there is started exactly when behind the and-operator the status is exit code 0, and behind the or-operator it is another code or a signal. |
| `ShellLine.OperandRunsExactly` | p5/main.cpp:166-172 | In every line an operand is meant to run exactly when the status before it has that exit code; if not nothing changes, and if so the status is that of the last command started. |
| `ShellLine.TwoCommands` | p5/main.cpp:162-211 | Two commands and an operator, for all statuses: which are started, and with which status the list ends. |
| `ShellWait.RunsExactly` | p5/main.cpp:166-172 | In every run, also with other children outstanding, each command is started exactly as the exit code at that time says. |
| `ShellLine.EveryListIsALine` | p5/main.cpp:154-162 | Every alternating list that ends with a command is the list of some line. |
| `ShellRun.Shell.ForwardInput` | p5/main.cpp:116-132 | Standard input becomes the pipe, the file or the terminal; any descriptor used on the way is closed again, and a file that cannot be opened leaves it as it was. |
| `ShellRun.Shell.ForwardOutput` | p5/main.cpp:134-152 | The same for standard output; of a new pipe only the reading end stays, marked to be closed on exec. |
| `ShellRun.Shell.AroundLaunch` | p5/main.cpp:174-189 | From what the shell holds between commands, one launch connects the child as its command asks and leaves the shell at most the reading end of the new pipe. |
| `ShellRun.Shell.Collect` | p5/main.cpp:196-203 | After cnt waits in any order that many of the outstanding children are gone, and the status is that of the last stage if it was among them and unchanged otherwise. |
| `ShellRun.Shell.Run` | p5/main.cpp:154-212 | Whatever children are outstanding: commands, status and children left are those of some walk along the list, each wait catching any child; `ShellWait.RunsExactly` says in exit codes what such a walk starts. With exact marks and stages next to each other: each stage reads from the pipe its predecessor writes to, no child holds any other pipe end, and the shell holds none at the end. |
| `ShellRun.CleanLineIsConnected` | p5/main.cpp:174-189 | A line that is run right never leaves a pipe with one end. |
| `ShellWait.CaughtInEveryOrder` | p5/main.cpp:196-203 | The status after the waits is that of the last stage in every order exactly when no other children are outstanding or it makes no difference. |
| `ShellWait.QuietWalk` | p5/main.cpp:154-212 | Without other children every walk ends as the walk of `ShellLine`, in every order of termination, and leaves no child. |
| `ShellWait.RightInEveryOrderExactly` | p5/main.cpp:154-212 | A list ends with the right status and the right commands, whatever children return and in whatever order they end, exactly when no child was left in the background before. |
| `ShellParser.Replace` | p5/parser.cpp:46-63 | The in-place loop replaces every occurrence from the left, without rescanning what it wrote. |
| `ShellParser.Tokenise` | p5/parser.cpp:69-86 | The loop over break characters yields the words, and `<` and `>` as words of their own. |
| `ShellParser.TakeRedirections` | p5/parser.cpp:87-101 | Erasing redirections in place leaves the words in order and the last file named for each stream; a missing target or a command without words is undefined. |
| `ShellParser.Parser.AddCommand` | p5/parser.cpp:65-104 | Adds the command that the text says. |
| `ShellSymbols.OperatorsRoundTrip` | p5/parser.cpp:106-117 | Every symbol at which the line is cut is read as an operator, and every operator is written as the symbol it is read from, the two replaced ones included. |
| `ShellParser.Parser.MarkPipes` | p5/parser.cpp:32-37 | Marks both neighbours of every pipe sign and nothing else; a pipe sign at the end of the line is undefined. |
| `ShellParser.Parser.Parse` | p5/parser.cpp:8-44 | The whole parser, on every line: the list and the background flag of `ParseLine`, or undefined behaviour exactly where that says so. |
| `ShellText.SpacedReads` | p5/parser.cpp:69-86 | Whatever blanks stand between tokens, they are read back; around `<` and `>` none are needed. |
| `ShellText.StripItems` | p5/parser.cpp:87-101 | Words and redirections in any order give the words and the last file for each stream. |
| `ShellText.EncodedRendered` | p5/parser.cpp:14-16 | The two replacements turn exactly the two-character operators of a line into one character each. |
| `ShellText.PiecesRendered` | p5/parser.cpp:18-30 | Cutting an encoded line at the operators gives back commands and operators. |
| `ShellWritten.WrittenExactly` | p5/parser.cpp:8-44 | Of any line without `@` and `$`, in all layouts: undefined exactly if it ends in a pipe sign; a background line exactly if it ends in `&`, which is then left out; and otherwise word by word, file by file, pipe by pipe and operator by operator what was written. |
| `ShellWritten.ReadAsWrittenExactly` | p5/parser.cpp:8-44 | If the line can be parsed, it is read as it was written, in that sense, exactly when no word holds `@` or `$`. |
| `ShellWritten.OneWordLine` | p5/parser.cpp:25-43 | One word and any operator behind it: the list and the background flag, or undefined. |
| `ShellWritten.TwoWordsLine` | p5/parser.cpp:18-37 | Two words and any operator between them: the list, with both marks around a pipe sign and none elsewhere. |
| `ShellWritten.BlankLine` | p5/parser.cpp:69-86 | Each of the six blanks separates two words of one command. |
| `ShellWritten.RedirectedLine` | p5/parser.cpp:87-101 | The file behind `<` is read and the one behind `>` is written, without any blanks. |
| `ShellText.ParsedIsALine` | p5/parser.cpp:18-43 | On any line whatsoever, if parsing is defined the list is one that `run` accepts, and it has a meaning as a line. |
| `ShellText.MarksAreExact` | p5/parser.cpp:32-37 | The marks say exactly where the pipes are if and only if no file is called "pipe" elsewhere. |
| `ShellSymbols.AtSignIsOr` | p5/parser.cpp:14-16 | In any line, `@` and the or-operator are parsed alike. |
| `ShellSymbols.DollarIsAnd` | p5/parser.cpp:14-16 | In any line, `$` and the and-operator are parsed alike. |
| `ShellMain.MeaningOfRun` | p5/main.cpp:154-212 | Without other children a run does what the line means exactly when the line is clean, and then its stages stand next to each other. |
| `ShellMain.Interpret` | p5/main.cpp:43-74 | From the text of a line to its run: the line is parsed or undefined; in the background a copy of the shell is left; in the foreground what happens is a walk along the list, whatever children are outstanding, and without any the run has the commands and the status that the line means exactly when it is clean, leaves no child, and wires clean lines without a file called "pipe" as their pipes say. |
| `Relay.Client.Connect` | p3/proxy.cpp:103-120 | The session starts with exactly one read outstanding per direction and nothing delivered, or is closed with nothing pending. |
| `Relay.Client.Complete` | p3/proxy.cpp:121-196 | Whichever operation ends, its handler is a step of the session; both directions keep to themselves, each with its one operation unless an error ended it, and the relay stays safe for good exactly when it was not an empty read from the server. An error closes the session and posts nothing, and nothing else closes it. |
| `Relay.Connected` | p3/proxy.cpp:111-118 | A session starts with one operation per direction. |
| `Relay.StepKeeps` | p3/proxy.cpp:121-196 | Any event but an empty read from the server keeps both directions: received = delivered + unsent part of the buffer, at most one operation each, and exactly one unless an error is handled. |
| `Relay.EveryPathKeeps` | p3/proxy.cpp:103-196 | The same over every interleaving of both directions: exactly one operation each as long as no error has been handled. |
| `Relay.ClosedExactly` | p3/proxy.cpp:88-100 | Over every interleaving: the session is closed exactly when an error has been handled. |
| `Relay.AnyMayMove` | p3/proxy.cpp:121-196 | In every reachable state each pending operation may receive any bytes that fit, or send any front of what is unsent, whatever the other direction does. |
| `Relay.SessionIsSafe` | p3/proxy.cpp:103-196 | From the start, over every interleaving: what each side gets is a prefix of what the other sent, and the gap fits one buffer. |
| `Relay.OneOperationPerBuffer` | p3/proxy.cpp:121-196 | A buffer is never filled while it is being sent, nor by two reads. |
| `Relay.ZeroReadBreaks` | p3/proxy.cpp:170-174 | After an empty read from the server, any byte the user sends next can be echoed to the user. |
| `Relay.SafeExactlyWithoutZeroRead` | p3/proxy.cpp:160-177 | An event leaves the relay safe, whatever follows, exactly when it is not an empty read from the server. |
| `MergeSort.MergePermutes` | p8/merge_sort.cpp:30-44 | Merging loses and adds nothing. |
| `MergeSort.MergeSorts` | p8/merge_sort.cpp:30-44 | Merging two sorted lists gives a sorted list. |
| `MergeSort.MergeSortedSorts` | p8/merge_sort.cpp:6-49 | What merge sort computes is sorted and a permutation of its input. |
| `MergeSort.PartialGrows` | p8/merge_sort.cpp:30-44 | The comparison of the loop picks the next element of the merge. |
| `MergeSort.MergeHalves` | p8/merge_sort.cpp:27-44 | The loop with its three cases computes the merge of the two halves. |
| `MergeSort.CopyBack` | p8/merge_sort.cpp:45-46 | The copy writes exactly the range. |
| `MergeSort.SortRange` | p8/merge_sort.cpp:6-49 | The recursive program sorts its range in place and touches nothing else. |
| `ParallelSort.StepKeeps` | p8/merge_sort.cpp:19-25 | A step of any activity at any level keeps the invariant of the whole tree and writes only inside its own range. |
| `ParallelSort.StepsCount` | p8/merge_sort.cpp:6-49 | Every step brings the end closer by exactly one. |
| `ParallelSort.Progress` | p8/merge_sort.cpp:19-25 | Until the end some step is always possible: the sections never wait for each other. |
| `ParallelSort.EitherSection` | p8/merge_sort.cpp:19-25 | As long as a section is not finished it can take the next step, whatever the other one has done. |
| `ParallelSort.OneWrite` | p8/merge_sort.cpp:6-49 | No step writes more than one number. |
| `ParallelSort.AnyInterleaving` | p8/merge_sort.cpp:6-49 | Every interleaving at every level of the recursion takes the same number of steps and ends with the array of the sequential run. |
| `ParallelSort.SortsTheRange` | p8/merge_sort.cpp:6-49 | In every interleaving the range ends up sorted and a permutation of its input, everything outside unchanged. |

## Left out

- p1: `print`, `dump` and the messages in exceptions. Freed or foreign handles are outside the contract of the program and are not described.
- p1: the C++ blocks that are deleted; a block that leaves the list is no longer referred to here.
- p2: sockets, `epoll` and its flags, process exit on errors, and `p2/client.cpp`, which is the same send and receive loop.
- p2: delivery in time. Writability events are not passed on to the sending loop (p2/server.cpp:168-179), so only safety and the drained state are stated.
- p2: disconnects. The removal tests are inverted, so that the decoders and queues stay; a reused descriptor number is not followed.
- ChatServer.InvHolds: says nothing about the bytes of a client that was hit while stranded; from there on they depend on uninitialised memory. `ChatServer.LostExactly` and `ChatServer.IntactExactly` say when that is.
- Server.Server.SendSome: is about clients that were not hit; for the others the counter may exceed what is stored and the program reads outside of its chunks.
- p3: name resolution, the choice of a server, the registry of sessions, log output; the effect of closing a socket on the operations still pending is left to the network.
- p4: temporary file names and their removal, `main`'s argument check. The offsets printed by the reader are not modelled.
- p4: lists of 2^29 ids and more, for which the program writes outside of its buffers.
- IndexPipeline.BuildIndex: asks for a word in the first block; without one the program takes the last element of an empty set or reads variables that were never set.
- p5: signals, the log of ended processes, background processes as such, a program that cannot be executed, and the memory of parsed commands.
- ShellWritten.ReadAsWrittenExactly: words contain no blanks and no characters of operators; the program has no quoting.
- ShellMain.Interpret: the child that runs a background line is not followed; it is a shell of its own, to which `ShellRun.Shell.Run` applies.
- p5: iterator arithmetic before the first element, which a redirection in front of all words causes, is taken as index arithmetic.
- p8: reading and writing of the number files, and the width of `int`, since numbers are only compared.
