# Verification of the C exercises

The repository is a collection of small C programs. This project models the six that hold an
algorithm or a concurrent protocol, in Dafny 4.11, and proves what they promise, or exactly when
they keep it. `dafny verify dfyconfig.toml` checks everything.

| file | program |
|---|---|
| `Types.dfy` | the types several programs share |
| `CStrings.dfy` | NUL-terminated text in arrays, `strlen`, `strcat`, and `strtok` as a class with a saved position |
| `QueueServer.dfy` | the acceptor, message queue and ten workers of `server models/3` |
| `Shop.dfy` | the customers, loader and finish counter of `threads_shop` |
| `Names.dfy`, `ChatServer.dfy` | the text-buffer user list and log of `chat/server.c` |
| `SharedNames.dfy` | the shared name list of `chat 2`, edited by any number of clients under one semaphore |
| `Shell.dfy` | the line splitter of `command interpreter 2 (pipe)` |
| `Paths.dfy` | `dirn` and `basen` |
| `Checksum.dfy` | `ccsum` and the header of `RAW/ethernet/client.c` |
| `BlockDevice.dfy` | the request loop of `block_device` |

Sequential loops over buffers are methods over arrays and classes, each proved against a
specification function that does not mention how the loop works (the tokens of a text, the
components of a path, the one's-complement sum). Threads and processes are step machines: a state,
one function for each access to shared memory or system call, and a run for every sequence of
moves, so that a statement about all runs is a statement about all interleavings.

## What turned out false, and when it is true

- The chat log is *not* always the messages in order: the receive buffer is cleared once per drain,
  so a short message keeps the tail of a longer one (`ChatServer.LeftoverExample`).
  `ChatServer.LogExact` proves that the log is right exactly when no drain contains a message
  shorter than an earlier one.
- The user list is *not* always the names that joined less those that left, for the same reason: "anna" and
  "bo" joining in one pass are listed as "anna" and "bona", and "bona" stays when "bo" leaves
  (`ChatServer.MangledName`). `ChatServer.ListsExact` proves that every pass sends the right list exactly
  when in no pass a name joins after a longer one; `ChatServer.ListedAsReceived` says what is listed otherwise.
- The shop does *not* always end: the unlocked `(*sum)++` can lose an update
  (`Shop.LostUpdate` gives an admissible opening and an interleaving that leads to a state where all
  needs are met and the counter is 2). `Shop.EndsExactly` proves of every run, finished or not, that the
  loader can still finish exactly when no two increments have overlapped in it.
- `ccsum` folds its carries once. `Checksum.OneFold` proves that this is the checksum of the
  standard exactly when the fold does not carry again, and is one too large otherwise, as it is for
  the header of `Checksum.LostCarry`. `Checksum.WireAccepted` and `Checksum.WireSame` carry this to the receiver and to both byte orders.
- Passing a descriptor through a `char` is lossless only because of the sizes chosen:
  `QueueServer.LosslessExactly` gives the exact bound.
- Printing a parsed command line and parsing it again gives the same commands exactly when every
  stage contains a word (`Shell.SplitPrintSplit`); "ls| |wc" loses its blank stage (`Shell.BlankStageExample`).
- The ten entries of the stage table are *not* enough for every line that can be read; `Shell.TableFits`
  proves that a table is large enough exactly when it has 25 entries or more.
- The device counter is *not* always greetings less answered reads: it has 16 bits, and enough greetings
  take it back to zero (`BlockDevice.WrapExample`). `BlockDevice.CounterExactly` proves that it is so over
  a run exactly when no greeting came while the counter was 65535; in general 65536 greetings are lost for
  each one that did (`BlockDevice.CounterSettled`).

## Idealisations

- Copies whose terminator the C code omits are taken to be terminated (`basen.c:55`, `basen.c:130`,
  `dirn.c:54`, `command_count.c:11`, `lexemes_count.c:9`), and `string[-1]` is taken not to be a
  slash (`basen.c:43`, `dirn.c:42`).
- Uninitialised lists and buffers start empty or zero (`chat/server.c:138-140`,
  `chat 2/client.c:150`, `server models/3/server.c:26`, `block_device/main.c:44`).
- Buffer capacities are preconditions: a path below 4096 characters with a last component below 255,
  a command line below 50 characters with no more stages than the table has entries, chat names of at most 18 and messages
  of at most 348 characters, and a name segment with room for every client's line.
- `accept`, `send` and memory allocation succeed; `accept` returns the lowest free descriptor
  (section 2.14 of POSIX.1-2017 System Interfaces). A failed `recv` counts as a request of no bytes.
- `dirn.c:88` assigns 0 to `amount` where it seems to compare; the model follows the code, in which
  that test comes down to `slash == 0`. The comparison with 1 in `dirn.c:73` and `basen.c:74` is
  modelled as "the string is not `/`"; the branch is proved unreachable either way.
- Random numbers are any in their range, sleeps and printed text are dropped.
- Unlocked loads and stores of shared variables are atomic and take effect in the order of the run;
  an expression that reads and writes shared memory outside a lock is split into its accesses.
- At the end of input the shell looks at `command[-1]`, which is taken not to be a newline.

## Model

| member | source | states |
|---|---|---|
| CStrings.Tokenizer.First | C/command interpreter 2 (pipe)/_command_.c:9 | `strtok(s, d)` returns a pointer to the first maximal run without d, or NULL exactly when there is none, and puts NUL over at most one delimiter |
| CStrings.Tokenizer.Next | C/command interpreter 2 (pipe)/_command_.c:14 | `strtok(NULL, d)` goes through the remaining runs in order from the saved position |
| CStrings.TokensAreTokens | C/command interpreter 2 (pipe)/command_count.c:13-21 | tokens are non-empty, free of the delimiter and made of the line's characters, and a line of n characters has at most (n+1)/2 of them |
| CStrings.TokensSplit | C/command interpreter 2 (pipe)/param.c:9-25 | splitting distributes over every delimiter, so tokens are the maximal runs |
| CStrings.TokensOfJoin | C/chat/server.c:118-132 | splitting what was joined gives the pieces back, less the empty ones |
| QueueServer.Serve | C/server models/3/server.c:37-46 | with the buffer cleared, the 128-byte reply is this request in capitals and zeros, and the buffer is clear again |
| QueueServer.LowestFree | C/server models/3/server.c:88 | accept's descriptor is the least one not open, and by pigeonhole no larger than the number of open ones |
| QueueServer.RunInv | C/server models/3/server.c:21-95 | the invariant of counts, places and answers holds in every interleaving |
| QueueServer.DescriptorsSurvive | C/server models/3/server.c:32-33 | in every interleaving main's descriptor, each queued char and each worker's decoded descriptor denote the client accepted in that turn, in first-in first-out order, and no two workers have the same one |
| QueueServer.LosslessExactly | C/server models/3/server.c:64-65 | the narrowing loses nothing in any run exactly when 5 + slots + workers is at most the largest char, for every number of slots and workers |
| QueueServer.TwentyFive | C/server models/3/server.c:81-94 | with ten slots and ten workers no open descriptor exceeds 25, and a run reaches 25 |
| QueueServer.ExactlyOnePlace | C/server models/3/server.c:30-49 | every accepted connection is in exactly one of main's hand, the queue, a worker, or closed; the queue holds at most 10 and at most 21 are in flight |
| QueueServer.ClosedWereAnswered | C/server models/3/server.c:37-48 | in every run a closed connection made exactly one receive and was sent exactly one answer: the bytes of that receive, small letters in capitals, and zeros up to 128 |
| QueueServer.Capitals | C/server models/3/server.c:39-42 | each of a to z becomes its capital and every other byte is kept |
| QueueServer.SomeoneMoves | C/server models/3/server.c:30-49 | while anything is in flight some thread can act, and the work left goes down by one |
| QueueServer.EveryMoveCounts | C/server models/3/server.c:30-49 | whatever a thread does short of an accept, with whatever data, the work left goes down by exactly one unless it has to wait |
| QueueServer.Drains | C/server models/3/server.c:86-94 | after any run, however the threads are scheduled without further accepts, they can make exactly as many effective moves as there is work left, and exactly then all accepted connections are answered and closed |
| Shop.PurchaseAlone | C/threads_shop/purchases.c:6-38 | the loop alone on shelves it picks meets the need exactly when the distinct shelves held enough; shelves not picked keep their stock, those picked end up empty, and the one that meets the need keeps what is over |
| Shop.FullRound | C/threads_shop/purchases.c:8-38 | visiting every shelf offers the customer the whole stock, each shelf once however often it is picked |
| Shop.LocksKept | C/threads_shop/purchases.c:18-31 | in every interleaving a mutex is owned exactly by the thread between its lock and unlock on that shelf |
| Shop.BoundsKept | C/threads_shop/purchases.c:20-29 | shelves and needs are never negative, and the comparison made under the lock still holds at each later assignment |
| Shop.Conservation | C/threads_shop/loading.c:11-15 | shelves plus needs met equal the opening stock plus the amounts drawn for delivery in the run, corrected by what customers between their two assignments have in transit |
| Shop.Leftovers | C/threads_shop/main.c:30-43 | the loader ends only after all three customers, whose needs are then met, and the leftovers are exactly stock plus deliveries less the needs |
| Shop.CounterKept | C/threads_shop/loading.c:7 | with the increment split into load and store, the counter never exceeds the number of customers that have stored |
| Shop.CounterExact | C/threads_shop/purchases.c:33-37 | once all customers are done the counter is three exactly when no two increments overlapped in the run |
| Shop.EndsExactly | C/threads_shop/main.c:30-33 | after any run whatever, some continuation ends the loader exactly when no two increments have overlapped |
| Shop.LostUpdate | C/threads_shop/purchases.c:35 | a concrete opening and interleaving with all needs met and the counter at two |
| Shop.LockedTransfer | C/threads_shop/purchases.c:20-29 | whatever the other threads do in between, between lock and unlock the smaller of need and stock moves from the one to the other; on a shelf emptied since the unlocked check neither changes |
| Shop.LooksBeforeLocking | C/threads_shop/purchases.c:12-18 | in every interleaving a customer that locks or waits for a shelf saw it stocked, and has done nothing since |
| Shop.Deliver | C/threads_shop/loading.c:7-17 | a loader with nobody in its way brings the drawn amount to the drawn shelf and nothing else changes |
| Shop.Visit | C/threads_shop/purchases.c:8-37 | a customer with nobody in its way goes once through its loop over a stocked shelf, with the transfer done and the lock free again |
| Shop.TransfersBounded | C/threads_shop/purchases.c:6-29 | in an interleaving of any length at most the sum of the needs, so at most 10500, locked comparisons find a stocked shelf |
| Shop.NoDeadlock | C/threads_shop/purchases.c:8-38 | from every reachable state some continuation gets all customers done, and none of its increments overlaps another if none did before |
| Names.TokensOfRender | C/chat/server.c:118-132 | reading a rendered list line by line gives the list without its blank names |
| Names.Rebuild | C/chat 2/client.c:163-178 | the strtok loop appends the rendering of the old lines other than the given name |
| Names.WithoutSplits | C/chat 2/client.c:163-178 | every occurrence of the name goes, and the lines before, between and after stay in order |
| ChatServer.Receive | C/chat/server.c:21 | receiving overlays the message on the text the buffer already holds |
| ChatServer.Drain | C/chat/server.c:12-32 | one drain appends, one to a line, the successive overlays of the queued names |
| ChatServer.DrainedExact | C/chat/server.c:63-79 | a drain yields the messages themselves exactly when none is shorter than one before it, and otherwise a longer text |
| ChatServer.Server.UsersNumber | C/chat/server.c:34-46 | counts the newlines of the list |
| ChatServer.Server.SendNameList | C/chat/server.c:48-58 | the queue ends up as a newest part of what it held and copies of the list, with as many copies as fit ten if nobody reads, exactly one if everything is read before each send, and the list last if the last send found room |
| ChatServer.Server.SendChat | C/chat/server.c:82-100 | the same for the log, and nothing is sent while the log is empty |
| ChatServer.Server.DeleteName | C/chat/server.c:101-133 | on the rendering of any list leaves the rendering of the list without blank names and without the leaver |
| ChatServer.Server.Pass | C/chat/server.c:174-184 | one turn takes buffers and queues that show a list and log to buffers and queues that show their successor |
| ChatServer.Server.Run | C/chat/server.c:172-185 | after any number of turns the list text is the canonical rendering of the folded list, all names non-empty single lines |
| ChatServer.QuietPass | C/chat/server.c:116-132 | a turn with empty join and delete queues leaves a canonical list as it is |
| ChatServer.ExpectedExactly | C/chat/server.c:172-185 | folding the joins and leaves of a run as they were sent lists a name exactly when it is not blank, joined, and was not taken out in that pass or later |
| ChatServer.ListsExact | C/chat/server.c:12-32 | over every run each pass sends the expected list exactly when in no pass a name joins after a longer one |
| ChatServer.ListedAsReceived | C/chat/server.c:12-32 | over every run, whatever the names, the list is that fold of the successive overlays |
| ChatServer.ListedExactly | C/chat/server.c:172-185 | over every run in which no name joins after a longer one in its pass, a name is listed exactly when it is not blank, joined, and was not taken out in that pass or later |
| ChatServer.MangledName | C/chat/server.c:15-24 | two names of one pass of which the second is listed with the tail of the first, and stays listed when its bearer leaves |
| ChatServer.LogExact | C/chat/server.c:60-80 | over every run the log is all messages in order, one to a line, exactly when no drain shrinks |
| ChatServer.LeftoverExample | C/chat/server.c:65-73 | two messages of one drain of which the second keeps the tail of the first |
| ChatServer.SnapshotsChain | C/chat/server.c:82-100 | over every run the queued snapshots of the log are at most ten non-empty beginnings of the present log, each a beginning of the next |
| ChatServer.UserSnapshotsGenuine | C/chat/server.c:48-58 | over every run the queued snapshots of the users are at most ten, each the list as it stood in some pass |
| ChatServer.PassSends | C/chat/server.c:174-183 | after any run the next pass offers each queue of ten its text once per user: the list with the new names and before the leave, and the log with the new messages |
| ChatServer.FirstPass | C/chat/server.c:174-183 | one name and one message on an empty server put that name and that message, with newlines, in the two queues |
| SharedNames.SendName | C/chat 2/client.c:46-47 | appends the name and a newline |
| SharedNames.DeleteName | C/chat 2/client.c:161-180 | replaces the text by the rendering of its lines without the name |
| SharedNames.StepKeeps | C/chat 2/client.c:42-53 | each single-character move of any client keeps the invariant of mutual exclusion and partial progress |
| SharedNames.SharedListIsExact | C/chat 2/client.c:156-181 | for any number of clients and any interleaving, whenever the semaphore is free the segment reads as the list of the completed joins and leaves in the order of their posts |
| SharedNames.ReaderSeesPresentClients | C/chat 2/client.c:99-113 | with distinct non-blank names the free segment lists, once each, exactly the clients that have joined and not left |
| SharedNames.HolderPosts | C/chat 2/client.c:53 | from every state of the invariant the holder of the semaphore, moving alone, completes its operation and posts it |
| SharedNames.JoinsAlone | C/chat 2/client.c:42-53 | from every state of the invariant with the semaphore free, a client that has not joined can join by its own moves alone, which add its name and a newline at the end of the text and change nothing else |
| SharedNames.LeavesAlone | C/chat 2/client.c:156-181 | and one that has joined can leave by its own moves alone, after which its name is on no line and every other line is there as before |
| SharedNames.NobodyIsStuck | C/chat 2/client.c:42-53 | from every reachable state some schedule takes every client through its join and its leave |
| Shell.CommandCount | C/command interpreter 2 (pipe)/command_count.c:4-22 | the number of `|`-separated stages, without touching the line |
| Shell.LexemesCount | C/command interpreter 2 (pipe)/lexemes_count.c:3-20 | the number of words of a stage, without touching it |
| Shell.Command | C/command interpreter 2 (pipe)/_command_.c:4-16 | never meets NULL for a count within the number of stages, and leaves separate copies of the stages in order |
| Shell.Param | C/command interpreter 2 (pipe)/param.c:4-28 | never meets NULL for a count within the number of words, and leaves the words, the first behind the path, and NULL at the count |
| Shell.LineFits | C/command interpreter 2 (pipe)/main.c:23-32 | for a line below 50 characters every stage fits the 50-byte copy and has at most 25 words, so argv[256] is never exceeded |
| Shell.DropNewline | C/command interpreter 2 (pipe)/main.c:33-37 | whether or not the newline came with it, leaves the line that was typed, also the empty one |
| Shell.Turn | C/command interpreter 2 (pipe)/main.c:32-55 | for every typed line whose stages the table can hold, fetched with or without its newline: stops exactly at "exit", and otherwise each execve sees exactly the argument list of its stage, also when argv is reused |
| Shell.LineExample | C/command interpreter 2 (pipe)/main.c:32-55 | a concrete line of two stages with its newline asks for /bin/ls with -l and for /bin/wc |
| Shell.TableFits | C/command interpreter 2 (pipe)/main.c:23-32 | a table of stages holds those of every line that fgets can read exactly when it has 25 entries or more |
| Shell.SplitPrintSplit | C/command interpreter 2 (pipe)/param.c:9-27 | splitting, printing and splitting again gives the same argument lists exactly when every stage has a word |
| Shell.BlankStageExample | C/command interpreter 2 (pipe)/_command_.c:9-14 | a line of three stages, one of them blank, that comes back as two |
| Paths.CopySqueezed | C/dirname & basename/dirn.c:41-52 | copies the path without the slashes that follow a slash |
| Paths.Squeezed | C/dirname & basename/dirn.c:41-52 | what the first loop leaves is the normal path with at most one final slash |
| Paths.Normalise | C/dirname & basename/dirn.c:36-63 | collapse and trim give the components joined by single slashes, with a leading one for absolute paths |
| Paths.NormalEnd | C/dirname & basename/dirn.c:73-78 | a normal path ends in a slash only when it is "/", so the second trim never acts |
| Paths.FindLastSlash | C/dirname & basename/dirn.c:100-111 | the scan bounded only by the slashes left stops in time, at the last slash |
| Paths.Dirn | C/dirname & basename/dirn.c:16-117 | the directory part by components: all but the last, or "/" or "." when at most one is left |
| Paths.Basen | C/dirname & basename/basen.c:16-135 | the last component, or "/" or "." when there is none |
| Paths.NormalIsCanonical | C/dirname & basename/basen.c:41-64 | normalisation is idempotent, loses no component, and changes neither part |
| Paths.NormalDistinguishes | C/dirname & basename/basen.c:41-64 | two paths have the same normal form exactly when they agree on root and components |
| Paths.DirSteps | C/dirname & basename/dirn.c:82-111 | dirn's result is already normal, keeps the root and drops exactly the last component |
| Paths.Recompose | C/dirname & basename/basen.c:81-132 | dirn and basen joined by one slash give the normal path, and the pairs ("/", "/"), (".", name), (".", ".") arise in exactly the other cases |
| Paths.Climb | C/dirname & basename/dirn.c:80-114 | iterated dirn is "/" or "." from the component count on, and for absolute paths not before |
| Paths.ClimbInSlashes | C/dirname & basename/dirn.c:80-114 | iterated dirn has converged within one step more than the path has slashes |
| Paths.Examples | C/dirname & basename/dirn.c:16-117 | normal form, directory part and last component of an absolute path with surplus slashes and of a relative one |
| Checksum.Ccsum | C/RAW/ethernet/client.c:49-61 | the complement of the once-folded 32-bit sum of the ten words |
| Checksum.OneFold | C/RAW/ethernet/client.c:59-60 | equals the checksum of RFC 791 exactly when the fold does not carry again, and is one greater otherwise |
| Checksum.LostCarry | C/RAW/ethernet/client.c:59-60 | a header with zero checksum field whose ccsum is one too large and which the receiver refuses |
| Checksum.AcceptedExactly | C/RAW/ethernet/client.c:95-99 | inserted into the zeroed field it makes the receiver's sum 0xFFFF exactly when no carry was lost |
| Checksum.ByteOrderIndependent | C/RAW/ethernet/client.c:52-58 | section 2(B) of RFC 1071: the sum of byte-swapped words is the byte-swapped sum |
| Checksum.SameBytesExactly | C/RAW/ethernet/client.c:52-60 | ccsum of swapped words is the swap of ccsum exactly when neither order loses a carry |
| Checksum.WireAccepted | C/RAW/ethernet/client.c:99 | the header as sent by a host of either endianness, stored without htons, is accepted exactly when that host lost no carry |
| Checksum.WireSame | C/RAW/ethernet/client.c:99 | hosts of both kinds send the same bytes exactly when neither loses a carry |
| Checksum.SendHeader | C/RAW/ethernet/client.c:87-107 | the header this program fills in goes out as the same twenty literal bytes, checksum 0xF21A, from either kind of host, and is accepted |
| BlockDevice.Device.MemCpy | C/block_device/main.c:122 | the copy stays inside the buffer and changes only its range |
| BlockDevice.Device.Segment | C/block_device/main.c:110-135 | after a written greeting every cell from the position on, up to the end of the segment or of the 4096, holds the segment's byte and every other is unchanged; anything else stores nothing; a read is answered "Hi!", newline and NUL and counted down while the counter is not zero |
| BlockDevice.Device.DoSimpleRequest | C/block_device/main.c:97-139 | all segments of a request land at its start position, and as many read segments are answered as the counter had, from the first on |
| BlockDevice.DeviceContents | C/block_device/main.c:108-136 | after any run of requests each cell holds the byte that the last greeting segment written over it has there, in the order of requests and segments, or its first value |
| BlockDevice.CounterSettled | C/block_device/main.c:120-134 | after any run the opening count and the greetings stored add up to the count left, the reads answered, and 65536 for each wrap |
| BlockDevice.CounterExactly | C/block_device/main.c:120-134 | after any run the counter and the answers account for all greetings exactly when no greeting came while the counter was 65535 |
| BlockDevice.WrapExample | C/block_device/main.c:123 | from any count, a run of greetings that leaves the counter at zero with none of them answered |

## Left out

- Sockets, curses, fork and execve, mmap, kernel registration and the blk-mq machinery: foreign calls.
- Per-thread storage of `dirn` and `basen`: pthread library behaviour; each call here has its own buffer.
- `server models/1`, `2` and `4`, the echo servers and the other RAW programs: the same upper-case loop with less protocol.
- `send_message` of `chat 2`: it takes no semaphore, so nothing holds of it across interleavings.
- The readers of `chat 2` between a wait and a post: they may show a half-edited list; only the free segment is characterised.
- `free` of the argv entries in the shell, and its pipe wiring: values here are not allocated or released.
- Shell.Turn: does not model a line with more stages than command_path has entries, ten in the source, because the code then writes beyond it; Shell.TableFits gives the size that suffices.
- The threads of `server models/3`, `threads_shop` and `chat 2` are step machines on values, not classes: what is lost is update in place, and aliasing is not in question because each shared object has one name.
- Text editors, calculators, traceroute, icmp, proc, sysfs, ioctl and the port-blocking module: plumbing or one-branch logic.
- `one_time_init` and `structure`: one-branch or easy members.
