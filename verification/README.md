# Multiplexing command server — verified model

This project models the core of a small single-process TCP server (`server-3.cpp`).
The server keeps a set of open sockets for `select`, a `clients` map keyed by socket,
a `maxfds` bound, and a list of sockets whose entries are erased from `clients`
after each scan. Every received buffer is read as a C string and split into
whitespace-separated tokens. A message `SYS <args...>` runs `<args...>` as a shell
command and sends back what the command printed. If it printed nothing, the message
itself is echoed back. Any other message gets no reply.

Modules, one per part of the program:

- `Tokenizer` (`tokenizer.dfy`) models how the buffer is read. `CString` returns the
  text before the first NUL. `Tokenize` splits it the way `stream >> token` does
  (C-locale `isspace`). `ReadTokens` is the extraction loop. `Weave` and `Gaps` put
  the blanks back between the tokens, which characterises tokenizing in both
  directions.
- `Command` (`command.dfy`) models `clientCommand`. `CommandLine` is the argument
  join, and `DispatchTokens` makes the `SYS` decision and picks the reply. The
  external process is a parameter `exec` that maps a command line to its captured
  output. `ClientCommand` is the handler as written. `ClientCommandGuarded` is the
  same handler with the first-token read guarded (see Findings).
- `Registry` (`registry.dfy`) holds the bookkeeping state `Server` and its steps:
  `Accept`, `Close` (= `closeClient`), `Disconnect` (= `closeClient` plus queueing the
  socket), and two versions of the erase loop. `CommitAsWritten` keeps the queue, as
  the code does. `CommitRemovals` empties it. `Consistent` is what every step keeps,
  the erase loop as written included. `Inv` is the stronger consistency the corrected
  loop keeps between steps.
- `EventLoop` (`eventloop.dfy`) models one iteration of the `main` loop after
  `select`: the accept, the `while (n-- > 0)` scans over `clients` in ascending key
  order, the receive, the command handling and the erasure. `select`, `accept` and
  `recv` are inputs: the ready set, the count `n`, the accepted descriptor, and a
  function from (scan number, socket) to what `recv` returned.

The loop comes in two variants, chosen by `EventLoop.Variant`. `AsWritten` is the
code as it stands: the buffer is cleared once per round, `recv` may fill it completely,
`ClientCommand` reads the first token unguarded, and `CommitAsWritten` keeps the queue.
`Corrected` applies the corrections of the Findings below: `Receive` clears the buffer
before every receive, `ClientCommandGuarded` is used, and `CommitRemovals` empties the
queue. `Visit`, `ScanKeys`, `Pass`, `Passes` and `Round` take the variant as a
parameter, and so does every lemma that holds for both. The lemmas that hold only for
the corrected loop are listed under Left out.

In three places the code does less than its comments or its evident purpose suggest.
The model follows the code each time:

- The comment at server-3.cpp:133-135 says that when the closing client holds
  `maxfds`, the next lower socket must be found. The loop that follows folds `max`
  starting from the current `maxfds`, while the closing client is still in `clients`,
  so it can never lower the bound. `maxfds` only grows and is an upper bound on the
  open sockets, not their maximum (`Registry.CloseKeepsMaxfds`,
  `Registry.MaxfdsIsOnlyAnUpperBound`).
- `clientSocketsToClear` is never emptied (lines 297-300), so every later erase loop
  erases the same sockets again (Findings).
- Only a `recv` result of 0 closes a connection (line 278). A failed `recv` goes to
  the command handler like data, and the handler runs on whatever the buffer still
  holds (Findings). `EventLoop.Visit` with `AsWritten` does the same for `Failed`; with
  `Corrected` it clears the buffer and sends nothing.

## Model

| member | source | states |
|---|---|---|
| Tokenizer.CString | server-3.cpp:159 | The text read from the buffer has no NUL, and that text followed by a NUL is a prefix of the buffer. The result is `None` exactly when the buffer has no NUL. |
| Tokenizer.CStringOfTerminated | server-3.cpp:159 | Whatever follows the first NUL never reaches the text that is tokenized. |
| Tokenizer.Word | server-3.cpp:162 | One `>>` reads a prefix that has no whitespace and that stops at whitespace or at the end of the text. |
| Tokenizer.WordUnique | server-3.cpp:162 | Exactly one prefix has that property, so the token read is determined by the text. |
| Tokenizer.Tokenize | server-3.cpp:159-163 | Every extracted token is non-empty and contains no whitespace. |
| Tokenizer.ReadTokens | server-3.cpp:162-163 | The `while (stream >> token) push_back` loop produces exactly the tokens of the reference definition `Tokenize`, in left-to-right order. |
| Tokenizer.TokenizeAfterBlank | server-3.cpp:162 | Leading whitespace never changes the tokens. |
| Tokenizer.TokenizeAfterToken | server-3.cpp:162 | A token followed by whitespace or by the end of the text is read as exactly that token. |
| Tokenizer.TokenizeWeave | server-3.cpp:159-163 | Round trip: tokens joined by any non-empty runs of whitespace, with optional whitespace at either end, are tokenized back into exactly those tokens. |
| Tokenizer.GapsRebuild | server-3.cpp:159-163 | The converse: every text equals its own tokens woven with its own whitespace runs, so tokenizing drops whitespace and nothing else. |
| Tokenizer.GapsSeparate | server-3.cpp:159-163 | Those runs are whitespace only, and the run between two neighbouring tokens is never empty, so they qualify for the round trip above. |
| Tokenizer.TokensStopAtNul | server-3.cpp:159 | The tokens of a buffer are the tokens of the text before its first NUL. |
| Command.CommandLine | server-3.cpp:173-176 | The join loop: the command line is as long as the arguments together plus one space per argument. |
| Command.CommandLineEndsInOneSpace | server-3.cpp:173-176 | When there is at least one argument, the command line ends in exactly one space. |
| Command.CommandLineTokens | server-3.cpp:173-176 | Tokenizing the command line by whitespace gives back exactly `tokens[1..]`: it holds exactly the arguments, in order, each followed by one space. |
| Command.DispatchTokens | server-3.cpp:166-195 | It needs a non-empty token sequence. A reply is produced exactly when the first token is `SYS` (case-sensitive) and there are at least two tokens. The reply is the captured output when that is non-empty, and the raw message otherwise. |
| Command.ClientCommand | server-3.cpp:152-196 | The handler as written. Behaviour is undefined exactly when the buffer has no NUL or the text has no token. It replies exactly when the first token is `SYS` and at least one argument follows. |
| Command.ClientCommandGuarded | server-3.cpp:152-196 | The corrected handler. It is undefined only on a buffer with no NUL. A message with no token gets no reply. It agrees with the as-written handler wherever that one is defined. |
| Command.BlankMessageIsUndefined | server-3.cpp:162-166 | Every message that is only whitespace before its NUL, the message that starts with a NUL included, makes the as-written handler read `tokens[0]` of an empty vector. The guarded handler stays silent. |
| Command.SysReplyNeverEmpty | server-3.cpp:185-190 | A recognised command always gets a non-empty reply. |
| Command.EchoExample | server-3.cpp:166-190 | `SYS echo hello` runs `echo hello ` and replies with what that printed, in the handler as written and in the guarded one. |
| Command.SilentCommandEchoes | server-3.cpp:185-187 | A command that prints nothing makes the server send the raw message back unchanged, in both handlers. |
| Command.SingleWordIsSilent | server-3.cpp:166 | A message of exactly one word gets no reply from either handler, whatever the word, `SYS` included. |
| Command.LoneSysIsSilent | server-3.cpp:166-195 | A lone `SYS` gets no reply from either handler. |
| Command.LowerCaseSysIsSilent | server-3.cpp:166 | The name is compared case-sensitively: `sys ls` gets no reply from either handler. |
| Command.UnknownIsSilent | server-3.cpp:192-195 | An unknown command name gets no reply from either handler. |
| Registry.Start | server-3.cpp:234-235 | The initial state, with only the listening socket open and `maxfds` at that socket, satisfies the invariant. |
| Registry.SortedKeys | server-3.cpp:272 | The keys listed are exactly the keys of `clients`. |
| Registry.SortedKeysAscending | server-3.cpp:272 | They are listed in strictly ascending order, so each key is visited exactly once, as a `std::map` iterates. |
| Registry.FoldMax | server-3.cpp:139-142 | The fold is at least its start and at least every element. It equals the start or one of the elements. |
| Registry.Accept | server-3.cpp:261-264 | The new socket joins the open sockets and the clients. `maxfds` rises to cover it and never decreases. Nothing else changes. |
| Registry.Close | server-3.cpp:129-148 | Only the closed socket leaves the open set. `clients` and the queue are untouched, and `maxfds` never decreases. |
| Registry.Disconnect | server-3.cpp:282-283 | A closing peer leaves the open set and is appended to the removal queue. The clients map keeps it for now. |
| Registry.EraseAll | server-3.cpp:297-300 | The erase loop removes exactly the queued keys and keeps every other entry unchanged. |
| Registry.CommitAsWritten | server-3.cpp:297-300 | After the erase loop as written, no queued socket is a key of `clients`. The queue itself is kept. |
| Registry.CommitRemovals | server-3.cpp:297-300 | The corrected commit: the same erasure, then an empty queue. |
| Registry.QueuedAreErased | server-3.cpp:297-300 | Both erase loops remove every queued socket from `clients`. |
| Registry.EraseAbsentIsNoop | server-3.cpp:299 | Erasing keys that are already absent leaves the map unchanged. |
| Registry.CommitAsWrittenIdempotent | server-3.cpp:297-300 | Repeating the as-written erase loop changes nothing. |
| Registry.AcceptKeepsConsistent | server-3.cpp:256-265 | Accepting any descriptor other than the listening socket keeps the listening socket open and out of the clients, every client filed under its socket, and `maxfds` above every open socket and client. |
| Registry.DisconnectKeepsConsistent | server-3.cpp:129-148 | So does the disconnect of any socket other than the listening one, `closeClient` and the queueing included. |
| Registry.CommitKeepsConsistent | server-3.cpp:297-300 | So do both erase loops, the one as written and the corrected one. |
| Registry.AcceptKeepsInv | server-3.cpp:256-265 | From a state with an empty erasure queue, accepting a free descriptor keeps the invariant: the open set is the listening socket plus the unqueued clients, and `maxfds` bounds every open socket and client. |
| Registry.DisconnectKeepsInv | server-3.cpp:280-284 | Disconnecting a registered, unqueued client keeps the invariant. |
| Registry.CommitRemovalsKeepsInv | server-3.cpp:295-300 | The corrected commit keeps the invariant. Afterwards the clients are exactly the open sockets other than the listening one. |
| Registry.CloseKeepsMaxfds | server-3.cpp:137-143 | In every consistent state, including those the loop as written reaches with a non-empty queue, the recomputation in `closeClient` never changes `maxfds`. |
| Registry.MaxfdsIsOnlyAnUpperBound | server-3.cpp:137-143 | When a server listening on socket 3 accepts socket 5 and that client then leaves, the erase loop as written runs, only socket 3 is open, and `maxfds` stays 5. |
| Registry.ReusedDescriptorErased | server-3.cpp:283-300 | As written, a descriptor still on the queue that `accept` hands out again is erased from `clients` by the next commit, while it is still open. |
| Registry.ReuseIsReachable | server-3.cpp:256-300 | That state is reached: after a client on socket 4 leaves and the erase loop runs, socket 4 is no longer a client and is not open, but it is still queued. |
| Registry.ReusedDescriptorKept | server-3.cpp:297-300 | With the corrected commit, a reused descriptor stays registered after the next commit. |
| EventLoop.Blank | server-3.cpp:244 | The `memset` at the start of every round: the buffer holds `BufferSize` bytes, all NUL. |
| EventLoop.ReceiveAsWritten | server-3.cpp:278 | `recv` with the full buffer size copies the delivery over the front of the buffer. A long delivery fills the whole buffer. A short one leaves the old tail in place. |
| EventLoop.Receive | server-3.cpp:278 | The corrected receive always leaves a terminator. For a NUL-free delivery, the text read is exactly the delivered bytes, cut at 1024. |
| EventLoop.FullMessageUnterminated | server-3.cpp:278 | As written, a delivery of 1025 or more non-NUL bytes leaves no terminator, so handling it is undefined. |
| EventLoop.FullMessageTruncated | server-3.cpp:278 | The corrected receive reads the first 1024 bytes of such a delivery. |
| EventLoop.ResidueCorruptsMessage | server-3.cpp:244-278 | As written, a shorter message received after a longer one in the same round is read with the tail of the longer one attached. |
| EventLoop.ResidueExample | server-3.cpp:244-278 | As written, `SYS pwd` after `SYS ls -la` is read as `SYS pwd-la`. The corrected receive reads `SYS pwd`. |
| EventLoop.Visit | server-3.cpp:276-291 | A client that is not ready is skipped. A zero-byte receive disconnects it. Otherwise at most one reply is sent, to that client only. `clients` is never changed during the scan. A visit can make the round undefined but never defined again; the corrected visit never changes definedness. |
| EventLoop.VisitReplies | server-3.cpp:276-290 | The corrected visit answers a ready client from exactly the text this receive delivered, and a failed receive sends nothing. As written, a failed receive leaves the buffer alone and sends this client the handler's answer to what the buffer still holds. |
| EventLoop.ScanKeys | server-3.cpp:272-293 | During a scan `clients` stays unchanged. Open sockets are only lost, the queue only grows, earlier replies are kept, and `maxfds` never decreases. |
| EventLoop.ScanRepliesToVisited | server-3.cpp:272-293 | Every reply of a scan goes to a ready socket of a client the scan visited. |
| EventLoop.ScanKeysSplit | server-3.cpp:272-293 | Scanning the keys is scanning a prefix of them and then the rest, so the state before any one visit is the scan of the keys before it. |
| EventLoop.ScanRepliesToReady | server-3.cpp:272-290 | The converse, in both variants: a ready client whose `recv` delivered data is sent, on its own socket, the handler's answer to the buffer that receive left, whenever that answer is a reply. The buffer before the receive is the one the earlier visits of the scan left. |
| EventLoop.PassRepliesToReady | server-3.cpp:270-293 | In the corrected loop, a ready client that delivered a NUL-free command is sent the reply to exactly the text it delivered, in the pass that received it. |
| EventLoop.PassRepliesToReadyAsWritten | server-3.cpp:270-293 | As written, the ready client at a given place of the pass is sent the answer to its delivery copied over the buffer the earlier visits of that pass left. |
| EventLoop.ScanQueuesClosed | server-3.cpp:272-293 | Every visited client whose receive returned zero bytes is queued, and every newly queued socket is no longer open. |
| EventLoop.ScanClosesOnlyClosing | server-3.cpp:276-284 | Conversely, a scan queues and closes only sockets whose receive returned zero bytes. |
| EventLoop.ScanDisconnects | server-3.cpp:276-284 | A scan that visits a closing client leaves it queued and no longer open. |
| EventLoop.Pass | server-3.cpp:270-301 | One scan and its erase loop. No client is added, and every socket queued when the pass starts is no longer a client after it. The corrected pass leaves the queue empty, and the pass as written only lets it grow. |
| EventLoop.Passes | server-3.cpp:270-301 | Repeated passes never add clients, never reopen a socket and never lower `maxfds`. The corrected passes end with an empty queue. |
| EventLoop.Round | server-3.cpp:240-303 | The loop stops exactly when `select` returns a negative count. Otherwise `maxfds` never decreases over the round and covers the accepted socket, and the corrected round stays defined. |
| EventLoop.ScanKeysKeepsConsistent | server-3.cpp:272-293 | A scan, as written or corrected, keeps the bookkeeping consistent. |
| EventLoop.PassKeepsConsistent | server-3.cpp:270-301 | So does a pass with either erase loop. |
| EventLoop.PassesKeepConsistent | server-3.cpp:270-301 | So does any number of passes. |
| EventLoop.RoundKeepsConsistent | server-3.cpp:240-303 | A round as written or corrected keeps the listening socket open and out of the clients, every client filed under its socket, and `maxfds` above every open socket and client, provided `accept` does not return the listening socket. |
| EventLoop.ScanKeysKeepsInv | server-3.cpp:272-293 | A scan over distinct, unqueued clients keeps the stronger invariant. |
| EventLoop.PassKeepsInv | server-3.cpp:270-301 | A corrected pass that starts with an empty queue keeps the stronger invariant. |
| EventLoop.PassesKeepInv | server-3.cpp:270-301 | Corrected passes keep the stronger invariant and leave an empty queue. |
| EventLoop.RoundKeepsInv | server-3.cpp:240-303 | A corrected round that accepts a free descriptor goes from one idle state to the next. In an idle state the clients are exactly the open sockets other than the listening one, and `maxfds` bounds them all. |
| EventLoop.DisconnectedIsErased | server-3.cpp:278-300 | A ready client whose receive returns zero bytes is gone from `clients` and from the open set once its pass ends, as written and corrected. |
| EventLoop.PassSkipsAbsent | server-3.cpp:272-300 | A pass sends nothing to a socket that is not a client when the pass starts, and does not register it. |
| EventLoop.PassKeepsKeyed | server-3.cpp:270-301 | A pass keeps every client filed under its own socket. |
| EventLoop.ErasedNeverServed | server-3.cpp:270-301 | Once a socket is not a client, no later pass of the round sends it anything or registers it again, as written and corrected. |
| EventLoop.ScanKeepsLive | server-3.cpp:276-284 | A socket whose receive does not report a closed peer stays open through a scan and is not queued by it. |
| EventLoop.PassKeepsLive | server-3.cpp:270-301 | Through a pass, such a socket stays open. If it was not queued, it stays unqueued and a client stays a client. |
| EventLoop.PassesKeepLive | server-3.cpp:270-301 | The same over every pass in which its receive does not report a closed peer. |
| EventLoop.AcceptedStaysRegistered | server-3.cpp:256-301 | A round that accepts a descriptor not waiting in the erasure queue leaves it open and registered, unless its peer closes during the round. |
| EventLoop.QueuedLiveIsDropped | server-3.cpp:283-300 | A pass that starts with a live client still queued for erasure erases it from `clients`, although it stays open. |
| EventLoop.QueuedLiveStaysDropped | server-3.cpp:270-301 | After such a pass the socket stays open and unregistered for the rest of the round. |
| EventLoop.AcceptedQueuedIsDropped | server-3.cpp:256-301 | The same for a descriptor that `accept` hands out while it is still queued. |
| EventLoop.ReusedDescriptorDropped | server-3.cpp:256-301 | A round that accepts a still-queued descriptor and runs at least one scan ends with it open, so `select` watches it, but no longer a client, so it is never served, although its peer never closed. |
| EventLoop.FailedReceiveRepliesWithOther | server-3.cpp:244-290 | As written, when client A's message is handled and the receive of client B then fails in the same scan, A's message is handled again: A's command runs a second time and the output of that run is sent to B. With `exec` one function for the round, both runs print the same text. The buffer is taken to be clear beyond A's message, as it is for the first message of a round. |
| EventLoop.FullMessageIsUndefined | server-3.cpp:278-290 | As written, a delivery that fills the buffer makes the round undefined. The corrected visit leaves definedness as it was. |

## Left out

- Socket set-up (`open_socket`, `socket`, `fcntl`, `setsockopt`, `bind`, `listen`, `BACKLOG`): system calls that the operating system owns. The model starts after the listening socket exists (`Registry.Start`).
- `select`, `accept`, `recv`, `send`, `close`: system calls. Their results are inputs to `EventLoop.Round`. The bytes given to `send` are recorded as a `Message`. Partial sends are not modelled.
- `popen`, `fgets`, `pclose`: external process execution. These are replaced by the function parameter `exec`, one function for the whole model: two runs of the same command line print the same text, and a command has no effect on later ones. The 128-byte `fgets` chunks and NUL bytes in the command's output are not modelled. A failed `popen` is not modelled either: line 179 would then call `fgets` on a null stream. `popen` hands the command line to `/bin/sh -c`, whose own parsing (quotes, `;`, `|`, `$`, globbing) is part of `exec`: the model promises only that the command line holds exactly the whitespace-separated arguments, in order, not that the shell splits it the same way.
- EventLoop.FailedReceiveRepliesWithOther: says that B receives the same text A received. In the program the second run is a separate `popen` (lines 178-183), so a command such as `date`, or one that changes files (a second `mkdir d` fails), can print something else; the model only promises that the command runs again and B is sent that run's output.
- `printf`, `perror` and `std::cout` logging: output only.
- Argument handling (`argc`, `atoi`, the usage exit) and the exit on a failed `listen`: start-up input and output.
- `Client::name` and the `new Client` that is never deleted: no behaviour depends on them.
- `openSockets` is never cleared with `FD_ZERO` before the listening socket is added. The model starts with only the listening socket open.
- `accept` can fail and return -1, which the code then adds to the sets. The model takes whatever descriptor it is given and does not single out -1.
- `exceptSockets` is not modelled separately. It only affects the count `n`, which is an input.
- Descriptors beyond `FD_SETSIZE` are not modelled. Sockets are unbounded integers.
- Characters are Dafny `char`s, one per received byte. Byte values are not modelled beyond the C-locale whitespace set and NUL.
- EventLoop.RoundKeepsInv: stated for the corrected loop only. It also assumes the descriptor `accept` returns is not currently open, a guarantee the kernel gives but the code never checks. As written, the queue keeps erased sockets after the commit, so the clause "every queued socket is a client" fails after the first pass that erases anything. The loop as written keeps only `Consistent` (`EventLoop.RoundKeepsConsistent`).
- EventLoop.PassKeepsInv: stated for the corrected pass only, for the same reason.
- EventLoop.PassesKeepInv: stated for the corrected passes only, for the same reason.
- EventLoop.ScanKeysKeepsInv: holds for both variants, but its premise that every queued socket is a client holds as written only until the first commit that erases something.
- Registry.CommitRemovalsKeepsInv: about the corrected erase loop only. The as-written one keeps `Consistent` (`Registry.CommitKeepsConsistent`).
- Registry.ReusedDescriptorKept: about the corrected erase loop only. The as-written counterpart is `Registry.ReusedDescriptorErased`.
- EventLoop.AcceptedStaysRegistered: needs the accepted descriptor not to be waiting in the erasure queue. The corrected loop always meets this because it starts every round with an empty queue. The loop as written does not, and `EventLoop.ReusedDescriptorDropped` states what happens instead.
- EventLoop.ErasedNeverServed: needs every client filed under its own socket. The only insertion into `clients` (line 264) files the new client under its own socket, and `EventLoop.RoundKeepsConsistent` shows that rounds keep this.

## Findings

| source | as written | input that shows it | evidently intended | confidence | as-written member | corrected member |
|---|---|---|---|---|---|---|
| server-3.cpp:162-166 | `tokens[0]` is read before `tokens.size()` is checked | a message that is only whitespace before its NUL, e.g. `" \n"`, or one that starts with a NUL byte | no reply, as for an unknown command | high; not executed | Command.BlankMessageIsUndefined | Command.ClientCommandGuarded |
| server-3.cpp:278 | `recv` may write all 1025 bytes of `buffer`, so no terminator is left for `std::stringstream(buffer)` | a client that sends 1025 or more non-NUL bytes at once | receive at most 1024 bytes so that the last byte stays NUL | high; not executed | EventLoop.FullMessageUnterminated | EventLoop.Receive |
| server-3.cpp:244-278 | `buffer` is cleared once per round, and `recv` writes no terminator | two clients ready in the same round send `SYS ls -la` and then `SYS pwd`; the second is read as `SYS pwd-la` | clear the buffer before every receive | high; not executed | EventLoop.ResidueCorruptsMessage | EventLoop.Receive |
| server-3.cpp:276-290 | a failed `recv` (it returns -1) is handled like data, on whatever the buffer still holds | in one round client A sends `SYS ls` and then client B's `recv` fails: `ls` runs a second time and the output of that run goes to B | a failed receive is not answered with another client's data | high; not executed | EventLoop.FailedReceiveRepliesWithOther | EventLoop.VisitReplies |
| server-3.cpp:283-300 | `clientSocketsToClear` is never emptied, so every later commit erases those sockets again | a client on socket 4 disconnects, and the next connection is given socket 4 (the lowest free descriptor). After its first request is served, it is erased from `clients` while `select` still watches it | empty the queue after the erase loop | high; not executed | EventLoop.ReusedDescriptorDropped | Registry.CommitRemovals |
