/**
  One round of the `main` loop after `select` has returned: the accept, the
  `while (n-- > 0)` scans over `clients` in key order, the receive into the
  shared buffer, the command handling, and the erasure of closed clients.
  What `select`, `accept` and `recv` report is given as input: the ready set,
  the count `n`, the accepted descriptor, and `recv` as a function from
  (scan number, socket) to what that call returned.
 */
module EventLoop {
  import opened Wrappers
  import opened Tokenizer
  import opened Command
  import opened Registry

  /** `char buffer[1025]`. */
  const BufferSize: nat := 1025

  /** The shared receive buffer. */
  type Buffer = b: seq<char> | |b| == BufferSize witness seq(BufferSize, _ => NUL)

  /** What one `recv` call returned: the bytes it delivered (none when the peer closed), or an error. */
  datatype RecvResult = Received(bytes: string) | Failed

  /** Bytes sent back to a socket. */
  datatype Message = Message(sock: int, bytes: string)

  /** A buffer of `BufferSize` NULs, as `memset` leaves it. */
  function Blank(): (b: seq<char>)
    ensures |b| == BufferSize
    ensures forall i :: 0 <= i < |b| ==> b[i] == NUL
  {
    seq(BufferSize, _ => NUL)
  }

  /**
    `recv(sock, buffer, cap, ...)`: at most `cap` of the delivered bytes are
    copied over the front of the buffer; no terminator is written and the
    rest of the buffer keeps its old contents.
   */
  function Overwrite(buffer: seq<char>, bytes: string, cap: nat): (r: seq<char>)
    requires cap <= |buffer|
    ensures |r| == |buffer|
    ensures forall i :: 0 <= i < |r| ==> r[i] == if i < |bytes| && i < cap then bytes[i] else buffer[i]
  {
    var n := if |bytes| < cap then |bytes| else cap;
    bytes[..n] + buffer[n..]
  }

  /** The receive as written: the whole buffer may be filled, over whatever the previous receive left. */
  function ReceiveAsWritten(buffer: seq<char>, bytes: string): (r: seq<char>)
    requires |buffer| == BufferSize
    ensures |r| == BufferSize
    ensures |bytes| >= BufferSize ==> r == bytes[..BufferSize]
    ensures |bytes| < BufferSize ==> r == bytes + buffer[|bytes|..]
  {
    Overwrite(buffer, bytes, BufferSize)
  }

  /** The part of a delivery the corrected receive keeps: at most `BufferSize - 1` bytes. */
  function Delivered(bytes: string): string {
    bytes[..if |bytes| < BufferSize then |bytes| else BufferSize - 1]
  }

  /**
    The corrected receive: the buffer is cleared before every `recv`, and the
    last byte is never written, so it always ends in a terminator and the
    message read is exactly what this call delivered.
   */
  function Receive(bytes: string): (buf: seq<char>)
    ensures |buf| == BufferSize && buf[BufferSize - 1] == NUL
    ensures NUL !in bytes ==> CString(buf) == Some(Delivered(bytes))
  {
    ReceiveReadsDelivered(bytes);
    Overwrite(Blank(), bytes, BufferSize - 1)
  }

  lemma ReceiveReadsDelivered(bytes: string)
    ensures NUL !in bytes ==> CString(Overwrite(Blank(), bytes, BufferSize - 1)) == Some(Delivered(bytes))
  {
    var buf := Overwrite(Blank(), bytes, BufferSize - 1);
    var d := Delivered(bytes);
    var rest := Blank()[|d| + 1..];
    assert buf == d + [NUL] + rest;
    if NUL !in bytes {
      assert NUL !in d;
      CStringOfTerminated(d, rest);
    }
  }

  /** As written, a delivery that fills the buffer leaves no terminator, and handling it reads past the buffer. */
  lemma FullMessageUnterminated(buffer: seq<char>, bytes: string, exec: string -> string)
    requires |buffer| == BufferSize && |bytes| >= BufferSize && NUL !in bytes
    ensures CString(ReceiveAsWritten(buffer, bytes)) == None
    ensures ClientCommand(ReceiveAsWritten(buffer, bytes), exec) == Undefined
  {
    assert ReceiveAsWritten(buffer, bytes) == bytes[..BufferSize];
  }

  /** With the corrected receive the same delivery is cut to `BufferSize - 1` bytes and read safely. */
  lemma FullMessageTruncated(bytes: string)
    requires |bytes| >= BufferSize && NUL !in bytes
    ensures CString(Receive(bytes)) == Some(bytes[..BufferSize - 1])
  {
  }

  /**
    As written, a shorter message received after a longer one in the same
    round is read with the tail of the longer one still attached.
   */
  lemma ResidueCorruptsMessage(first: string, second: string)
    requires NUL !in first && NUL !in second
    requires |second| < |first| < BufferSize
    ensures CString(ReceiveAsWritten(ReceiveAsWritten(Blank(), first), second))
         == Some(second + first[|second|..])
  {
    var buf := ReceiveAsWritten(ReceiveAsWritten(Blank(), first), second);
    var text := second + first[|second|..];
    var rest := Blank()[|first| + 1..];
    assert buf == text + [NUL] + rest;
    CStringOfTerminated(text, rest);
  }

  /** `SYS pwd` read after `SYS ls -la` becomes `SYS pwd-la`; the corrected receive reads `SYS pwd`. */
  lemma ResidueExample(first: string, second: string, garbled: string)
    requires first == "SYS ls -la" && second == "SYS pwd" && garbled == "SYS pwd-la"
    ensures CString(ReceiveAsWritten(ReceiveAsWritten(Blank(), first), second)) == Some(garbled)
    ensures CString(Receive(second)) == Some(second)
  {
    assert NUL !in first && NUL !in second && |second| < |first| < BufferSize;
    assert second + first[|second|..] == garbled;
    ResidueCorruptsMessage(first, second);
    assert Delivered(second) == second;
  }

  /**
    Which loop is meant: the code as written, or the code with the
    corrections the findings describe (the buffer cleared before each receive
    and one byte short of full, the first token looked at only when there is
    one, and the erasure queue emptied once it has been applied).
   */
  datatype Variant = AsWritten | Corrected

  /**
    The state carried through a round: the bookkeeping, the messages sent so
    far, the shared buffer, and whether every handled message stayed within
    defined behaviour.
   */
  datatype Scan = Scan(server: Server, sent: seq<Message>, buffer: Buffer, defined: bool)

  /** What a handler outcome puts on the wire to `sock`: the reply, or nothing. */
  function Sent(sock: int, o: Outcome): seq<Message> {
    if o.Replied? then [Message(sock, o.bytes)] else []
  }

  /** The buffer after a receive that did not report a closed peer; as written, an error writes nothing. */
  function Fill(v: Variant, buffer: Buffer, got: RecvResult): Buffer {
    match v
    case AsWritten => if got.Received? then ReceiveAsWritten(buffer, got.bytes) else buffer
    case Corrected => Receive(if got.Received? then got.bytes else [])
  }

  /** The handler each variant runs on the buffer. */
  function Handle(v: Variant, buf: seq<char>, exec: string -> string): Outcome {
    match v
    case AsWritten => ClientCommand(buf, exec)
    case Corrected => ClientCommandGuarded(buf, exec)
  }

  /** A ready socket whose receive returned zero bytes: its peer closed. */
  predicate Closes(c: Client, ready: set<int>, got: RecvResult) {
    c.sock in ready && got == Received([])
  }

  /**
    One client of the scan: nothing unless its socket is ready; a receive of
    zero bytes disconnects it; anything else (data, or an error) fills the
    buffer and the command handler runs on what the buffer then holds. As
    written, an error leaves the buffer as the previous receive left it, so
    the previous message is handled again and its reply goes to this client.
   */
  function Visit(v: Variant, st: Scan, c: Client, ready: set<int>, got: RecvResult,
                 exec: string -> string): (r: Scan)
    ensures r.server == (if Closes(c, ready, got) then Disconnect(st.server, c.sock) else st.server)
    ensures r.server.clients == st.server.clients && r.server.listenSock == st.server.listenSock
    ensures st.sent <= r.sent && |r.sent| <= |st.sent| + 1
    ensures forall i :: |st.sent| <= i < |r.sent| ==> r.sent[i].sock == c.sock && c.sock in ready
    ensures r.defined ==> st.defined
    ensures v == Corrected ==> r.defined == st.defined
  {
    if c.sock !in ready then st
    else if got == Received([]) then st.(server := Disconnect(st.server, c.sock))
    else
      var buf := Fill(v, st.buffer, got);
      var o := Handle(v, buf, exec);
      st.(buffer := buf, sent := st.sent + Sent(c.sock, o), defined := st.defined && !o.Undefined?)
  }

  /**
    What a visit sends. Corrected, a ready client's message is answered from
    exactly the text this receive delivered, and a failed receive sends
    nothing. As written, a failed receive leaves the buffer alone and sends
    this client the handler's answer to whatever the buffer still holds.
   */
  lemma VisitReplies(v: Variant, st: Scan, c: Client, ready: set<int>, got: RecvResult,
                     exec: string -> string)
    ensures var r := Visit(v, st, c, ready, got, exec);
      v == Corrected && c.sock in ready && got.Received? && got.bytes != [] && NUL !in got.bytes ==>
        r.sent == st.sent + Sent(c.sock, Respond(Tokenize(Delivered(got.bytes)), Delivered(got.bytes), exec))
    ensures v == Corrected && got == Failed ==> Visit(v, st, c, ready, got, exec).sent == st.sent
    ensures var r := Visit(v, st, c, ready, got, exec);
      v == AsWritten && c.sock in ready && got == Failed ==>
        r.buffer == st.buffer && r.sent == st.sent + Sent(c.sock, ClientCommand(st.buffer, exec))
  {
  }

  /** The `for (auto const& pair : clients)` loop over `keys`, in order. */
  function ScanKeys(v: Variant, st: Scan, keys: seq<int>, ready: set<int>, pass: nat,
                    recv: (nat, int) -> RecvResult, exec: string -> string): (r: Scan)
    requires forall i :: 0 <= i < |keys| ==> keys[i] in st.server.clients
    decreases |keys|
    ensures r.server.clients == st.server.clients && r.server.listenSock == st.server.listenSock
    ensures r.server.maxfds >= st.server.maxfds
    ensures r.server.open <= st.server.open
    ensures st.sent <= r.sent
    ensures st.server.toClear <= r.server.toClear
    ensures r.defined ==> st.defined
    ensures v == Corrected ==> r.defined == st.defined
  {
    if keys == [] then st
    else
      var c := st.server.clients[keys[0]];
      ScanKeys(v, Visit(v, st, c, ready, recv(pass, c.sock), exec), keys[1..], ready, pass, recv, exec)
  }

  /** Every message `after` adds to `before` goes to a ready socket among `socks`. */
  predicate RepliesWithin(before: seq<Message>, after: seq<Message>, ready: set<int>, socks: seq<int>) {
    forall i :: |before| <= i < |after| ==> after[i].sock in ready && after[i].sock in socks
  }

  /** No message `after` adds to `before` goes to `k`. */
  predicate NoReplyTo(before: seq<Message>, after: seq<Message>, k: int) {
    forall i :: |before| <= i < |after| ==> after[i].sock != k
  }

  lemma NoReplyToTransitive(a: seq<Message>, b: seq<Message>, c: seq<Message>, k: int)
    requires b <= c && NoReplyTo(a, b, k) && NoReplyTo(b, c, k)
    ensures NoReplyTo(a, c, k)
  {
    forall i | |a| <= i < |c|
      ensures c[i].sock != k
    {
      if i < |b| {
        assert c[i] == b[i];
      }
    }
  }

  /** A scan replies only to ready sockets of the clients it visits. */
  lemma {:induction false} ScanRepliesToVisited(v: Variant, st: Scan, keys: seq<int>, ready: set<int>, pass: nat,
                                                recv: (nat, int) -> RecvResult, exec: string -> string)
    requires forall i :: 0 <= i < |keys| ==> keys[i] in st.server.clients
    decreases |keys|
    ensures RepliesWithin(st.sent, ScanKeys(v, st, keys, ready, pass, recv, exec).sent, ready,
                          SocksOf(st.server.clients, keys))
  {
    if keys != [] {
      var c := st.server.clients[keys[0]];
      var next := Visit(v, st, c, ready, recv(pass, c.sock), exec);
      ScanRepliesToVisited(v, next, keys[1..], ready, pass, recv, exec);
      var r := ScanKeys(v, next, keys[1..], ready, pass, recv, exec);
      assert RepliesWithin(next.sent, r.sent, ready, SocksOf(next.server.clients, keys[1..]));
      var socks := SocksOf(st.server.clients, keys);
      assert socks == [c.sock] + SocksOf(st.server.clients, keys[1..]);
      forall i | |st.sent| <= i < |r.sent|
        ensures r.sent[i].sock in ready && r.sent[i].sock in socks
      {
        if i < |next.sent| {
          assert r.sent[i] == next.sent[i];
          assert next.sent[i].sock == c.sock && c.sock in ready;
          assert socks[0] == c.sock;
        } else {
          assert next.server.clients == st.server.clients;
          assert |next.sent| <= i < |r.sent|;
          assert r.sent[i].sock in ready && r.sent[i].sock in SocksOf(next.server.clients, keys[1..]);
        }
      }
    }
  }

  /** Scanning `keys` is scanning its first `i` keys and then the rest. */
  lemma {:induction false} ScanKeysSplit(v: Variant, st: Scan, keys: seq<int>, i: nat, ready: set<int>, pass: nat,
                                         recv: (nat, int) -> RecvResult, exec: string -> string)
    requires forall j :: 0 <= j < |keys| ==> keys[j] in st.server.clients
    requires i <= |keys|
    decreases i
    ensures ScanKeys(v, st, keys, ready, pass, recv, exec)
         == ScanKeys(v, ScanKeys(v, st, keys[..i], ready, pass, recv, exec), keys[i..], ready, pass, recv, exec)
  {
    if i == 0 {
      assert keys[..0] == [] && keys[0..] == keys;
    } else {
      var c := st.server.clients[keys[0]];
      var next := Visit(v, st, c, ready, recv(pass, c.sock), exec);
      ScanKeysSplit(v, next, keys[1..], i - 1, ready, pass, recv, exec);
      assert keys[..i][0] == keys[0] && keys[..i][1..] == keys[1..][..i - 1];
      assert keys[1..][i - 1..] == keys[i..];
    }
  }

  /**
    The converse of `ScanRepliesToVisited`: a ready client whose receive
    delivered data is sent the handler's answer to the buffer that receive
    left, whenever that answer is a reply. `i` is the client's place in the
    scan, and the buffer before the receive is the one the first `i` visits
    left behind.
   */
  lemma ScanRepliesToReady(v: Variant, st: Scan, keys: seq<int>, i: nat, ready: set<int>, pass: nat,
                           recv: (nat, int) -> RecvResult, exec: string -> string)
    requires Keyed(st.server.clients)
    requires forall j :: 0 <= j < |keys| ==> keys[j] in st.server.clients
    requires i < |keys| && keys[i] in ready
    requires recv(pass, keys[i]).Received? && recv(pass, keys[i]).bytes != []
    ensures var before := ScanKeys(v, st, keys[..i], ready, pass, recv, exec).buffer;
      var o := Handle(v, Fill(v, before, recv(pass, keys[i])), exec);
      o.Replied? ==> Message(keys[i], o.bytes) in ScanKeys(v, st, keys, ready, pass, recv, exec).sent[|st.sent|..]
  {
    var k := keys[i];
    ScanKeysSplit(v, st, keys, i, ready, pass, recv, exec);
    var pre := ScanKeys(v, st, keys[..i], ready, pass, recv, exec);
    var c := pre.server.clients[k];
    assert c.sock == k;
    var mid := Visit(v, pre, c, ready, recv(pass, k), exec);
    assert keys[i..][0] == k && keys[i..][1..] == keys[i + 1..];
    var r := ScanKeys(v, mid, keys[i + 1..], ready, pass, recv, exec);
    assert r == ScanKeys(v, st, keys, ready, pass, recv, exec);
    var o := Handle(v, Fill(v, pre.buffer, recv(pass, k)), exec);
    if o.Replied? {
      assert mid.sent == pre.sent + [Message(k, o.bytes)];
      assert r.sent[|pre.sent|] == Message(k, o.bytes);
      assert r.sent[|st.sent|..][|pre.sent| - |st.sent|] == Message(k, o.bytes);
    }
  }

  /**
    A pass carries `ScanRepliesToReady` over: in the corrected loop, a ready
    client that delivered a NUL-free command is sent the reply to exactly what
    it delivered, in the pass that received it.
   */
  lemma PassRepliesToReady(st: Scan, k: int, ready: set<int>, pass: nat,
                           recv: (nat, int) -> RecvResult, exec: string -> string)
    requires Keyed(st.server.clients) && k in st.server.clients && k in ready
    requires recv(pass, k).Received? && recv(pass, k).bytes != [] && NUL !in recv(pass, k).bytes
    ensures var d := Delivered(recv(pass, k).bytes);
      var o := Respond(Tokenize(d), d, exec);
      o.Replied? ==> Message(k, o.bytes) in Pass(Corrected, st, ready, pass, recv, exec).sent[|st.sent|..]
  {
    var keys := SortedKeys(st.server.clients.Keys);
    var i :| 0 <= i < |keys| && keys[i] == k;
    ScanRepliesToReady(Corrected, st, keys, i, ready, pass, recv, exec);
  }

  /**
    As written, the ready client at place `i` of the pass is sent the answer
    to its delivery copied over the buffer the earlier visits of the pass left.
   */
  lemma PassRepliesToReadyAsWritten(st: Scan, i: nat, ready: set<int>, pass: nat,
                                    recv: (nat, int) -> RecvResult, exec: string -> string)
    requires Keyed(st.server.clients)
    requires var keys := SortedKeys(st.server.clients.Keys);
      i < |keys| && keys[i] in ready && recv(pass, keys[i]).Received? && recv(pass, keys[i]).bytes != []
    ensures var keys := SortedKeys(st.server.clients.Keys);
      var before := ScanKeys(AsWritten, st, keys[..i], ready, pass, recv, exec).buffer;
      var o := ClientCommand(ReceiveAsWritten(before, recv(pass, keys[i]).bytes), exec);
      o.Replied? ==> Message(keys[i], o.bytes) in Pass(AsWritten, st, ready, pass, recv, exec).sent[|st.sent|..]
  {
    var keys := SortedKeys(st.server.clients.Keys);
    ScanRepliesToReady(AsWritten, st, keys, i, ready, pass, recv, exec);
  }

  /** Every socket `t` queued beyond what `s` had queued is no longer open in `t`. */
  predicate QueuedAreClosed(s: Server, t: Server) {
    forall i :: |s.toClear| <= i < |t.toClear| ==> t.toClear[i] !in t.open
  }

  /**
    A scan queues exactly the visited clients that closed, and each of them
    has left the open sockets by the end of the scan.
   */
  lemma {:induction false} ScanQueuesClosed(v: Variant, st: Scan, keys: seq<int>, ready: set<int>, pass: nat,
                                            recv: (nat, int) -> RecvResult, exec: string -> string)
    requires forall i :: 0 <= i < |keys| ==> keys[i] in st.server.clients
    decreases |keys|
    ensures QueuedAreClosed(st.server, ScanKeys(v, st, keys, ready, pass, recv, exec).server)
    ensures forall i :: 0 <= i < |keys| && Closes(st.server.clients[keys[i]], ready, recv(pass, st.server.clients[keys[i]].sock)) ==>
              st.server.clients[keys[i]].sock in ScanKeys(v, st, keys, ready, pass, recv, exec).server.toClear
  {
    if keys != [] {
      var c := st.server.clients[keys[0]];
      var next := Visit(v, st, c, ready, recv(pass, c.sock), exec);
      ScanQueuesClosed(v, next, keys[1..], ready, pass, recv, exec);
      var r := ScanKeys(v, next, keys[1..], ready, pass, recv, exec);
      if Closes(c, ready, recv(pass, c.sock)) {
        assert next.server.toClear == st.server.toClear + [c.sock];
        assert c.sock !in next.server.open;
        assert r.server.toClear[|st.server.toClear|] == c.sock;
      } else {
        assert next.server == st.server;
      }
      forall i | 0 <= i < |keys| && Closes(st.server.clients[keys[i]], ready, recv(pass, st.server.clients[keys[i]].sock))
        ensures st.server.clients[keys[i]].sock in r.server.toClear
      {
        if i > 0 {
          assert keys[i] == keys[1..][i - 1];
        }
      }
    }
  }

  /**
    With clients filed under their sockets, a scan queues and closes only
    sockets whose receive returned zero bytes in this scan.
   */
  lemma {:induction false} ScanClosesOnlyClosing(v: Variant, st: Scan, keys: seq<int>, ready: set<int>, pass: nat,
                                                 recv: (nat, int) -> RecvResult, exec: string -> string)
    requires Keyed(st.server.clients)
    requires forall i :: 0 <= i < |keys| ==> keys[i] in st.server.clients
    decreases |keys|
    ensures var r := ScanKeys(v, st, keys, ready, pass, recv, exec).server;
      forall i :: |st.server.toClear| <= i < |r.toClear| ==> Closes(Client(r.toClear[i]), ready, recv(pass, r.toClear[i]))
    ensures var r := ScanKeys(v, st, keys, ready, pass, recv, exec).server;
      forall k :: k in st.server.open && k !in r.open ==> Closes(Client(k), ready, recv(pass, k))
  {
    if keys != [] {
      var c := st.server.clients[keys[0]];
      var next := Visit(v, st, c, ready, recv(pass, c.sock), exec);
      ScanClosesOnlyClosing(v, next, keys[1..], ready, pass, recv, exec);
      var r := ScanKeys(v, next, keys[1..], ready, pass, recv, exec).server;
      assert c.sock == keys[0];
      if Closes(c, ready, recv(pass, c.sock)) {
        assert next.server.toClear == st.server.toClear + [c.sock];
        forall i | |st.server.toClear| <= i < |r.toClear|
          ensures Closes(Client(r.toClear[i]), ready, recv(pass, r.toClear[i]))
        {
          if i < |next.server.toClear| {
            assert r.toClear[i] == c.sock;
          }
        }
      } else {
        assert next.server == st.server;
      }
    }
  }

  /** Clear every queued socket from the clients: as written the queue is kept, corrected it is emptied. */
  function Commit(v: Variant, s: Server): Server {
    match v
    case AsWritten => CommitAsWritten(s)
    case Corrected => CommitRemovals(s)
  }

  /** One scan of every client in key order, then the erase loop over the queue. */
  function Pass(v: Variant, st: Scan, ready: set<int>, pass: nat,
                recv: (nat, int) -> RecvResult, exec: string -> string): (r: Scan)
    ensures forall k :: k in r.server.clients ==> k in st.server.clients && r.server.clients[k] == st.server.clients[k]
    ensures forall i :: 0 <= i < |st.server.toClear| ==> st.server.toClear[i] !in r.server.clients
    ensures r.server.open <= st.server.open
    ensures v == Corrected ==> r.server.toClear == []
    ensures v == AsWritten ==> st.server.toClear <= r.server.toClear
    ensures r.server.listenSock == st.server.listenSock && r.server.maxfds >= st.server.maxfds
    ensures st.sent <= r.sent
    ensures r.defined ==> st.defined
    ensures v == Corrected ==> r.defined == st.defined
  {
    var keys := SortedKeys(st.server.clients.Keys);
    var sc := ScanKeys(v, st, keys, ready, pass, recv, exec);
    sc.(server := Commit(v, sc.server))
  }

  /** `count` scans, numbered from `pass`. */
  function Passes(v: Variant, st: Scan, count: nat, ready: set<int>, pass: nat,
                  recv: (nat, int) -> RecvResult, exec: string -> string): (r: Scan)
    decreases count
    ensures forall k :: k in r.server.clients ==> k in st.server.clients && r.server.clients[k] == st.server.clients[k]
    ensures r.server.open <= st.server.open
    ensures r.server.listenSock == st.server.listenSock && r.server.maxfds >= st.server.maxfds
    ensures st.sent <= r.sent
    ensures count > 0 && v == Corrected ==> r.server.toClear == []
    ensures r.defined ==> st.defined
    ensures v == Corrected ==> r.defined == st.defined
  {
    if count == 0 then st
    else Passes(v, Pass(v, st, ready, pass, recv, exec), count - 1, ready, pass + 1, recv, exec)
  }

  /** How a round ends: `select` failed and the loop stops, or the new state, what was sent, and whether all was defined. */
  datatype Tick = Stopped | Continued(server: Server, sent: seq<Message>, defined: bool)

  /**
    One round after `select` returned `n` with `ready` as its read set: the
    buffer is cleared, a negative `n` ends the loop; otherwise a ready
    listening socket accepts `newSock` and uses up one event, and the clients
    are scanned once per remaining event.
   */
  function Round(v: Variant, s: Server, ready: set<int>, n: int, newSock: int,
                 recv: (nat, int) -> RecvResult, exec: string -> string): (t: Tick)
    ensures t == Stopped <==> n < 0
    ensures t.Continued? ==> t.server.maxfds >= s.maxfds && t.server.listenSock == s.listenSock
    ensures t.Continued? && s.listenSock in ready ==> newSock <= t.server.maxfds
    ensures t.Continued? && v == Corrected ==> t.defined
  {
    if n < 0 then Stopped
    else
      var accepting := s.listenSock in ready;
      var s1 := if accepting then Accept(s, newSock) else s;
      var left := if accepting then n - 1 else n;
      var r := Passes(v, Scan(s1, [], Blank(), true), if left > 0 then left else 0, ready, 0, recv, exec);
      Continued(r.server, r.sent, r.defined)
  }

  /** Whatever a round meets, as written or corrected, it keeps the weaker consistency of the bookkeeping. */
  lemma {:induction false} ScanKeysKeepsConsistent(v: Variant, st: Scan, keys: seq<int>, ready: set<int>, pass: nat,
                                                   recv: (nat, int) -> RecvResult, exec: string -> string)
    requires Consistent(st.server)
    requires forall i :: 0 <= i < |keys| ==> keys[i] in st.server.clients
    decreases |keys|
    ensures Consistent(ScanKeys(v, st, keys, ready, pass, recv, exec).server)
  {
    if keys != [] {
      var c := st.server.clients[keys[0]];
      assert c.sock == keys[0];
      DisconnectKeepsConsistent(st.server, c.sock);
      ScanKeysKeepsConsistent(v, Visit(v, st, c, ready, recv(pass, c.sock), exec), keys[1..], ready, pass, recv, exec);
    }
  }

  lemma PassKeepsConsistent(v: Variant, st: Scan, ready: set<int>, pass: nat,
                            recv: (nat, int) -> RecvResult, exec: string -> string)
    requires Consistent(st.server)
    ensures Consistent(Pass(v, st, ready, pass, recv, exec).server)
  {
    var keys := SortedKeys(st.server.clients.Keys);
    ScanKeysKeepsConsistent(v, st, keys, ready, pass, recv, exec);
    CommitKeepsConsistent(ScanKeys(v, st, keys, ready, pass, recv, exec).server);
  }

  lemma {:induction false} PassesKeepConsistent(v: Variant, st: Scan, count: nat, ready: set<int>, pass: nat,
                                                recv: (nat, int) -> RecvResult, exec: string -> string)
    requires Consistent(st.server)
    decreases count
    ensures Consistent(Passes(v, st, count, ready, pass, recv, exec).server)
  {
    if count > 0 {
      PassKeepsConsistent(v, st, ready, pass, recv, exec);
      var p := Pass(v, st, ready, pass, recv, exec);
      PassesKeepConsistent(v, p, count - 1, ready, pass + 1, recv, exec);
      assert Passes(v, st, count, ready, pass, recv, exec) == Passes(v, p, count - 1, ready, pass + 1, recv, exec);
    }
  }

  /**
    A round of the loop as written keeps the listening socket open and out of
    the clients, every client filed under its socket, and `maxfds` above
    every open socket and every client.
   */
  lemma RoundKeepsConsistent(v: Variant, s: Server, ready: set<int>, n: int, newSock: int,
                             recv: (nat, int) -> RecvResult, exec: string -> string)
    requires Consistent(s) && newSock != s.listenSock
    ensures var t := Round(v, s, ready, n, newSock, recv, exec);
      t.Continued? ==> Consistent(t.server)
  {
    if n >= 0 {
      var s1 := if s.listenSock in ready then Accept(s, newSock) else s;
      if s.listenSock in ready {
        AcceptKeepsConsistent(s, newSock);
      }
      var left := if s.listenSock in ready then n - 1 else n;
      PassesKeepConsistent(v, Scan(s1, [], Blank(), true), if left > 0 then left else 0, ready, 0, recv, exec);
    }
  }

  /**
    The state between rounds of the corrected loop: consistent, nothing
    queued, and the clients are exactly the open sockets other than the
    listening one.
   */
  predicate Idle(s: Server) {
    Inv(s) && s.toClear == [] && s.clients.Keys == s.open - {s.listenSock}
  }

  /** With clients filed under their sockets, the sockets of the clients listed by `keys` are the keys themselves. */
  lemma {:induction false} SocksAreKeys(clients: map<int, Client>, keys: seq<int>)
    requires Keyed(clients)
    requires forall i :: 0 <= i < |keys| ==> keys[i] in clients
    decreases |keys|
    ensures SocksOf(clients, keys) == keys
  {
    if keys != [] {
      SocksAreKeys(clients, keys[1..]);
      assert keys[0] in clients;
      assert clients[keys[0]].sock == keys[0];
      assert SocksOf(clients, keys) == [clients[keys[0]].sock] + SocksOf(clients, keys[1..]);
      assert keys == [keys[0]] + keys[1..];
    }
  }

  /** A scan over distinct keys that are not yet queued keeps the bookkeeping consistent. */
  lemma {:induction false} ScanKeysKeepsInv(v: Variant, st: Scan, keys: seq<int>, ready: set<int>, pass: nat,
                                            recv: (nat, int) -> RecvResult, exec: string -> string)
    requires Inv(st.server)
    requires forall i :: 0 <= i < |keys| ==> keys[i] in st.server.clients
    requires Ascending(keys)
    requires forall i, j :: 0 <= i < |keys| && 0 <= j < |st.server.toClear| ==> keys[i] != st.server.toClear[j]
    decreases |keys|
    ensures Inv(ScanKeys(v, st, keys, ready, pass, recv, exec).server)
  {
    if keys != [] {
      var k := keys[0];
      var c := st.server.clients[k];
      var next := Visit(v, st, c, ready, recv(pass, c.sock), exec);
      if Closes(c, ready, recv(pass, c.sock)) {
        assert k !in Elems(st.server.toClear);
        DisconnectKeepsInv(st.server, k);
        assert next.server.toClear == st.server.toClear + [k];
      } else {
        assert next.server == st.server;
      }
      ScanKeysKeepsInv(v, next, keys[1..], ready, pass, recv, exec);
    }
  }

  /** A corrected pass that starts with an empty queue keeps the bookkeeping consistent. */
  lemma PassKeepsInv(st: Scan, ready: set<int>, pass: nat,
                     recv: (nat, int) -> RecvResult, exec: string -> string)
    requires Inv(st.server) && st.server.toClear == []
    ensures Inv(Pass(Corrected, st, ready, pass, recv, exec).server)
  {
    var keys := SortedKeys(st.server.clients.Keys);
    SortedKeysAscending(st.server.clients.Keys);
    ScanKeysKeepsInv(Corrected, st, keys, ready, pass, recv, exec);
    CommitRemovalsKeepsInv(ScanKeys(Corrected, st, keys, ready, pass, recv, exec).server);
  }

  /** Corrected passes that start with an empty queue keep the bookkeeping consistent. */
  lemma {:induction false} PassesKeepInv(st: Scan, count: nat, ready: set<int>, pass: nat,
                                         recv: (nat, int) -> RecvResult, exec: string -> string)
    requires Inv(st.server) && st.server.toClear == []
    decreases count
    ensures Inv(Passes(Corrected, st, count, ready, pass, recv, exec).server)
    ensures Passes(Corrected, st, count, ready, pass, recv, exec).server.toClear == []
  {
    if count > 0 {
      PassKeepsInv(st, ready, pass, recv, exec);
      PassesKeepInv(Pass(Corrected, st, ready, pass, recv, exec), count - 1, ready, pass + 1, recv, exec);
    }
  }

  /**
    A corrected round that accepts a descriptor the kernel has free keeps the
    bookkeeping consistent: afterwards the clients are exactly the open
    sockets other than the listening one, and `maxfds` bounds them all.
   */
  lemma RoundKeepsInv(s: Server, ready: set<int>, n: int, newSock: int,
                      recv: (nat, int) -> RecvResult, exec: string -> string)
    requires Idle(s) && newSock !in s.open
    requires n >= 0
    ensures Round(Corrected, s, ready, n, newSock, recv, exec).Continued?
    ensures Idle(Round(Corrected, s, ready, n, newSock, recv, exec).server)
  {
    var s1 := if s.listenSock in ready then Accept(s, newSock) else s;
    if s.listenSock in ready {
      AcceptKeepsInv(s, newSock);
    }
    var left := if s.listenSock in ready then n - 1 else n;
    var count := if left > 0 then left else 0;
    var st := Scan(s1, [], Blank(), true);
    PassesKeepInv(st, count, ready, 0, recv, exec);
    var r := Passes(Corrected, st, count, ready, 0, recv, exec);
    assert Round(Corrected, s, ready, n, newSock, recv, exec) == Continued(r.server, r.sent, r.defined);
    CommitRemovalsKeepsInv(r.server);
    assert CommitRemovals(r.server) == r.server;
  }

  /** A scan that visits a closing client leaves it queued and no longer open. */
  lemma {:induction false} ScanDisconnects(v: Variant, st: Scan, keys: seq<int>, k: int, ready: set<int>, pass: nat,
                                           recv: (nat, int) -> RecvResult, exec: string -> string)
    requires Keyed(st.server.clients)
    requires forall i :: 0 <= i < |keys| ==> keys[i] in st.server.clients
    requires k in keys && Closes(Client(k), ready, recv(pass, k))
    decreases |keys|
    ensures var sv := ScanKeys(v, st, keys, ready, pass, recv, exec).server;
      k in sv.toClear && k !in sv.open
  {
    var c := st.server.clients[keys[0]];
    var next := Visit(v, st, c, ready, recv(pass, c.sock), exec);
    var sv := ScanKeys(v, next, keys[1..], ready, pass, recv, exec).server;
    if keys[0] == k {
      assert c.sock == k;
      assert next.server.toClear == st.server.toClear + [k];
      assert sv.toClear[|st.server.toClear|] == k;
    } else {
      assert k in keys[1..];
      ScanDisconnects(v, next, keys[1..], k, ready, pass, recv, exec);
    }
  }

  /**
    A client whose receive returns zero bytes stays in `clients` for the rest
    of the scan and is gone, from `clients` and from the open sockets, once
    the pass ends; as written and corrected alike.
   */
  lemma DisconnectedIsErased(v: Variant, st: Scan, k: int, ready: set<int>, pass: nat,
                             recv: (nat, int) -> RecvResult, exec: string -> string)
    requires Keyed(st.server.clients)
    requires k in st.server.clients && k in ready && recv(pass, k) == Received([])
    ensures var r := Pass(v, st, ready, pass, recv, exec);
      k !in r.server.clients && k !in r.server.open
  {
    var keys := SortedKeys(st.server.clients.Keys);
    assert k in keys;
    ScanDisconnects(v, st, keys, k, ready, pass, recv, exec);
    QueuedAreErased(ScanKeys(v, st, keys, ready, pass, recv, exec).server, k);
  }

  /** A pass sends nothing to a socket that is not a client when it starts, and does not bring it back. */
  lemma PassSkipsAbsent(v: Variant, st: Scan, k: int, ready: set<int>, pass: nat,
                        recv: (nat, int) -> RecvResult, exec: string -> string)
    requires Keyed(st.server.clients) && k !in st.server.clients
    ensures k !in Pass(v, st, ready, pass, recv, exec).server.clients
    ensures NoReplyTo(st.sent, Pass(v, st, ready, pass, recv, exec).sent, k)
  {
    var keys := SortedKeys(st.server.clients.Keys);
    SocksAreKeys(st.server.clients, keys);
    ScanRepliesToVisited(v, st, keys, ready, pass, recv, exec);
    var sc := ScanKeys(v, st, keys, ready, pass, recv, exec);
    assert Pass(v, st, ready, pass, recv, exec).sent == sc.sent;
    assert k !in keys;
  }

  /** A pass only removes clients, so they stay filed under their sockets. */
  lemma PassKeepsKeyed(v: Variant, st: Scan, ready: set<int>, pass: nat,
                       recv: (nat, int) -> RecvResult, exec: string -> string)
    requires Keyed(st.server.clients)
    ensures Keyed(Pass(v, st, ready, pass, recv, exec).server.clients)
  {
  }

  /**
    Once a socket is not a client, no later pass of the round sends to it or
    registers it again; in particular a client erased after one pass is not
    dispatched to in the passes that follow, as written and corrected alike.
   */
  lemma {:induction false} ErasedNeverServed(v: Variant, st: Scan, count: nat, k: int, ready: set<int>, pass: nat,
                                             recv: (nat, int) -> RecvResult, exec: string -> string)
    requires Keyed(st.server.clients) && k !in st.server.clients
    decreases count
    ensures k !in Passes(v, st, count, ready, pass, recv, exec).server.clients
    ensures NoReplyTo(st.sent, Passes(v, st, count, ready, pass, recv, exec).sent, k)
  {
    if count > 0 {
      var p := Pass(v, st, ready, pass, recv, exec);
      PassSkipsAbsent(v, st, k, ready, pass, recv, exec);
      PassKeepsKeyed(v, st, ready, pass, recv, exec);
      ErasedNeverServed(v, p, count - 1, k, ready, pass + 1, recv, exec);
      NoReplyToTransitive(st.sent, p.sent, Passes(v, p, count - 1, ready, pass + 1, recv, exec).sent, k);
    }
  }

  /**
    A socket whose receive does not report a closed peer stays open through a
    scan, and is not queued by it.
   */
  lemma ScanKeepsLive(v: Variant, st: Scan, keys: seq<int>, k: int, ready: set<int>, pass: nat,
                      recv: (nat, int) -> RecvResult, exec: string -> string)
    requires Keyed(st.server.clients) && !Closes(Client(k), ready, recv(pass, k))
    requires forall i :: 0 <= i < |keys| ==> keys[i] in st.server.clients
    ensures var r := ScanKeys(v, st, keys, ready, pass, recv, exec).server;
      (k in st.server.open ==> k in r.open) && (k !in Elems(st.server.toClear) ==> k !in Elems(r.toClear))
  {
    ScanClosesOnlyClosing(v, st, keys, ready, pass, recv, exec);
    var r := ScanKeys(v, st, keys, ready, pass, recv, exec).server;
    if k !in Elems(st.server.toClear) {
      forall i | 0 <= i < |r.toClear|
        ensures r.toClear[i] != k
      {
        if i < |st.server.toClear| {
          assert r.toClear[i] == st.server.toClear[i] && st.server.toClear[i] in Elems(st.server.toClear);
        } else {
          assert Closes(Client(r.toClear[i]), ready, recv(pass, r.toClear[i]));
        }
      }
    }
  }

  /**
    From `s` to `t`, socket `k` stays open if it was; and if it was not
    queued, it is still not queued and a client stays a client.
   */
  predicate StaysLive(s: Server, t: Server, k: int) {
    && (k in s.open ==> k in t.open)
    && (k !in Elems(s.toClear) ==> k !in Elems(t.toClear) && (k in s.clients ==> k in t.clients))
  }

  lemma StaysLiveTransitive(s: Server, t: Server, u: Server, k: int)
    requires StaysLive(s, t, k) && StaysLive(t, u, k)
    ensures StaysLive(s, u, k)
  {
  }

  /**
    A socket whose receive does not report a closed peer stays open through a
    pass; if it is not queued when the pass starts it is not queued after it,
    and a client stays a client.
   */
  lemma PassKeepsLive(v: Variant, st: Scan, k: int, ready: set<int>, pass: nat,
                      recv: (nat, int) -> RecvResult, exec: string -> string)
    requires Keyed(st.server.clients) && !Closes(Client(k), ready, recv(pass, k))
    ensures StaysLive(st.server, Pass(v, st, ready, pass, recv, exec).server, k)
  {
    var keys := SortedKeys(st.server.clients.Keys);
    ScanKeepsLive(v, st, keys, k, ready, pass, recv, exec);
  }

  /** The same over `count` passes in which the receive on `k` never reports a closed peer. */
  lemma {:induction false} PassesKeepLive(v: Variant, st: Scan, count: nat, k: int, ready: set<int>, pass: nat,
                                          recv: (nat, int) -> RecvResult, exec: string -> string)
    requires Keyed(st.server.clients)
    requires forall p :: pass <= p < pass + count ==> !Closes(Client(k), ready, recv(p, k))
    decreases count
    ensures StaysLive(st.server, Passes(v, st, count, ready, pass, recv, exec).server, k)
  {
    if count > 0 {
      var p := Pass(v, st, ready, pass, recv, exec);
      PassKeepsLive(v, st, k, ready, pass, recv, exec);
      PassKeepsKeyed(v, st, ready, pass, recv, exec);
      PassesKeepLive(v, p, count - 1, k, ready, pass + 1, recv, exec);
      StaysLiveTransitive(st.server, p.server, Passes(v, p, count - 1, ready, pass + 1, recv, exec).server, k);
    }
  }

  /**
    A round that accepts a descriptor not waiting in the erasure queue leaves
    it open and registered, unless its peer closes during the round.
   */
  lemma AcceptedStaysRegistered(v: Variant, s: Server, ready: set<int>, n: int, newSock: int,
                                recv: (nat, int) -> RecvResult, exec: string -> string)
    requires Keyed(s.clients) && s.listenSock in ready && n >= 0
    requires newSock !in Elems(s.toClear)
    requires forall p :: 0 <= p < n ==> !Closes(Client(newSock), ready, recv(p, newSock))
    ensures var t := Round(v, s, ready, n, newSock, recv, exec);
      t.Continued? && newSock in t.server.clients && newSock in t.server.open
  {
    var s1 := Accept(s, newSock);
    var count := if n - 1 > 0 then n - 1 else 0;
    PassesKeepLive(v, Scan(s1, [], Blank(), true), count, newSock, ready, 0, recv, exec);
  }

  /** A pass that starts with a live client still queued for erasure erases it, though it stays open. */
  lemma QueuedLiveIsDropped(v: Variant, st: Scan, k: int, ready: set<int>, pass: nat,
                            recv: (nat, int) -> RecvResult, exec: string -> string)
    requires Keyed(st.server.clients) && k in st.server.open && k in st.server.toClear
    requires !Closes(Client(k), ready, recv(pass, k))
    ensures var p := Pass(v, st, ready, pass, recv, exec).server;
      k in p.open && k !in p.clients && Keyed(p.clients)
  {
    PassKeepsLive(v, st, k, ready, pass, recv, exec);
    PassKeepsKeyed(v, st, ready, pass, recv, exec);
    QueuedAreErased(ScanKeys(v, st, SortedKeys(st.server.clients.Keys), ready, pass, recv, exec).server, k);
  }

  /**
    Passes that start with a live client still queued for erasure leave it
    open but no longer a client, so none of them after the first serves it.
   */
  lemma QueuedLiveStaysDropped(v: Variant, st: Scan, count: nat, k: int, ready: set<int>, pass: nat,
                               recv: (nat, int) -> RecvResult, exec: string -> string)
    requires Keyed(st.server.clients) && k in st.server.open && k in st.server.toClear && count >= 1
    requires forall p :: pass <= p < pass + count ==> !Closes(Client(k), ready, recv(p, k))
    ensures var r := Passes(v, st, count, ready, pass, recv, exec).server;
      k in r.open && k !in r.clients
  {
    QueuedLiveIsDropped(v, st, k, ready, pass, recv, exec);
    var p := Pass(v, st, ready, pass, recv, exec);
    ErasedNeverServed(v, p, count - 1, k, ready, pass + 1, recv, exec);
    PassesKeepLive(v, p, count - 1, k, ready, pass + 1, recv, exec);
  }

  /** The passes after accepting a descriptor that is still queued for erasure. */
  lemma AcceptedQueuedIsDropped(v: Variant, s: Server, count: nat, newSock: int, ready: set<int>,
                                recv: (nat, int) -> RecvResult, exec: string -> string)
    requires Keyed(s.clients) && newSock in s.toClear && count >= 1
    requires forall p :: 0 <= p < count ==> !Closes(Client(newSock), ready, recv(p, newSock))
    ensures var r := Passes(v, Scan(Accept(s, newSock), [], Blank(), true), count, ready, 0, recv, exec).server;
      newSock in r.open && newSock !in r.clients
  {
    QueuedLiveStaysDropped(v, Scan(Accept(s, newSock), [], Blank(), true), count, newSock, ready, 0, recv, exec);
  }

  /**
    A round that accepts a descriptor still waiting in the erasure queue
    erases it after the first scan although it stays open: the new client is
    never served again, though its peer has not closed. Only the loop as
    written reaches such a state, because only it keeps the queue between
    rounds (see `ReuseIsReachable`); the corrected loop starts every round
    with the queue empty (`RoundKeepsInv`).
   */
  lemma ReusedDescriptorDropped(v: Variant, s: Server, ready: set<int>, n: int, newSock: int,
                                recv: (nat, int) -> RecvResult, exec: string -> string)
    requires Keyed(s.clients) && s.listenSock in ready && n >= 2
    requires newSock in s.toClear
    requires forall p :: 0 <= p < n ==> !Closes(Client(newSock), ready, recv(p, newSock))
    ensures var t := Round(v, s, ready, n, newSock, recv, exec);
      t.Continued? && newSock in t.server.open && newSock !in t.server.clients
  {
    AcceptedQueuedIsDropped(v, s, n - 1, newSock, ready, recv, exec);
  }

  /**
    As written, a receive that fails leaves the buffer as the author's message
    left it: that message is handled a second time, so its command runs again,
    and what that run prints is sent to the client whose receive failed. `exec`
    is one function for the whole round, so here both runs print the same text.
    (Not by induction; automatic induction on `bytes` only slows the proof.)
   */
  lemma {:induction false} FailedReceiveRepliesWithOther(st: Scan, author: Client, failing: Client, ready: set<int>,
                                                         bytes: string, exec: string -> string)
    requires author.sock in ready && failing.sock in ready
    requires bytes != [] && NUL !in bytes && |bytes| < BufferSize
    requires forall i :: |bytes| <= i < BufferSize ==> st.buffer[i] == NUL
    ensures var mid := Visit(AsWritten, st, author, ready, Received(bytes), exec);
      var o := Respond(Tokenize(bytes), bytes, exec);
      Visit(AsWritten, mid, failing, ready, Failed, exec).sent == st.sent + Sent(author.sock, o) + Sent(failing.sock, o)
  {
    var buf := ReceiveAsWritten(st.buffer, bytes);
    var rest := st.buffer[|bytes| + 1..];
    assert buf == bytes + [NUL] + rest;
    CStringOfTerminated(bytes, rest);
    assert Sent(author.sock, ClientCommand(buf, exec)) == Sent(author.sock, Respond(Tokenize(bytes), bytes, exec));
    assert Sent(failing.sock, ClientCommand(buf, exec)) == Sent(failing.sock, Respond(Tokenize(bytes), bytes, exec));
  }

  /** As written, a delivery that fills the buffer makes the rest of the round undefined. */
  lemma FullMessageIsUndefined(st: Scan, c: Client, ready: set<int>, bytes: string,
                                                    exec: string -> string)
    requires c.sock in ready && |bytes| >= BufferSize && NUL !in bytes
    ensures !Visit(AsWritten, st, c, ready, Received(bytes), exec).defined
    ensures Visit(Corrected, st, c, ready, Received(bytes), exec).defined == st.defined
  {
    FullMessageUnterminated(st.buffer, bytes, exec);
  }
}
