/**
  The bookkeeping `main` and `closeClient` keep about connections: the set of
  open sockets handed to `select`, the `clients` map, the `maxfds` bound passed
  to `select`, and the list of sockets to erase from `clients` after a scan.
  The system calls themselves (`accept`, `close`, `select`) are outside the
  model; the descriptor `accept` returns is a parameter.
 */
module Registry {

  /** What the server keeps per connection: its socket. */
  datatype Client = Client(sock: int)

  datatype Server = Server(
    listenSock: int,            // the listening socket
    open: set<int>,             // `openSockets`
    clients: map<int, Client>,  // `clients`, keyed by socket
    maxfds: int,                // bound passed to `select`
    toClear: seq<int>)          // `clientSocketsToClear`

  function Max(a: int, b: int): int {
    if a < b then b else a
  }

  /** The elements of a sequence, as a set. */
  function Elems(xs: seq<int>): set<int> {
    set i | 0 <= i < |xs| :: xs[i]
  }

  lemma ElemsAppend(xs: seq<int>, x: int)
    ensures Elems(xs + [x]) == Elems(xs) + {x}
  {
    var ys := xs + [x];
    assert ys[|xs|] == x;
    forall k | k in Elems(xs)
      ensures k in Elems(ys)
    {
      var i :| 0 <= i < |xs| && xs[i] == k;
      assert ys[i] == k;
    }
  }

  /** Every client is filed under its own socket. */
  predicate Keyed(clients: map<int, Client>) {
    forall k :: k in clients ==> clients[k].sock == k
  }

  /**
    What every step keeps, the erase loop as written included: the listening
    socket is open and is not a client, clients are filed under their
    sockets, and `maxfds` bounds every open socket and every client.
   */
  predicate Consistent(s: Server) {
    && s.listenSock in s.open
    && s.listenSock !in s.clients
    && Keyed(s.clients)
    && (forall k :: k in s.open ==> k <= s.maxfds)
    && (forall k :: k in s.clients ==> k <= s.maxfds)
  }

  /**
    The stronger consistency the corrected erase loop keeps between steps:
    every queued socket is still a client, and the open sockets are the
    listening socket and the clients not yet queued.
   */
  predicate Inv(s: Server) {
    && Consistent(s)
    && (forall i :: 0 <= i < |s.toClear| ==> s.toClear[i] in s.clients)
    && s.open == {s.listenSock} + (s.clients.Keys - Elems(s.toClear))
  }

  /** The state once the listening socket is set up: it is the only open socket and the bound. */
  function Start(listenSock: int): (s: Server)
    ensures Inv(s)
    ensures s.open == {listenSock} && s.clients == map[] && s.toClear == []
  {
    Server(listenSock, {listenSock}, map[], listenSock, [])
  }

  /** The smallest element of a non-empty set. */
  function Least(ks: set<int>): (m: int)
    requires ks != {}
    ensures m in ks && forall k :: k in ks ==> m <= k
  {
    LeastExists(ks);
    var m :| m in ks && forall k :: k in ks ==> m <= k;
    m
  }

  /** Some element of a non-empty set. */
  lemma SomeElement(ks: set<int>) returns (x: int)
    requires ks != {}
    ensures x in ks
  {
    if forall k :: k !in ks {
      assert false;
    }
    x :| x in ks;
  }

  lemma {:induction false} LeastExists(ks: set<int>)
    requires ks != {}
    ensures exists m :: m in ks && forall k :: k in ks ==> m <= k
    decreases |ks|
  {
    var x := SomeElement(ks);
    if ks - {x} != {} {
      LeastExists(ks - {x});
      var m :| m in ks - {x} && forall k :: k in ks - {x} ==> m <= k;
      var least := if x < m then x else m;
      forall k | k in ks
        ensures least <= k
      {
        if k != x {
          assert k in ks - {x};
        }
      }
    } else {
      assert ks == {x};
    }
  }

  /** The keys of a map in the order a `std::map` visits them: ascending, each once. */
  function SortedKeys(ks: set<int>): (r: seq<int>)
    decreases |ks|
    ensures forall k :: k in r <==> k in ks
  {
    if ks == {} then []
    else
      var m := Least(ks);
      [m] + SortedKeys(ks - {m})
  }

  /** Strictly ascending, so no element twice. */
  predicate Ascending(xs: seq<int>) {
    forall i, j :: 0 <= i < j < |xs| ==> xs[i] < xs[j]
  }

  /** `SortedKeys` lists the keys in strictly ascending order, so each key once. */
  lemma {:induction false} SortedKeysAscending(ks: set<int>)
    decreases |ks|
    ensures Ascending(SortedKeys(ks))
  {
    if ks != {} {
      var m := Least(ks);
      SortedKeysAscending(ks - {m});
      var r := SortedKeys(ks);
      var rest := SortedKeys(ks - {m});
      assert r == [m] + rest;
      forall i, j | 0 <= i < j < |r|
        ensures r[i] < r[j]
      {
        if i == 0 {
          assert rest[j - 1] in rest;
          assert r[j] in ks - {m};
        } else {
          assert r[i] == rest[i - 1] && r[j] == rest[j - 1];
        }
      }
    }
  }

  /** The sockets of the clients stored under `keys`, in that order. */
  function SocksOf(clients: map<int, Client>, keys: seq<int>): (r: seq<int>)
    requires forall i :: 0 <= i < |keys| ==> keys[i] in clients
    ensures |r| == |keys|
    ensures forall i :: 0 <= i < |r| ==> r[i] == clients[keys[i]].sock
  {
    if keys == [] then [] else [clients[keys[0]].sock] + SocksOf(clients, keys[1..])
  }

  /** When `keys` lists every key, every client's socket is among `SocksOf`. */
  lemma SocksOfAllClients(clients: map<int, Client>, keys: seq<int>)
    requires forall i :: 0 <= i < |keys| ==> keys[i] in clients
    requires forall k :: k in clients ==> k in keys
    ensures forall k :: k in clients ==> clients[k].sock in SocksOf(clients, keys)
  {
    forall k | k in clients
      ensures clients[k].sock in SocksOf(clients, keys)
    {
      var i :| 0 <= i < |keys| && keys[i] == k;
      assert SocksOf(clients, keys)[i] == clients[k].sock;
    }
  }

  /** `acc := max(acc, x)` for every `x` of `xs` in turn. */
  function FoldMax(acc: int, xs: seq<int>): (r: int)
    decreases |xs|
    ensures r >= acc
    ensures forall i :: 0 <= i < |xs| ==> xs[i] <= r
    ensures r == acc || r in xs
  {
    if xs == [] then acc else FoldMax(Max(acc, xs[0]), xs[1..])
  }

  /**
    A new connection on `sock`: it joins the open sockets and the clients, and
    the bound rises to cover it. Nothing else changes.
   */
  function Accept(s: Server, sock: int): (t: Server)
    ensures t.open == s.open + {sock}
    ensures t.clients.Keys == s.clients.Keys + {sock} && t.clients[sock] == Client(sock)
    ensures forall k :: k in s.clients && k != sock ==> t.clients[k] == s.clients[k]
    ensures s.maxfds <= t.maxfds && sock <= t.maxfds
    ensures t.maxfds == s.maxfds || t.maxfds == sock
    ensures t.listenSock == s.listenSock && t.toClear == s.toClear
  {
    s.(open := s.open + {sock},
       maxfds := Max(s.maxfds, sock),
       clients := s.clients[sock := Client(sock)])
  }

  /**
    `closeClient`: `sock` leaves the open sockets, and when it was the bound the
    bound is folded with `max` over every client still in the map, starting
    from its current value. The clients map itself is left alone.
   */
  function Close(s: Server, sock: int): (t: Server)
    ensures t.open == s.open - {sock}
    ensures t.clients == s.clients && t.toClear == s.toClear && t.listenSock == s.listenSock
    ensures t.maxfds >= s.maxfds
    ensures s.maxfds == sock ==> forall k :: k in s.clients ==> s.clients[k].sock <= t.maxfds
  {
    var keys := SortedKeys(s.clients.Keys);
    var bound := if s.maxfds == sock then FoldMax(s.maxfds, SocksOf(s.clients, keys)) else s.maxfds;
    SocksOfAllClients(s.clients, keys);
    s.(open := s.open - {sock}, maxfds := bound)
  }

  /** A peer that closed: `closeClient`, then the socket is queued for erasure. */
  function Disconnect(s: Server, sock: int): (t: Server)
    ensures t.open == s.open - {sock}
    ensures t.clients == s.clients && t.listenSock == s.listenSock
    ensures t.toClear == s.toClear + [sock]
    ensures t.maxfds >= s.maxfds
  {
    var c := Close(s, sock);
    c.(toClear := c.toClear + [sock])
  }

  /** `m.erase(k)` for every `k` of `ks` in turn. */
  function EraseAll(m: map<int, Client>, ks: seq<int>): (r: map<int, Client>)
    ensures r.Keys == m.Keys - Elems(ks)
    ensures forall k :: k in r ==> r[k] == m[k]
  {
    if ks == [] then m
    else
      var r := EraseAll(m - {ks[0]}, ks[1..]);
      assert Elems(ks) == {ks[0]} + Elems(ks[1..]);
      r
  }

  /** The erase loop as written: every queued socket is erased, and the queue is kept. */
  function CommitAsWritten(s: Server): (t: Server)
    ensures forall i :: 0 <= i < |s.toClear| ==> s.toClear[i] !in t.clients
    ensures forall k :: k in s.clients && k !in Elems(s.toClear) ==> k in t.clients && t.clients[k] == s.clients[k]
    ensures forall k :: k in t.clients ==> k in s.clients && t.clients[k] == s.clients[k]
    ensures t.open == s.open && t.maxfds == s.maxfds && t.toClear == s.toClear && t.listenSock == s.listenSock
  {
    s.(clients := EraseAll(s.clients, s.toClear))
  }

  /** The erase loop followed by emptying the queue, so that each socket is erased once. */
  function CommitRemovals(s: Server): (t: Server)
    ensures forall i :: 0 <= i < |s.toClear| ==> s.toClear[i] !in t.clients
    ensures forall k :: k in s.clients && k !in Elems(s.toClear) ==> k in t.clients && t.clients[k] == s.clients[k]
    ensures forall k :: k in t.clients ==> k in s.clients && t.clients[k] == s.clients[k]
    ensures t.toClear == []
    ensures t.open == s.open && t.maxfds == s.maxfds && t.listenSock == s.listenSock
  {
    s.(clients := EraseAll(s.clients, s.toClear), toClear := [])
  }

  /** Both erase loops remove every queued socket from the clients and leave the open sockets alone. */
  lemma QueuedAreErased(s: Server, k: int)
    requires k in s.toClear
    ensures k !in CommitAsWritten(s).clients && k !in CommitRemovals(s).clients
  {
    var j :| 0 <= j < |s.toClear| && s.toClear[j] == k;
  }

  /** Erasing keys that are already absent leaves the map as it was. */
  lemma EraseAbsentIsNoop(m: map<int, Client>, ks: seq<int>)
    requires forall i :: 0 <= i < |ks| ==> ks[i] !in m
    ensures EraseAll(m, ks) == m
  {
    assert EraseAll(m, ks).Keys == m.Keys;
  }

  /** Running the erase loop as written a second time changes nothing. */
  lemma CommitAsWrittenIdempotent(s: Server)
    ensures CommitAsWritten(CommitAsWritten(s)) == CommitAsWritten(s)
  {
    var t := CommitAsWritten(s);
    EraseAbsentIsNoop(t.clients, t.toClear);
  }

  /** Accepting any descriptor other than the listening socket keeps the weaker consistency, as written. */
  lemma AcceptKeepsConsistent(s: Server, sock: int)
    requires Consistent(s) && sock != s.listenSock
    ensures Consistent(Accept(s, sock))
  {
  }

  /** So does the disconnect of any socket other than the listening one, `closeClient` included. */
  lemma DisconnectKeepsConsistent(s: Server, sock: int)
    requires Consistent(s) && sock != s.listenSock
    ensures Consistent(Disconnect(s, sock))
  {
  }

  /** So do both erase loops: the one as written, which keeps the queue, and the corrected one. */
  lemma CommitKeepsConsistent(s: Server)
    requires Consistent(s)
    ensures Consistent(CommitAsWritten(s)) && Consistent(CommitRemovals(s))
  {
  }

  /** Accepting a descriptor the kernel has free keeps the bookkeeping consistent. */
  lemma AcceptKeepsInv(s: Server, sock: int)
    requires Inv(s) && s.toClear == [] && sock !in s.open
    ensures Inv(Accept(s, sock))
  {
    var t := Accept(s, sock);
    assert Elems(t.toClear) == {};
  }

  /** Disconnecting a registered, not yet queued client keeps the bookkeeping consistent. */
  lemma DisconnectKeepsInv(s: Server, sock: int)
    requires Inv(s) && sock in s.clients && sock !in Elems(s.toClear)
    ensures Inv(Disconnect(s, sock))
  {
    var t := Disconnect(s, sock);
    ElemsAppend(s.toClear, sock);
  }

  /** After the commit the clients are exactly the open sockets other than the listening one. */
  lemma CommitRemovalsKeepsInv(s: Server)
    requires Inv(s)
    ensures Inv(CommitRemovals(s))
    ensures CommitRemovals(s).clients.Keys == s.open - {s.listenSock}
  {
    var t := CommitRemovals(s);
    assert Elems(t.toClear) == {};
  }

  /** In a consistent state the recomputation in `closeClient` never moves the bound. */
  lemma CloseKeepsMaxfds(s: Server, sock: int)
    requires Consistent(s)
    ensures Close(s, sock).maxfds == s.maxfds
  {
    if s.maxfds == sock {
      var keys := SortedKeys(s.clients.Keys);
      var socks := SocksOf(s.clients, keys);
      forall i | 0 <= i < |socks|
        ensures socks[i] <= s.maxfds
      {
        assert keys[i] in s.clients;
      }
    }
  }

  /**
    `maxfds` only bounds the open sockets: after the client holding it leaves,
    the bound stays where it was although every open socket is now below it.
   */
  lemma MaxfdsIsOnlyAnUpperBound()
    ensures var s := CommitAsWritten(Disconnect(Accept(Start(3), 5), 5));
      s.open == {3} && s.maxfds == 5
  {
  }

  /**
    With the queue kept as written, a descriptor that was erased before and is
    handed out again by `accept` is erased by the next commit, while it is
    still open: the client disappears from `clients` but not from `select`.
   */
  lemma ReusedDescriptorErased(s: Server, sock: int)
    requires sock in Elems(s.toClear)
    ensures var t := CommitAsWritten(Accept(s, sock));
      sock in t.open && sock !in t.clients
  {
  }

  /** Such a state is reached: client 4 leaves, its erasure stays queued, and 4 is free again. */
  lemma ReuseIsReachable()
    ensures var s := CommitAsWritten(Disconnect(Accept(Start(3), 4), 4));
      4 in Elems(s.toClear) && 4 !in s.open && 4 !in s.clients
  {
    var s := CommitAsWritten(Disconnect(Accept(Start(3), 4), 4));
    assert s.toClear == [4];
    assert s.toClear[0] == 4;
  }

  /** With the queue emptied, a re-used descriptor stays registered after the next commit. */
  lemma ReusedDescriptorKept(s: Server, sock: int)
    requires Inv(s) && sock !in s.open
    ensures var t := CommitRemovals(Accept(CommitRemovals(s), sock));
      sock in t.open && sock in t.clients
  {
    CommitRemovalsKeepsInv(s);
    AcceptKeepsInv(CommitRemovals(s), sock);
    CommitRemovalsKeepsInv(Accept(CommitRemovals(s), sock));
  }
}
