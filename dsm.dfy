/**
 * Coordinator-based distributed shared memory node (lab8/lab8.cpp).
 *
 * Every node keeps a vector of integer cells, each with a set of subscriber
 * ranks.  Node 0 is the coordinator: clients apply their updates locally and
 * send them to node 0, whose listener applies them and forwards the same
 * message to the subscribers of the cell.  Transport is reduced to "append a
 * packet to an outbox"; the listener is a pure step function over the node's
 * state, and the class `Dsm` runs it over an inbox of received messages.
 */
module SharedMemory {

  // The status codes that open every message on the wire.
  const CLOSE_CONNECTION := 0
  const WRITE_VALUE := 1
  const COMPARE_AND_EXCHANGE := 2
  const REGISTER_SUBSCRIBER := 3
  const NEW_SUBSCRIBER := 4
  const REMOVE_SUBSCRIBER := 5

  datatype Msg =
    | Close
    | Write(index: int, value: int)
    | Cas(index: int, newValue: int, expected: int)
    | Register(index: int, subscriber: int)
    | NewSub(index: int, subscriber: int)
    | Unknown(code: int)

  /**
   * A message as the listener's `switch` sees it: `Unknown` stands only for
   * the codes that fall through to `default`, never for one of the five
   * codes the listener handles.
   */
  predicate WellFormed(m: Msg)
  {
    m.Unknown? ==> m.code < CLOSE_CONNECTION || m.code > NEW_SUBSCRIBER
  }

  /** The status code a message is announced with. */
  function Code(m: Msg): (c: int)
    ensures m.Close? ==> c == CLOSE_CONNECTION
    ensures m.Write? ==> c == WRITE_VALUE
    ensures m.Cas? ==> c == COMPARE_AND_EXCHANGE
    ensures m.Register? ==> c == REGISTER_SUBSCRIBER
    ensures m.NewSub? ==> c == NEW_SUBSCRIBER
    ensures m.Unknown? ==> c == m.code
    ensures WellFormed(m) ==> (m.Unknown? <==> !(CLOSE_CONNECTION <= c <= NEW_SUBSCRIBER))
  {
    match m
    case Close => CLOSE_CONNECTION
    case Write(_, _) => WRITE_VALUE
    case Cas(_, _, _) => COMPARE_AND_EXCHANGE
    case Register(_, _) => REGISTER_SUBSCRIBER
    case NewSub(_, _) => NEW_SUBSCRIBER
    case Unknown(code) => code
  }

  /** How many integers follow a status code on the wire (tags 2, 3 and 4). */
  function Arity(code: int): (n: nat)
    ensures n <= 3
  {
    if code == WRITE_VALUE || code == REGISTER_SUBSCRIBER || code == NEW_SUBSCRIBER then 2
    else if code == COMPARE_AND_EXCHANGE then 3
    else 0
  }

  /** The integers sent after the status code, in tag order. */
  function Payload(m: Msg): (p: seq<int>)
    ensures WellFormed(m) ==> |p| == Arity(Code(m))
  {
    match m
    case Close => []
    case Write(i, v) => [i, v]
    case Cas(i, newValue, expected) => [i, newValue, expected]
    case Register(i, node) => [i, node]
    case NewSub(i, node) => [i, node]
    case Unknown(_) => []
  }

  /**
   * The listener's `switch` on a received status code, followed by the
   * receives of that code's payload.
   */
  function Decode(code: int, payload: seq<int>): (m: Msg)
    requires |payload| == Arity(code)
    ensures WellFormed(m) && Code(m) == code && Payload(m) == payload
  {
    if code == CLOSE_CONNECTION then Close
    else if code == WRITE_VALUE then Write(payload[0], payload[1])
    else if code == COMPARE_AND_EXCHANGE then Cas(payload[0], payload[1], payload[2])
    else if code == REGISTER_SUBSCRIBER then Register(payload[0], payload[1])
    else if code == NEW_SUBSCRIBER then NewSub(payload[0], payload[1])
    else Unknown(code)
  }

  /** What a sender puts on the wire is what the listener reads back. */
  lemma DecodeEncode(m: Msg)
    requires WellFormed(m)
    ensures Decode(Code(m), Payload(m)) == m
  {
  }

  /** A message addressed to one rank. */
  datatype Packet = Packet(dest: int, msg: Msg)

  /** The abstract value of one `SharedVariable`. */
  datatype Cell = Cell(value: int, subscribers: set<int>)

  /**
   * What one node's listener works on: the node's identity, its cells, and
   * the listener's own counters (`closed_connections`, `connection_closed`).
   */
  datatype NodeState = NodeState(rank: int, size: int, cells: seq<Cell>,
                                 closedConnections: int, connectionClosed: bool)

  // ---------------------------------------------------------------------------
  // Ordered sets and broadcasts

  lemma HasElement(s: set<int>)
    requires s != {}
    ensures exists x :: x in s
  {
    if forall x :: x !in s { assert false; }
  }

  predicate IsLeast(m: int, s: set<int>)
  {
    m in s && forall y :: y in s ==> m <= y
  }

  lemma {:induction false} LeastExists(s: set<int>)
    requires s != {}
    ensures exists m :: IsLeast(m, s)
    decreases |s|
  {
    HasElement(s);
    var x :| x in s;
    var t := s - {x};
    if t == {} {
      forall y | y in s ensures x <= y { assert y == x || y in t; }
      assert IsLeast(x, s);
    } else {
      LeastExists(t);
      var r :| IsLeast(r, t);
      var m := if x < r then x else r;
      forall y | y in s ensures m <= y { if y != x { assert y in t; } }
      assert IsLeast(m, s);
    }
  }

  ghost function MinOf(s: set<int>): (m: int)
    requires s != {}
    ensures IsLeast(m, s)
  {
    LeastExists(s);
    var m :| IsLeast(m, s);
    m
  }

  predicate StrictlyAscending(s: seq<int>)
  {
    forall i, j :: 0 <= i < j < |s| ==> s[i] < s[j]
  }

  /** The elements of a set in ascending order, as `std::set` iterates them. */
  ghost function Ascending(s: set<int>): (r: seq<int>)
    ensures |r| == |s|
    decreases |s|
  {
    if s == {} then []
    else
      var m := MinOf(s);
      assert |s - {m}| == |s| - 1;
      [m] + Ascending(s - {m})
  }

  /** `Ascending(s)` lists exactly the elements of `s`, each once, smallest first. */
  lemma {:induction false} AscendingLists(s: set<int>)
    ensures forall x :: x in Ascending(s) <==> x in s
    ensures StrictlyAscending(Ascending(s))
    decreases |s|
  {
    if s != {} {
      var m := MinOf(s);
      assert |s - {m}| == |s| - 1;
      AscendingLists(s - {m});
      var rest := Ascending(s - {m});
      assert Ascending(s) == [m] + rest;
      forall j | 0 <= j < |rest| ensures m < rest[j] {
        assert rest[j] in rest;
      }
    }
  }

  lemma AscendingUnfold(s: set<int>, m: int)
    requires IsLeast(m, s)
    ensures Ascending(s) == [m] + Ascending(s - {m})
    ensures |s - {m}| < |s|
  {
    var least := MinOf(s);
    assert m <= least && least <= m;
  }

  /** The ranks lo, lo+1, ..., hi-1. */
  function Range(lo: int, hi: int): (r: seq<int>)
    ensures |r| == if lo < hi then hi - lo else 0
    ensures forall k :: 0 <= k < |r| ==> r[k] == lo + k
  {
    if hi <= lo then [] else seq(hi - lo, k => lo + k)
  }

  /** One copy of `m` for every destination, in order. */
  function Broadcast(dests: seq<int>, m: Msg): (r: seq<Packet>)
    ensures |r| == |dests|
    ensures forall k :: 0 <= k < |r| ==> r[k] == Packet(dests[k], m)
  {
    seq(|dests|, k requires 0 <= k < |dests| => Packet(dests[k], m))
  }

  /** The elements of a subscriber set, smallest first. */
  method Ordered(subs: set<int>) returns (order: seq<int>)
    ensures order == Ascending(subs)
  {
    order := [];
    var remaining := subs;
    while remaining != {}
      invariant Ascending(subs) == order + Ascending(remaining)
      decreases |remaining|
    {
      LeastExists(remaining);
      var m :| IsLeast(m, remaining);
      AscendingUnfold(remaining, m);
      assert order + Ascending(remaining) == (order + [m]) + Ascending(remaining - {m});
      order := order + [m];
      remaining := remaining - {m};
    }
  }

  /** Send `m` to every rank in `dests`, in order. */
  method SendAll(dests: seq<int>, m: Msg) returns (sent: seq<Packet>)
    ensures sent == Broadcast(dests, m)
  {
    sent := [];
    var k := 0;
    while k < |dests|
      invariant 0 <= k <= |dests|
      invariant sent == Broadcast(dests[..k], m)
    {
      sent := sent + [Packet(dests[k], m)];
      k := k + 1;
    }
    assert dests[..k] == dests;
  }

  // ---------------------------------------------------------------------------
  // Local cell updates (SharedVariable::writeValue, compareAndExchange,
  // addSubscriber, applied to cell i of a node)

  function WriteLocal(cells: seq<Cell>, i: int, v: int): (r: seq<Cell>)
    requires 0 <= i < |cells|
    ensures |r| == |cells|
    ensures r[i].value == v && r[i].subscribers == cells[i].subscribers
    ensures forall j :: 0 <= j < |r| && j != i ==> r[j] == cells[j]
  {
    cells[i := Cell(v, cells[i].subscribers)]
  }

  function CasLocal(cells: seq<Cell>, i: int, newValue: int, expected: int): (r: seq<Cell>)
    requires 0 <= i < |cells|
    ensures |r| == |cells|
    ensures cells[i].value == expected ==> r[i] == Cell(newValue, cells[i].subscribers)
    ensures cells[i].value != expected ==> r == cells
    ensures forall j :: 0 <= j < |r| && j != i ==> r[j] == cells[j]
  {
    if cells[i].value == expected then cells[i := Cell(newValue, cells[i].subscribers)] else cells
  }

  function AddSubLocal(cells: seq<Cell>, i: int, node: int): (r: seq<Cell>)
    requires 0 <= i < |cells|
    ensures |r| == |cells|
    ensures r[i].value == cells[i].value && r[i].subscribers == cells[i].subscribers + {node}
    ensures forall j :: 0 <= j < |r| && j != i ==> r[j] == cells[j]
  {
    cells[i := Cell(cells[i].value, cells[i].subscribers + {node})]
  }

  // ---------------------------------------------------------------------------
  // The listener as a step function (DSM::listenForChanges)

  /**
   * The listener indexes the cell vector without a bounds check on WRITE_VALUE
   * and COMPARE_AND_EXCHANGE, and on REGISTER_SUBSCRIBER as soon as its loop
   * over the other nodes runs once. An `Unknown` message carries a code
   * outside the five the listener handles.
   */
  predicate InRange(size: int, count: int, m: Msg)
  {
    match m
    case Write(i, _) => 0 <= i < count
    case Cas(i, _, _) => 0 <= i < count
    case Register(i, _) => size <= 1 || 0 <= i < count
    case Unknown(_) => WellFormed(m)
    case _ => true
  }

  /** One iteration of the listener's receive loop. */
  ghost function Step(s: NodeState, m: Msg): (r: (NodeState, seq<Packet>))
    requires InRange(s.size, |s.cells|, m)
    ensures r.0.rank == s.rank && r.0.size == s.size && |r.0.cells| == |s.cells|
  {
    match m
    case Close =>
      var c := s.closedConnections + 1;
      if s.rank == 0 then
        if c == s.size - 1 then
          (s.(closedConnections := c, connectionClosed := true), Broadcast(Range(1, s.size), Close))
        else
          (s.(closedConnections := c), [])
      else
        (s.(closedConnections := c, connectionClosed := true), [])
    case Write(i, v) =>
      var cells := WriteLocal(s.cells, i, v);
      (s.(cells := cells),
       if s.rank == 0 then Broadcast(Ascending(cells[i].subscribers), m) else [])
    case Cas(i, newValue, expected) =>
      var cells := CasLocal(s.cells, i, newValue, expected);
      (s.(cells := cells),
       if s.rank == 0 then Broadcast(Ascending(cells[i].subscribers), m) else [])
    case NewSub(i, node) =>
      if 0 <= i < |s.cells| then (s.(cells := AddSubLocal(s.cells, i, node)), []) else (s, [])
    case Register(i, node) =>
      if s.size > 1 then
        (s.(cells := AddSubLocal(s.cells, i, node)), Broadcast(Range(1, s.size), NewSub(i, node)))
      else
        (s, [])
    case Unknown(_) =>
      (s.(connectionClosed := true), [])
  }

  predicate AllInRange(size: int, count: int, msgs: seq<Msg>)
  {
    forall k :: 0 <= k < |msgs| ==> InRange(size, count, msgs[k])
  }

  /**
   * The listener run over the messages `msgs`, received in that order: once the
   * connection is closed the loop has exited and later messages are not read.
   */
  ghost function Run(s: NodeState, msgs: seq<Msg>): (r: (NodeState, seq<Packet>))
    requires AllInRange(s.size, |s.cells|, msgs)
    ensures r.0.rank == s.rank && r.0.size == s.size && |r.0.cells| == |s.cells|
    ensures s.connectionClosed ==> r == (s, [])
    decreases |msgs|
  {
    if msgs == [] then (s, [])
    else
      var prev := Run(s, msgs[..|msgs| - 1]);
      if prev.0.connectionClosed then prev
      else
        var next := Step(prev.0, msgs[|msgs| - 1]);
        (next.0, prev.1 + next.1)
  }

  /** A listener that has just started on a node. */
  function Started(rank: int, size: int, cells: seq<Cell>): NodeState
  {
    NodeState(rank, size, cells, 0, false)
  }

  function Closes(k: nat): (r: seq<Msg>)
    ensures |r| == k && forall j :: 0 <= j < k ==> r[j] == Close
  {
    seq(k, _ => Close)
  }

  // ---------------------------------------------------------------------------
  // Properties of the listener

  /**
   * Fan-out of WRITE_VALUE: the value is stored, and only the coordinator
   * forwards the identical message, once to each subscriber of the cell, in
   * ascending rank order.
   */
  lemma WriteFanOut(s: NodeState, i: int, v: int)
    requires 0 <= i < |s.cells|
    ensures var r := Step(s, Write(i, v));
      && r.0.cells[i] == Cell(v, s.cells[i].subscribers)
      && (forall j :: 0 <= j < |s.cells| && j != i ==> r.0.cells[j] == s.cells[j])
      && r.0.closedConnections == s.closedConnections && r.0.connectionClosed == s.connectionClosed
      && (s.rank != 0 ==> r.1 == [])
      && (s.rank == 0 ==>
            |r.1| == |s.cells[i].subscribers|
            && (forall p :: p in r.1 ==> p.msg == Write(i, v) && p.dest in s.cells[i].subscribers)
            && (forall d :: d in s.cells[i].subscribers ==> Packet(d, Write(i, v)) in r.1)
            && (forall a, b :: 0 <= a < b < |r.1| ==> r.1[a].dest < r.1[b].dest))
  {
    var r := Step(s, Write(i, v));
    if s.rank == 0 {
      var order := Ascending(s.cells[i].subscribers);
      AscendingLists(s.cells[i].subscribers);
      assert r.1 == Broadcast(order, Write(i, v));
      forall d | d in s.cells[i].subscribers ensures Packet(d, Write(i, v)) in r.1 {
        var k :| 0 <= k < |order| && order[k] == d;
        assert r.1[k] == Packet(d, Write(i, v));
      }
    }
  }

  /**
   * Fan-out of COMPARE_AND_EXCHANGE: the cell takes `newValue` exactly when it
   * held `expected`, and the coordinator forwards the same request (not its
   * outcome) to every subscriber in ascending order.
   */
  lemma CasFanOut(s: NodeState, i: int, newValue: int, expected: int)
    requires 0 <= i < |s.cells|
    ensures var r := Step(s, Cas(i, newValue, expected));
      && r.0.cells[i].value == (if s.cells[i].value == expected then newValue else s.cells[i].value)
      && r.0.cells[i].subscribers == s.cells[i].subscribers
      && (forall j :: 0 <= j < |s.cells| && j != i ==> r.0.cells[j] == s.cells[j])
      && (s.rank != 0 ==> r.1 == [])
      && (s.rank == 0 ==>
            |r.1| == |s.cells[i].subscribers|
            && (forall p :: p in r.1 ==> p.msg == Cas(i, newValue, expected) && p.dest in s.cells[i].subscribers)
            && (forall d :: d in s.cells[i].subscribers ==> Packet(d, Cas(i, newValue, expected)) in r.1)
            && (forall a, b :: 0 <= a < b < |r.1| ==> r.1[a].dest < r.1[b].dest))
  {
    var m := Cas(i, newValue, expected);
    var r := Step(s, m);
    if s.rank == 0 {
      var order := Ascending(r.0.cells[i].subscribers);
      AscendingLists(s.cells[i].subscribers);
      assert r.1 == Broadcast(order, m);
      forall d | d in s.cells[i].subscribers ensures Packet(d, m) in r.1 {
        var k :| 0 <= k < |order| && order[k] == d;
        assert r.1[k] == Packet(d, m);
      }
    }
  }

  /**
   * A forwarded write brings a replica to the coordinator's value, whatever
   * the replica held before.
   */
  lemma WriteForwardConverges(coord: NodeState, replica: NodeState, i: int, v: int)
    requires coord.rank == 0 && replica.rank != 0
    requires 0 <= i < |coord.cells| && 0 <= i < |replica.cells|
    ensures Step(coord, Write(i, v)).0.cells[i].value == Step(replica, Write(i, v)).0.cells[i].value
  {
  }

  /**
   * A forwarded compare-and-exchange does not carry the coordinator's outcome:
   * a replica whose cell differs from the coordinator's can keep a different
   * value after both have applied the same request.
   */
  lemma CasForwardMayDiverge()
    ensures var coord := NodeState(0, 2, [Cell(0, {1})], 0, false);
      var replica := NodeState(1, 2, [Cell(5, {1})], 0, false);
      var sent := Step(coord, Cas(0, 7, 0));
      && Packet(1, Cas(0, 7, 0)) in sent.1
      && sent.0.cells[0].value == 7
      && Step(replica, Cas(0, 7, 0)).0.cells[0].value == 5
  {
    var coord := NodeState(0, 2, [Cell(0, {1})], 0, false);
    assert Ascending({1}) == [1] by {
      assert MinOf({1}) == 1;
      assert {1} - {1} == {};
    }
    assert Step(coord, Cas(0, 7, 0)).1 == [Packet(1, Cas(0, 7, 0))];
  }

  /**
   * REGISTER_SUBSCRIBER records the subscriber and tells every node
   * 1..size-1 (the subscriber included) about it; with a single node the
   * loop never runs and nothing is recorded.
   */
  lemma RegisterBroadcast(s: NodeState, i: int, node: int)
    requires InRange(s.size, |s.cells|, Register(i, node))
    ensures var r := Step(s, Register(i, node));
      && (s.size <= 1 ==> r == (s, []))
      && (s.size > 1 ==>
            r.0.cells == AddSubLocal(s.cells, i, node)
            && |r.1| == s.size - 1
            && (forall k :: 0 <= k < |r.1| ==> r.1[k] == Packet(k + 1, NewSub(i, node))))
  {
  }

  /** NEW_SUBSCRIBER checks the index: out of range, nothing changes. */
  lemma NewSubChecked(s: NodeState, i: int, node: int)
    ensures var r := Step(s, NewSub(i, node));
      && r.1 == []
      && (0 <= i < |s.cells| ==> r.0.cells[i].subscribers == s.cells[i].subscribers + {node})
      && (!(0 <= i < |s.cells|) ==> r.0 == s)
  {
  }

  /** Any other status code, REMOVE_SUBSCRIBER included, ends the listener. */
  lemma UnknownTerminates(s: NodeState, code: int)
    requires code < CLOSE_CONNECTION || code > NEW_SUBSCRIBER
    ensures Step(s, Unknown(code)) == (s.(connectionClosed := true), [])
  {
  }

  lemma {:induction false} RunAppend(s: NodeState, msgs: seq<Msg>, m: Msg)
    requires AllInRange(s.size, |s.cells|, msgs + [m])
    ensures AllInRange(s.size, |s.cells|, msgs)
    ensures var prev := Run(s, msgs);
      Run(s, msgs + [m]) ==
        if prev.0.connectionClosed then prev
        else (Step(prev.0, m).0, prev.1 + Step(prev.0, m).1)
  {
    assert (msgs + [m])[..|msgs|] == msgs;
    forall k | 0 <= k < |msgs| ensures InRange(s.size, |s.cells|, msgs[k]) {
      assert msgs[k] == (msgs + [m])[k];
    }
  }

  /**
   * The coordinator's close quorum: after k CLOSE_CONNECTION messages the
   * coordinator has terminated iff k has reached size-1, which never happens
   * on a single node; the counter counts every message up to that point, and
   * the closing broadcast to nodes 1..size-1 is the only output.
   */
  lemma {:induction false} CoordinatorQuorum(size: int, cells: seq<Cell>, k: nat)
    ensures var quorum := size >= 2 && k >= size - 1;
      Run(Started(0, size, cells), Closes(k)) ==
        (NodeState(0, size, cells, if quorum then size - 1 else k, quorum),
         if quorum then Broadcast(Range(1, size), Close) else [])
  {
    if k > 0 {
      CoordinatorQuorum(size, cells, k - 1);
      assert Closes(k) == Closes(k - 1) + [Close];
      var prev := Run(Started(0, size, cells), Closes(k - 1));
      RunAppend(Started(0, size, cells), Closes(k - 1), Close);
      if !prev.0.connectionClosed {
        assert prev.0 == NodeState(0, size, cells, k - 1, false) && prev.1 == [];
        assert Step(prev.0, Close).1 == if size >= 2 && k == size - 1 then Broadcast(Range(1, size), Close) else [];
        assert Step(prev.0, Close).0 == NodeState(0, size, cells, k, size >= 2 && k == size - 1);
        assert prev.1 + Step(prev.0, Close).1 == Step(prev.0, Close).1;
      }
    }
  }

  /** Any node other than the coordinator stops at its first CLOSE_CONNECTION. */
  lemma {:induction false} ReplicaClosesOnFirst(rank: int, size: int, cells: seq<Cell>, k: nat)
    requires rank != 0
    ensures var r := Run(Started(rank, size, cells), Closes(k));
      && (r.0.connectionClosed <==> k >= 1)
      && r.0.closedConnections == (if k >= 1 then 1 else 0)
      && r.1 == []
  {
    if k > 0 {
      ReplicaClosesOnFirst(rank, size, cells, k - 1);
      assert Closes(k) == Closes(k - 1) + [Close];
      var s := Started(rank, size, cells);
      RunAppend(s, Closes(k - 1), Close);
      var prev := Run(s, Closes(k - 1));
      if k == 1 {
        assert prev == (s, []);
        assert Step(s, Close) == (s.(closedConnections := 1, connectionClosed := true), []);
      }
    }
  }

  // ---------------------------------------------------------------------------
  // Inspection (DSM::inspect)

  /** One line of `inspect`: index, value and subscribers in ascending order. */
  datatype Entry = Entry(index: int, value: int, subscribers: seq<int>)

  ghost function Visible(cells: seq<Cell>, rank: int, from: nat): (r: seq<Entry>)
    requires from <= |cells|
    decreases |cells| - from
  {
    if from == |cells| then []
    else
      var rest := Visible(cells, rank, from + 1);
      if rank in cells[from].subscribers || rank == 0 then
        [Entry(from, cells[from].value, Ascending(cells[from].subscribers))] + rest
      else rest
  }

  /** The entries of `v` describe visible cells at or after `from`, in cell order. */
  ghost predicate DescribesVisible(cells: seq<Cell>, rank: int, from: nat, v: seq<Entry>)
  {
    && (forall k :: 0 <= k < |v| ==>
          && from <= v[k].index < |cells|
          && (rank == 0 || rank in cells[v[k].index].subscribers)
          && v[k].value == cells[v[k].index].value
          && v[k].subscribers == Ascending(cells[v[k].index].subscribers))
    && (forall a, b :: 0 <= a < b < |v| ==> v[a].index < v[b].index)
  }

  /**
   * Every entry of `inspect` names a cell the node may see, with that cell's
   * value and its subscribers in ascending order, and the entries follow the
   * cell order.
   */
  lemma {:induction false} VisibleEntries(cells: seq<Cell>, rank: int, from: nat)
    requires from <= |cells|
    ensures DescribesVisible(cells, rank, from, Visible(cells, rank, from))
    decreases |cells| - from
  {
    if from < |cells| {
      VisibleEntries(cells, rank, from + 1);
      var rest := Visible(cells, rank, from + 1);
      var v := Visible(cells, rank, from);
      if rank in cells[from].subscribers || rank == 0 {
        var e := Entry(from, cells[from].value, Ascending(cells[from].subscribers));
        assert v == [e] + rest;
        forall a, b | 0 <= a < b < |v| ensures v[a].index < v[b].index {
          assert v[b] == rest[b - 1];
          if a > 0 {
            assert v[a] == rest[a - 1];
          }
        }
        forall k | 1 <= k < |v| ensures v[k] == rest[k - 1] {
        }
      } else {
        assert v == rest;
      }
    }
  }

  lemma VisibleAt(cells: seq<Cell>, rank: int, i: nat)
    requires i < |cells|
    ensures Visible(cells, rank, i) ==
      (if rank in cells[i].subscribers || rank == 0
       then [Entry(i, cells[i].value, Ascending(cells[i].subscribers))] else [])
      + Visible(cells, rank, i + 1)
  {
  }

  /** Every cell the node may see has an entry in `inspect`. */
  lemma {:induction false} VisibleComplete(cells: seq<Cell>, rank: int, from: nat, i: int)
    requires from <= i < |cells|
    requires rank == 0 || rank in cells[i].subscribers
    ensures exists k :: 0 <= k < |Visible(cells, rank, from)| && Visible(cells, rank, from)[k].index == i
    decreases |cells| - from
  {
    var v := Visible(cells, rank, from);
    if i == from {
      assert v[0].index == i;
    } else {
      VisibleComplete(cells, rank, from + 1, i);
      var rest := Visible(cells, rank, from + 1);
      var k :| 0 <= k < |rest| && rest[k].index == i;
      if rank in cells[from].subscribers || rank == 0 {
        assert v[k + 1] == rest[k];
      } else {
        assert v[k] == rest[k];
      }
    }
  }

  // ---------------------------------------------------------------------------
  // The objects

  class SharedVariable {
    var value: int
    var subscribers: set<int>

    constructor ()
      ensures value == 0 && subscribers == {}
    {
      value := 0;
      subscribers := {};
    }

    method GetValue() returns (v: int)
      ensures v == value
    {
      v := value;
    }

    method WriteValue(newValue: int)
      modifies this
      ensures value == newValue && subscribers == old(subscribers)
    {
      value := newValue;
    }

    /** compare_exchange_strong: store `newValue` iff the cell holds `expected`. */
    method CompareAndExchange(expected: int, newValue: int)
      modifies this
      ensures old(value) == expected ==> value == newValue
      ensures old(value) != expected ==> value == old(value)
      ensures subscribers == old(subscribers)
    {
      if value == expected {
        value := newValue;
      }
    }

    method AddSubscriber(node: int)
      modifies this
      ensures value == old(value) && subscribers == old(subscribers) + {node}
    {
      subscribers := subscribers + {node};
    }
  }

  class Dsm {
    var variables: seq<SharedVariable>
    var rank: int
    var size: int

    /** The cells are distinct objects, as the elements of a vector are. */
    ghost predicate Valid()
      reads this
    {
      forall i, j :: 0 <= i < j < |variables| ==> variables[i] != variables[j]
    }

    ghost function Objects(): set<SharedVariable>
      reads this
    {
      set v | v in variables
    }

    ghost function Cells(): (r: seq<Cell>)
      reads this, Objects()
      ensures |r| == |variables|
      ensures forall k :: 0 <= k < |r| ==> r[k] == Cell(variables[k].value, variables[k].subscribers)
    {
      seq(|variables|, k reads this, Objects() requires 0 <= k < |variables| =>
        Cell(variables[k].value, variables[k].subscribers))
    }

    /** DSM(rank, size, variable_count): `variable_count` fresh zero cells. */
    constructor (rank: int, size: int, variableCount: nat)
      ensures Valid() && this.rank == rank && this.size == size
      ensures Cells() == seq(variableCount, _ => Cell(0, {}))
      ensures forall v :: v in variables ==> fresh(v)
    {
      this.rank := rank;
      this.size := size;
      variables := [];
      new;
      var i := 0;
      while i < variableCount
        invariant 0 <= i <= variableCount && |variables| == i
        invariant this.rank == rank && this.size == size
        invariant forall k :: 0 <= k < i ==> fresh(variables[k])
        invariant Valid()
        invariant forall k :: 0 <= k < i ==> variables[k].value == 0 && variables[k].subscribers == {}
      {
        var v := new SharedVariable();
        variables := variables + [v];
        i := i + 1;
      }
    }

    /** Local write followed by WRITE_VALUE(i, v) to node 0, from any rank. */
    method Write(i: int, v: int) returns (outbox: seq<Packet>)
      requires Valid() && 0 <= i < |variables|
      modifies variables[i]
      ensures Cells() == WriteLocal(old(Cells()), i, v)
      ensures outbox == [Packet(0, Msg.Write(i, v))]
    {
      variables[i].WriteValue(v);
      outbox := [Packet(0, Msg.Write(i, v))];
    }

    /** Local compare-and-exchange followed by COMPARE_AND_EXCHANGE to node 0. */
    method CompareAndExchange(i: int, newValue: int, expected: int) returns (outbox: seq<Packet>)
      requires Valid() && 0 <= i < |variables|
      modifies variables[i]
      ensures Cells() == CasLocal(old(Cells()), i, newValue, expected)
      ensures outbox == [Packet(0, Cas(i, newValue, expected))]
    {
      variables[i].CompareAndExchange(expected, newValue);
      outbox := [Packet(0, Cas(i, newValue, expected))];
    }

    method Load(i: int) returns (v: int)
      requires 0 <= i < |variables|
      ensures v == Cells()[i].value
    {
      v := variables[i].GetValue();
    }

    /** Only a node other than the coordinator announces that it closes. */
    method CloseConnection() returns (outbox: seq<Packet>)
      ensures outbox == if rank > 0 then [Packet(0, Close)] else []
    {
      outbox := [];
      if rank > 0 {
        outbox := [Packet(0, Close)];
      }
    }

    /** Subscribe `node` to cell i; an index out of range changes nothing. */
    method Subscribe(i: int, node: int) returns (outbox: seq<Packet>)
      requires Valid()
      modifies Objects()
      ensures !(0 <= i < |variables|) ==> Cells() == old(Cells()) && outbox == []
      ensures 0 <= i < |variables| ==>
        Cells() == AddSubLocal(old(Cells()), i, node) && outbox == [Packet(0, Register(i, node))]
    {
      if i < 0 || i >= |variables| {
        outbox := [];
      } else {
        variables[i].AddSubscriber(node);
        outbox := [Packet(0, Register(i, node))];
      }
    }

    /** The cells this node may see, in index order, without changing any. */
    method Inspect() returns (entries: seq<Entry>)
      requires Valid()
      ensures entries == Visible(Cells(), rank, 0)
    {
      ghost var cells := Cells();
      entries := [];
      var i := |variables|;
      while i > 0
        invariant 0 <= i <= |variables|
        invariant entries == Visible(cells, rank, i)
      {
        i := i - 1;
        var v := variables[i];
        assert cells[i] == Cell(v.value, v.subscribers);
        VisibleAt(cells, rank, i);
        if rank in v.subscribers || rank == 0 {
          var order := Ordered(v.subscribers);
          entries := [Entry(i, v.value, order)] + entries;
        }
      }
      assert cells == Cells();
    }

    /** Handle one received message (the body of the listener's loop). */
    method Dispatch(m: Msg, closedConnections: int)
      returns (sent: seq<Packet>, closed: int, connectionClosed: bool)
      requires Valid() && InRange(size, |variables|, m)
      modifies Objects()
      ensures (NodeState(rank, size, Cells(), closed, connectionClosed), sent)
        == Step(NodeState(rank, size, old(Cells()), closedConnections, false), m)
    {
      ghost var s := NodeState(rank, size, Cells(), closedConnections, false);
      sent, closed, connectionClosed := [], closedConnections, false;
      match m {
        case Close =>
          closed := closed + 1;
          if rank == 0 {
            if closed == size - 1 {
              sent := SendAll(Range(1, size), Close);
              connectionClosed := true;
            }
          } else {
            connectionClosed := true;
          }
        case Write(i, v) =>
          variables[i].WriteValue(v);
          assert Cells() == WriteLocal(s.cells, i, v);
          if rank == 0 {
            var order := Ordered(variables[i].subscribers);
            sent := SendAll(order, m);
          }
        case Cas(i, newValue, expected) =>
          variables[i].CompareAndExchange(expected, newValue);
          assert Cells() == CasLocal(s.cells, i, newValue, expected);
          if rank == 0 {
            var order := Ordered(variables[i].subscribers);
            sent := SendAll(order, m);
          }
        case NewSub(i, node) =>
          if 0 <= i < |variables| {
            variables[i].AddSubscriber(node);
            assert Cells() == AddSubLocal(s.cells, i, node);
          }
        case Register(i, node) =>
          sent := ForwardRegistration(i, node);
        case Unknown(_) =>
          connectionClosed := true;
      }
      assert s.cells == old(Cells());
    }

    /**
     * REGISTER on the coordinator: the subscription is recorded once per
     * other node, each time followed by NEW_SUBSCRIBER to that node.
     */
    method ForwardRegistration(i: int, node: int) returns (sent: seq<Packet>)
      requires Valid() && (size > 1 ==> 0 <= i < |variables|)
      modifies Objects()
      ensures size > 1 ==> Cells() == AddSubLocal(old(Cells()), i, node)
      ensures size > 1 ==> sent == Broadcast(Range(1, size), NewSub(i, node))
      ensures size <= 1 ==> Cells() == old(Cells()) && sent == []
    {
      ghost var cells := Cells();
      sent := [];
      var k := 1;
      while k < size
        invariant 1 <= k && (size > 1 ==> k <= size) && (size <= 1 ==> k == 1)
        invariant k > 1 ==> 0 <= i < |cells|
        invariant k > 1 ==> Cells() == AddSubLocal(cells, i, node)
        invariant k <= 1 ==> Cells() == cells
        invariant sent == Broadcast(Range(1, k), NewSub(i, node))
      {
        variables[i].AddSubscriber(node);
        sent := sent + [Packet(k, NewSub(i, node))];
        k := k + 1;
      }
    }

    /**
     * The listener loop over the messages it receives, in order: it stops
     * when the connection is closed or when no message is left.
     */
    method ListenForChanges(inbox: seq<Msg>)
      returns (outbox: seq<Packet>, consumed: nat, closedConnections: int, connectionClosed: bool)
      requires Valid() && AllInRange(size, |variables|, inbox)
      modifies Objects()
      ensures consumed <= |inbox| && (consumed < |inbox| ==> connectionClosed)
      ensures (NodeState(rank, size, Cells(), closedConnections, connectionClosed), outbox)
        == Run(Started(rank, size, old(Cells())), inbox[..consumed])
    {
      ghost var start := Started(rank, size, Cells());
      outbox, consumed, closedConnections, connectionClosed := [], 0, 0, false;
      while !connectionClosed && consumed < |inbox|
        invariant 0 <= consumed <= |inbox|
        invariant Valid() && Objects() == old(Objects())
        invariant (NodeState(rank, size, Cells(), closedConnections, connectionClosed), outbox)
          == Run(start, inbox[..consumed])
        decreases |inbox| - consumed
      {
        var m := inbox[consumed];
        assert inbox[..consumed + 1] == inbox[..consumed] + [m];
        RunAppend(start, inbox[..consumed], m);
        var sent;
        sent, closedConnections, connectionClosed := Dispatch(m, closedConnections);
        outbox := outbox + sent;
        consumed := consumed + 1;
      }
    }
  }
}
