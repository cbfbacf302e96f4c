/** The daemon's connection table: subscriptions, report by exception, queues
 *  and drop accounting over all connections
 *  (rtdbd/src/rtdbd.c:123-327, 578-594 and 1534-1632). */
module Daemon {
  import opened Common
  import opened OutQueue
  import Rbe

  /** RTDBD_SUB_MAX */
  const SUB_MAX: nat := 32

  /** A slot of the connection table; free when closed. */
  datatype Conn = Conn(open: bool, subs: seq<u32>, slots: seq<Rbe.Slot>, o: Queue)

  /** conn_init */
  function FreeConn(): Conn {
    Conn(false, [], seq(Rbe.SLOTS, _ => Rbe.EMPTY_SLOT), EMPTY)
  }

  datatype Stats = Stats(notifies: nat, drop: nat, sendFail: nat)

  /** The table and counters, with three history counts the daemon does not
   *  keep: calls of outq_push, refused new notifications, frames fully sent. */
  datatype Server = Server(conns: seq<Conn>, stats: Stats, pushes: nat, refused: nat, frames: nat)

  datatype Action =
    | Accept
    | Subscribe(i: nat, id: u32)
    | Unsubscribe(i: nat, id: u32)
    | Broadcast(id: u32, v: real, meta: Option<Rbe.Meta>, note: Note)
    | FlushConn(i: nat, sends: seq<SendResult>)
    | CloseConn(i: nat)
    | ShutdownFlush(i: nat, sends: seq<SendResult>)
    | DiscardAll

  // ---- Subscriptions ----

  function AddSub(subs: seq<u32>, id: u32): (seq<u32>, bool) {
    if id in subs then (subs, true)
    else if |subs| >= SUB_MAX then (subs, false)
    else (subs + [id], true)
  }

  function IndexOf(subs: seq<u32>, id: u32): (i: nat)
    ensures i <= |subs| && (i < |subs| ==> subs[i] == id)
    ensures forall j :: 0 <= j < i ==> subs[j] != id
  {
    if subs == [] || subs[0] == id then 0 else 1 + IndexOf(subs[1..], id)
  }

  /** conn_del_sub: the last subscription takes the place of the removed one. */
  function DelSub(subs: seq<u32>, id: u32): seq<u32> {
    var i := IndexOf(subs, id);
    if i < |subs| then subs[i := subs[|subs| - 1]][..|subs| - 1] else subs
  }

  // ---- One connection ----

  /** outq_push with its counters. */
  function PushTo(s: Server, i: nat, n: Note): Server
    requires i < |s.conns|
  {
    var c := s.conns[i];
    var (o', outcome) := Push(c.o, n);
    var s1 := s.(conns := s.conns[i := c.(o := o')], pushes := s.pushes + 1);
    match outcome
    case Queued => s1.(stats := s.stats.(notifies := s.stats.notifies + 1))
    case QueuedDroppingOldest => s1.(stats := s.stats.(notifies := s.stats.notifies + 1, drop := s.stats.drop + 1))
    case Refused => s1.(stats := s.stats.(drop := s.stats.drop + 1), refused := s.refused + 1)
  }

  /** The loop body of notify_broadcast for connection i. */
  function NotifyOne(s: Server, i: nat, id: u32, v: real, meta: Option<Rbe.Meta>, n: Note): Server
    requires i < |s.conns|
  {
    var c := s.conns[i];
    if !c.open || id !in c.subs then s
    else
      var (slots', report) := Rbe.Decide(c.slots, id, v, meta);
      var s1 := s.(conns := s.conns[i := c.(slots := slots')]);
      if report then PushTo(s1, i, n) else s1
  }

  function NotifyFrom(s: Server, i: nat, id: u32, v: real, meta: Option<Rbe.Meta>, n: Note): (s': Server)
    requires i <= |s.conns|
    ensures |s'.conns| == |s.conns|
    decreases |s.conns| - i
  {
    if i == |s.conns| then s
    else NotifyFrom(NotifyOne(s, i, id, v, meta, n), i + 1, id, v, meta, n)
  }

  /** conn_discard_outq */
  function Discard(s: Server, i: nat): Server
    requires i < |s.conns|
  {
    var c := s.conns[i];
    s.(conns := s.conns[i := c.(o := EMPTY)], stats := s.stats.(drop := s.stats.drop + |c.o.notes|))
  }

  function DiscardFrom(s: Server, i: nat): (s': Server)
    requires i <= |s.conns|
    ensures |s'.conns| == |s.conns|
    decreases |s.conns| - i
  {
    if i == |s.conns| then s else DiscardFrom(Discard(s, i), i + 1)
  }

  /** outq_flush with its counters. */
  function FlushTo(s: Server, i: nat, sends: seq<SendResult>): (Server, bool)
    requires i < |s.conns|
  {
    var c := s.conns[i];
    var f := Flush(c.o, sends);
    (Server(s.conns[i := c.(o := f.o)],
            s.stats.(drop := s.stats.drop + f.discarded, sendFail := s.stats.sendFail + if f.failed then 1 else 0),
            s.pushes, s.refused, s.frames + f.completed),
     f.failed)
  }

  function FirstFree(conns: seq<Conn>): (i: nat)
    ensures i <= |conns| && (i < |conns| ==> !conns[i].open)
    ensures forall j :: 0 <= j < i ==> conns[j].open
  {
    if conns == [] || !conns[0].open then 0 else 1 + FirstFree(conns[1..])
  }

  function Step(s: Server, a: Action): Server
  {
    match a
    case Accept =>
      var i := FirstFree(s.conns);
      if i < |s.conns| then s.(conns := s.conns[i := FreeConn().(open := true)]) else s
    case Subscribe(i, id) =>
      if i < |s.conns| && s.conns[i].open
      then s.(conns := s.conns[i := s.conns[i].(subs := AddSub(s.conns[i].subs, id).0)]) else s
    case Unsubscribe(i, id) =>
      if i < |s.conns| && s.conns[i].open
      then
        var c := s.conns[i];
        s.(conns := s.conns[i := c.(subs := DelSub(c.subs, id), slots := Rbe.Clear(c.slots, id))])
      else s
    case Broadcast(id, v, meta, n) => NotifyFrom(s, 0, id, v, meta, n)
    case FlushConn(i, sends) =>
      if i < |s.conns| && s.conns[i].open && s.conns[i].o.notes != [] then
        var (s', failed) := FlushTo(s, i, sends);
        if failed then s'.(conns := s'.conns[i := FreeConn()]) else s'
      else s
    case CloseConn(i) =>
      if i < |s.conns| && s.conns[i].open
      then var s' := Discard(s, i); s'.(conns := s'.conns[i := FreeConn()])
      else s
    case ShutdownFlush(i, sends) =>
      if i < |s.conns| && s.conns[i].open && s.conns[i].o.notes != [] then FlushTo(s, i, sends).0 else s
    case DiscardAll => DiscardFrom(s, 0)
  }

  // ---- Invariants ----

  /** conn_table_check */
  predicate TableSound(conns: seq<Conn>) {
    forall i :: 0 <= i < |conns| ==> |conns[i].subs| <= SUB_MAX && (!conns[i].open ==> |conns[i].subs| == 0)
  }

  ghost predicate TableOk(s: Server) {
    && TableSound(s.conns)
    && (forall i :: 0 <= i < |s.conns| ==> QueueOk(s.conns[i].o))
    && (forall i :: 0 <= i < |s.conns| && !s.conns[i].open ==> s.conns[i].o.notes == [])
  }

  function Waiting(conns: seq<Conn>): nat {
    if conns == [] then 0 else |conns[0].o.notes| + Waiting(conns[1..])
  }

  /** Every pushed notification was sent, waits, or was counted as dropped; and
   *  n_notifies counts those that were not refused. */
  ghost predicate Conserved(s: Server) {
    && s.pushes == s.frames + Waiting(s.conns) + s.stats.drop
    && s.stats.notifies + s.refused == s.pushes
  }

  ghost predicate Sound(s: Server) {
    TableOk(s) && Conserved(s)
  }

  lemma {:induction false} WaitingUpdated(conns: seq<Conn>, i: nat, c: Conn)
    requires i < |conns|
    ensures Waiting(conns[i := c]) + |conns[i].o.notes| == Waiting(conns) + |c.o.notes|
  {
    if i > 0 {
      assert conns[i := c][1..] == conns[1..][i - 1 := c];
      WaitingUpdated(conns[1..], i - 1, c);
    }
  }

  lemma SameQueueSound(s: Server, i: nat, c: Conn)
    requires Sound(s) && i < |s.conns| && c.o == s.conns[i].o && c.open == s.conns[i].open
    requires |c.subs| <= SUB_MAX && (!c.open ==> c.subs == [])
    ensures Sound(s.(conns := s.conns[i := c]))
  {
    WaitingUpdated(s.conns, i, c);
  }

  lemma PushSound(s: Server, i: nat, n: Note)
    requires Sound(s) && i < |s.conns| && s.conns[i].open
    ensures Sound(PushTo(s, i, n)) && |PushTo(s, i, n).conns| == |s.conns|
  {
    WaitingUpdated(s.conns, i, s.conns[i].(o := Push(s.conns[i].o, n).0));
  }

  lemma NotifyOneSound(s: Server, i: nat, id: u32, v: real, meta: Option<Rbe.Meta>, n: Note)
    requires Sound(s) && i < |s.conns|
    ensures Sound(NotifyOne(s, i, id, v, meta, n)) && |NotifyOne(s, i, id, v, meta, n).conns| == |s.conns|
  {
    var c := s.conns[i];
    if c.open && id in c.subs {
      var c1 := c.(slots := Rbe.Decide(c.slots, id, v, meta).0);
      SameQueueSound(s, i, c1);
      PushSound(s.(conns := s.conns[i := c1]), i, n);
    }
  }

  lemma {:induction false} NotifyFromSound(s: Server, i: nat, id: u32, v: real, meta: Option<Rbe.Meta>, n: Note)
    requires Sound(s) && i <= |s.conns|
    ensures Sound(NotifyFrom(s, i, id, v, meta, n))
    decreases |s.conns| - i
  {
    if i < |s.conns| {
      NotifyOneSound(s, i, id, v, meta, n);
      NotifyFromSound(NotifyOne(s, i, id, v, meta, n), i + 1, id, v, meta, n);
    }
  }

  lemma DiscardSound(s: Server, i: nat)
    requires Sound(s) && i < |s.conns|
    ensures Sound(Discard(s, i)) && |Discard(s, i).conns| == |s.conns| && Discard(s, i).conns[i].o == EMPTY
  {
    WaitingUpdated(s.conns, i, s.conns[i].(o := EMPTY));
  }

  lemma {:induction false} DiscardFromSound(s: Server, i: nat)
    requires Sound(s) && i <= |s.conns|
    ensures Sound(DiscardFrom(s, i))
    decreases |s.conns| - i
  {
    if i < |s.conns| {
      DiscardSound(s, i);
      DiscardFromSound(Discard(s, i), i + 1);
    }
  }

  lemma FlushSound(s: Server, i: nat, sends: seq<SendResult>)
    requires Sound(s) && i < |s.conns| && s.conns[i].open
    ensures var (s', failed) := FlushTo(s, i, sends);
            Sound(s') && |s'.conns| == |s.conns| && (failed ==> s'.conns[i].o == EMPTY)
  {
    FlushCounts(s.conns[i].o, sends);
    WaitingUpdated(s.conns, i, s.conns[i].(o := Flush(s.conns[i].o, sends).o));
  }

  lemma ResetSound(s: Server, i: nat, c: Conn)
    requires Sound(s) && i < |s.conns| && s.conns[i].o.notes == []
    requires c.o == EMPTY && |c.subs| <= SUB_MAX && (!c.open ==> c.subs == [])
    ensures Sound(s.(conns := s.conns[i := c]))
  {
    WaitingUpdated(s.conns, i, c);
  }

  /** Every step of the daemon keeps the accounts balanced and the table sound. */
  lemma StepSound(s: Server, a: Action)
    requires Sound(s)
    ensures Sound(Step(s, a)) && |Step(s, a).conns| == |s.conns|
  {
    match a {
      case Accept =>
        var i := FirstFree(s.conns);
        if i < |s.conns| {
          ResetSound(s, i, FreeConn().(open := true));
        }
      case Subscribe(i, id) =>
        if i < |s.conns| && s.conns[i].open {
          SameQueueSound(s, i, s.conns[i].(subs := AddSub(s.conns[i].subs, id).0));
        }
      case Unsubscribe(i, id) =>
        if i < |s.conns| && s.conns[i].open {
          var c := s.conns[i];
          SameQueueSound(s, i, c.(subs := DelSub(c.subs, id), slots := Rbe.Clear(c.slots, id)));
        }
      case Broadcast(id, v, meta, n) => NotifyFromSound(s, 0, id, v, meta, n);
      case FlushConn(i, sends) =>
        if i < |s.conns| && s.conns[i].open && s.conns[i].o.notes != [] {
          FlushSound(s, i, sends);
          var (s', failed) := FlushTo(s, i, sends);
          if failed {
            ResetSound(s', i, FreeConn());
          }
        }
      case CloseConn(i) =>
        if i < |s.conns| && s.conns[i].open {
          DiscardSound(s, i);
          ResetSound(Discard(s, i), i, FreeConn());
        }
      case ShutdownFlush(i, sends) =>
        if i < |s.conns| && s.conns[i].open && s.conns[i].o.notes != [] {
          FlushSound(s, i, sends);
        }
      case DiscardAll => DiscardFromSound(s, 0);
    }
  }

  function Run(s: Server, actions: seq<Action>): Server
    decreases |actions|
  {
    if actions == [] then s else Run(Step(s, actions[0]), actions[1..])
  }

  function Start(n: nat): Server {
    Server(seq(n, _ => FreeConn()), Stats(0, 0, 0), 0, 0, 0)
  }

  lemma {:induction false} RunSound(s: Server, actions: seq<Action>)
    requires Sound(s)
    ensures Sound(Run(s, actions))
    decreases |actions|
  {
    if actions != [] {
      StepSound(s, actions[0]);
      RunSound(Step(s, actions[0]), actions[1..]);
    }
  }

  lemma {:induction false} NothingWaiting(conns: seq<Conn>)
    requires forall i :: 0 <= i < |conns| ==> conns[i].o.notes == []
    ensures Waiting(conns) == 0
  {
    if conns != [] {
      NothingWaiting(conns[1..]);
    }
  }

  // ---- The counters against what happens ----

  /** What a step adds, told from the connections before it: notifications
   *  pushed, of which refused and of which queued; notifications lost; failed
   *  sockets; frames that went out whole. */
  datatype Tally = Tally(pushed: int, refused: int, queued: int, lost: int, failures: int, sent: int)

  const NOTHING := Tally(0, 0, 0, 0, 0, 0)

  function Sum(a: Tally, b: Tally): Tally {
    Tally(a.pushed + b.pushed, a.refused + b.refused, a.queued + b.queued,
          a.lost + b.lost, a.failures + b.failures, a.sent + b.sent)
  }

  /** The broadcast is for this connection and its report decision says yes. */
  predicate Told(c: Conn, id: u32, v: real, meta: Option<Rbe.Meta>) {
    c.open && id in c.subs && Rbe.Decide(c.slots, id, v, meta).1
  }

  /** Of those told, the ones with a full queue lose a notification: the new one
   *  if the head is partly sent, otherwise the oldest. */
  function OfTold(told: bool, o: Queue): Tally {
    if !told then NOTHING
    else if Blocked(o) then Tally(1, 1, 0, 1, 0, 0)
    else Tally(1, 0, 1, if |o.notes| == 64 then 1 else 0, 0, 0)
  }

  function OfBroadcast(conns: seq<Conn>, id: u32, v: real, meta: Option<Rbe.Meta>): Tally {
    if conns == [] then NOTHING
    else Sum(OfTold(Told(conns[0], id, v, meta), conns[0].o), OfBroadcast(conns[1..], id, v, meta))
  }

  /** The bytes of a flush complete so many frames of 44 bytes; if the socket
   *  fails the rest of the queue is lost. */
  function OfFlush(o: Queue, sends: seq<SendResult>): Tally {
    var f := Flush(o, sends);
    var whole := (o.sent + |f.bytes|) / 44;
    Tally(0, 0, 0, if f.failed then |o.notes| - whole else 0, if f.failed then 1 else 0, whole)
  }

  predicate IsOpen(s: Server, i: nat) {
    i < |s.conns| && s.conns[i].open
  }

  function Tallied(s: Server, a: Action): Tally {
    match a
    case Broadcast(id, v, meta, _) => OfBroadcast(s.conns, id, v, meta)
    case FlushConn(i, sends) => if IsOpen(s, i) then OfFlush(s.conns[i].o, sends) else NOTHING
    case ShutdownFlush(i, sends) => if IsOpen(s, i) then OfFlush(s.conns[i].o, sends) else NOTHING
    case CloseConn(i) => if IsOpen(s, i) then NOTHING.(lost := |s.conns[i].o.notes|) else NOTHING
    case DiscardAll => NOTHING.(lost := Waiting(s.conns))
    case _ => NOTHING
  }

  /** The counters of a server, the three of the history among them. */
  function Counters(s: Server): Tally {
    Tally(s.pushes, s.refused, s.stats.notifies, s.stats.drop, s.stats.sendFail, s.frames)
  }

  /** Every step moves every counter by just what happened in it. */
  lemma StepTallies(s: Server, a: Action)
    requires Sound(s)
    ensures Counters(Step(s, a)) == Sum(Counters(s), Tallied(s, a))
  {
    match a {
      case Broadcast(id, v, meta, n) =>
        NotifyTallies(s, 0, id, v, meta, n);
        assert s.conns[0..] == s.conns;
      case FlushConn(i, sends) =>
        if IsOpen(s, i) {
          FlushTallies(s, i, sends);
        }
      case ShutdownFlush(i, sends) =>
        if IsOpen(s, i) {
          FlushTallies(s, i, sends);
        }
      case DiscardAll =>
        DiscardTallies(s, 0);
        assert s.conns[0..] == s.conns;
      case _ =>
    }
  }

  lemma {:induction false} NotifyTallies(s: Server, i: nat, id: u32, v: real, meta: Option<Rbe.Meta>, n: Note)
    requires Sound(s) && i <= |s.conns|
    ensures Counters(NotifyFrom(s, i, id, v, meta, n)) == Sum(Counters(s), OfBroadcast(s.conns[i..], id, v, meta))
    decreases |s.conns| - i
  {
    if i < |s.conns| {
      var s1 := NotifyOne(s, i, id, v, meta, n);
      NotifyOneSound(s, i, id, v, meta, n);
      NotifyTallies(s1, i + 1, id, v, meta, n);
      NotifyOneTallies(s, i, id, v, meta, n);
      BroadcastSplits(s.conns, i, id, v, meta);
      Combine(Counters(s), Counters(s1), Counters(NotifyFrom(s, i, id, v, meta, n)),
              OfTold(Told(s.conns[i], id, v, meta), s.conns[i].o), OfBroadcast(s.conns[i + 1..], id, v, meta));
    } else {
      assert s.conns[i..] == [];
    }
  }

  lemma Combine(a: Tally, b: Tally, c: Tally, one: Tally, rest: Tally)
    requires b == Sum(a, one) && c == Sum(b, rest)
    ensures c == Sum(a, Sum(one, rest))
  {
  }

  lemma BroadcastSplits(conns: seq<Conn>, i: nat, id: u32, v: real, meta: Option<Rbe.Meta>)
    requires i < |conns|
    ensures OfBroadcast(conns[i..], id, v, meta)
            == Sum(OfTold(Told(conns[i], id, v, meta), conns[i].o), OfBroadcast(conns[i + 1..], id, v, meta))
  {
    assert conns[i..][1..] == conns[i + 1..];
  }

  /** One notification: queued, in place of the oldest or not, or refused. */
  lemma PushTallies(s: Server, i: nat, n: Note)
    requires Sound(s) && i < |s.conns|
    ensures Counters(PushTo(s, i, n)) == Sum(Counters(s), OfTold(true, s.conns[i].o))
  {
  }

  lemma NotifyOneTallies(s: Server, i: nat, id: u32, v: real, meta: Option<Rbe.Meta>, n: Note)
    requires Sound(s) && i < |s.conns|
    ensures NotifyOne(s, i, id, v, meta, n).conns[i + 1..] == s.conns[i + 1..]
    ensures Counters(NotifyOne(s, i, id, v, meta, n))
            == Sum(Counters(s), OfTold(Told(s.conns[i], id, v, meta), s.conns[i].o))
  {
    var c := s.conns[i];
    if Told(c, id, v, meta) {
      var c1 := c.(slots := Rbe.Decide(c.slots, id, v, meta).0);
      SameQueueSound(s, i, c1);
      PushTallies(s.(conns := s.conns[i := c1]), i, n);
    }
  }

  lemma FlushTallies(s: Server, i: nat, sends: seq<SendResult>)
    requires Sound(s) && i < |s.conns|
    ensures Counters(FlushTo(s, i, sends).0) == Sum(Counters(s), OfFlush(s.conns[i].o, sends))
    ensures s.conns[i].o.notes == [] ==> OfFlush(s.conns[i].o, sends) == NOTHING
  {
    FlushCounts(s.conns[i].o, sends);
    FramesCompleted(s.conns[i].o, sends);
  }

  lemma {:induction false} DiscardTallies(s: Server, i: nat)
    requires i <= |s.conns|
    ensures Counters(DiscardFrom(s, i)) == Sum(Counters(s), NOTHING.(lost := Waiting(s.conns[i..])))
    decreases |s.conns| - i
  {
    if i < |s.conns| {
      var s1 := Discard(s, i);
      assert s1.conns[i + 1..] == s.conns[i..][1..];
      DiscardTallies(s1, i + 1);
    }
  }

  /** All that happened in a run. */
  function History(s: Server, actions: seq<Action>): Tally
    decreases |actions|
  {
    if actions == [] then NOTHING else Sum(Tallied(s, actions[0]), History(Step(s, actions[0]), actions[1..]))
  }

  lemma {:induction false} RunTallies(s: Server, actions: seq<Action>)
    requires Sound(s)
    ensures Counters(Run(s, actions)) == Sum(Counters(s), History(s, actions))
    decreases |actions|
  {
    if actions != [] {
      var s1 := Step(s, actions[0]);
      StepTallies(s, actions[0]);
      StepSound(s, actions[0]);
      RunTallies(s1, actions[1..]);
      SumAssociates(Counters(s), Tallied(s, actions[0]), History(s1, actions[1..]));
    }
  }

  lemma SumAssociates(a: Tally, b: Tally, c: Tally)
    ensures Sum(Sum(a, b), c) == Sum(a, Sum(b, c))
  {
  }

  /** Over every run from an empty table: n_notifies, notify_drop and
   *  notify_send_fail are the notifications queued, the notifications lost and
   *  the failed sockets of the run; everything pushed went out whole, waits, or
   *  is counted in notify_drop; and conn_table_check never finds anything. */
  lemma AccountsBalance(n: nat, actions: seq<Action>)
    ensures var s, h := Run(Start(n), actions), History(Start(n), actions);
            && s.stats.notifies == h.queued && s.stats.drop == h.lost && s.stats.sendFail == h.failures
            && h.pushed == h.sent + Waiting(s.conns) + s.stats.drop
            && h.queued == h.pushed - h.refused
            && TableSound(s.conns)
            && forall i :: 0 <= i < |s.conns| && !s.conns[i].open ==> s.conns[i].o.notes == []
  {
    EmptyTableSound(n);
    RunSound(Start(n), actions);
    RunTallies(Start(n), actions);
    FromNothing(Counters(Start(n)), History(Start(n), actions));
  }

  lemma EmptyTableSound(n: nat)
    ensures Sound(Start(n)) && Counters(Start(n)) == NOTHING
  {
    NothingWaiting(Start(n).conns);
  }

  lemma FromNothing(a: Tally, b: Tally)
    requires a == NOTHING
    ensures Sum(a, b) == b
  {
  }

  /** For a point other than 0, those told are those to whom the value is due. */
  lemma ToldIsDue(s: Server, i: nat, id: u32, v: real, meta: Option<Rbe.Meta>)
    requires RbeSound(s) && i < |s.conns| && id != 0
    ensures Told(s.conns[i], id, v, meta) <==> Due(s.conns[i], id, v, meta)
  {
    var c := s.conns[i];
    assert RbeOk(c);
    if c.open && id in c.subs {
      Rbe.DecideRefines(c.slots, SetOf(c.subs), id, v, meta);
    }
  }

  // ---- Accepting and subscribing ----

  /** A new connection takes the first free place of the table, with no
   *  subscription, no value reported and nothing queued; without a free place
   *  nothing changes. */
  lemma AcceptTakesFirstFree(s: Server, i: nat)
    requires i < |s.conns| && !s.conns[i].open && forall j :: 0 <= j < i ==> s.conns[j].open
    ensures var s' := Step(s, Accept);
            && s' == s.(conns := s.conns[i := s'.conns[i]])
            && s'.conns[i].open && s'.conns[i].subs == [] && s'.conns[i].o == Queue([], 0)
            && NothingReported(s'.conns[i].slots)
  {
    assert FirstFree(s.conns) == i;
  }

  lemma FullTableRefuses(s: Server)
    requires forall j :: 0 <= j < |s.conns| ==> s.conns[j].open
    ensures Step(s, Accept) == s
  {
  }

  /** Subscribing succeeds iff the point is subscribed or fewer than 32 are, and
   *  adds at the end what was missing; the connection then has it. */
  lemma SubscribeAnswers(s: Server, i: nat, id: u32)
    requires i < |s.conns| && s.conns[i].open
    ensures var c := s.conns[i];
            Step(s, Subscribe(i, id))
            == if id in c.subs || |c.subs| >= 32 then s else s.(conns := s.conns[i := c.(subs := c.subs + [id])])
    ensures AddSub(s.conns[i].subs, id).1 <==> id in Step(s, Subscribe(i, id)).conns[i].subs
  {
    assert s.conns[i := s.conns[i]] == s.conns;
  }

  // ---- Report by exception over the whole table ----

  ghost predicate Distinct(subs: seq<u32>) {
    forall i, j :: 0 <= i < j < |subs| ==> subs[i] != subs[j]
  }

  ghost function SetOf(subs: seq<u32>): set<u32> {
    set id | id in subs
  }

  /** The points other than 0 with a report slot are among the distinct
   *  subscriptions. */
  ghost predicate RbeOk(c: Conn) {
    Distinct(c.subs) && Rbe.SlotsSane(c.slots, SetOf(c.subs)) && |c.subs| <= SUB_MAX && (!c.open ==> c.subs == [])
  }

  ghost predicate RbeSound(s: Server) {
    forall i :: 0 <= i < |s.conns| ==> RbeOk(s.conns[i])
  }

  /** Point 0 occupies no report slot of any connection. */
  ghost predicate ZeroUnreported(s: Server) {
    forall i :: 0 <= i < |s.conns| ==> Rbe.NoZeroSlot(s.conns[i].slots)
  }

  predicate NotAboutZero(a: Action) {
    a.Broadcast? ==> a.id != 0
  }

  lemma {:induction false} SetOfSize(subs: seq<u32>)
    ensures |SetOf(subs)| <= |subs|
    decreases |subs|
  {
    if subs != [] {
      SetOfSize(subs[1..]);
      assert SetOf(subs) == {subs[0]} + SetOf(subs[1..]);
    }
  }

  lemma DelSubEffect(subs: seq<u32>, id: u32)
    requires Distinct(subs)
    ensures Distinct(DelSub(subs, id)) && SetOf(DelSub(subs, id)) == SetOf(subs) - {id}
    ensures |DelSub(subs, id)| <= |subs|
  {
    var i, t := IndexOf(subs, id), DelSub(subs, id);
    if i < |subs| {
      forall x: u32
        ensures x in t <==> x in subs && x != id
      {
        if x in subs && x != id {
          var k :| 0 <= k < |subs| && subs[k] == x;
          assert t[if k == |subs| - 1 then i else k] == x;
        }
      }
    }
  }

  lemma SubscribeRbe(c: Conn, id: u32)
    requires RbeOk(c) && c.open
    ensures RbeOk(c.(subs := AddSub(c.subs, id).0))
    ensures id !in c.subs && id != 0 ==> Rbe.LastOf(c.slots, id).None?
  {
  }

  lemma UnsubscribeRbe(c: Conn, id: u32)
    requires RbeOk(c) && c.open
    ensures var c' := c.(subs := DelSub(c.subs, id), slots := Rbe.Clear(c.slots, id));
            && RbeOk(c') && SetOf(c'.subs) == SetOf(c.subs) - {id}
            && (Rbe.NoZeroSlot(c.slots) ==> Rbe.NoZeroSlot(c'.slots))
            && forall x: u32 :: x != id && x != 0 ==> Rbe.LastOf(c'.slots, x) == Rbe.LastOf(c.slots, x)
  {
    DelSubEffect(c.subs, id);
    Rbe.ClearRefines(c.slots, SetOf(c.subs), id);
  }

  /** Unsubscribing takes away the point and what was reported of it, and nothing
   *  else. */
  lemma UnsubscribeForgets(s: Server, i: nat, id: u32)
    requires RbeSound(s) && i < |s.conns| && s.conns[i].open
    ensures var c, s' := s.conns[i], Step(s, Unsubscribe(i, id));
            && s' == s.(conns := s.conns[i := s'.conns[i]])
            && s'.conns[i] == c.(subs := s'.conns[i].subs, slots := s'.conns[i].slots)
            && SetOf(s'.conns[i].subs) == SetOf(c.subs) - {id} && Distinct(s'.conns[i].subs)
            && (id != 0 ==> Rbe.LastOf(s'.conns[i].slots, id).None?)
            && forall x: u32 :: x != id && x != 0 ==> Rbe.LastOf(s'.conns[i].slots, x) == Rbe.LastOf(c.slots, x)
  {
    UnsubscribeRbe(s.conns[i], id);
    Rbe.ClearRefines(s.conns[i].slots, SetOf(s.conns[i].subs), id);
  }

  /** The report decision of a broadcast of a point other than 0 is the one of
   *  the map of last reported values, whatever else the slots hold. */
  lemma NotifyConnRbe(c: Conn, id: u32, v: real, meta: Option<Rbe.Meta>, n: Note)
    requires RbeOk(c)
    ensures var c' := NotifyConn(c, id, v, meta, n);
            && RbeOk(c') && c'.open == c.open && c'.subs == c.subs
            && (id != 0 && Rbe.NoZeroSlot(c.slots) ==> Rbe.NoZeroSlot(c'.slots))
            && (id != 0 ==> c'.o == if Due(c, id, v, meta) then Push(c.o, n).0 else c.o)
            && (id != 0 && Rbe.NoZeroSlot(c.slots) ==>
                  Rbe.LastOf(c'.slots, id) == if Due(c, id, v, meta) then Some(v) else Rbe.LastOf(c.slots, id))
            && forall x: u32 :: x != id && x != 0 ==> Rbe.LastOf(c'.slots, x) == Rbe.LastOf(c.slots, x)
  {
    if c.open && id in c.subs {
      if id == 0 {
        Rbe.DecideZeroKeepsOthers(c.slots, SetOf(c.subs), v, meta);
      } else {
        Rbe.DecideRefines(c.slots, SetOf(c.subs), id, v, meta);
        if Rbe.NoZeroSlot(c.slots) {
          SetOfSize(c.subs);
          Rbe.FallbackUnreachable(c.slots, SetOf(c.subs), id);
        }
      }
    }
  }

  lemma BroadcastAt(s: Server, i: nat, id: u32, v: real, meta: Option<Rbe.Meta>, n: Note)
    requires Sound(s) && i < |s.conns|
    ensures |Step(s, Broadcast(id, v, meta, n)).conns| == |s.conns|
    ensures Step(s, Broadcast(id, v, meta, n)).conns[i] == NotifyConn(s.conns[i], id, v, meta, n)
  {
    NotifyFromAt(s, 0, i, id, v, meta, n);
  }

  lemma DiscardFromAt(s: Server, k: nat, i: nat)
    requires k <= |s.conns| && i < |s.conns|
    ensures DiscardFrom(s, k).conns[i] == if k <= i then s.conns[i].(o := EMPTY) else s.conns[i]
    decreases |s.conns| - k
  {
    if k < |s.conns| {
      DiscardFromAt(Discard(s, k), k + 1, i);
    }
  }

  /** Every step keeps the report slots within the subscriptions, also when
   *  point 0 is used; and point 0 gets no slot unless it is broadcast. */
  lemma StepRbe(s: Server, a: Action)
    requires Sound(s) && RbeSound(s)
    ensures RbeSound(Step(s, a))
    ensures ZeroUnreported(s) && NotAboutZero(a) ==> ZeroUnreported(Step(s, a))
  {
    StepSound(s, a);
    forall i | 0 <= i < |s.conns|
      ensures RbeOk(Step(s, a).conns[i])
      ensures ZeroUnreported(s) && NotAboutZero(a) ==> Rbe.NoZeroSlot(Step(s, a).conns[i].slots)
    {
      ConnAfterStep(s, a, i);
    }
  }

  lemma ConnAfterStep(s: Server, a: Action, i: nat)
    requires Sound(s) && RbeSound(s) && i < |s.conns| && |Step(s, a).conns| == |s.conns|
    ensures var c, c' := s.conns[i], Step(s, a).conns[i];
            RbeOk(c') && (Rbe.NoZeroSlot(c.slots) && NotAboutZero(a) ==> Rbe.NoZeroSlot(c'.slots))
  {
    match a {
      case Subscribe(k, id) =>
        if k == i && s.conns[i].open {
          SubscribeRbe(s.conns[i], id);
        }
      case Unsubscribe(k, id) =>
        if k == i && s.conns[i].open {
          UnsubscribeRbe(s.conns[i], id);
        }
      case Broadcast(id, v, meta, n) =>
        BroadcastAt(s, i, id, v, meta, n);
        NotifyConnRbe(s.conns[i], id, v, meta, n);
      case DiscardAll => DiscardFromAt(s, 0, i);
      case _ =>
    }
  }

  lemma FreeConnOk()
    ensures RbeOk(FreeConn()) && Rbe.NoZeroSlot(FreeConn().slots)
  {
    assert forall i :: 0 <= i < Rbe.SLOTS ==> FreeConn().slots[i] == Rbe.EMPTY_SLOT;
  }

  lemma StartSound(n: nat)
    ensures Sound(Start(n)) && RbeSound(Start(n)) && ZeroUnreported(Start(n))
  {
    FreeConnOk();
    var conns := Start(n).conns;
    assert forall i :: 0 <= i < n ==> conns[i] == FreeConn();
    NothingWaiting(conns);
  }

  lemma {:induction false} RunRbe(s: Server, actions: seq<Action>)
    requires Sound(s) && RbeSound(s)
    ensures var t := Run(s, actions); Sound(t) && RbeSound(t) && |t.conns| == |s.conns|
    ensures ZeroUnreported(s) && (forall k :: 0 <= k < |actions| ==> NotAboutZero(actions[k])) ==>
              ZeroUnreported(Run(s, actions))
    decreases |actions|
  {
    if actions != [] {
      StepSound(s, actions[0]);
      StepRbe(s, actions[0]);
      RunRbe(Step(s, actions[0]), actions[1..]);
    }
  }

  /** In every state the daemon reaches: the points other than 0 that hold a
   *  report slot are among the distinct subscriptions of their connection; and
   *  if point 0 was never broadcast, every subscribed point other than 0 finds
   *  a slot, so that the fallback of rbe_decide is not taken. */
  lemma SlotsWithinSubscriptions(n: nat, actions: seq<Action>, i: nat, id: u32)
    requires i < |Run(Start(n), actions).conns|
    ensures var c := Run(Start(n), actions).conns[i];
            && Distinct(c.subs) && |c.subs| <= SUB_MAX
            && (forall j :: 0 <= j < |c.slots| && c.slots[j].id != 0 ==> c.slots[j].id in c.subs)
            && ((forall k :: 0 <= k < |actions| ==> NotAboutZero(actions[k])) && id in c.subs && id != 0 ==>
                  Rbe.LocateFrom(c.slots, id, 0, None).Some?)
  {
    StartSound(n);
    RunRbe(Start(n), actions);
    var c := Run(Start(n), actions).conns[i];
    assert RbeOk(c);
    if Rbe.NoZeroSlot(c.slots) && id in c.subs && id != 0 {
      SetOfSize(c.subs);
      Rbe.FallbackUnreachable(c.slots, SetOf(c.subs), id);
    }
  }

  // ---- What a broadcast does to one connection ----

  function NotifyConn(c: Conn, id: u32, v: real, meta: Option<Rbe.Meta>, n: Note): Conn {
    if !c.open || id !in c.subs then c
    else
      var (slots', report) := Rbe.Decide(c.slots, id, v, meta);
      c.(slots := slots', o := if report then Push(c.o, n).0 else c.o)
  }

  lemma NotifyOneIsConn(s: Server, i: nat, id: u32, v: real, meta: Option<Rbe.Meta>, n: Note)
    requires i < |s.conns|
    ensures NotifyOne(s, i, id, v, meta, n).conns == s.conns[i := NotifyConn(s.conns[i], id, v, meta, n)]
  {
  }

  lemma {:induction false} NotifyFromAt(s: Server, k: nat, i: nat, id: u32, v: real, meta: Option<Rbe.Meta>, n: Note)
    requires k <= |s.conns| && i < |s.conns|
    ensures NotifyFrom(s, k, id, v, meta, n).conns[i]
            == if k <= i then NotifyConn(s.conns[i], id, v, meta, n) else s.conns[i]
    decreases |s.conns| - k
  {
    if k < |s.conns| {
      NotifyOneIsConn(s, k, id, v, meta, n);
      NotifyFromAt(NotifyOne(s, k, id, v, meta, n), k + 1, i, id, v, meta, n);
    }
  }

  predicate NothingReported(slots: seq<Rbe.Slot>) {
    |slots| == 32 && forall k :: 0 <= k < 32 ==> slots[k].id == 0 && !slots[k].valid
  }

  /** What a step means for one connection of the table.  An open connection is
   *  closed by its own end or a failed flush and by nothing else, and then
   *  leaves nothing behind.  Its subscriptions change only by its own requests,
   *  its queue only by broadcasts, flushes and the final discard. */
  lemma StepOnConn(s: Server, a: Action, i: nat)
    requires Sound(s) && i < |s.conns|
    ensures |Step(s, a).conns| == |s.conns|
    ensures var c, c' := s.conns[i], Step(s, a).conns[i];
            if !c.open then a.Accept? || c' == c
            else
              && (!c'.open <==> a == CloseConn(i) || (a.FlushConn? && a.i == i && Flush(c.o, a.sends).failed))
              && (!c'.open ==> c'.subs == [] && c'.o == Queue([], 0) && NothingReported(c'.slots))
              && (c'.open ==>
                    && (c'.subs != c.subs ==> (a.Subscribe? || a.Unsubscribe?) && a.i == i)
                    && (c'.slots != c.slots ==> (a.Unsubscribe? && a.i == i) || a.Broadcast?)
                    && (a.FlushConn? || a.ShutdownFlush? ==> c'.o == if a.i == i then Flush(c.o, a.sends).o else c.o)
                    && (a.DiscardAll? ==> c'.o == Queue([], 0))
                    && (c'.o != c.o ==> a.Broadcast? || a.FlushConn? || a.ShutdownFlush? || a.DiscardAll?))
  {
    StepSound(s, a);
    match a {
      case Broadcast(id, v, meta, n) => BroadcastAt(s, i, id, v, meta, n);
      case DiscardAll => DiscardFromAt(s, 0, i);
      case _ =>
    }
  }

  /** Told nothing yet since it subscribed, or the value exceeds the last one
   *  told. */
  ghost predicate Due(c: Conn, id: u32, v: real, meta: Option<Rbe.Meta>) {
    c.open && id in c.subs
    && (Rbe.LastOf(c.slots, id).None? || Rbe.Exceeds(meta, Rbe.LastOf(c.slots, id).value, v))
  }

  /** A broadcast of a point other than 0 reaches exactly the subscribers to whom
   *  the value is due, in every state the daemon reaches.  They are told it
   *  when it gets into their queue: it does not when the queue is full behind a
   *  partly sent head, yet the value counts as told. */
  lemma BroadcastReachesDueSubscribers(k: nat, actions: seq<Action>, i: nat, id: u32, v: real,
                                       meta: Option<Rbe.Meta>, n: Note)
    requires i < |Run(Start(k), actions).conns| && id != 0
    ensures var s := Run(Start(k), actions);
            var c := s.conns[i];
            && i < |Step(s, Broadcast(id, v, meta, n)).conns|
            && var c' := Step(s, Broadcast(id, v, meta, n)).conns[i];
            && c'.o == (if Due(c, id, v, meta) then Push(c.o, n).0 else c.o)
            && (Due(c, id, v, meta) ==> if Blocked(c.o) then c'.o == c.o else Enqueued(c.o, c'.o, n))
            && ((forall j :: 0 <= j < |actions| ==> NotAboutZero(actions[j])) ==>
                  Rbe.LastOf(c'.slots, id) == if Due(c, id, v, meta) then Some(v) else Rbe.LastOf(c.slots, id))
  {
    StartSound(k);
    RunRbe(Start(k), actions);
    var s := Run(Start(k), actions);
    BroadcastAt(s, i, id, v, meta, n);
    NotifyConnRbe(s.conns[i], id, v, meta, n);
    PushEnqueues(s.conns[i].o, n);
  }

  /** outq_push refuses the new notification. */
  predicate Blocked(o: Queue) {
    |o.notes| == 64 && o.sent > 0
  }

  /** The notification is the last of the queue, one place further than before,
   *  or in place of the oldest if the queue is full. */
  predicate Enqueued(o: Queue, o': Queue, n: Note) {
    && o'.sent == o.sent
    && o'.notes == (if |o.notes| < 64 then o.notes + [n] else o.notes[1..] + [n])
  }

  lemma PushEnqueues(o: Queue, n: Note)
    requires QueueOk(o)
    ensures !Blocked(o) ==> Enqueued(o, Push(o, n).0, n)
    ensures Blocked(o) ==> Push(o, n).0 == o
    ensures Push(o, n).1 == if Blocked(o) then Refused else if |o.notes| == 64 then QueuedDroppingOldest else Queued
  {
  }

  /** A due value that is refused is not made up for: it counts as told, and
   *  the next value is suppressed unless it exceeds the refused one. */
  lemma RefusedValueIsLost(c: Conn, id: u32, v: real, w: real, meta: Option<Rbe.Meta>, n: Note, next: Note)
    requires RbeOk(c) && Rbe.NoZeroSlot(c.slots) && id != 0
    requires Due(c, id, v, meta) && Blocked(c.o) && !Rbe.Exceeds(meta, v, w)
    ensures var c1 := NotifyConn(c, id, v, meta, n);
            c1.o == c.o && NotifyConn(c1, id, w, meta, next).o == c.o
  {
    NotifyConnRbe(c, id, v, meta, n);
    PushEnqueues(c.o, n);
    NotifyConnRbe(NotifyConn(c, id, v, meta, n), id, w, meta, next);
  }

  /** Subscribed, and told nothing yet. */
  ghost predicate Awaiting(s: Server, i: nat, id: u32) {
    i < |s.conns| && s.conns[i].open && id in s.conns[i].subs && Rbe.LastOf(s.conns[i].slots, id).None?
  }

  /** Not a broadcast of the point, not the end of this subscription: the
   *  connection may subscribe and unsubscribe other points, and be flushed as
   *  long as its socket does not fail. */
  predicate LeavesAlone(a: Action, i: nat, id: u32) {
    && !(a.Broadcast? && a.id == id)
    && !(a.Unsubscribe? && a.i == i && a.id == id)
    && !(a.CloseConn? && a.i == i)
    && (a.FlushConn? && a.i == i ==> Failed !in a.sends)
  }

  lemma {:induction false} FlushSurvives(o: Queue, sends: seq<SendResult>)
    requires Failed !in sends
    ensures !Flush(o, sends).failed
    decreases |sends|
  {
    if o.notes != [] && sends != [] {
      if sends[0].Interrupted? {
        FlushSurvives(o, sends[1..]);
      } else if sends[0].Sent? && o.sent + Taken(o, sends[0].k) == FRAME_LEN {
        FlushSurvives(Queue(o.notes[1..], 0), sends[1..]);
      }
    }
  }

  ghost predicate AllLeaveAlone(actions: seq<Action>, i: nat, id: u32) {
    forall k :: 0 <= k < |actions| ==> LeavesAlone(actions[k], i, id)
  }

  lemma AwaitingKept(s: Server, a: Action, i: nat, id: u32)
    requires Sound(s) && RbeSound(s) && Awaiting(s, i, id) && LeavesAlone(a, i, id) && id != 0
    ensures Awaiting(Step(s, a), i, id)
  {
    match a {
      case Broadcast(x, v, meta, n) =>
        BroadcastAt(s, i, x, v, meta, n);
        NotifyConnRbe(s.conns[i], x, v, meta, n);
      case Unsubscribe(k, x) =>
        if k == i {
          UnsubscribeRbe(s.conns[i], x);
          assert id in SetOf(s.conns[i].subs) - {x};
        }
      case DiscardAll => DiscardFromAt(s, 0, i);
      case FlushConn(k, sends) =>
        if k == i {
          FlushSurvives(s.conns[i].o, sends);
        }
      case _ =>
    }
  }

  /** A subscription to a point other than 0 that waits for its first value goes
   *  on waiting, whatever other connections and points do. */
  lemma {:induction false} AwaitingKeptByRun(s: Server, actions: seq<Action>, i: nat, id: u32)
    requires Sound(s) && RbeSound(s) && Awaiting(s, i, id) && id != 0 && AllLeaveAlone(actions, i, id)
    ensures var t := Run(s, actions); Sound(t) && RbeSound(t) && Awaiting(t, i, id)
    decreases |actions|
  {
    if actions != [] {
      assert LeavesAlone(actions[0], i, id);
      StepSound(s, actions[0]);
      StepRbe(s, actions[0]);
      AwaitingKept(s, actions[0], i, id);
      AwaitingKeptByRun(Step(s, actions[0]), actions[1..], i, id);
    }
  }

  /** After a new subscription in any state the daemon reaches, whatever other
   *  connections and points do in between, the first value of the point is
   *  pushed to the connection; it is queued unless the queue is full behind a
   *  partly sent head. */
  lemma FirstValueIsPushed(k: nat, before: seq<Action>, i: nat, id: u32, between: seq<Action>,
                           v: real, meta: Option<Rbe.Meta>, n: Note)
    requires id != 0 && AllLeaveAlone(between, i, id)
    requires var s := Run(Start(k), before);
             i < |s.conns| && s.conns[i].open && id !in s.conns[i].subs && |s.conns[i].subs| < SUB_MAX
    ensures var t := Run(Step(Run(Start(k), before), Subscribe(i, id)), between);
            && i < |t.conns| && i < |Step(t, Broadcast(id, v, meta, n)).conns|
            && var o, o' := t.conns[i].o, Step(t, Broadcast(id, v, meta, n)).conns[i].o;
            && o' == Push(o, n).0
            && if Blocked(o) then o' == o else Enqueued(o, o', n)
  {
    StartSound(k);
    RunRbe(Start(k), before);
    var s := Run(Start(k), before);
    var s1 := Step(s, Subscribe(i, id));
    StepSound(s, Subscribe(i, id));
    SubscribeRbe(s.conns[i], id);
    StepRbe(s, Subscribe(i, id));
    assert Awaiting(s1, i, id);
    AwaitingKeptByRun(s1, between, i, id);
    var t := Run(s1, between);
    BroadcastAt(t, i, id, v, meta, n);
    NotifyConnRbe(t.conns[i], id, v, meta, n);
    PushEnqueues(t.conns[i].o, n);
  }

  // ---- One connection in memory ----

  class Connection {
    var open: bool
    const subs: array<u32>
    var nsubs: nat
    const slots: array<Rbe.Slot>
    const ring: Ring

    ghost predicate Valid()
      reads this, ring
    {
      subs.Length == SUB_MAX && nsubs <= SUB_MAX && slots.Length == Rbe.SLOTS && ring.Valid()
    }

    ghost function View(): Conn
      requires Valid()
      reads this, subs, slots, ring, ring.outq
    {
      Conn(open, subs[..nsubs], slots[..], ring.View())
    }

    /** conn_init */
    constructor ()
      ensures Valid() && View() == FreeConn() && fresh(subs) && fresh(slots) && fresh(ring) && fresh(ring.outq)
    {
      open := false;
      nsubs := 0;
      subs := new u32[SUB_MAX](_ => 0);
      slots := new Rbe.Slot[Rbe.SLOTS](_ => Rbe.EMPTY_SLOT);
      ring := new Ring();
    }

    method HasSub(id: u32) returns (has: bool)
      requires Valid()
      ensures has <==> id in View().subs
    {
      for i := 0 to nsubs
        invariant id !in subs[..i]
      {
        if subs[i] == id {
          assert View().subs[i] == id;
          return true;
        }
      }
      return false;
    }

    method AddSubscription(id: u32) returns (ok: bool)
      requires Valid()
      modifies this`nsubs, subs
      ensures Valid()
      ensures (View().subs, ok) == AddSub(old(View().subs), id)
    {
      var has := HasSub(id);
      if has {
        return true;
      }
      if nsubs >= SUB_MAX {
        return false;
      }
      ghost var before := View().subs;
      subs[nsubs] := id;
      nsubs := nsubs + 1;
      assert View().subs == before + [id];
      ok := true;
    }

    method DelSubscription(id: u32)
      requires Valid()
      modifies this`nsubs, subs, slots
      ensures Valid()
      ensures View().subs == DelSub(old(View().subs), id) && View().slots == Rbe.Clear(old(View().slots), id)
    {
      Rbe.ClearPoint(slots, id);
      for i := 0 to nsubs
        invariant subs[..] == old(subs[..]) && nsubs == old(nsubs) && slots[..] == Rbe.Clear(old(slots[..]), id)
        invariant IndexOf(subs[..nsubs], id) >= i
      {
        if subs[i] == id {
          assert IndexOf(subs[..nsubs], id) == i;
          subs[i] := subs[nsubs - 1];
          nsubs := nsubs - 1;
          return;
        }
      }
    }

    /** The body of notify_broadcast's loop for this connection. */
    method Notify(id: u32, v: real, meta: Option<Rbe.Meta>, n: Note) returns (outcome: Option<PushOutcome>)
      requires Valid()
      modifies slots, ring, ring.outq
      ensures Valid() && View() == NotifyConn(old(View()), id, v, meta, n)
      ensures outcome.Some? <==>
                var c := old(View()); c.open && id in c.subs && Rbe.Decide(c.slots, id, v, meta).1
      ensures outcome.Some? ==> outcome.value == Push(old(View()).o, n).1
    {
      if !open {
        return None;
      }
      var has := HasSub(id);
      if !has {
        return None;
      }
      var report := Rbe.DecideInPlace(slots, id, v, meta);
      if !report {
        return None;
      }
      var pushed := ring.PushNote(n);
      outcome := Some(pushed);
    }
  }
}
