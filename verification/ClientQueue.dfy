/** The client's local write queue and its replay (client/src/client.c:21-58,
 *  205-224 and 259-290).
 *
 * Writes are queued, coalesced per point, and submitted by flush.  A submit
 * may fail after it took effect: the reply is lost, the entry is kept and sent
 * again.  The main result: the server's store overlaid with the pending queue
 * is always the base store overlaid with all accepted writes, in order.
 */
module ClientQueue {
  import opened Common
  import Layout

  type u64 = x: int | 0 <= x < 0x1_0000_0000_0000_0000

  datatype Value = Value(ptype: nat, bits: u64, sourceTs: u64)
  datatype Entry = Entry(id: u32, val: Value)

  type Store = map<u32, Value>

  datatype Code = OK | QUEUED | ERR_FULL | ERR_IO | ERR_DENIED | ERR_PROTO | ERR_ARG

  const MAGIC: u32 := 0x5242_4431
  const PROTO_VERSION: nat := 3
  const ST_OK: nat := 0
  const ST_DENIED: nat := 2

  /** The response header as received, the payload length aside. */
  datatype Response = Response(magic: u32, version: nat, status: nat)

  /** How one submit goes: whether both parts of the request could be sent,
   *  whether the server applied the write, and the response, if one arrives. */
  datatype Reply = Reply(headerSent: bool, payloadSent: bool, applied: bool, response: Option<Response>)

  const GOOD_RESPONSE := Response(MAGIC, PROTO_VERSION, ST_OK)

  /** The code submit_one gives. */
  function CodeOf(r: Reply): Code {
    if !r.headerSent || !r.payloadSent || r.response.None? then ERR_IO
    else
      var p := r.response.value;
      if p.magic != MAGIC || p.version != PROTO_VERSION then ERR_PROTO
      else if p.status == ST_OK then OK
      else if p.status == ST_DENIED then ERR_DENIED
      else ERR_PROTO
  }

  /** What each answer means on the wire: the codes of protocol version 3. */
  lemma CodeMeans(r: Reply)
    ensures var sent := r.headerSent && r.payloadSent;
            && (CodeOf(r) == OK <==> sent && r.response == Some(Response(0x5242_4431, 3, 0)))
            && (CodeOf(r) == ERR_DENIED <==> sent && r.response == Some(Response(0x5242_4431, 3, 2)))
            && (CodeOf(r) == ERR_IO <==> !(sent && r.response.Some?))
            && (CodeOf(r) == ERR_PROTO <==> CodeOf(r) !in {OK, ERR_DENIED, ERR_IO})
  {
  }

  /** The server answers OK only to a write it has applied.  It may apply one
   *  and its answer be lost, cut or garbled. */
  predicate Honest(r: Reply) {
    r.response == Some(GOOD_RESPONSE) ==> r.applied
  }

  /** What the network does to one queued entry: the first submit, whether
   *  reconnecting succeeds after an I/O error, and the second submit. */
  datatype Attempt = Attempt(first: Reply, reconnect: bool, second: Reply)

  predicate HonestAttempt(a: Attempt) {
    Honest(a.first) && Honest(a.second)
  }

  // ---- Stores and overlays ----

  function Put(s: Store, e: Entry): Store {
    s[e.id := e.val]
  }

  function Overlay(s: Store, es: seq<Entry>): Store
    decreases |es|
  {
    if es == [] then s else Overlay(Put(s, es[0]), es[1..])
  }

  lemma {:induction false} OverlayConcat(s: Store, a: seq<Entry>, b: seq<Entry>)
    ensures Overlay(s, a + b) == Overlay(Overlay(s, a), b)
    decreases |a|
  {
    if a == [] {
      assert a + b == b;
    } else {
      assert (a + b)[1..] == a[1..] + b;
      OverlayConcat(Put(s, a[0]), a[1..], b);
    }
  }

  lemma OverlayOne(s: Store, es: seq<Entry>, e: Entry)
    ensures Overlay(s, es + [e]) == Put(Overlay(s, es), e)
  {
    OverlayConcat(s, es, [e]);
    assert Overlay(Overlay(s, es), [e]) == Put(Overlay(s, es), e);
  }

  ghost predicate Distinct(q: seq<Entry>) {
    forall i, j :: 0 <= i < j < |q| ==> q[i].id != q[j].id
  }

  ghost predicate Pending(q: seq<Entry>, id: u32) {
    exists i :: 0 <= i < |q| && q[i].id == id
  }

  /** The overlay point by point: a pending entry wins over the store. */
  lemma {:induction false} OverlayAt(s: Store, q: seq<Entry>, id: u32)
    requires Distinct(q)
    ensures forall i :: 0 <= i < |q| && q[i].id == id ==> id in Overlay(s, q) && Overlay(s, q)[id] == q[i].val
    ensures !Pending(q, id) ==> (id in Overlay(s, q) <==> id in s) && (id in s ==> Overlay(s, q)[id] == s[id])
    decreases |q|
  {
    if q != [] {
      OverlayAt(Put(s, q[0]), q[1..], id);
      if !Pending(q, id) {
        assert q[0].id != id;
        assert forall i :: 0 <= i < |q[1..]| ==> q[1..][i] == q[i + 1];
        assert !Pending(q[1..], id);
      } else {
        forall i | 0 <= i < |q| && q[i].id == id
          ensures id in Overlay(s, q) && Overlay(s, q)[id] == q[i].val
        {
          if i > 0 {
            assert q[1..][i - 1] == q[i];
          } else {
            assert forall k :: 0 <= k < |q[1..]| ==> q[1..][k] == q[k + 1];
            assert !Pending(q[1..], id);
          }
        }
      }
    }
  }

  lemma SameStore(a: Store, b: Store)
    requires forall id: u32 :: (id in a <==> id in b) && (id in a ==> id in b && a[id] == b[id])
    ensures a == b
  {
  }

  /** Replacing the pending entry of a point is writing the point last. */
  lemma OverlayReplaced(s: Store, q: seq<Entry>, i: nat, e: Entry)
    requires Distinct(q) && i < |q| && q[i].id == e.id
    ensures Distinct(q[i := e])
    ensures Overlay(s, q[i := e]) == Put(Overlay(s, q), e)
  {
    var q' := q[i := e];
    forall id: u32
      ensures var a, b := Overlay(s, q'), Put(Overlay(s, q), e);
              (id in a <==> id in b) && (id in a ==> id in b && a[id] == b[id])
    {
      OverlayAt(s, q, id);
      OverlayAt(s, q', id);
      if id == e.id {
        assert q'[i].id == id;
      } else if Pending(q, id) {
        var j :| 0 <= j < |q| && q[j].id == id;
        assert q'[j] == q[j];
      } else {
        assert !Pending(q', id);
      }
    }
    SameStore(Overlay(s, q'), Put(Overlay(s, q), e));
  }

  /** A write that already took effect does no harm while its entry is pending. */
  lemma PendingHidesEffect(s: Store, q: seq<Entry>, e: Entry)
    requires Distinct(q) && Pending(q, e.id)
    ensures Overlay(Put(s, e), q) == Overlay(s, q)
  {
    forall id: u32
      ensures var a, b := Overlay(Put(s, e), q), Overlay(s, q);
              (id in a <==> id in b) && (id in a ==> id in b && a[id] == b[id])
    {
      OverlayAt(s, q, id);
      OverlayAt(Put(s, e), q, id);
      if Pending(q, id) {
        var j :| 0 <= j < |q| && q[j].id == id;
        assert id in Overlay(s, q) && Overlay(s, q)[id] == q[j].val;
      }
    }
    SameStore(Overlay(Put(s, e), q), Overlay(s, q));
  }

  // ---- The operations on values ----

  /** The client and the server it talks to. */
  datatype State = State(q: seq<Entry>, cap: nat, async: bool, connected: bool, server: Store)

  function FindId(q: seq<Entry>, id: u32): (i: nat)
    ensures i <= |q| && (i < |q| ==> q[i].id == id)
    ensures forall j :: 0 <= j < i ==> q[j].id != id
  {
    if q == [] || q[0].id == id then 0 else 1 + FindId(q[1..], id)
  }

  /** q_push */
  function Push(q: seq<Entry>, cap: nat, e: Entry): (seq<Entry>, Code) {
    var i := FindId(q, e.id);
    if i < |q| then (q[i := e], OK)
    else if |q| >= cap then (q, ERR_FULL)
    else (q + [e], OK)
  }

  function Effect(s: Store, e: Entry, r: Reply): Store {
    if r.applied then Put(s, e) else s
  }

  /** write_entry: queue, or submit at once. */
  function Write(c: State, e: Entry, connects: bool, r: Reply): (State, Code) {
    if c.async then
      var (q', rc) := Push(c.q, c.cap, e);
      (c.(q := q'), if rc == OK then QUEUED else rc)
    else if !c.connected && !connects then (c, ERR_IO)
    else (c.(connected := CodeOf(r) != ERR_IO, server := Effect(c.server, e, r)), CodeOf(r))
  }

  /** One entry of the flush loop: the store, the connection and the code after it. */
  function SubmitWithRetry(s: Store, connected: bool, e: Entry, a: Attempt): (Store, bool, Code) {
    var s1 := Effect(s, e, a.first);
    if CodeOf(a.first) != ERR_IO then (s1, connected, CodeOf(a.first))
    else if !a.reconnect then (s1, false, ERR_IO)
    else (Effect(s1, e, a.second), true, CodeOf(a.second))
  }

  /** The flush loop: what is left of the queue, and how many were submitted. */
  function FlushFrom(q: seq<Entry>, s: Store, connected: bool, attempts: seq<Attempt>): (r: (seq<Entry>, Store, bool, nat))
    requires |attempts| >= |q|
    ensures r.3 <= |q| && r.0 == q[r.3..]
    decreases |q|
  {
    if q == [] then (q, s, connected, 0)
    else
      var (s', connected', rc) := SubmitWithRetry(s, connected, q[0], attempts[0]);
      if rc != OK then (q, s', connected', 0)
      else
        var (q'', s'', connected'', n) := FlushFrom(q[1..], s', connected', attempts[1..]);
        (q'', s'', connected'', n + 1)
  }

  /** irtcli_flush */
  function Flush(c: State, connects: bool, attempts: seq<Attempt>): (State, nat)
    requires |attempts| >= |c.q|
  {
    if c.q == [] || (!c.connected && !connects) then (c, 0)
    else
      var (q', s', connected', n) := FlushFrom(c.q, c.server, true, attempts);
      (c.(q := q', server := s', connected := connected'), n)
  }

  // ---- Each operation keeps the law ----

  lemma PushKeepsLaw(s: Store, q: seq<Entry>, cap: nat, e: Entry)
    requires Distinct(q) && |q| <= cap
    ensures var (q', rc) := Push(q, cap, e);
            && Distinct(q') && |q'| <= cap
            && (rc == OK ==> Overlay(s, q') == Put(Overlay(s, q), e))
            && (rc != OK ==> q' == q)
            && |q| <= |q'| && (forall i :: 0 <= i < |q| ==> q'[i].id == q[i].id)
  {
    var i := FindId(q, e.id);
    if i < |q| {
      OverlayReplaced(s, q, i, e);
    } else if |q| < cap {
      OverlayOne(s, q, e);
    }
  }

  lemma SubmitKeepsLaw(s: Store, q: seq<Entry>, connected: bool, a: Attempt)
    requires q != [] && Distinct(q) && HonestAttempt(a)
    ensures var (s', _, rc) := SubmitWithRetry(s, connected, q[0], a);
            && (s' == s || s' == Put(s, q[0]))
            && Overlay(s', q) == Overlay(s, q)
            && (rc == OK ==> s' == Put(s, q[0]) && Overlay(s', q[1..]) == Overlay(s, q))
  {
    var (s', _, rc) := SubmitWithRetry(s, connected, q[0], a);
    assert Put(Put(s, q[0]), q[0]) == Put(s, q[0]);
    assert Pending(q, q[0].id);
    PendingHidesEffect(s, q, q[0]);
  }

  /** A flush leaves the overlay of server and queue as it was. */
  lemma {:induction false} FlushKeepsLaw(q: seq<Entry>, s: Store, connected: bool, attempts: seq<Attempt>)
    requires Distinct(q) && |attempts| >= |q|
    requires forall i :: 0 <= i < |attempts| ==> HonestAttempt(attempts[i])
    ensures var (q', s', _, _) := FlushFrom(q, s, connected, attempts);
            Distinct(q') && Overlay(s', q') == Overlay(s, q)
    decreases |q|
  {
    if q != [] {
      var (s1, connected1, rc) := SubmitWithRetry(s, connected, q[0], attempts[0]);
      SubmitKeepsLaw(s, q, connected, attempts[0]);
      if rc == OK {
        FlushKeepsLaw(q[1..], s1, connected1, attempts[1..]);
      }
    }
  }

  /** A flush splits the queue into a submitted prefix and a retained rest: the
   *  server has taken the prefix in order, and of the rest at most its first
   *  entry. */
  lemma {:induction false} FlushSplitsQueue(q: seq<Entry>, s: Store, connected: bool, attempts: seq<Attempt>)
    requires Distinct(q) && |attempts| >= |q|
    requires forall i :: 0 <= i < |attempts| ==> HonestAttempt(attempts[i])
    ensures var (q', s', _, n) := FlushFrom(q, s, connected, attempts);
            && q == q[..n] + q'
            && (s' == Overlay(s, q[..n]) || (q' != [] && s' == Put(Overlay(s, q[..n]), q'[0])))
    decreases |q|
  {
    if q != [] {
      var (s1, connected1, rc) := SubmitWithRetry(s, connected, q[0], attempts[0]);
      SubmitKeepsLaw(s, q, connected, attempts[0]);
      if rc == OK {
        var n := FlushFrom(q[1..], s1, connected1, attempts[1..]).3;
        FlushSplitsQueue(q[1..], s1, connected1, attempts[1..]);
        assert q[..n + 1][1..] == q[1..][..n];
      }
    }
  }

  // ---- How far a flush gets ----

  /** The entry ends up answered OK: at once, or after an I/O error, a successful
   *  reconnect and a second submit. */
  predicate EndsOk(a: Attempt) {
    || CodeOf(a.first) == OK
    || (CodeOf(a.first) == ERR_IO && a.reconnect && CodeOf(a.second) == OK)
  }

  /** The server took the entry, whatever the client was told. */
  predicate TakesEffect(a: Attempt) {
    a.first.applied || (CodeOf(a.first) == ERR_IO && a.reconnect && a.second.applied)
  }

  /** n entries ended OK one after the other, and the next one, if there is one,
   *  did not. */
  ghost predicate StopsAt(attempts: seq<Attempt>, total: nat, n: nat) {
    && n <= total <= |attempts|
    && (forall i :: 0 <= i < n ==> EndsOk(attempts[i]))
    && (n < total ==> !EndsOk(attempts[n]))
  }

  /** The server after a flush that stopped at n. */
  ghost function ServerAfter(s: Store, q: seq<Entry>, attempts: seq<Attempt>, n: nat): Store
    requires n <= |q| <= |attempts|
  {
    if n < |q| && TakesEffect(attempts[n]) then Overlay(s, q[..n] + [q[n]]) else Overlay(s, q[..n])
  }

  lemma {:induction false} LoopReaches(q: seq<Entry>, s: Store, connected: bool, attempts: seq<Attempt>)
    requires |attempts| >= |q|
    requires forall i :: 0 <= i < |attempts| ==> HonestAttempt(attempts[i])
    ensures var (_, s', connected', n) := FlushFrom(q, s, connected, attempts);
            && StopsAt(attempts, |q|, n) && s' == ServerAfter(s, q, attempts, n)
            && (connected ==> connected' == (n < |q| ==> CodeOf(attempts[n].first) == ERR_IO ==> attempts[n].reconnect))
    decreases |q|
  {
    if q != [] {
      var (s1, connected1, rc) := SubmitWithRetry(s, connected, q[0], attempts[0]);
      SubmitEnds(s, connected, q[0], attempts[0]);
      if rc == OK {
        LoopReaches(q[1..], s1, connected1, attempts[1..]);
        PrefixStep(s, q, FlushFrom(q[1..], s1, connected1, attempts[1..]).3);
      } else {
        assert q[..0] + [q[0]] == [q[0]];
        assert Overlay(s, [q[0]]) == Put(s, q[0]);
      }
    }
  }

  lemma SubmitEnds(s: Store, connected: bool, e: Entry, a: Attempt)
    requires HonestAttempt(a)
    ensures var (s', connected', rc) := SubmitWithRetry(s, connected, e, a);
            && (rc == OK <==> EndsOk(a)) && (EndsOk(a) ==> TakesEffect(a))
            && s' == (if TakesEffect(a) then Put(s, e) else s)
            && (connected ==> connected' == (CodeOf(a.first) == ERR_IO ==> a.reconnect))
  {
    assert Put(Put(s, e), e) == Put(s, e);
  }

  lemma PrefixStep(s: Store, q: seq<Entry>, n: nat)
    requires n < |q|
    ensures Overlay(s, q[..n + 1]) == Overlay(Put(s, q[0]), q[1..][..n])
    ensures n + 1 < |q| ==>
              Overlay(s, q[..n + 1] + [q[n + 1]]) == Overlay(Put(s, q[0]), q[1..][..n] + [q[1..][n]])
  {
    assert q[..n + 1][1..] == q[1..][..n];
    if n + 1 < |q| {
      assert (q[..n + 1] + [q[n + 1]])[1..] == q[1..][..n] + [q[1..][n]];
    }
  }

  /** irtcli_flush submits exactly up to the first entry that does not end OK,
   *  and nothing if there is no connection.  The rest stays queued.  The server
   *  has the submitted entries in order, and the one that failed if it took
   *  effect all the same. */
  lemma FlushReaches(c: State, connects: bool, attempts: seq<Attempt>)
    requires |attempts| >= |c.q|
    requires forall i :: 0 <= i < |attempts| ==> HonestAttempt(attempts[i])
    ensures var (c', n) := Flush(c, connects, attempts);
            if c.q == [] || (!c.connected && !connects) then c' == c && n == 0
            else
              && StopsAt(attempts, |c.q|, n)
              && c' == State(c.q[n..], c.cap, c.async,
                             n < |c.q| ==> CodeOf(attempts[n].first) == ERR_IO ==> attempts[n].reconnect,
                             ServerAfter(c.server, c.q, attempts, n))
  {
    LoopReaches(c.q, c.server, true, attempts);
  }

  /** When every entry is answered OK, one flush replays the whole queue. */
  lemma FlushDrains(c: State, connects: bool, attempts: seq<Attempt>)
    requires |attempts| >= |c.q| && (c.connected || connects)
    requires forall i :: 0 <= i < |attempts| ==> HonestAttempt(attempts[i]) && EndsOk(attempts[i])
    ensures var (c', n) := Flush(c, connects, attempts);
            c'.q == [] && n == |c.q| && c'.server == Overlay(c.server, c.q)
  {
    FlushReaches(c, connects, attempts);
    assert c.q[..|c.q|] == c.q;
  }

  // ---- When a write is accepted ----

  /** What a write is answered.  Queued, it is accepted iff its point is pending,
   *  whose value it then replaces, or there is room, and then it goes to the
   *  end.  Sent at once, it has the answer of the one submit. */
  lemma WriteAnswers(c: State, e: Entry, connects: bool, r: Reply)
    requires Distinct(c.q)
    ensures var (c', rc) := Write(c, e, connects, r);
            if c.async then
              && rc == (if Pending(c.q, e.id) || |c.q| < c.cap then QUEUED else ERR_FULL)
              && c' == c.(q := c'.q)
              && (forall i :: 0 <= i < |c.q| ==> i < |c'.q| && c'.q[i] == if c.q[i].id == e.id then e else c.q[i])
              && (rc == QUEUED && !Pending(c.q, e.id) ==> |c'.q| == |c.q| + 1 && c'.q[|c.q|] == e)
              && (rc != QUEUED || Pending(c.q, e.id) ==> |c'.q| == |c.q|)
            else if c.connected || connects then
              && rc == CodeOf(r) && c'.connected == (rc != ERR_IO)
              && c'.server == (if r.applied then c.server[e.id := e.val] else c.server)
              && c' == c.(connected := c'.connected, server := c'.server)
            else rc == ERR_IO && c' == c
  {
  }

  // ---- Runs of the asynchronous client ----

  datatype Op =
    | WriteOp(e: Entry, connects: bool, reply: Reply)
    | FlushOp(connects: bool, attempts: seq<Attempt>)

  predicate OpOk(c: State, op: Op) {
    match op
    case WriteOp(_, _, r) => Honest(r)
    case FlushOp(_, attempts) => |attempts| >= |c.q| && forall i :: 0 <= i < |attempts| ==> HonestAttempt(attempts[i])
  }

  /** The next state, and the writes the client was told are accepted. */
  function Step(c: State, op: Op): (State, seq<Entry>)
    requires OpOk(c, op)
  {
    match op
    case WriteOp(e, connects, r) =>
      var (c', rc) := Write(c, e, connects, r);
      (c', if rc == OK || rc == QUEUED then [e] else [])
    case FlushOp(connects, attempts) => (Flush(c, connects, attempts).0, [])
  }

  ghost predicate OpsOk(c: State, ops: seq<Op>)
    decreases |ops|
  {
    ops == [] || (OpOk(c, ops[0]) && OpsOk(Step(c, ops[0]).0, ops[1..]))
  }

  ghost function Run(c: State, ops: seq<Op>): (State, seq<Entry>)
    requires OpsOk(c, ops)
    decreases |ops|
  {
    if ops == [] then (c, [])
    else
      var (c1, accepted) := Step(c, ops[0]);
      var (c2, rest) := Run(c1, ops[1..]);
      (c2, accepted + rest)
  }

  ghost predicate QueueOk(c: State) {
    Distinct(c.q) && |c.q| <= c.cap
  }

  lemma AsyncStepKeepsLaw(c: State, op: Op)
    requires QueueOk(c) && c.async && OpOk(c, op)
    ensures var (c', accepted) := Step(c, op);
            && QueueOk(c') && c'.async && c'.cap == c.cap
            && Overlay(c'.server, c'.q) == Overlay(Overlay(c.server, c.q), accepted)
  {
    match op {
      case WriteOp(e, _, _) =>
        PushKeepsLaw(c.server, c.q, c.cap, e);
        assert Overlay(Overlay(c.server, c.q), [e]) == Put(Overlay(c.server, c.q), e);
      case FlushOp(connects, attempts) =>
        if c.q != [] && (c.connected || connects) {
          FlushKeepsLaw(c.q, c.server, true, attempts);
        }
    }
  }

  /** After any run of asynchronous writes and flushes, through lost replies,
   *  refusals, reconnections and retries, the server overlaid with the pending
   *  queue is the starting store overlaid with the accepted writes in order,
   *  and the queue holds at most one entry a point. */
  lemma {:induction false} AsyncRunLaw(c: State, ops: seq<Op>)
    requires QueueOk(c) && c.async && OpsOk(c, ops)
    ensures var (c', accepted) := Run(c, ops);
            && QueueOk(c') && c'.async
            && Overlay(c'.server, c'.q) == Overlay(Overlay(c.server, c.q), accepted)
    decreases |ops|
  {
    if ops != [] {
      var (c1, accepted) := Step(c, ops[0]);
      AsyncStepKeepsLaw(c, ops[0]);
      AsyncRunLaw(c1, ops[1..]);
      OverlayConcat(Overlay(c.server, c.q), accepted, Run(c1, ops[1..]).1);
    }
  }

  /** Once the queue is drained the server alone has every accepted write. */
  lemma DrainedServerHasAll(c: State, ops: seq<Op>)
    requires c.q == [] && c.async && OpsOk(c, ops) && Run(c, ops).0.q == []
    ensures Run(c, ops).0.server == Overlay(c.server, Run(c, ops).1)
  {
    AsyncRunLaw(c, ops);
  }

  // ---- Synchronous writes over a pending queue ----

  /** Exactly when a synchronous write keeps the law.  An answered write needs
   *  that no other value is pending for its point, because a later flush would
   *  put that older value back; a write that took effect without an OK answer
   *  must change nothing visible. */
  lemma SyncWriteKeepsLawIff(c: State, e: Entry, connects: bool, r: Reply)
    requires QueueOk(c) && !c.async && Honest(r)
    ensures var (c', rc) := Write(c, e, connects, r);
            var accepted := if rc == OK then [e] else [];
            Overlay(c'.server, c'.q) == Overlay(Overlay(c.server, c.q), accepted)
            <==>
            || (!c.connected && !connects) || !r.applied
            || (rc == OK && forall i :: 0 <= i < |c.q| && c.q[i].id == e.id ==> c.q[i].val == e.val)
            || (rc != OK && (Pending(c.q, e.id) || (e.id in c.server && c.server[e.id] == e.val)))
  {
    var (c', rc) := Write(c, e, connects, r);
    if (c.connected || connects) && r.applied {
      OverlayAt(c.server, c.q, e.id);
      OverlayAt(Put(c.server, e), c.q, e.id);
      assert Overlay(Overlay(c.server, c.q), [e]) == Put(Overlay(c.server, c.q), e);
      if Pending(c.q, e.id) {
        PendingHidesEffect(c.server, c.q, e);
        var i :| 0 <= i < |c.q| && c.q[i].id == e.id;
        var o := Overlay(c.server, c.q);
        assert o[e.id] == c.q[i].val;
        assert o == Put(o, e) <==> o[e.id] == e.val;
      } else {
        UnpendingCommutes(c.server, c.q, e);
        assert c.server == Put(c.server, e) <==> e.id in c.server && c.server[e.id] == e.val;
      }
    }
  }

  /** A write to a point with nothing pending shows through the queue. */
  lemma UnpendingCommutes(s: Store, q: seq<Entry>, e: Entry)
    requires Distinct(q) && !Pending(q, e.id)
    ensures Overlay(Put(s, e), q) == Put(Overlay(s, q), e)
  {
    forall id: u32
      ensures var a, b := Overlay(Put(s, e), q), Put(Overlay(s, q), e);
              (id in a <==> id in b) && (id in a ==> id in b && a[id] == b[id])
    {
      OverlayAt(s, q, id);
      OverlayAt(Put(s, e), q, id);
      if Pending(q, id) {
        var j :| 0 <= j < |q| && q[j].id == id;
        assert id in Overlay(s, q) && Overlay(s, q)[id] == q[j].val;
      }
    }
    SameStore(Overlay(Put(s, e), q), Put(Overlay(s, q), e));
  }

  // ---- The ring in memory ----

  /** Where the i-th oldest of count entries lies in a ring whose next free cell
   *  is head. */
  function RingAt(cap: nat, head: nat, count: nat, i: nat): (p: nat)
    requires head < cap && count <= cap && i < count
    ensures p < cap
  {
    var start := if head >= count then head - count else head + cap - count;
    if start + i < cap then start + i else start + i - cap
  }

  function Ring(buf: seq<Entry>, head: nat, count: nat): (q: seq<Entry>)
    requires head < |buf| && count <= |buf|
    ensures |q| == count
  {
    seq(count, i requires 0 <= i < count => buf[RingAt(|buf|, head, count, i)])
  }

  lemma RingUpdated(buf: seq<Entry>, head: nat, count: nat, i: nat, e: Entry)
    requires head < |buf| && count <= |buf| && i < count
    ensures Ring(buf[RingAt(|buf|, head, count, i) := e], head, count) == Ring(buf, head, count)[i := e]
  {
  }

  lemma RingAppended(buf: seq<Entry>, head: nat, count: nat, e: Entry)
    requires head < |buf| && count < |buf|
    ensures Ring(buf[head := e], if head + 1 < |buf| then head + 1 else 0, count + 1) == Ring(buf, head, count) + [e]
  {
  }

  /** Popping lowers the count; raising it again brings the entry back. */
  lemma RingDropped(buf: seq<Entry>, head: nat, count: nat)
    requires head < |buf| && 0 < count <= |buf|
    ensures Ring(buf, head, count) == [buf[RingAt(|buf|, head, count, 0)]] + Ring(buf, head, count - 1)
  {
  }

  lemma WrappedRemainder(x: nat, cap: nat)
    requires cap > 0 && x < 2 * cap
    ensures x % cap == if x < cap then x else x - cap
  {
    Layout.RemainderUnique(x, cap, if x < cap then 0 else 1, if x < cap then x else x - cap);
  }

  /** After `done` rounds a flush of c0 has still to do what a flush of c does. */
  ghost predicate Flushing(c0: State, c: State, attempts: seq<Attempt>, done: nat) {
    && |c0.q| <= |attempts| && done + |c.q| <= |attempts|
    && c.cap == c0.cap && c.async == c0.async
    && var whole := FlushFrom(c0.q, c0.server, c0.connected, attempts);
       var rest := FlushFrom(c.q, c.server, c.connected, attempts[done..]);
       whole == (rest.0, rest.1, rest.2, done + rest.3)
  }

  /** One round: the entry leaves the queue, or the flush is over. */
  function Round(c: State, a: Attempt): (State, bool)
    requires c.q != []
  {
    var (s', connected', rc) := SubmitWithRetry(c.server, c.connected, c.q[0], a);
    (State(if rc == OK then c.q[1..] else c.q, c.cap, c.async, connected', s'), rc == OK)
  }

  lemma FlushingRound(c0: State, c: State, attempts: seq<Attempt>, done: nat)
    requires Flushing(c0, c, attempts, done) && c.q != []
    ensures var (c', ok) := Round(c, attempts[done]);
            && (ok ==> Flushing(c0, c', attempts, done + 1))
            && (!ok ==> FlushFrom(c0.q, c0.server, c0.connected, attempts) == (c'.q, c'.server, c'.connected, done))
  {
    var rest := attempts[done..];
    assert rest[0] == attempts[done] && rest[1..] == attempts[done + 1..];
    UnfoldFlush(c.q, c.server, c.connected, rest);
  }

  lemma FlushOver(c0: State, c: State, attempts: seq<Attempt>, done: nat)
    requires Flushing(c0, c, attempts, done) && c.q == []
    ensures FlushFrom(c0.q, c0.server, c0.connected, attempts) == (c.q, c.server, c.connected, done)
  {
  }

  lemma UnfoldFlush(q: seq<Entry>, s: Store, connected: bool, attempts: seq<Attempt>)
    requires |attempts| >= |q| > 0
    ensures var (s', connected', rc) := SubmitWithRetry(s, connected, q[0], attempts[0]);
            FlushFrom(q, s, connected, attempts)
            == if rc != OK then (q, s', connected', 0)
               else
                 var rest := FlushFrom(q[1..], s', connected', attempts[1..]);
                 (rest.0, rest.1, rest.2, rest.3 + 1)
  {
  }

  const QUEUE_CAP_DEFAULT: nat := 256
  const QUEUE_CAP_MAX: nat := 4096

  class Client {
    const queue: array<Entry>
    var head: nat
    var count: nat
    var async: bool
    var connected: bool
    // The store behind the connection; only submits change it.
    var server: Store

    ghost predicate Valid()
      reads this
    {
      0 < queue.Length && head < queue.Length && count <= queue.Length
    }

    ghost function View(): State
      requires Valid()
      reads this, queue
    {
      State(Ring(queue[..], head, count), queue.Length, async, connected, server)
    }

    /** irtcli_init, with its default for capacity 0. */
    constructor (cap: nat, blank: Entry, server: Store)
      requires cap <= 4096
      ensures Valid() && fresh(queue)
      ensures View() == State([], if cap == 0 then 256 else cap, true, false, server)
    {
      queue := new Entry[if cap == 0 then QUEUE_CAP_DEFAULT else cap](_ => blank);
      head, count := 0, 0;
      async, connected := true, false;
      this.server := server;
    }

    /** irtcli_init, which refuses a capacity beyond the maximum. */
    static method Init(cap: nat, blank: Entry, server: Store) returns (c: Client?, rc: Code)
      ensures rc == if cap > 4096 then ERR_ARG else OK
      ensures if rc != OK then c == null
              else c != null && fresh(c) && c.Valid() && c.View() == State([], if cap == 0 then 256 else cap, true, false, server)
    {
      if cap > QUEUE_CAP_MAX {
        return null, ERR_ARG;
      }
      c := new Client(cap, blank, server);
      rc := OK;
    }

    /** The search loop of q_push: the position in the queue and the cell. */
    method FindPending(id: u32) returns (i: nat, at: nat)
      requires Valid()
      ensures i == FindId(View().q, id) && (i < count ==> at == RingAt(queue.Length, head, count, i))
    {
      var n, cap := count, queue.Length;
      WrappedRemainder(head + cap - n, cap);
      var start := (head + cap - n) % cap;
      i, at := 0, 0;
      while i < n
        invariant i <= n && FindId(View().q, id) >= i
      {
        WrappedRemainder(start + i, cap);
        at := (start + i) % cap;
        assert queue[at] == View().q[i];
        if queue[at].id == id {
          return;
        }
        i := i + 1;
      }
    }

    method QPush(e: Entry) returns (rc: Code)
      requires Valid()
      modifies this`head, this`count, queue
      ensures Valid()
      ensures (View().q, rc) == Push(old(View().q), queue.Length, e)
    {
      var i, at := FindPending(e.id);
      if i < count {
        RingUpdated(queue[..], head, count, i, e);
        queue[at] := Entry(queue[at].id, e.val);
        return OK;
      }
      if count >= queue.Length {
        return ERR_FULL;
      }
      RingAppended(queue[..], head, count, e);
      queue[head] := e;
      WrappedRemainder(head + 1, queue.Length);
      head := (head + 1) % queue.Length;
      count := count + 1;
      rc := OK;
    }

    /** q_pop: the cell keeps its contents, only the count falls. */
    method QPop() returns (e: Entry)
      requires Valid() && count > 0
      modifies this`count
      ensures Valid() && count == old(count) - 1
      ensures [e] + View().q == old(View().q)
    {
      var cap := queue.Length;
      RingDropped(queue[..], head, count);
      WrappedRemainder(head + cap - count, cap);
      var start := (head + cap - count) % cap;
      e := queue[start];
      count := count - 1;
    }

    /** submit_one.  OK means that the server has the entry; after any other code
     *  it may or may not have it, and nothing else has changed. */
    method SubmitOne(e: Entry, r: Reply) returns (rc: Code)
      modifies this`server
      ensures server == Effect(old(server), e, r) && rc == CodeOf(r)
      ensures Honest(r) && rc == OK ==> server == Put(old(server), e)
      ensures server == old(server) || server == Put(old(server), e)
      ensures rc == OK <==> r.headerSent && r.payloadSent && r.response == Some(GOOD_RESPONSE)
      ensures rc == ERR_DENIED <==>
                r.headerSent && r.payloadSent && r.response == Some(Response(MAGIC, PROTO_VERSION, ST_DENIED))
      ensures rc == ERR_IO <==> !r.headerSent || !r.payloadSent || r.response.None?
      ensures rc in {OK, ERR_DENIED, ERR_IO, ERR_PROTO}
    {
      // The server may have taken the request whatever the client gets to see.
      if r.applied {
        server := server[e.id := Value(e.val.ptype, e.val.bits, e.val.sourceTs)];
      }
      if !r.headerSent {
        return ERR_IO;
      }
      if !r.payloadSent {
        return ERR_IO;
      }
      match r.response {
        case None => rc := ERR_IO;
        case Some(p) =>
          if p.magic != MAGIC || p.version != PROTO_VERSION {
            return ERR_PROTO;
          }
          rc := if p.status == ST_OK then OK else if p.status == ST_DENIED then ERR_DENIED else ERR_PROTO;
      }
    }

    method WriteEntry(e: Entry, connects: bool, r: Reply) returns (rc: Code)
      requires Valid()
      modifies this`head, this`count, this`connected, this`server, queue
      ensures Valid()
      ensures (View(), rc) == Write(old(View()), e, connects, r)
    {
      if async {
        rc := QPush(e);
        return if rc == OK then QUEUED else rc;
      }
      if !connected {
        if !connects {
          return ERR_IO;
        }
        connected := true;
      }
      rc := SubmitOne(e, r);
      if rc == ERR_IO {
        connected := false;
      }
    }

    /** The body of the flush loop up to its verdict: after an I/O error,
     *  reconnect and submit once more. */
    method SubmitTwice(e: Entry, a: Attempt) returns (rc: Code)
      modifies this`server, this`connected
      ensures (server, connected, rc) == SubmitWithRetry(old(server), old(connected), e, a)
    {
      rc := SubmitOne(e, a.first);
      if rc == ERR_IO {
        connected := false;
        if a.reconnect {
          connected := true;
          rc := SubmitOne(e, a.second);
        }
      }
    }

    /** One round of the flush loop: pop, submit, and on failure restore the
     *  count, which puts the entry, still in its cell, back at the front. */
    method SubmitHead(a: Attempt) returns (ok: bool)
      requires Valid() && count > 0
      modifies this`count, this`server, this`connected
      ensures Valid() && (View(), ok) == Round(old(View()), a)
    {
      ghost var before := View();
      var e := QPop();
      assert e == before.q[0] && View().q == before.q[1..];
      var rc := SubmitTwice(e, a);
      assert View().q == before.q[1..];
      ok := rc == OK;
      if !ok {
        count := count + 1;
        assert View().q == before.q;
      }
    }

    method FlushLoop(attempts: seq<Attempt>) returns (submitted: nat)
      requires Valid() && |attempts| >= count
      modifies this`count, this`connected, this`server
      ensures Valid()
      ensures (View().q, server, connected, submitted)
              == FlushFrom(old(View().q), old(server), old(connected), attempts)
    {
      ghost var c0 := View();
      submitted := 0;
      while count > 0
        invariant Valid() && Flushing(c0, View(), attempts, submitted)
        decreases count
      {
        FlushingRound(c0, View(), attempts, submitted);
        var ok := SubmitHead(attempts[submitted]);
        if !ok {
          return;
        }
        submitted := submitted + 1;
      }
      FlushOver(c0, View(), attempts, submitted);
    }

    method FlushQueue(connects: bool, attempts: seq<Attempt>) returns (submitted: nat)
      requires Valid() && |attempts| >= count
      modifies this`count, this`connected, this`server
      ensures Valid()
      ensures (View(), submitted) == Flush(old(View()), connects, attempts)
    {
      if count == 0 {
        return 0;
      }
      if !connected {
        if !connects {
          return 0;
        }
        connected := true;
      }
      submitted := FlushLoop(attempts);
    }
  }
}
