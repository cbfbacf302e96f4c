/** The outbound notification queue of one connection
 *  (rtdbd/src/rtdbd.c:123-145 and 191-278).
 *
 * A bounded ring of notifications, sent frame by frame with partial sends.
 * The socket is an oracle that says how each send goes.
 */
module OutQueue {
  import opened Common

  const CAP: nat := 64
  const FRAME_LEN: nat := 44

  /** The 32-byte payload of a notification. */
  type Note = p: seq<byte> | |p| == 32 witness seq(32, _ => 0)

  /** Request header: magic "RBD1" (0x52424431), version 3, opcode 6, payload
   *  length 32, all little-endian. */
  const HEADER: seq<byte> := [0x31, 0x44, 0x42, 0x52, 3, 0, 6, 0, 32, 0, 0, 0]

  function Frame(n: Note): (f: seq<byte>)
    ensures |f| == FRAME_LEN
  {
    HEADER + n
  }

  function Frames(ns: seq<Note>): seq<byte> {
    if ns == [] then [] else Frame(ns[0]) + Frames(ns[1..])
  }

  /** One send: interrupted, would block, failed, or some bytes taken. */
  datatype SendResult = Interrupted | Again | Failed | Sent(k: nat)

  /** A place inside a frame. */
  type FrameOffset = n: nat | n < FRAME_LEN

  /** The queue and how much of its first frame is already on the wire. */
  datatype Queue = Queue(notes: seq<Note>, sent: FrameOffset)

  const EMPTY := Queue([], 0)

  datatype PushOutcome = Queued | QueuedDroppingOldest | Refused

  /** outq_push */
  function Push(o: Queue, n: Note): (Queue, PushOutcome) {
    if |o.notes| < CAP then (o.(notes := o.notes + [n]), Queued)
    else if o.sent > 0 then (o, Refused)
    else (o.(notes := o.notes[1..] + [n]), QueuedDroppingOldest)
  }

  /** What a flush did: the queue after it, the bytes put on the wire, how many
   *  frames were completed, how much of the next frame is on the wire, whether
   *  the connection failed and how many notifications were then discarded. */
  datatype Flushed = Flushed(o: Queue, bytes: seq<byte>, completed: nat, cut: nat, failed: bool, discarded: nat)

  /** outq_flush.  When the list of results is used up the socket blocks; a
   *  send never takes more than it was offered. */
  function Flush(o: Queue, sends: seq<SendResult>): Flushed
    decreases |sends|
  {
    if o.notes == [] || sends == [] then Flushed(o, [], 0, o.sent, false, 0)
    else
      match sends[0]
      case Interrupted => Flush(o, sends[1..])
      case Again => Flushed(o, [], 0, o.sent, false, 0)
      case Failed => Flushed(EMPTY, [], 0, o.sent, true, |o.notes|)
      case Sent(k0) =>
        var k := Taken(o, k0);
        var part := Frame(o.notes[0])[o.sent..o.sent + k];
        if o.sent + k < FRAME_LEN then Flushed(o.(sent := o.sent + k), part, 0, o.sent + k, false, 0)
        else
          var rest := Flush(Queue(o.notes[1..], 0), sends[1..]);
          rest.(bytes := part + rest.bytes, completed := rest.completed + 1)
  }

  function Taken(o: Queue, k: nat): nat
  {
    if k <= FRAME_LEN - o.sent then k else FRAME_LEN - o.sent
  }

  // ---- What is on the wire ----

  ghost predicate QueueOk(o: Queue) {
    |o.notes| <= CAP && (o.notes == [] ==> o.sent == 0)
  }

  /** The first `sent` bytes of the first frame. */
  function Head(notes: seq<Note>, sent: nat): seq<byte>
    requires sent < FRAME_LEN
  {
    if notes == [] then [] else Frame(notes[0])[..sent]
  }

  lemma {:induction false} FramesConcat(a: seq<Note>, b: seq<Note>)
    ensures Frames(a + b) == Frames(a) + Frames(b)
    decreases |a|
  {
    if a == [] {
      assert a + b == b;
    } else {
      assert (a + b)[1..] == a[1..] + b;
      FramesConcat(a[1..], b);
    }
  }

  /** The counts of a flush: which notifications left the queue, and how. */
  lemma {:induction false} FlushCounts(o: Queue, sends: seq<SendResult>)
    requires QueueOk(o)
    ensures var f := Flush(o, sends);
            && QueueOk(f.o) && f.completed <= |o.notes| && f.cut < FRAME_LEN
            && (!f.failed ==> f.o == Queue(o.notes[f.completed..], f.cut) && f.discarded == 0)
            && (f.failed ==> f.o == EMPTY && f.completed + f.discarded == |o.notes| && f.discarded > 0)
    decreases |sends|
  {
    if o.notes != [] && sends != [] {
      if sends[0].Interrupted? {
        FlushCounts(o, sends[1..]);
      } else if sends[0].Sent? && o.sent + Taken(o, sends[0].k) == FRAME_LEN {
        FlushCounts(Queue(o.notes[1..], 0), sends[1..]);
      }
    }
  }

  lemma FrameThenRest(n: Note, notes: seq<Note>, c: nat, cut: nat, before: seq<byte>, part: seq<byte>, bytes: seq<byte>)
    requires before + part == Frame(n) && c <= |notes| && cut < FRAME_LEN
    requires bytes == Frames(notes[..c]) + Head(notes[c..], cut)
    ensures before + (part + bytes) == Frames(([n] + notes)[..c + 1]) + Head(([n] + notes)[c + 1..], cut)
  {
    assert ([n] + notes)[..c + 1] == [n] + notes[..c];
    assert ([n] + notes)[c + 1..] == notes[c..];
    assert ([n] + notes[..c])[1..] == notes[..c];
    assert before + (part + bytes) == (before + part) + bytes;
  }

  lemma FrameFlush(o: Queue, sends: seq<SendResult>)
    requires o.notes != [] && sends != [] && sends[0].Sent? && o.sent + Taken(o, sends[0].k) == FRAME_LEN
    ensures var f, rest := Flush(o, sends), Flush(Queue(o.notes[1..], 0), sends[1..]);
            && f.bytes == Frame(o.notes[0])[o.sent..FRAME_LEN] + rest.bytes
            && f.completed == rest.completed + 1 && f.cut == rest.cut
  {
  }

  /** The send that ends the head frame, and the flush that goes on from there. */
  lemma FrameEnds(o: Queue, sends: seq<SendResult>, rest: Flushed)
    requires QueueOk(o) && o.notes != [] && sends != [] && sends[0].Sent?
    requires o.sent + Taken(o, sends[0].k) == FRAME_LEN
    requires rest == Flush(Queue(o.notes[1..], 0), sends[1..])
    requires rest.completed <= |o.notes[1..]| && rest.cut < FRAME_LEN
    requires Head(o.notes[1..], 0) + rest.bytes
             == Frames(o.notes[1..][..rest.completed]) + Head(o.notes[1..][rest.completed..], rest.cut)
    ensures var f := Flush(o, sends);
            Head(o.notes, o.sent) + f.bytes == Frames(o.notes[..f.completed]) + Head(o.notes[f.completed..], f.cut)
  {
    var frame, tail := Frame(o.notes[0]), o.notes[1..];
    FrameFlush(o, sends);
    assert frame[..o.sent] + frame[o.sent..FRAME_LEN] == frame;
    assert Head(tail, 0) + rest.bytes == rest.bytes;
    FrameThenRest(o.notes[0], tail, rest.completed, rest.cut, frame[..o.sent], frame[o.sent..FRAME_LEN], rest.bytes);
    assert [o.notes[0]] + tail == o.notes;
  }

  /** What was already sent of the head frame, followed by the bytes of the
   *  flush, is the completed frames, whole and in queue order, followed by the
   *  sent part of the next frame. */
  lemma {:induction false} FlushSendsWholeFrames(o: Queue, sends: seq<SendResult>)
    requires QueueOk(o)
    ensures var f := Flush(o, sends);
            && f.completed <= |o.notes| && f.cut < FRAME_LEN
            && Head(o.notes, o.sent) + f.bytes == Frames(o.notes[..f.completed]) + Head(o.notes[f.completed..], f.cut)
    decreases |sends|
  {
    FlushCounts(o, sends);
    assert o.notes[0..] == o.notes && Frames(o.notes[..0]) == [];
    if o.notes != [] && sends != [] {
      if sends[0].Interrupted? {
        FlushSendsWholeFrames(o, sends[1..]);
      } else if sends[0].Sent? {
        var k := Taken(o, sends[0].k);
        if o.sent + k == FRAME_LEN {
          FlushSendsWholeFrames(Queue(o.notes[1..], 0), sends[1..]);
          FrameEnds(o, sends, Flush(Queue(o.notes[1..], 0), sends[1..]));
        } else {
          var frame := Frame(o.notes[0]);
          assert frame[..o.sent] + frame[o.sent..o.sent + k] == frame[..o.sent + k];
        }
      }
    }
  }

  lemma {:induction false} FramesLength(ns: seq<Note>)
    ensures |Frames(ns)| == FRAME_LEN * |ns|
  {
    if ns != [] {
      FramesLength(ns[1..]);
    }
  }

  /** The frames completed by a flush, told by its bytes. */
  lemma FramesCompleted(o: Queue, sends: seq<SendResult>)
    requires QueueOk(o)
    ensures Flush(o, sends).completed == (o.sent + |Flush(o, sends).bytes|) / FRAME_LEN
  {
    var f := Flush(o, sends);
    FlushCounts(o, sends);
    FlushSendsWholeFrames(o, sends);
    FramesLength(o.notes[..f.completed]);
    if f.completed == |o.notes| {
      AllSent(o, sends);
    }
  }

  /** Where nothing of the queue is left, nothing of a frame is left either. */
  lemma {:induction false} AllSent(o: Queue, sends: seq<SendResult>)
    requires QueueOk(o)
    ensures var f := Flush(o, sends); f.completed == |o.notes| ==> f.cut == 0
    decreases |sends|
  {
    if o.notes != [] && sends != [] {
      if sends[0].Interrupted? {
        AllSent(o, sends[1..]);
      } else if sends[0].Sent? && o.sent + Taken(o, sends[0].k) == FRAME_LEN {
        AllSent(Queue(o.notes[1..], 0), sends[1..]);
      }
    }
  }

  // ---- How far a flush gets ----

  /** The frames a flush has completed when it comes to result i, as long as no
   *  result before has stopped it. */
  function CompletedBy(sends: seq<SendResult>, i: nat): nat
    requires i <= |sends|
  {
    if i == 0 then 0 else CompletedBy(sends, i - 1) + if sends[i - 1].Sent? then 1 else 0
  }

  /** How much of the frame at hand is missing when the flush comes to result i. */
  function MissingAt(o: Queue, sends: seq<SendResult>, i: nat): nat
    requires i <= |sends|
  {
    if CompletedBy(sends, i) == 0 then 44 - o.sent else 44
  }

  /** The flush goes on after this result: an interrupted call, or one that took
   *  all that was missing. */
  predicate GoesOn(o: Queue, sends: seq<SendResult>, i: nat)
    requires i < |sends|
  {
    sends[i].Interrupted? || (sends[i].Sent? && sends[i].k >= MissingAt(o, sends, i))
  }

  ghost predicate StopsAt(o: Queue, sends: seq<SendResult>, j: nat) {
    && j <= |sends|
    && (forall i :: 0 <= i < j ==> GoesOn(o, sends, i) && CompletedBy(sends, i) < |o.notes|)
    && (j == |sends| || CompletedBy(sends, j) == |o.notes| || !GoesOn(o, sends, j))
  }

  /** A flush goes on until the queue is empty or a result stops it: the call
   *  would block, failed, or took only a part.  That part stays sent. */
  lemma {:induction false} FlushReaches(o: Queue, sends: seq<SendResult>) returns (j: nat)
    requires QueueOk(o)
    ensures StopsAt(o, sends, j)
    ensures var f, c := Flush(o, sends), CompletedBy(sends, j);
            && f.completed == c <= |o.notes|
            && (f.failed <==> c < |o.notes| && j < |sends| && sends[j].Failed?)
            && (!f.failed ==>
                  f.o == Queue(o.notes[c..],
                               if c == |o.notes| then 0
                               else 44 - MissingAt(o, sends, j) + if j < |sends| && sends[j].Sent? then sends[j].k else 0))
    decreases |sends|
  {
    if o.notes == [] || sends == [] || !GoesOn(o, sends, 0) {
      j := 0;
    } else {
      var o1 := if sends[0].Interrupted? then o else Queue(o.notes[1..], 0);
      var k := FlushReaches(o1, sends[1..]);
      j := k + 1;
      forall i: nat | i <= k
        ensures CompletedBy(sends, i + 1) == CompletedBy(sends[1..], i) + if sends[0].Sent? then 1 else 0
      {
        CompletedShifts(sends, i);
      }
      forall i | 0 <= i < j
        ensures GoesOn(o, sends, i) && CompletedBy(sends, i) < |o.notes|
      {
        if i > 0 {
          assert GoesOn(o1, sends[1..], i - 1) && CompletedBy(sends[1..], i - 1) < |o1.notes|;
        }
      }
    }
  }

  lemma {:induction false} CompletedShifts(sends: seq<SendResult>, i: nat)
    requires i < |sends|
    ensures CompletedBy(sends, i + 1) == CompletedBy(sends[1..], i) + if sends[0].Sent? then 1 else 0
  {
    if i > 0 {
      CompletedShifts(sends, i - 1);
    }
  }

  // ---- One connection from accept to close ----

  datatype Event = PushEvent(n: Note) | FlushEvent(sends: seq<SendResult>)

  /** A connection with its history: every notification ever pushed, and which
   *  of them were sent and which still wait, as positions in that list. */
  datatype Link = Link(o: Queue, wire: seq<byte>, pushed: seq<Note>, sent: seq<nat>, waiting: seq<nat>, open: bool)

  const NEW_LINK := Link(EMPTY, [], [], [], [], true)

  function Step(l: Link, e: Event): Link
  {
    if !l.open then l
    else
      match e
      case PushEvent(n) =>
        var (o', outcome) := Push(l.o, n);
        var me := |l.pushed|;
        var waiting' := match outcome
          case Queued => l.waiting + [me]
          case QueuedDroppingOldest => (if l.waiting == [] then [] else l.waiting[1..]) + [me]
          case Refused => l.waiting;
        l.(o := o', pushed := l.pushed + [n], waiting := waiting')
      case FlushEvent(sends) =>
        var f := Flush(l.o, sends);
        var c := if f.completed <= |l.waiting| then f.completed else |l.waiting|;
        Link(f.o, l.wire + f.bytes, l.pushed, l.sent + l.waiting[..c],
             if f.failed then [] else l.waiting[c..], !f.failed)
  }

  /** Positions in increasing order, all below n. */
  ghost predicate Increasing(ix: seq<nat>, n: nat) {
    && (forall i :: 0 <= i < |ix| ==> ix[i] < n)
    && (forall i, j :: 0 <= i < j < |ix| ==> ix[i] < ix[j])
  }

  ghost predicate AllBefore(a: seq<nat>, b: seq<nat>) {
    forall i, j :: 0 <= i < |a| && 0 <= j < |b| ==> a[i] < b[j]
  }

  ghost function At(pushed: seq<Note>, ix: seq<nat>): (ns: seq<Note>)
    requires Increasing(ix, |pushed|)
    ensures |ns| == |ix| && forall i :: 0 <= i < |ix| ==> ns[i] == pushed[ix[i]]
  {
    seq(|ix|, i requires 0 <= i < |ix| => pushed[ix[i]])
  }

  /** The notifications sent, then those waiting, are a subsequence of those
   *  pushed, in push order; the queue holds the waiting ones. */
  ghost predicate OrderOk(l: Link) {
    && QueueOk(l.o)
    && Increasing(l.sent, |l.pushed|) && Increasing(l.waiting, |l.pushed|) && AllBefore(l.sent, l.waiting)
    && l.o.notes == At(l.pushed, l.waiting)
  }

  ghost predicate CutAt(l: Link, j: nat, cut: nat)
    requires Increasing(l.sent, |l.pushed|)
  {
    j < |l.pushed| && cut < FRAME_LEN && l.wire == Frames(At(l.pushed, l.sent)) + Frame(l.pushed[j])[..cut]
  }

  /** The wire holds whole frames of the notifications sent, followed by a
   *  proper prefix of one frame: while open, of the current head. */
  ghost predicate WireOk(l: Link)
    requires OrderOk(l)
  {
    && (l.open ==> l.wire == Frames(At(l.pushed, l.sent)) + Head(l.o.notes, l.o.sent))
    && (!l.open ==> exists j: nat, cut: nat :: CutAt(l, j, cut))
  }

  ghost predicate LinkOk(l: Link) {
    OrderOk(l) && WireOk(l)
  }

  /** A partly sent head is neither evicted nor replaced by a push. */
  lemma PartialHeadStays(o: Queue, n: Note)
    requires QueueOk(o) && o.sent > 0
    ensures var (o', outcome) := Push(o, n);
            && QueueOk(o') && o'.sent == o.sent && o'.notes != [] && o'.notes[0] == o.notes[0]
            && outcome != QueuedDroppingOldest
  {
  }

  lemma AtGrown(pushed: seq<Note>, n: Note, ix: seq<nat>)
    requires Increasing(ix, |pushed|)
    ensures Increasing(ix, |pushed + [n]|) && At(pushed + [n], ix) == At(pushed, ix)
    ensures Increasing(ix + [|pushed|], |pushed + [n]|)
    ensures At(pushed + [n], ix + [|pushed|]) == At(pushed, ix) + [n]
  {
  }

  lemma PushKeepsLinkOk(l: Link, n: Note)
    requires LinkOk(l) && l.open
    ensures LinkOk(Step(l, PushEvent(n)))
  {
    PushKeepsOrder(l, n);
    AtGrown(l.pushed, n, l.sent);
    PartialHeadUnchanged(l.o, n);
  }

  lemma PushKeepsOrder(l: Link, n: Note)
    requires OrderOk(l) && l.open
    ensures OrderOk(Step(l, PushEvent(n)))
  {
    AtGrown(l.pushed, n, l.sent);
    AtGrown(l.pushed, n, l.waiting);
    match Push(l.o, n).1
    case Queued => KeepsOrder(l, n, l.waiting, l.o.notes);
    case QueuedDroppingOldest => KeepsOrder(l, n, l.waiting[1..], l.o.notes[1..]);
    case Refused =>
  }

  /** Adding the new notification behind any waiting ones keeps the order. */
  lemma KeepsOrder(l: Link, n: Note, kept: seq<nat>, notes: seq<Note>)
    requires Increasing(kept, |l.pushed|) && notes == At(l.pushed, kept)
    requires Increasing(l.sent, |l.pushed|) && AllBefore(l.sent, kept)
    ensures var waiting := kept + [|l.pushed|];
            && Increasing(waiting, |l.pushed| + 1) && AllBefore(l.sent, waiting)
            && notes + [n] == At(l.pushed + [n], waiting)
  {
    AtGrown(l.pushed, n, kept);
  }

  lemma PartialHeadUnchanged(o: Queue, n: Note)
    requires QueueOk(o)
    ensures var o' := Push(o, n).0; QueueOk(o') && Head(o'.notes, o'.sent) == Head(o.notes, o.sent)
  {
    assert Frame(n)[..0] == [];
  }

  lemma AtSplit(pushed: seq<Note>, sent: seq<nat>, waiting: seq<nat>, c: nat)
    requires Increasing(sent, |pushed|) && Increasing(waiting, |pushed|) && AllBefore(sent, waiting) && c <= |waiting|
    ensures Increasing(sent + waiting[..c], |pushed|) && Increasing(waiting[c..], |pushed|)
    ensures AllBefore(sent + waiting[..c], waiting[c..])
    ensures At(pushed, sent + waiting[..c]) == At(pushed, sent) + At(pushed, waiting)[..c]
    ensures At(pushed, waiting[c..]) == At(pushed, waiting)[c..]
  {
  }

  /** The wire after a flush, as bytes. */
  lemma WireGrows(l: Link, sends: seq<SendResult>)
    requires LinkOk(l) && l.open
    ensures var f := Flush(l.o, sends);
            && f.completed <= |l.o.notes| && f.cut < FRAME_LEN
            && l.wire + f.bytes == Frames(At(l.pushed, l.sent) + l.o.notes[..f.completed]) + Head(l.o.notes[f.completed..], f.cut)
  {
    var f := Flush(l.o, sends);
    FlushSendsWholeFrames(l.o, sends);
    var done := l.o.notes[..f.completed];
    FramesConcat(At(l.pushed, l.sent), done);
    Regroup(Frames(At(l.pushed, l.sent)), Head(l.o.notes, l.o.sent), f.bytes, Frames(done),
            Head(l.o.notes[f.completed..], f.cut));
  }

  lemma Regroup(a: seq<byte>, b: seq<byte>, c: seq<byte>, d: seq<byte>, e: seq<byte>)
    requires b + c == d + e
    ensures (a + b) + c == (a + d) + e
  {
    assert (a + b) + c == a + (b + c);
    assert (a + d) + e == a + (d + e);
  }

  lemma FlushKeepsLinkOk(l: Link, sends: seq<SendResult>)
    requires LinkOk(l) && l.open
    ensures LinkOk(Step(l, FlushEvent(sends)))
  {
    var l' := Step(l, FlushEvent(sends));
    var f := Flush(l.o, sends);
    FlushCounts(l.o, sends);
    WireGrows(l, sends);
    AtSplit(l.pushed, l.sent, l.waiting, f.completed);
    if f.failed {
      var j := l.waiting[f.completed];
      assert l.o.notes[f.completed..][0] == l.pushed[j];
      assert CutAt(l', j, f.cut);
    }
  }

  function Run(l: Link, events: seq<Event>): Link
    decreases |events|
  {
    if events == [] then l else Run(Step(l, events[0]), events[1..])
  }

  lemma {:induction false} RunKeepsLinkOk(l: Link, events: seq<Event>)
    requires LinkOk(l)
    ensures LinkOk(Run(l, events))
    decreases |events|
  {
    if events != [] {
      if l.open {
        match events[0] {
          case PushEvent(n) => PushKeepsLinkOk(l, n);
          case FlushEvent(sends) => FlushKeepsLinkOk(l, sends);
        }
      }
      RunKeepsLinkOk(Step(l, events[0]), events[1..]);
    }
  }

  /** For every sequence of pushes and flushes on a new connection and every
   *  behaviour of the socket: the bytes sent are whole frames of a subsequence
   *  of the pushed notifications in push order, and a proper prefix of one. */
  lemma WireIsWholeFrames(events: seq<Event>)
    ensures LinkOk(Run(NEW_LINK, events))
  {
    RunKeepsLinkOk(NEW_LINK, events);
  }

  // ---- One send at a time ----

  datatype Verdict = Retry | Stop | NextFrame | Broken

  /** One round of the loop of outq_flush on a non-empty queue: the queue after
   *  it, the bytes sent, and how the loop goes on. */
  function Round(o: Queue, r: SendResult): (Queue, seq<byte>, Verdict)
    requires o.notes != []
  {
    match r
    case Interrupted => (o, [], Retry)
    case Again => (o, [], Stop)
    case Failed => (EMPTY, [], Broken)
    case Sent(k0) =>
      var k := Taken(o, k0);
      var part := Frame(o.notes[0])[o.sent..o.sent + k];
      if o.sent + k < FRAME_LEN then (o.(sent := o.sent + k), part, Stop)
      else (Queue(o.notes[1..], 0), part, NextFrame)
  }

  /** A flush so far, and what is left of it. */
  ghost predicate Flushing(whole: Flushed, bytes: seq<byte>, completed: nat, o: Queue, sends: seq<SendResult>)
  {
    var rest := Flush(o, sends);
    && whole.o == rest.o && whole.bytes == bytes + rest.bytes
    && whole.completed == completed + rest.completed && whole.failed == rest.failed
  }

  lemma FlushingRound(whole: Flushed, bytes: seq<byte>, completed: nat, o: Queue, sends: seq<SendResult>, i: nat)
    requires o.notes != [] && i < |sends|
    requires Flushing(whole, bytes, completed, o, sends[i..])
    ensures var (o', part, verdict) := Round(o, sends[i]);
            && (verdict == Retry ==> Flushing(whole, bytes, completed, o', sends[i + 1..]))
            && (verdict == NextFrame ==> Flushing(whole, bytes + part, completed + 1, o', sends[i + 1..]))
            && (verdict == Stop || verdict == Broken ==>
                  whole.o == o' && whole.bytes == bytes + part && whole.completed == completed
                  && whole.failed == (verdict == Broken))
  {
    assert sends[i..][1..] == sends[i + 1..];
    var (o', part, verdict) := Round(o, sends[i]);
    if verdict == NextFrame {
      var rest := Flush(o', sends[i + 1..]);
      assert (bytes + part) + rest.bytes == bytes + (part + rest.bytes);
    }
  }

  // ---- The ring in memory ----

  function RingNotes(buf: seq<Note>, head: nat, count: nat): (q: seq<Note>)
    requires |buf| == CAP && head < CAP && count <= CAP
    ensures |q| == count
  {
    seq(count, i requires 0 <= i < count => buf[(head + i) % CAP])
  }

  lemma RingAppended(buf: seq<Note>, head: nat, count: nat, n: Note)
    requires |buf| == CAP && head < CAP && count < CAP
    ensures RingNotes(buf[(head + count) % CAP := n], head, count + 1) == RingNotes(buf, head, count) + [n]
  {
  }

  lemma RingDropped(buf: seq<Note>, head: nat, count: nat)
    requires |buf| == CAP && head < CAP && 0 < count <= CAP
    ensures RingNotes(buf, (head + 1) % CAP, count - 1) == RingNotes(buf, head, count)[1..]
    ensures RingNotes(buf, head, count)[0] == buf[head]
  {
  }

  class Ring {
    const outq: array<Note>
    var head: nat
    var tail: nat
    var count: nat
    var sent: nat

    ghost predicate Valid()
      reads this
    {
      && outq.Length == CAP && head < CAP && count <= CAP && sent < FRAME_LEN
      && tail == (head + count) % CAP
    }

    ghost function View(): Queue
      requires Valid()
      reads this, outq
    {
      Queue(RingNotes(outq[..], head, count), sent)
    }

    /** The queue part of conn_init. */
    constructor ()
      ensures Valid() && fresh(outq) && View() == EMPTY
    {
      outq := new Note[CAP];
      head, tail, count, sent := 0, 0, 0, 0;
    }

    method PushNote(n: Note) returns (outcome: PushOutcome)
      requires Valid()
      modifies this`head, this`tail, this`count, outq
      ensures Valid() && (View(), outcome) == Push(old(View()), n)
    {
      outcome := Queued;
      if count == CAP {
        // A head that is partly on the wire must stay: the new one is refused.
        if sent > 0 {
          return Refused;
        }
        RingDropped(outq[..], head, count);
        head := (head + 1) % CAP;
        count := count - 1;
        outcome := QueuedDroppingOldest;
      }
      RingAppended(outq[..], head, count, n);
      outq[tail] := n;
      tail := (tail + 1) % CAP;
      count := count + 1;
    }

    method Discard() returns (dropped: nat)
      requires Valid()
      modifies this
      ensures Valid() && View() == EMPTY && dropped == |old(View()).notes|
    {
      dropped := count;
      count, head, tail, sent := 0, 0, 0, 0;
    }

    /** One send of the head frame from where the last one stopped. */
    method SendOnce(r: SendResult) returns (part: seq<byte>, verdict: Verdict)
      requires Valid() && count > 0
      modifies this
      ensures Valid() && (View(), part, verdict) == Round(old(View()), r)
    {
      RingDropped(outq[..], head, count);
      match r {
        case Interrupted =>
          return [], Retry;
        case Again =>
          return [], Stop;
        case Failed =>
          var _ := Discard();
          return [], Broken;
        case Sent(k0) =>
          var frame := Frame(outq[head]);
          var k := if k0 <= FRAME_LEN - sent then k0 else FRAME_LEN - sent;
          part := frame[sent..sent + k];
          if sent + k < FRAME_LEN {
            sent := sent + k;
            return part, Stop;
          }
          head := (head + 1) % CAP;
          count := count - 1;
          sent := 0;
          return part, NextFrame;
      }
    }

    /** outq_flush against a socket that behaves as `sends` says.  Returns the
     *  bytes put on the wire, the number of completed frames, and whether the
     *  connection failed. */
    method FlushAll(sends: seq<SendResult>) returns (bytes: seq<byte>, completed: nat, failed: bool)
      requires Valid()
      modifies this
      ensures Valid()
      ensures var f := Flush(old(View()), sends);
              View() == f.o && bytes == f.bytes && completed == f.completed && failed == f.failed
    {
      bytes, completed, failed := [], 0, false;
      ghost var whole := Flush(View(), sends);
      for i := 0 to |sends|
        invariant Valid() && !failed && Flushing(whole, bytes, completed, View(), sends[i..])
      {
        if count == 0 {
          return;
        }
        FlushingRound(whole, bytes, completed, View(), sends, i);
        var part, verdict := SendOnce(sends[i]);
        bytes := bytes + part;
        if verdict == Stop || verdict == Broken {
          failed := verdict == Broken;
          return;
        }
        if verdict == NextFrame {
          completed := completed + 1;
        }
      }
    }
  }
}
