/** The timeout scan (irt_pm_check_timeouts, src/core/irt_point_manager.c:204-271)
 *  against writers that keep running, and the same scan when nobody else does.
 *
 * A cell is the part of a point the scan looks at.  The quality byte holds the
 * base code in bits 0-3 and the limit code in bits 4-5
 * (include/indurtdb/indurtdb.h:60, 128-131).
 */
module TimeoutScan {
  import opened Common

  datatype Cell = Cell(ts: nat, quality: byte)

  const QUALITY_TIMEOUT: byte := 2

  function Base(q: byte): byte {
    q % 16
  }

  function Limit(q: byte): byte {
    q / 16 % 4
  }

  function Make(base: byte, limit: byte): byte {
    base % 16 + limit % 4 * 16
  }

  /** The second test, taken under the lock (lines 253-256), passes. */
  predicate Due(c: Cell, now: nat, timeout: nat) {
    c.ts != 0 && c.ts < now && c.quality != QUALITY_TIMEOUT && now - c.ts > timeout
  }

  function Marked(c: Cell): Cell {
    c.(quality := Make(QUALITY_TIMEOUT, Limit(c.quality)))
  }

  lemma MarkingKeepsLimit(c: Cell)
    ensures Base(Marked(c).quality) == QUALITY_TIMEOUT && Limit(Marked(c).quality) == Limit(c.quality)
    ensures Marked(c).ts == c.ts
    ensures Marked(c).quality == QUALITY_TIMEOUT <==> Limit(c.quality) == 0
  {
    var l := Limit(c.quality);
    assert Make(QUALITY_TIMEOUT, l) == 2 + l * 16;
  }

  /** Overdue in plain terms: the point was written, its time lies more than the
   *  timeout back, and its quality byte is not exactly TIMEOUT, whatever other
   *  base or limit code it has. */
  lemma DueIsOverdue(c: Cell, now: nat, timeout: nat)
    ensures Due(c, now, timeout) <==> c.ts != 0 && c.ts + timeout < now && c.quality != 2
  {
  }

  // ---- The scan alone ----

  function ScannedCell(c: Cell, now: nat, timeout: nat, skipped: bool): Cell {
    if Due(c, now, timeout) && !skipped then Marked(c) else c
  }

  /** What a scan makes of the cells; skip tells for which points write_begin
   *  gave up. */
  function Scanned(cells: seq<Cell>, now: nat, timeout: nat, skip: set<nat>): (after: seq<Cell>) {
    seq(|cells|, i requires 0 <= i < |cells| => ScannedCell(cells[i], now, timeout, i in skip))
  }

  /** The due points below a bound that are, or are not, skipped. */
  function DueBelow(cells: seq<Cell>, now: nat, timeout: nat, skip: set<nat>, skipped: bool, bound: nat): set<nat>
    requires bound <= |cells|
  {
    set i: nat | i < bound && Due(cells[i], now, timeout) && (i in skip) == skipped
  }

  function Detected(cells: seq<Cell>, now: nat, timeout: nat, skip: set<nat>): set<nat> {
    DueBelow(cells, now, timeout, skip, false, |cells|)
  }

  function Skipped(cells: seq<Cell>, now: nat, timeout: nat, skip: set<nat>): set<nat> {
    DueBelow(cells, now, timeout, skip, true, |cells|)
  }

  lemma DueGrows(cells: seq<Cell>, now: nat, timeout: nat, skip: set<nat>, skipped: bool, bound: nat)
    requires bound < |cells|
    ensures var found := DueBelow(cells, now, timeout, skip, skipped, bound);
            |DueBelow(cells, now, timeout, skip, skipped, bound + 1)|
            == |found| + if Due(cells[bound], now, timeout) && (bound in skip) == skipped then 1 else 0
  {
    var found := DueBelow(cells, now, timeout, skip, skipped, bound);
    assert bound !in found;
    assert DueBelow(cells, now, timeout, skip, skipped, bound + 1)
           == if Due(cells[bound], now, timeout) && (bound in skip) == skipped then found + {bound} else found;
  }

  class Manager {
    const cells: array<Cell>
    var timeouts: nat
    var scanSkipped: nat

    constructor (maxPoints: nat)
      ensures fresh(cells) && cells.Length == maxPoints
      ensures forall i :: 0 <= i < maxPoints ==> cells[i] == Cell(0, 0)
      ensures timeouts == 0 && scanSkipped == 0
    {
      cells := new Cell[maxPoints](_ => Cell(0, 0));
      timeouts, scanSkipped := 0, 0;
    }

    /** The loop body for one point: `seen` is what the unlocked look returned,
     *  `locked` whether write_begin gave the lock.  The point is marked when it
     *  was due both then and now. */
    method CheckOne(id: nat, now: nat, timeout: nat, seen: Cell, locked: bool) returns (hit: bool)
      requires id < cells.Length
      modifies this, cells
      ensures hit <==> Due(seen, now, timeout) && locked && Due(old(cells[id]), now, timeout)
      ensures cells[id] == if hit then Marked(old(cells[id])) else old(cells[id])
      ensures forall i :: 0 <= i < cells.Length && i != id ==> cells[i] == old(cells[i])
      ensures timeouts == old(timeouts) + if hit then 1 else 0
      ensures scanSkipped == old(scanSkipped) + if Due(seen, now, timeout) && !locked then 1 else 0
    {
      hit := false;
      if seen.ts == 0 || seen.quality == QUALITY_TIMEOUT || seen.ts >= now || now - seen.ts <= timeout {
        return;
      }
      if !locked {
        scanSkipped := scanSkipped + 1;
        return;
      }
      var p := cells[id];
      if p.ts == 0 || p.ts >= now || p.quality == QUALITY_TIMEOUT || now - p.ts <= timeout {
        return;
      }
      cells[id] := Marked(p);
      timeouts := timeouts + 1;
      hit := true;
    }

    /** One scan with nobody writing meanwhile; `now` is the clock reading
     *  (0 when it failed). */
    method CheckTimeouts(now: nat, timeout: nat, skip: set<nat>) returns (detected: nat)
      modifies this, cells
      ensures timeout == 0 || now == 0 ==>
                detected == 0 && cells[..] == old(cells[..]) && scanSkipped == old(scanSkipped)
      ensures timeout != 0 && now != 0 ==>
                && cells[..] == Scanned(old(cells[..]), now, timeout, skip)
                && detected == |Detected(old(cells[..]), now, timeout, skip)|
                && scanSkipped == old(scanSkipped) + |Skipped(old(cells[..]), now, timeout, skip)|
      ensures timeouts == old(timeouts) + detected
    {
      detected := 0;
      if timeout == 0 || now == 0 {
        return;
      }
      ghost var was := cells[..];
      for id := 0 to cells.Length
        invariant forall i :: 0 <= i < id ==> cells[i] == ScannedCell(was[i], now, timeout, i in skip)
        invariant forall i :: id <= i < cells.Length ==> cells[i] == was[i]
        invariant detected == |DueBelow(was, now, timeout, skip, false, id)|
        invariant scanSkipped == old(scanSkipped) + |DueBelow(was, now, timeout, skip, true, id)|
        invariant timeouts == old(timeouts) + detected
      {
        DueGrows(was, now, timeout, skip, false, id);
        DueGrows(was, now, timeout, skip, true, id);
        var hit := CheckOne(id, now, timeout, cells[id], id !in skip);
        if hit {
          detected := detected + 1;
        }
      }
      assert cells[..] == Scanned(was, now, timeout, skip);
    }
  }

  /** What one scan does to a point, in terms of its time and quality: an overdue
   *  point that is not skipped gets the base code 2, keeps its limit code in
   *  bits 4 and 5 and loses bits 6 and 7; every other point stays as it is. */
  lemma ScanMarksOverdue(cells: seq<Cell>, now: nat, timeout: nat, skip: set<nat>, i: nat)
    requires i < |cells|
    ensures var c, after := cells[i], Scanned(cells, now, timeout, skip)[i];
            var overdue := c.ts != 0 && c.ts + timeout < now && c.quality != 2;
            && after.ts == c.ts
            && (if overdue && i !in skip then
                  after.quality % 16 == 2 && after.quality / 16 == c.quality / 16 % 4
                else after.quality == c.quality)
            && (i in Detected(cells, now, timeout, skip) <==> overdue && i !in skip)
            && (i in Skipped(cells, now, timeout, skip) <==> overdue && i in skip)
  {
    DueIsOverdue(cells[i], now, timeout);
    MarkingKeepsLimit(cells[i]);
  }

  /** Scanning again at the same time finds nothing exactly when no point that
   *  is due carries a limit code: "already timed out" compares the whole
   *  quality byte, which a point with limit bits never equals. */
  lemma RescanFindsNothingIff(cells: seq<Cell>, now: nat, timeout: nat)
    ensures Detected(Scanned(cells, now, timeout, {}), now, timeout, {}) == {}
            <==> forall i :: 0 <= i < |cells| && Due(cells[i], now, timeout) ==> Limit(cells[i].quality) == 0
  {
    var after := Scanned(cells, now, timeout, {});
    forall i | 0 <= i < |cells|
      ensures Due(after[i], now, timeout) <==> Due(cells[i], now, timeout) && Limit(cells[i].quality) != 0
    {
      MarkingKeepsLimit(cells[i]);
    }
    var again := Detected(after, now, timeout, {});
    assert forall i: nat :: i < |cells| ==> (i in again <==> Due(after[i], now, timeout));
    assert again != {} ==> exists i :: i in again;
  }

  /** What a repeated scan detects is what the first one marked with limit bits. */
  lemma RescanFindsLimited(cells: seq<Cell>, now: nat, timeout: nat)
    ensures Detected(Scanned(cells, now, timeout, {}), now, timeout, {})
            == set i | i in Detected(cells, now, timeout, {}) && Limit(cells[i].quality) != 0
  {
    var after := Scanned(cells, now, timeout, {});
    forall i: nat | i < |cells|
      ensures Due(after[i], now, timeout) <==> Due(cells[i], now, timeout) && Limit(cells[i].quality) != 0
    {
      MarkingKeepsLimit(cells[i]);
    }
  }

  // ---- The scan among writers ----

  /** Who is between write_begin and write_end.  A writer that crashed inside
   *  keeps the lock until recovery. */
  datatype Holder = Free | ByScan | ByWriter(w: nat, clockReading: nat) | ByCrashed

  datatype Scan =
    | Idle
    | Looking(id: nat)
    | Wanting(id: nat)
    | Checking(id: nat)
    | Marking(id: nat)
    | Releasing(id: nat)
    | Counting(id: nat)

  /** `now`, `timeout` and `detected` belong to the running scan; `marks` lists
   *  what it has marked, with the cell as it was; `foreign` counts what other
   *  scans added to stats.timeouts since this one began. */
  datatype State = State(
    cells: seq<Cell>,
    clock: nat,
    holder: Holder,
    scan: Scan,
    now: nat,
    timeout: nat,
    detected: nat,
    marks: seq<(nat, Cell)>,
    timeouts: nat,
    base: nat,
    foreign: nat)

  /** Readings come from one clock that does not go back; 0 is a failed reading. */
  datatype Action =
    | WriterLock(w: nat)
    | WriterReadClock(reading: nat)
    | WriterStoreTime(id: nat)
    | WriterStoreQuality(id: nat, q: byte)
    | WriterUnlock
    | WriterCrash
    | Recover
    | ForeignCount
    | ScanStart(reading: nat, limit: nat)
    | ScanLook(ts: nat, q: byte)
    | ScanGiveUp
    | ScanLock
    | ScanCheck
    | ScanMark
    | ScanUnlock
    | ScanCount

  predicate ClockReading(s: State, t: nat) {
    t == 0 || t >= s.clock
  }

  predicate Enabled(s: State, a: Action) {
    match a
    case WriterLock(_) => s.holder.Free?
    case WriterReadClock(t) => s.holder.ByWriter? && ClockReading(s, t)
    case WriterStoreTime(id) => s.holder.ByWriter? && id < |s.cells|
    case WriterStoreQuality(id, _) => s.holder.ByWriter? && id < |s.cells|
    case WriterUnlock => s.holder.ByWriter?
    case WriterCrash => s.holder.ByWriter?
    case Recover => s.holder.ByCrashed?
    case ForeignCount => true
    case ScanStart(t, limit) => s.scan.Idle? && t != 0 && t >= s.clock && limit != 0
    case ScanLook(_, _) => s.scan.Looking?
    // write_begin met an odd sequence; the lock may be free again by now.
    case ScanGiveUp => s.scan.Wanting?
    case ScanLock => s.scan.Wanting? && s.holder.Free?
    case ScanCheck => s.scan.Checking?
    case ScanMark => s.scan.Marking? && s.scan.id < |s.cells|
    case ScanUnlock => s.scan.Releasing?
    case ScanCount => s.scan.Counting?
  }

  function LookAt(s: State, id: nat): Scan {
    if id < |s.cells| then Looking(id) else Idle
  }

  function Advance(t: nat, clock: nat): nat {
    if t == 0 then clock else t
  }

  function Next(s: State, a: Action): (s': State)
    requires Enabled(s, a)
    ensures |s'.cells| == |s.cells|
  {
    match a
    // The writer has not read the clock yet: a reading of 0.
    case WriterLock(w) => s.(holder := ByWriter(w, 0))
    case WriterReadClock(t) => s.(clock := Advance(t, s.clock), holder := ByWriter(s.holder.w, t))
    case WriterStoreTime(id) => s.(cells := s.cells[id := s.cells[id].(ts := s.holder.clockReading)])
    case WriterStoreQuality(id, q) => s.(cells := s.cells[id := s.cells[id].(quality := q)])
    case WriterUnlock => s.(holder := Free)
    case WriterCrash => s.(holder := ByCrashed)
    case Recover => s.(holder := Free)
    case ForeignCount => s.(timeouts := s.timeouts + 1, foreign := s.foreign + 1)
    case ScanStart(t, limit) =>
      s.(clock := t, now := t, timeout := limit, scan := LookAt(s, 0), detected := 0, marks := [],
         base := s.timeouts, foreign := 0)
    // The unlocked look may return anything: nothing below depends on it.
    case ScanLook(ts, q) =>
      var id := s.scan.id;
      if Due(Cell(ts, q), s.now, s.timeout) then s.(scan := Wanting(id)) else s.(scan := LookAt(s, id + 1))
    case ScanGiveUp => s.(scan := LookAt(s, s.scan.id + 1))
    case ScanLock => s.(scan := Checking(s.scan.id), holder := ByScan)
    case ScanCheck =>
      var id := s.scan.id;
      if id < |s.cells| && Due(s.cells[id], s.now, s.timeout) then s.(scan := Marking(id))
      else s.(scan := LookAt(s, id + 1), holder := Free)
    case ScanMark =>
      var id := s.scan.id;
      s.(scan := Releasing(id), cells := s.cells[id := Marked(s.cells[id])],
         marks := s.marks + [(id, s.cells[id])])
    case ScanUnlock => s.(scan := Counting(s.scan.id), holder := Free)
    case ScanCount =>
      s.(scan := LookAt(s, s.scan.id + 1), timeouts := s.timeouts + 1, detected := s.detected + 1)
  }

  predicate HasLock(scan: Scan) {
    scan.Checking? || scan.Marking? || scan.Releasing?
  }

  function Uncounted(s: State): nat {
    if s.scan.Releasing? || s.scan.Counting? then 1 else 0
  }

  /** All marks so far come before this id. */
  function Reached(s: State): nat {
    if s.scan.Idle? then |s.cells| else if Uncounted(s) == 1 then s.scan.id + 1 else s.scan.id
  }

  predicate MarksOk(s: State) {
    && (forall k :: 0 <= k < |s.marks| ==> Due(s.marks[k].1, s.now, s.timeout) && s.marks[k].0 < Reached(s))
    && (forall j, k :: 0 <= j < k < |s.marks| ==> s.marks[j].0 < s.marks[k].0)
  }

  predicate Inv(s: State) {
    && s.now <= s.clock
    && (HasLock(s.scan) <==> s.holder.ByScan?)
    && (!s.scan.Idle? ==> s.scan.id < |s.cells|)
    && (s.scan.Marking? ==> Due(s.cells[s.scan.id], s.now, s.timeout))
    && |s.marks| == s.detected + Uncounted(s)
    && s.timeouts == s.base + s.detected + s.foreign
    && MarksOk(s)
  }

  predicate Init(s: State) {
    s.holder.Free? && s.scan.Idle? && s.now == 0 && s.marks == [] && s.detected == 0 && s.foreign == 0
    && s.timeouts == s.base
  }

  ghost predicate Run(trace: seq<State>, actions: seq<Action>) {
    && |trace| == |actions| + 1
    && (forall i :: 0 <= i < |actions| ==> Enabled(trace[i], actions[i]) && trace[i + 1] == Next(trace[i], actions[i]))
  }

  lemma StepKeepsInv(s: State, a: Action)
    requires Inv(s) && Enabled(s, a)
    ensures Inv(Next(s, a))
  {
    var s' := Next(s, a);
    assert a.ScanMark? ==> s'.marks[..|s.marks|] == s.marks;
  }

  lemma {:induction false} RunKeepsInv(trace: seq<State>, actions: seq<Action>)
    requires Run(trace, actions) && Init(trace[0])
    ensures forall i :: 0 <= i < |trace| ==> Inv(trace[i])
    decreases |actions|
  {
    if |actions| > 0 {
      var n := |actions| - 1;
      RunKeepsInv(trace[..n + 1], actions[..n]);
      assert Inv(trace[..n + 1][n]);
      StepKeepsInv(trace[n], actions[n]);
    }
  }

  /** A cell changes only under the lock; the scan changes one only by marking
   *  it, while it holds the lock and the cell is due at that moment. */
  lemma CellsChangeUnderLock(s: State, a: Action, id: nat)
    requires Inv(s) && Enabled(s, a) && id < |s.cells| && Next(s, a).cells[id] != s.cells[id]
    ensures s.holder.ByWriter? || s.holder.ByScan?
    ensures s.holder.ByScan? ==>
              && a.ScanMark? && s.scan == Marking(id) && Due(s.cells[id], s.now, s.timeout)
              && Next(s, a).cells[id] == Marked(s.cells[id])
              && Limit(Next(s, a).cells[id].quality) == Limit(s.cells[id].quality)
  {
    MarkingKeepsLimit(s.cells[id]);
  }

  /** The cell's time is none, or too young for the scan. */
  predicate Recent(s: State, id: nat) {
    id < |s.cells| && (s.cells[id].ts == 0 || s.cells[id].ts + s.timeout >= s.now)
  }

  /** So is what the writer inside the lock has read from the clock. */
  predicate HolderRecent(s: State) {
    s.holder.ByWriter? ==> s.holder.clockReading == 0 || s.holder.clockReading + s.timeout >= s.now
  }

  lemma RecentStep(s: State, a: Action, id: nat)
    requires Inv(s) && Enabled(s, a) && !a.ScanStart? && Recent(s, id) && HolderRecent(s)
    ensures Recent(Next(s, a), id) && HolderRecent(Next(s, a))
    ensures a.ScanMark? ==> s.scan.id != id
  {
  }

  /** From the first recent store on, for the rest of the scan, the point stays
   *  recent and the scan never marks it. */
  lemma {:induction false} WrittenPointIsNeverMarked(trace: seq<State>, actions: seq<Action>, id: nat)
    requires Run(trace, actions) && Inv(trace[0])
    requires !trace[0].scan.Idle? && Recent(trace[0], id) && HolderRecent(trace[0])
    requires forall i :: 0 <= i < |actions| ==> !actions[i].ScanStart?
    ensures forall i :: 0 <= i < |trace| ==> Recent(trace[i], id) && HolderRecent(trace[i]) && Inv(trace[i])
    ensures forall i :: 0 <= i < |actions| && actions[i].ScanMark? ==> trace[i].scan.id != id
    decreases |actions|
  {
    if |actions| > 0 {
      var n := |actions| - 1;
      WrittenPointIsNeverMarked(trace[..n + 1], actions[..n], id);
      assert Recent(trace[..n + 1][n], id) && HolderRecent(trace[..n + 1][n]) && Inv(trace[..n + 1][n]);
      StepKeepsInv(trace[n], actions[n]);
      RecentStep(trace[n], actions[n], id);
      assert forall i :: 0 <= i < n ==> trace[..n + 1][i] == trace[i] && actions[..n][i] == actions[i];
    }
  }

  /** Storing a time read from the clock after the scan took its own makes the
   *  point recent. */
  lemma StoreAfterNowIsRecent(s: State, reading: nat, id: nat)
    requires Inv(s) && Enabled(s, WriterReadClock(reading)) && id < |s.cells|
    ensures var s' := Next(Next(s, WriterReadClock(reading)), WriterStoreTime(id));
            Recent(s', id) && HolderRecent(s')
  {
    assert s.now <= s.clock;
  }

  // ---- Which stores are safe ----

  /** The running scan can still mark the point. */
  ghost predicate MarksLater(s: State, id: nat) {
    exists trace: seq<State>, actions: seq<Action> ::
      Run(trace, actions) && trace[0] == s && EndsInMark(trace, actions, id)
  }

  predicate EndsInMark(trace: seq<State>, actions: seq<Action>, id: nat) {
    && |trace| == |actions| + 1 && actions != []
    && (forall i :: 0 <= i < |actions| ==> !actions[i].ScanStart?)
    && actions[|actions| - 1].ScanMark? && trace[|actions| - 1].scan == Marking(id)
  }

  lemma MarksNow(s: State, id: nat)
    requires s.scan == Marking(id) && id < |s.cells|
    ensures MarksLater(s, id)
  {
    var trace, actions := [s, Next(s, ScanMark)], [ScanMark];
    assert Run(trace, actions) && EndsInMark(trace, actions, id);
  }

  lemma MarksAfter(s: State, a: Action, id: nat)
    requires Enabled(s, a) && !a.ScanStart? && MarksLater(Next(s, a), id)
    ensures MarksLater(s, id)
  {
    var trace: seq<State>, actions: seq<Action> :|
      Run(trace, actions) && trace[0] == Next(s, a) && EndsInMark(trace, actions, id);
    var trace', actions' := [s] + trace, [a] + actions;
    forall i | 0 <= i < |actions'|
      ensures Enabled(trace'[i], actions'[i]) && trace'[i + 1] == Next(trace'[i], actions'[i])
    {
      if i > 0 {
        assert trace'[i] == trace[i - 1] && actions'[i] == actions[i - 1] && trace'[i + 1] == trace[i];
      }
    }
    assert Run(trace', actions') && EndsInMark(trace', actions', id);
  }

  /** The scan has dealt with the point, or is over. */
  predicate Passed(s: State, id: nat) {
    s.scan.Idle? || s.scan.id > id || (s.scan.id == id && Uncounted(s) == 1)
  }

  /** A due point ahead of the scan is marked when the lock is free. */
  lemma {:induction false} DuePointIsMarked(s: State, id: nat)
    requires s.holder.Free? && id < |s.cells| && Due(s.cells[id], s.now, s.timeout)
    requires s.scan.Looking? || s.scan.Wanting? || s.scan.Counting?
    requires !Passed(s, id)
    ensures MarksLater(s, id)
    decreases id - s.scan.id, if s.scan.Looking? then 1 else 0
  {
    if s.scan == Wanting(id) {
      var s1 := Next(s, ScanLock);
      MarksNow(Next(s1, ScanCheck), id);
      MarksAfter(s1, ScanCheck, id);
      MarksAfter(s, ScanLock, id);
    } else {
      var a := if s.scan.Wanting? then ScanGiveUp
               else if s.scan.Counting? then ScanCount
               else if s.scan.id == id then ScanLook(s.cells[id].ts, s.cells[id].quality)
               else ScanLook(0, 0);
      DuePointIsMarked(Next(s, a), id);
      MarksAfter(s, a, id);
    }
  }

  lemma PassedStep(s: State, a: Action, id: nat)
    requires Enabled(s, a) && !a.ScanStart? && Passed(s, id)
    ensures Passed(Next(s, a), id)
  {
  }

  lemma {:induction false} PassedPointIsNotMarked(trace: seq<State>, actions: seq<Action>, id: nat)
    requires Run(trace, actions) && Passed(trace[0], id)
    requires forall i :: 0 <= i < |actions| ==> !actions[i].ScanStart?
    ensures forall i :: 0 <= i < |trace| ==> Passed(trace[i], id)
    decreases |actions|
  {
    if |actions| > 0 {
      var n := |actions| - 1;
      PassedPointIsNotMarked(trace[..n + 1], actions[..n], id);
      assert Passed(trace[..n + 1][n], id);
      PassedStep(trace[n], actions[n], id);
      assert forall i :: 0 <= i <= n ==> trace[..n + 1][i] == trace[i];
    }
  }

  lemma SafeStaysUnmarked(trace: seq<State>, actions: seq<Action>, id: nat)
    requires Run(trace, actions) && Inv(trace[0])
    requires Passed(trace[0], id) || (Recent(trace[0], id) && HolderRecent(trace[0]))
    ensures !EndsInMark(trace, actions, id)
  {
    if forall i :: 0 <= i < |actions| ==> !actions[i].ScanStart? {
      if Passed(trace[0], id) {
        PassedPointIsNotMarked(trace, actions, id);
        assert actions != [] ==> Passed(trace[|actions| - 1], id);
      } else {
        WrittenPointIsNeverMarked(trace, actions, id);
      }
    }
  }

  /** Exactly which stores are safe: after a writer has stored the time, the
   *  running scan can never mark the point iff it has passed it, or the reading
   *  is none, or lies at most the timeout before the scan's `now`.  Storing
   *  after `now` is not enough: a writer that stalls between clock and store
   *  for longer than that loses its new value to the scan. */
  lemma StoreIsSafeIff(s: State, id: nat)
    requires Inv(s) && s.holder.ByWriter? && id < |s.cells|
    ensures var reading := s.holder.clockReading;
            !MarksLater(Next(s, WriterStoreTime(id)), id)
            <==> Passed(s, id) || reading == 0 || reading + s.timeout >= s.now
  {
    var s1 := Next(s, WriterStoreTime(id));
    StepKeepsInv(s, WriterStoreTime(id));
    if Passed(s, id) || HolderRecent(s) {
      forall trace: seq<State>, actions: seq<Action> | Run(trace, actions) && trace[0] == s1
        ensures !EndsInMark(trace, actions, id)
      {
        SafeStaysUnmarked(trace, actions, id);
      }
    } else {
      var s2 := Next(s1, WriterStoreQuality(id, 0));
      var s3 := Next(s2, WriterUnlock);
      DuePointIsMarked(s3, id);
      MarksAfter(s2, WriterUnlock, id);
      MarksAfter(s1, WriterStoreQuality(id, 0), id);
    }
  }

  /** When the scan returns, its result is the number of points it marked, each
   *  at most once and each due when marked, and is what it added to
   *  stats.timeouts. */
  lemma ScanAccounts(trace: seq<State>, actions: seq<Action>)
    requires Run(trace, actions) && Init(trace[0]) && trace[|actions|].scan.Idle?
    ensures var s := trace[|actions|];
            && s.detected == |s.marks| && s.timeouts == s.base + s.detected + s.foreign
            && (forall k :: 0 <= k < |s.marks| ==> Due(s.marks[k].1, s.now, s.timeout))
            && (forall j, k :: 0 <= j < k < |s.marks| ==> s.marks[j].0 < s.marks[k].0 < |s.cells|)
  {
    RunKeepsInv(trace, actions);
    assert Inv(trace[|actions|]);
  }

  // ---- Runs of one process alone ----

  predicate Possible(s: State, actions: seq<Action>)
    decreases |actions|
  {
    actions == [] || (Enabled(s, actions[0]) && Possible(Next(s, actions[0]), actions[1..]))
  }

  function After(s: State, actions: seq<Action>): State
    requires Possible(s, actions)
    decreases |actions|
  {
    if actions == [] then s else After(Next(s, actions[0]), actions[1..])
  }

  lemma Begins(s: State, actions: seq<Action>, rest: seq<Action>)
    requires actions != [] && actions[1..] == rest
    requires Enabled(s, actions[0]) && Possible(Next(s, actions[0]), rest)
    ensures Possible(s, actions) && After(s, actions) == After(Next(s, actions[0]), rest)
  {
  }

  /** A value write: the clock is read under the lock, time and quality of the
   *  point are stored, and nothing else changes. */
  lemma WriteSection(s: State, w: nat, reading: nat, id: nat, q: byte)
    requires s.holder.Free? && (reading == 0 || reading >= s.clock) && id < |s.cells|
    ensures var section := [WriterLock(w), WriterReadClock(reading), WriterStoreTime(id), WriterStoreQuality(id, q),
                            WriterUnlock];
            && Possible(s, section)
            && After(s, section) == s.(cells := s.cells[id := Cell(reading, q)],
                                       clock := if reading == 0 then s.clock else reading)
  {
    var lock, read, time, qual := WriterLock(w), WriterReadClock(reading), WriterStoreTime(id), WriterStoreQuality(id, q);
    var s1 := Next(s, lock);
    var s2 := Next(s1, read);
    var s3 := Next(s2, time);
    var s4 := Next(s3, qual);
    Begins(s4, [WriterUnlock], []);
    Begins(s3, [qual, WriterUnlock], [WriterUnlock]);
    Begins(s2, [time, qual, WriterUnlock], [qual, WriterUnlock]);
    Begins(s1, [read, time, qual, WriterUnlock], [time, qual, WriterUnlock]);
    Begins(s, [lock, read, time, qual, WriterUnlock], [read, time, qual, WriterUnlock]);
    assert Next(s4, WriterUnlock).cells == s.cells[id := Cell(reading, q)];
  }

  /** Another scan that counts a mark of its own moves the shared counter at any
   *  time, and nothing this scan returns. */
  lemma OthersCount(s: State)
    ensures Enabled(s, ForeignCount)
    ensures Next(s, ForeignCount).timeouts == s.timeouts + 1 && Next(s, ForeignCount).detected == s.detected
  {
  }

  /** A writer that crashes inside keeps the lock from everybody until recovery,
   *  which frees it and changes no point. */
  lemma CrashKeepsLock(s: State, a: Action)
    requires s.holder.ByWriter?
    ensures Enabled(s, WriterCrash)
    ensures var s' := Next(s, WriterCrash);
            && (a.WriterLock? || a.ScanLock? || a.WriterUnlock? ==> !Enabled(s', a))
            && Enabled(s', Recover) && Next(s', Recover) == s.(holder := Free)
  {
  }

  /** The steps that mark and count a point once it has been found due under the
   *  lock. */
  lemma MarkAndCount(s: State, id: nat, rest: seq<Action>)
    requires s.scan == Marking(id) && id < |s.cells|
    requires Possible(Marks(s, id).(holder := Free), rest)
    ensures var steps := [ScanMark, ScanUnlock, ScanCount] + rest;
            Possible(s, steps) && After(s, steps) == After(Marks(s, id).(holder := Free), rest)
  {
    var s1 := Next(s, ScanMark);
    var s2 := Next(s1, ScanUnlock);
    assert Next(s2, ScanCount) == Marks(s, id).(holder := Free);
    Begins(s2, [ScanCount] + rest, rest);
    Begins(s1, [ScanUnlock, ScanCount] + rest, [ScanCount] + rest);
    Begins(s, [ScanMark, ScanUnlock, ScanCount] + rest, [ScanUnlock, ScanCount] + rest);
  }

  /** The steps for one point that is due: it is seen, locked, tested again,
   *  marked and counted. */
  lemma MarksOne(s: State, id: nat, rest: seq<Action>) returns (actions: seq<Action>)
    requires s.scan == Looking(id) && id < |s.cells| && s.holder.Free? && Due(s.cells[id], s.now, s.timeout)
    requires Possible(Marks(s, id), rest)
    ensures Possible(s, actions) && After(s, actions) == After(Marks(s, id), rest)
  {
    var look := ScanLook(s.cells[id].ts, s.cells[id].quality);
    var s1 := Next(s, look);
    var s2 := Next(s1, ScanLock);
    var s3 := Next(s2, ScanCheck);
    assert Marks(s3, id).(holder := Free) == Marks(s, id);
    MarkAndCount(s3, id, rest);
    actions := [ScanMark, ScanUnlock, ScanCount] + rest;
    Begins(s2, [ScanCheck] + actions, actions);
    Begins(s1, [ScanLock] + ([ScanCheck] + actions), [ScanCheck] + actions);
    actions := [ScanLock] + ([ScanCheck] + actions);
    Begins(s, [look] + actions, actions);
    actions := [look] + actions;
  }

  function Marks(s: State, id: nat): State
    requires id < |s.cells|
  {
    s.(cells := s.cells[id := Marked(s.cells[id])], marks := s.marks + [(id, s.cells[id])],
       scan := if id + 1 < |s.cells| then Looking(id + 1) else Idle,
       timeouts := s.timeouts + 1, detected := s.detected + 1)
  }

  /** From point id on the scan alone marks what is due and counts it. */
  lemma {:induction false} ScanAloneFrom(s: State, id: nat, was: seq<Cell>) returns (actions: seq<Action>)
    requires |s.cells| == |was| && id <= |was| && s.holder.Free?
    requires s.scan == if id < |was| then Looking(id) else Idle
    requires forall i :: id <= i < |was| ==> s.cells[i] == was[i]
    ensures Possible(s, actions)
    ensures var t := After(s, actions);
            && t.scan.Idle? && t.holder.Free? && |t.cells| == |was|
            && (forall i :: 0 <= i < |was| ==>
                  t.cells[i] == if i < id then s.cells[i] else ScannedCell(was[i], s.now, s.timeout, false))
            && t.detected - s.detected == t.timeouts - s.timeouts
            && t.detected - s.detected
               == |Detected(was, s.now, s.timeout, {})| - |DueBelow(was, s.now, s.timeout, {}, false, id)|
    decreases |was| - id
  {
    if id == |was| {
      actions := [];
    } else {
      DueGrows(was, s.now, s.timeout, {}, false, id);
      if Due(s.cells[id], s.now, s.timeout) {
        var rest := ScanAloneFrom(Marks(s, id), id + 1, was);
        actions := MarksOne(s, id, rest);
      } else {
        var look := ScanLook(s.cells[id].ts, s.cells[id].quality);
        var rest := ScanAloneFrom(Next(s, look), id + 1, was);
        actions := [look] + rest;
        Begins(s, actions, rest);
      }
    }
  }

  /** Undisturbed and with the lock free, the interleaved scan can go through and
   *  then has done what the scan as a function does. */
  lemma ScanGoesThrough(s: State, now: nat, timeout: nat) returns (actions: seq<Action>)
    requires s.scan.Idle? && s.holder.Free? && now != 0 && now >= s.clock && timeout != 0
    ensures Possible(s, [ScanStart(now, timeout)] + actions)
    ensures var t := After(s, [ScanStart(now, timeout)] + actions);
            && t.scan.Idle? && t.cells == Scanned(s.cells, now, timeout, {})
            && t.detected == |Detected(s.cells, now, timeout, {})| && t.timeouts == s.timeouts + t.detected
  {
    var s1 := Next(s, ScanStart(now, timeout));
    actions := ScanAloneFrom(s1, 0, s.cells);
    Begins(s, [ScanStart(now, timeout)] + actions, actions);
    assert DueBelow(s.cells, now, timeout, {}, false, 0) == {};
    assert After(s1, actions).cells == Scanned(s.cells, now, timeout, {});
  }

  /** Registering a point in the place of a deleted one stores its quality and
   *  leaves the time there, so that the next scan can find the new point timed
   *  out although nobody has written it. */
  lemma ReusedPlaceTimesOut(s: State, w: nat, id: nat, now: nat, timeout: nat) returns (actions: seq<Action>)
    requires s.scan.Idle? && s.holder.Free? && now != 0 && now >= s.clock && timeout != 0
    requires id < |s.cells| && s.cells[id].ts != 0 && s.cells[id].ts + timeout < now
    ensures Possible(s, Registering(w, id)) && After(s, Registering(w, id)) == Reused(s, id)
    ensures Possible(Reused(s, id), actions)
    ensures var t := After(Reused(s, id), actions);
            t.scan.Idle? && id < |t.cells| && t.cells[id] == Cell(s.cells[id].ts, 2)
  {
    RegisterSection(s, w, id);
    var t := Reused(s, id);
    actions := ScanGoesThrough(t, now, timeout);
    actions := [ScanStart(now, timeout)] + actions;
    ScanMarksOverdue(t.cells, now, timeout, {}, id);
  }

  function Registering(w: nat, id: nat): seq<Action> {
    [WriterLock(w), WriterStoreQuality(id, 0), WriterUnlock]
  }

  function Reused(s: State, id: nat): State
    requires id < |s.cells|
  {
    s.(cells := s.cells[id := Cell(s.cells[id].ts, 0)])
  }

  lemma RegisterSection(s: State, w: nat, id: nat)
    requires s.holder.Free? && id < |s.cells|
    ensures Possible(s, Registering(w, id)) && After(s, Registering(w, id)) == Reused(s, id)
  {
    var s1 := Next(s, WriterLock(w));
    var s2 := Next(s1, WriterStoreQuality(id, 0));
    Begins(s2, [WriterUnlock], []);
    Begins(s1, [WriterStoreQuality(id, 0), WriterUnlock], [WriterUnlock]);
    Begins(s, Registering(w, id), [WriterStoreQuality(id, 0), WriterUnlock]);
  }

  /** Whatever happens, the scan goes from one point to the next and leaves none
   *  out: a step keeps its place, or goes on to the following point, or ends
   *  the scan at the last one.  It can always give a wanted lock up. */
  lemma ScanVisitsInOrder(s: State, a: Action)
    requires Inv(s) && Enabled(s, a) && !s.scan.Idle?
    ensures var s', id := Next(s, a), s.scan.id;
            || (!s'.scan.Idle? && s'.scan.id == id)
            || (s'.scan == if id + 1 < |s.cells| then Looking(id + 1) else Idle)
    ensures s.scan.Wanting? ==> Enabled(s, ScanGiveUp) && (Enabled(s, ScanLock) <==> s.holder.Free?)
    ensures a.ScanCheck? ==>
              Next(s, a).scan == if Due(s.cells[s.scan.id], s.now, s.timeout) then Marking(s.scan.id)
                                 else LookAt(s, s.scan.id + 1)
  {
  }

  /** The unlocked look decides on what it returned alone. */
  lemma LookDecides(s: State, ts: nat, q: byte)
    requires Inv(s) && s.scan.Looking?
    ensures Enabled(s, ScanLook(ts, q))
    ensures Next(s, ScanLook(ts, q)).scan
            == if ts != 0 && ts + s.timeout < s.now && q != 2 then Wanting(s.scan.id)
               else if s.scan.id + 1 < |s.cells| then Looking(s.scan.id + 1) else Idle
  {
  }
}
