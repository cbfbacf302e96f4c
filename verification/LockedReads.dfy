/** The readers of the segment as programs under the sequence lock: copying a
 *  block (irt_meta_get, irt_pm_read, irt_pm_peek) and probing the name index
 *  word by word (irt_index_lookup). */
module LockedReads {
  import opened Common
  import opened Seqlock
  import NameIndex
  import Layout

  // ---- Programs on a memory that does not change ----

  ghost function IterateFrom<L>(prog: Program<L>, mem: Memory, l: L, n: nat): L
    decreases n
  {
    if n == 0 || prog.next(l).None? then l
    else IterateFrom(prog, mem, prog.absorb(l, Load(mem, prog.next(l).value)), n - 1)
  }

  lemma {:induction false} IterateFromSplits<L>(prog: Program<L>, mem: Memory, l: L, a: nat, b: nat)
    ensures IterateFrom(prog, mem, l, a + b) == IterateFrom(prog, mem, IterateFrom(prog, mem, l, a), b)
    decreases a
  {
    if a > 0 && prog.next(l).Some? {
      IterateFromSplits(prog, mem, prog.absorb(l, Load(mem, prog.next(l).value)), a - 1, b);
    }
  }

  lemma {:induction false} IterateIsFromInit<L>(prog: Program<L>, mem: Memory, n: nat)
    ensures Iterate(prog, mem, n) == IterateFrom(prog, mem, prog.init, n)
    decreases n
  {
    if n > 0 {
      IterateIsFromInit(prog, mem, n - 1);
      IterateFromSplits(prog, mem, prog.init, n - 1, 1);
      var l := IterateFrom(prog, mem, prog.init, n - 1);
      assert IterateFrom(prog, mem, l, 1) ==
             if prog.next(l).Some? then prog.absorb(l, Load(mem, prog.next(l).value)) else l;
    }
  }

  /** A program has at most one finished result on one memory. */
  lemma SnapshotUnique<L>(prog: Program<L>, mem: Memory, l: L, r: L, n: nat)
    requires IsSnapshot(prog, mem, l)
    requires r == IterateFrom(prog, mem, prog.init, n) && prog.next(r).None?
    ensures l == r
  {
    var m: nat :| l == Iterate(prog, mem, m);
    IterateIsFromInit(prog, mem, m);
    if m <= n {
      IterateFromSplits(prog, mem, prog.init, m, n - m);
    } else {
      IterateFromSplits(prog, mem, prog.init, n, m - n);
    }
  }

  // ---- Copying a block ----

  /** memcpy of n words, the i-th at address at(i). */
  function Copy(at: nat -> Addr, n: nat): Program<seq<Word>> {
    Program([], (l: seq<Word>) => if |l| < n then Some(at(|l|)) else None, (l: seq<Word>, w: Word) => l + [w])
  }

  ghost function Block(mem: Memory, at: nat -> Addr, n: nat): (b: seq<Word>)
    ensures |b| == n && forall i :: 0 <= i < n ==> b[i] == Load(mem, at(i))
  {
    if n == 0 then [] else Block(mem, at, n - 1) + [Load(mem, at(n - 1))]
  }

  lemma {:induction false} CopyPrefix(mem: Memory, at: nat -> Addr, n: nat, k: nat)
    requires k <= n
    ensures Iterate(Copy(at, n), mem, k) == Block(mem, at, k)
    decreases k
  {
    if k > 0 {
      CopyPrefix(mem, at, n, k - 1);
    }
  }

  lemma CopySnapshotIsBlock(mem: Memory, at: nat -> Addr, n: nat, l: seq<Word>)
    requires IsSnapshot(Copy(at, n), mem, l)
    ensures l == Block(mem, at, n)
  {
    CopyPrefix(mem, at, n, n);
    IterateIsFromInit(Copy(at, n), mem, n);
    SnapshotUnique(Copy(at, n), mem, l, Block(mem, at, n), n);
  }

  /** irt_meta_get, and irt_pm_read and irt_pm_peek on exits with even s0: in
   *  every interleaving the accepted copy is the block as it stands in memory
   *  at that moment, with no writer inside the lock. */
  lemma AcceptedCopyIsBlock(s: State<seq<Word>>, at: nat -> Addr, n: nat, actions: seq<Action>, a: Action, r: Pid)
    requires Init(s) && IsRun(s, Copy(at, n), OneRecovery, actions)
    requires Enabled(Run(s, Copy(at, n), OneRecovery, actions), Copy(at, n), OneRecovery, a)
    requires var t := Run(s, Copy(at, n), OneRecovery, actions);
             && r in t.readers && !Finished(t.readers[r])
             && r in Next(t, Copy(at, n), OneRecovery, a).readers
             && Result(Next(t, Copy(at, n), OneRecovery, a).readers[r]).Some?
    ensures var t := Run(s, Copy(at, n), OneRecovery, actions);
            && Result(Next(t, Copy(at, n), OneRecovery, a).readers[r]).value == Block(t.mem, at, n)
            && forall w :: w in t.writers ==> !Inside(t.writers[w])
  {
    AcceptedIsSnapshot(s, Copy(at, n), actions, a, r);
    var t := Run(s, Copy(at, n), OneRecovery, actions);
    CopySnapshotIsBlock(t.mem, at, n, Result(Next(t, Copy(at, n), OneRecovery, a).readers[r]).value);
  }

  // ---- A torn copy given back ----

  /** Two words of one entry. */
  function Entry(k: nat): Addr {
    MetaWord(0, k)
  }

  function Two(a: Word, b: Word): Memory {
    map[Entry(0) := a, Entry(1) := b]
  }

  /** One writer, one reader. */
  function Pair(q: nat, mem: Memory, w: Writer, r: Reader<seq<Word>>): State<seq<Word>> {
    State(q, mem, map[0 := w], map[], map[0 := r])
  }

  lemma TornStart(mem: Memory)
    ensures var p := Copy(Entry, 2);
            && Moves(Pair(0, mem, Outside, LoopStart(1, None)), p, OneRecovery, ReaderLoadSeq(0),
                     Pair(0, mem, Outside, LoopReading(0, [], 0)))
            && Moves(Pair(0, mem, Outside, LoopReading(0, [], 0)), p, OneRecovery, ReaderLoadWord(0),
                     Pair(0, mem, Outside, LoopReading(0, [Load(mem, Entry(0))], 1)))
  {
    assert [] + [Load(mem, Entry(0))] == [Load(mem, Entry(0))];
  }

  lemma TornWriter(mem: Memory, v: Word, r: Reader<seq<Word>>)
    ensures var p := Copy(Entry, 2);
            && Moves(Pair(0, mem, Outside, r), p, OneRecovery, WriterLoad(0), Pair(0, mem, Trying(0, 0), r))
            && Moves(Pair(0, mem, Trying(0, 0), r), p, OneRecovery, WriterCas(0), Pair(1, mem, Holding(0), r))
            && Moves(Pair(1, mem, Holding(0), r), p, OneRecovery, WriterStore(0, Entry(1), v),
                     Pair(1, mem[Entry(1) := v], Holding(0), r))
  {
  }

  lemma TornEnd(mem: Memory, a: Word)
    ensures var p, l := Copy(Entry, 2), [a, Load(mem, Entry(1))];
            && Moves(Pair(1, mem, Holding(0), LoopReading(0, [a], 1)), p, OneRecovery, ReaderLoadWord(0),
                     Pair(1, mem, Holding(0), LoopReading(0, l, 2)))
            && Moves(Pair(1, mem, Holding(0), LoopReading(0, l, 2)), p, OneRecovery, ReaderCheck(0),
                     Pair(1, mem, Holding(0), LoopStart(1, Some(l))))
            && Moves(Pair(1, mem, Holding(0), LoopStart(1, Some(l))), p, OneRecovery, ReaderLoadSeq(0),
                     Pair(1, mem, Holding(0), LoopExit(1, Some(l))))
  {
    assert [a] + [Load(mem, Entry(1))] == [a, Load(mem, Entry(1))];
  }

  lemma TornFirstHalf(v: Word)
    ensures var actions := [ReaderLoadSeq(0), ReaderLoadWord(0), WriterLoad(0), WriterCas(0), WriterStore(0, Entry(1), v)];
            var s := Pair(0, Two(0, 0), Outside, LoopStart(1, None));
            && IsRun(s, Copy(Entry, 2), OneRecovery, actions)
            && Run(s, Copy(Entry, 2), OneRecovery, actions) == Pair(1, Two(0, v), Holding(0), LoopReading(0, [0], 1))
  {
    var mem, reading := Two(0, 0), LoopReading(0, [0], 1);
    TornStart(mem);
    TornWriter(mem, v, reading);
    assert mem[Entry(1) := v] == Two(0, v);
    TraceIsRun([Pair(0, mem, Outside, LoopStart(1, None)),
                Pair(0, mem, Outside, LoopReading(0, [], 0)),
                Pair(0, mem, Outside, reading),
                Pair(0, mem, Trying(0, 0), reading),
                Pair(1, mem, Holding(0), reading),
                Pair(1, Two(0, v), Holding(0), reading)],
               Copy(Entry, 2), OneRecovery,
               [ReaderLoadSeq(0), ReaderLoadWord(0), WriterLoad(0), WriterCas(0), WriterStore(0, Entry(1), v)]);
  }

  lemma TornSecondHalf(v: Word)
    ensures var actions := [ReaderLoadWord(0), ReaderCheck(0), ReaderLoadSeq(0)];
            var s := Pair(1, Two(0, v), Holding(0), LoopReading(0, [0], 1));
            && IsRun(s, Copy(Entry, 2), OneRecovery, actions)
            && Run(s, Copy(Entry, 2), OneRecovery, actions) == Pair(1, Two(0, v), Holding(0), LoopExit(1, Some([0, v])))
  {
    TornEnd(Two(0, v), 0);
    TraceIsRun([Pair(1, Two(0, v), Holding(0), LoopReading(0, [0], 1)),
                Pair(1, Two(0, v), Holding(0), LoopReading(0, [0, v], 2)),
                Pair(1, Two(0, v), Holding(0), LoopStart(1, Some([0, v]))),
                Pair(1, Two(0, v), Holding(0), LoopExit(1, Some([0, v])))],
               Copy(Entry, 2), OneRecovery, [ReaderLoadWord(0), ReaderCheck(0), ReaderLoadSeq(0)]);
  }

  /** A run in which a do-while reader gives back a torn copy: of two words that
   *  were both 0 and of which the writer inside has changed the second, it
   *  returns the old first and the new second, before the writer is done. */
  lemma OddExitTears(v: Word) returns (s: State<seq<Word>>, actions: seq<Action>)
    requires v != 0
    ensures Init(s) && Block(s.mem, Entry, 2) == [0, 0] && IsRun(s, Copy(Entry, 2), OneRecovery, actions)
    ensures var t := Run(s, Copy(Entry, 2), OneRecovery, actions);
            t == Pair(1, Two(0, v), Holding(0), LoopExit(1, Some([0, v])))
  {
    s := Pair(0, Two(0, 0), Outside, LoopStart(1, None));
    TornFirstHalf(v);
    TornSecondHalf(v);
    var first := [ReaderLoadSeq(0), ReaderLoadWord(0), WriterLoad(0), WriterCas(0), WriterStore(0, Entry(1), v)];
    var second := [ReaderLoadWord(0), ReaderCheck(0), ReaderLoadSeq(0)];
    actions := first + second;
    RunConcat(s, Copy(Entry, 2), OneRecovery, first, second);
    assert Block(s.mem, Entry, 1) == [0];
  }

  // ---- Probing the index ----

  datatype ProbeState =
    | WantPid(d: nat)
    | WantHash(d: nat, pid: nat)
    | WantPartition(d: nat, pid: nat)
    | WantName(d: nat, pid: nat, k: nat)
    | Found(pid: nat)
    | NotFound

  /** Byte k of a C string held in a zero-padded field. */
  function NameByte(name: NameIndex.Name, k: nat): nat {
    if k < |name| then name[k] else 0
  }

  datatype Query = Query(key: NameIndex.Key, hash: u32, cap: nat)

  function Position(q: Query, d: nat): nat {
    if q.cap > 0 && d < q.cap then NameIndex.At(q.cap, NameIndex.Home(q.hash, q.cap), d) else 0
  }

  function Advance(q: Query, d: nat): ProbeState {
    if d + 1 < q.cap then WantPid(d + 1) else NotFound
  }

  function ProbeNext(q: Query, l: ProbeState): Option<Addr> {
    match l
    case WantPid(d) => Some(SlotPid(Position(q, d)))
    case WantHash(d, _) => Some(SlotHash(Position(q, d)))
    case WantPartition(_, pid) => Some(PointPartition(pid))
    case WantName(_, pid, k) => Some(PointName(pid, k))
    case Found(_) => None
    case NotFound => None
  }

  function ProbeAbsorb(q: Query, l: ProbeState, w: Word): ProbeState {
    match l
    case WantPid(d) =>
      if w == NameIndex.EMPTY then NotFound
      else if w == NameIndex.TOMBSTONE then Advance(q, d)
      else WantHash(d, w)
    case WantHash(d, pid) => if w != q.hash then Advance(q, d) else WantPartition(d, pid)
    case WantPartition(d, pid) => if w != q.key.partition then Advance(q, d) else WantName(d, pid, 0)
    case WantName(d, pid, k) =>
      // strncmp over 63 bytes: stop at a difference, at a common NUL, at the end
      if w != NameByte(q.key.name, k) then Advance(q, d)
      else if w == 0 || k + 1 == NameIndex.NAME_MAX then Found(pid)
      else WantName(d, pid, k + 1)
    case Found(_) => l
    case NotFound => l
  }

  function Probe(q: Query): Program<ProbeState> {
    Program(if q.cap > 0 then WantPid(0) else NotFound,
            (l: ProbeState) => ProbeNext(q, l), (l: ProbeState, w: Word) => ProbeAbsorb(q, l, w))
  }

  /** The words of memory are those of the registry st. */
  ghost predicate Represents(mem: Memory, st: NameIndex.Seg) {
    && (forall i: nat :: i < |st.slots| ==>
          Load(mem, SlotHash(i)) == st.slots[i].hash && Load(mem, SlotPid(i)) == st.slots[i].pid)
    && (forall id: nat :: id < |st.pts| ==>
          Load(mem, PointPartition(id)) == st.pts[id].partition && |st.pts[id].name| <= NameIndex.NAME_MAX)
    && (forall id: nat, k: nat :: id < |st.pts| && k <= NameIndex.NAME_MAX ==>
          Load(mem, PointName(id, k)) == NameByte(st.pts[id].name, k))
    && (forall i: nat :: i < |st.slots| && NameIndex.Live(st.slots[i]) ==> st.slots[i].pid < |st.pts|)
  }

  function Verdict(st: NameIndex.Seg, f: Option<nat>): ProbeState
    requires f.Some? ==> f.value < |st.slots|
  {
    if f.Some? then Found(st.slots[f.value].pid) else NotFound
  }

  /** The byte loop of strncmp finds out whether the names agree on 63 bytes. */
  lemma {:induction false} ComparesNames(q: Query, mem: Memory, st: NameIndex.Seg, d: nat, pid: nat, k: nat) returns (n: nat)
    requires Represents(mem, st) && pid < |st.pts| && k < NameIndex.NAME_MAX
    requires forall j: nat :: j < k ==> NameByte(st.pts[pid].name, j) == NameByte(q.key.name, j) != 0
    ensures IterateFrom(Probe(q), mem, WantName(d, pid, k), n)
            == if NameIndex.Stored(st.pts[pid].name) == NameIndex.Stored(q.key.name) then Found(pid) else Advance(q, d)
    decreases NameIndex.NAME_MAX - k
  {
    var name := st.pts[pid].name;
    var w := Load(mem, PointName(pid, k));
    var l' := ProbeAbsorb(q, WantName(d, pid, k), w);
    assert w == NameByte(name, k);
    if w == NameByte(q.key.name, k) && w != 0 && k + 1 < NameIndex.NAME_MAX {
      var m := ComparesNames(q, mem, st, d, pid, k + 1);
      n := m + 1;
    } else {
      n := 1;
      NamesAgreeIff(name, q.key.name, k);
      assert IterateFrom(Probe(q), mem, l', 0) == l';
    }
  }

  lemma NamesAgreeIff(a: NameIndex.Name, b: NameIndex.Name, k: nat)
    requires |a| <= NameIndex.NAME_MAX && k < NameIndex.NAME_MAX
    requires forall j: nat :: j < k ==> NameByte(a, j) == NameByte(b, j) != 0
    requires NameByte(a, k) != NameByte(b, k) || NameByte(a, k) == 0 || k + 1 == NameIndex.NAME_MAX
    ensures NameIndex.Stored(a) == NameIndex.Stored(b) <==> NameByte(a, k) == NameByte(b, k)
  {
    var x, y := NameIndex.Stored(a), NameIndex.Stored(b);
    if k > 0 {
      assert NameByte(a, k - 1) == NameByte(b, k - 1) != 0;
    }
    forall j: nat | j < k
      ensures a[j] == b[j]
    {
      assert NameByte(a, j) == NameByte(b, j);
    }
    assert NameByte(x, k) == NameByte(a, k) && NameByte(y, k) == NameByte(b, k);
    assert forall j: nat :: j < k ==> x[j] == a[j] == b[j] == y[j];
    if NameByte(a, k) == NameByte(b, k) {
      if NameByte(a, k) == 0 {
        assert |a| == k == |b|;
      } else {
        assert |x| == k + 1 == |y| && x[k] == y[k];
      }
      assert x == y;
    }
  }

  /** One slot: the words of slot and point are compared in the order of the code. */
  lemma ProbesOneSlot(q: Query, mem: Memory, st: NameIndex.Seg, d: nat) returns (n: nat)
    requires Represents(mem, st) && q.cap == |st.slots| && d < q.cap
    ensures var s := st.slots[Position(q, d)];
            IterateFrom(Probe(q), mem, WantPid(d), n)
            == if s.pid == NameIndex.EMPTY then NotFound
               else if NameIndex.Matches(s, st.pts, q.key, q.hash) then Found(s.pid)
               else Advance(q, d)
  {
    var p := Probe(q);
    var s := st.slots[Position(q, d)];
    assert Load(mem, SlotPid(Position(q, d))) == s.pid && Load(mem, SlotHash(Position(q, d))) == s.hash;
    if !NameIndex.Live(s) {
      n := 1;
      assert IterateFrom(p, mem, ProbeAbsorb(q, WantPid(d), s.pid), 0) == ProbeAbsorb(q, WantPid(d), s.pid);
    } else {
      IterateFromSplits(p, mem, WantPid(d), 1, 1);
      assert IterateFrom(p, mem, WantPid(d), 1) == WantHash(d, s.pid);
      if s.hash != q.hash {
        n := 2;
        assert IterateFrom(p, mem, WantHash(d, s.pid), 1) == Advance(q, d);
      } else {
        assert IterateFrom(p, mem, WantHash(d, s.pid), 1) == WantPartition(d, s.pid);
        if st.pts[s.pid].partition != q.key.partition {
          n := 3;
          IterateFromSplits(p, mem, WantPid(d), 2, 1);
          assert IterateFrom(p, mem, WantPartition(d, s.pid), 1) == Advance(q, d);
        } else {
          IterateFromSplits(p, mem, WantPid(d), 2, 1);
          assert IterateFrom(p, mem, WantPartition(d, s.pid), 1) == WantName(d, s.pid, 0);
          var m := ComparesNames(q, mem, st, d, s.pid, 0);
          IterateFromSplits(p, mem, WantPid(d), 3, m);
          n := 3 + m;
        }
      }
    }
  }

  lemma {:induction false} ProbesFrom(q: Query, mem: Memory, st: NameIndex.Seg, d: nat) returns (n: nat)
    requires Represents(mem, st) && q.cap == |st.slots| && d < q.cap
    ensures IterateFrom(Probe(q), mem, WantPid(d), n)
            == Verdict(st, NameIndex.FindFrom(st.slots, st.pts, q.key, q.hash, d))
    decreases q.cap - d
  {
    var p := Probe(q);
    var s := st.slots[Position(q, d)];
    n := ProbesOneSlot(q, mem, st, d);
    if s.pid != NameIndex.EMPTY && !NameIndex.Matches(s, st.pts, q.key, q.hash) && d + 1 < q.cap {
      var m := ProbesFrom(q, mem, st, d + 1);
      IterateFromSplits(p, mem, WantPid(d), n, m);
      n := n + m;
    }
  }

  /** irt_index_lookup: in every interleaving an accepted probe result is what
   *  the search gives on the registry as it stands in memory at that moment,
   *  with no writer inside the lock. */
  lemma AcceptedProbeIsSearch(s: State<ProbeState>, q: Query, actions: seq<Action>, a: Action, r: Pid, st: NameIndex.Seg)
    requires Init(s) && IsRun(s, Probe(q), OneRecovery, actions)
    requires Enabled(Run(s, Probe(q), OneRecovery, actions), Probe(q), OneRecovery, a)
    requires var t := Run(s, Probe(q), OneRecovery, actions);
             && r in t.readers && !Finished(t.readers[r])
             && r in Next(t, Probe(q), OneRecovery, a).readers
             && Result(Next(t, Probe(q), OneRecovery, a).readers[r]).Some?
             && Represents(t.mem, st)
    requires q.cap == |st.slots| > 0
    ensures var t := Run(s, Probe(q), OneRecovery, actions);
            && Result(Next(t, Probe(q), OneRecovery, a).readers[r]).value
               == Verdict(st, NameIndex.FindFrom(st.slots, st.pts, q.key, q.hash, 0))
            && forall w :: w in t.writers ==> !Inside(t.writers[w])
  {
    AcceptedIsSnapshot(s, Probe(q), actions, a, r);
    var t := Run(s, Probe(q), OneRecovery, actions);
    var l := Result(Next(t, Probe(q), OneRecovery, a).readers[r]).value;
    var n := ProbesFrom(q, t.mem, st, 0);
    SnapshotUnique(Probe(q), t.mem, l, Verdict(st, NameIndex.FindFrom(st.slots, st.pts, q.key, q.hash, 0)), n);
  }
}
