/** The sequence lock as a protocol of interleaved steps
 *  (src/internal/irt_seqlock.h, src/core/irt_shm.c:148-153 and 212-230,
 *  src/core/irt_index.c:249-279, src/core/irt_point_manager.c:161-197).
 *
 * Any number of writers, readers and attaching processes take one step at a
 * time, in any order: one load, one store or one compare-and-swap of the
 * sequence word, or one load or store of one data word.  Steps are
 * sequentially consistent and the sequence word is unbounded.
 *
 * A reader is a program over local states of type L: `next` says which word
 * to load, or that the reading is finished, and `absorb` takes the loaded word.
 * Copying a block and probing the index are two such programs.
 */
module Seqlock {
  import opened Common

  type Word = nat
  type Pid = nat

  /** The words the lock protects. */
  datatype Addr =
    | SlotHash(i: nat)
    | SlotPid(i: nat)
    | PointPartition(id: nat)
    | PointName(id: nat, k: nat)
    | PointWord(id: nat, k: nat)
    | MetaWord(id: nat, k: nat)

  type Memory = map<Addr, Word>

  function Load(mem: Memory, a: Addr): Word {
    if a in mem then mem[a] else 0
  }

  datatype Program<!L> = Program(init: L, next: L -> Option<Addr>, absorb: (L, Word) -> L)

  /** irt_seqlock_write_begin and write_end. */
  datatype Writer =
    | Outside
    | Trying(expected: nat, retry: nat)
    | Holding(seq0: nat)
    | CrashedOutside
    | CrashedInside(seq0: nat)

  /** Attaching: nothing yet, or the sequence word has been loaded. */
  datatype Attacher = Fresh | Loaded(v: nat) | Attached

  /** The bounded `for` readers and the unbounded `do … while` readers. */
  datatype Reader<L> =
    | ForStart(attempt: nat)
    | ForReading(attempt: nat, s0: nat, l: L, n: nat)
    | Accepted(l: L)
    | Busy
    | LoopStart(s1: nat, out: Option<L>)
    | LoopReading(s0: nat, l: L, n: nat)
    | LoopExit(s0: nat, out: Option<L>)

  datatype State<L> = State(
    wseq: nat,
    mem: Memory,
    writers: map<Pid, Writer>,
    attachers: map<Pid, Attacher>,
    readers: map<Pid, Reader<L>>)

  datatype Action =
    | WriterLoad(w: Pid)
    | WriterCas(w: Pid)
    | WriterBackoff(w: Pid)
    | WriterStore(w: Pid, a: Addr, v: Word)
    | WriterEnd(w: Pid)
    | WriterCrash(w: Pid)
    | AttachLoad(p: Pid)
    | AttachStore(p: Pid)
    | ReaderLoadSeq(r: Pid)
    | ReaderLoadWord(r: Pid)
    | ReaderCheck(r: Pid)

  const WRITE_RETRIES := 3
  const READ_ATTEMPTS := 16

  predicate Odd(x: nat) {
    x % 2 == 1
  }

  predicate Inside(w: Writer) {
    w.Holding? || w.CrashedInside?
  }

  /** No live writer is inside the lock. */
  ghost predicate NoLiveHolder<L>(s: State<L>) {
    forall w :: w in s.writers ==> !s.writers[w].Holding?
  }

  /** The process has loaded an odd sequence and will store. */
  predicate Recovering(a: Attacher) {
    a.Loaded? && Odd(a.v)
  }

  ghost predicate NoOtherRecovery<L>(s: State<L>, p: Pid) {
    Odd(s.wseq) ==> forall q :: q in s.attachers && q != p ==> !Recovering(s.attachers[q])
  }

  /** When an attaching process may load the sequence word.  Both forms require
   *  that no live writer is inside; `OneRecovery` also that two processes are
   *  never recovering at once.  Processes that meet an even sequence, and so
   *  will not store, may attach together under both. */
  datatype Discipline = OneRecovery | AnyRecovery

  ghost predicate MayRecover<L>(s: State<L>, p: Pid, d: Discipline) {
    NoLiveHolder(s) && (d == OneRecovery ==> NoOtherRecovery(s, p))
  }

  ghost predicate Enabled<L>(s: State<L>, prog: Program<L>, d: Discipline, a: Action) {
    match a
    case WriterLoad(w) => w in s.writers && s.writers[w].Outside?
    case WriterCas(w) => w in s.writers && s.writers[w].Trying? && !Odd(s.writers[w].expected)
    case WriterBackoff(w) => w in s.writers && s.writers[w].Trying? && Odd(s.writers[w].expected)
    case WriterStore(w, _, _) => w in s.writers && s.writers[w].Holding?
    case WriterEnd(w) => w in s.writers && s.writers[w].Holding?
    case WriterCrash(w) => w in s.writers && !s.writers[w].CrashedOutside? && !s.writers[w].CrashedInside?
    case AttachLoad(p) => p in s.attachers && s.attachers[p].Fresh? && MayRecover(s, p, d)
    case AttachStore(p) => p in s.attachers && s.attachers[p].Loaded?
    case ReaderLoadSeq(r) => r in s.readers && (s.readers[r].ForStart? || s.readers[r].LoopStart?)
    case ReaderLoadWord(r) =>
      && r in s.readers && (s.readers[r].ForReading? || s.readers[r].LoopReading?)
      && prog.next(s.readers[r].l).Some?
    case ReaderCheck(r) =>
      && r in s.readers && (s.readers[r].ForReading? || s.readers[r].LoopReading?)
      && prog.next(s.readers[r].l).None?
  }

  function NextAttempt<L>(attempt: nat): Reader<L> {
    if attempt + 1 < READ_ATTEMPTS then ForStart(attempt + 1) else Busy
  }

  /** One reader step: the new reader state. */
  ghost function ReaderStep<L>(s: State<L>, prog: Program<L>, r: Reader<L>, d: Discipline, a: Action): Reader<L>
  {
    match a
    case ReaderLoadSeq(_) =>
      if r.ForStart? then
        if Odd(s.wseq) then NextAttempt(r.attempt) else ForReading(r.attempt, s.wseq, prog.init, 0)
      else if r.LoopStart? then
        // `continue` in a do-while jumps to the test s0 != s1.
        if !Odd(s.wseq) then LoopReading(s.wseq, prog.init, 0)
        else if s.wseq != r.s1 then LoopStart(r.s1, r.out)
        else LoopExit(s.wseq, r.out)
      else r
    case ReaderLoadWord(_) =>
      if r.ForReading? && prog.next(r.l).Some? then
        ForReading(r.attempt, r.s0, prog.absorb(r.l, Load(s.mem, prog.next(r.l).value)), r.n + 1)
      else if r.LoopReading? && prog.next(r.l).Some? then
        LoopReading(r.s0, prog.absorb(r.l, Load(s.mem, prog.next(r.l).value)), r.n + 1)
      else r
    case ReaderCheck(_) =>
      if r.ForReading? then
        if s.wseq == r.s0 then Accepted(r.l) else NextAttempt(r.attempt)
      else if r.LoopReading? then
        if s.wseq == r.s0 then LoopExit(r.s0, Some(r.l)) else LoopStart(s.wseq, Some(r.l))
      else r
    case _ => r
  }

  ghost function Next<L>(s: State<L>, prog: Program<L>, d: Discipline, a: Action): State<L>
    requires Enabled(s, prog, d, a)
  {
    match a
    case WriterLoad(w) => s.(writers := s.writers[w := Trying(s.wseq, 0)])
    case WriterCas(w) =>
      var e := s.writers[w].expected;
      if s.wseq == e then s.(wseq := e + 1, writers := s.writers[w := Holding(e)])
      else s.(writers := s.writers[w := Trying(s.wseq, 0)])
    case WriterBackoff(w) =>
      var t := s.writers[w];
      // The loop does not load the word again: `expected` stays what it was.
      s.(writers := s.writers[w := if t.retry + 1 > WRITE_RETRIES then Outside else Trying(t.expected, t.retry + 1)])
    case WriterStore(w, addr, v) => s.(mem := s.mem[addr := v])
    case WriterEnd(w) => s.(wseq := s.writers[w].seq0 + 2, writers := s.writers[w := Outside])
    case WriterCrash(w) =>
      var t := s.writers[w];
      s.(writers := s.writers[w := if t.Holding? then CrashedInside(t.seq0) else CrashedOutside])
    case AttachLoad(p) => s.(attachers := s.attachers[p := Loaded(s.wseq)])
    case AttachStore(p) =>
      var v := s.attachers[p].v;
      if Odd(v) then
        s.(wseq := v + 1, attachers := s.attachers[p := Attached],
           writers := map w | w in s.writers :: if s.writers[w].CrashedInside? then CrashedOutside else s.writers[w])
      else s.(attachers := s.attachers[p := Attached])
    case ReaderLoadSeq(r) => s.(readers := s.readers[r := ReaderStep(s, prog, s.readers[r], d, a)])
    case ReaderLoadWord(r) => s.(readers := s.readers[r := ReaderStep(s, prog, s.readers[r], d, a)])
    case ReaderCheck(r) => s.(readers := s.readers[r := ReaderStep(s, prog, s.readers[r], d, a)])
  }

  ghost predicate Init<L>(s: State<L>) {
    && !Odd(s.wseq)
    && (forall w :: w in s.writers ==> s.writers[w].Outside?)
    && (forall p :: p in s.attachers ==> s.attachers[p].Fresh?)
    && (forall r :: r in s.readers ==> s.readers[r] == ForStart(0) || s.readers[r] == LoopStart(1, None))
  }

  // ---- Reading undisturbed ----

  /** The local state after n undisturbed loads from one fixed memory. */
  ghost function Iterate<L>(prog: Program<L>, mem: Memory, n: nat): L {
    if n == 0 then prog.init
    else
      var l := Iterate(prog, mem, n - 1);
      if prog.next(l).Some? then prog.absorb(l, Load(mem, prog.next(l).value)) else l
  }

  /** l is the finished result of the program on the one memory mem. */
  ghost predicate IsSnapshot<L>(prog: Program<L>, mem: Memory, l: L) {
    prog.next(l).None? && exists n: nat :: l == Iterate(prog, mem, n)
  }

  // ---- The invariant ----

  /** seq is odd iff exactly one writer is inside, and then it is its seq0 + 1. */
  ghost predicate Exclusion<L>(s: State<L>) {
    && (forall w :: w in s.writers && Inside(s.writers[w]) ==> s.wseq == s.writers[w].seq0 + 1 && Odd(s.wseq))
    && (forall v, w :: v in s.writers && w in s.writers && Inside(s.writers[v]) && Inside(s.writers[w]) ==> v == w)
    && (Odd(s.wseq) ==> exists w :: w in s.writers && Inside(s.writers[w]))
  }

  /** Whoever is recovering has loaded the present value, and nobody alive has
   *  entered since. */
  ghost predicate LoadsCurrent<L>(s: State<L>) {
    forall p :: p in s.attachers && Recovering(s.attachers[p]) ==> s.wseq == s.attachers[p].v && NoLiveHolder(s)
  }

  ghost predicate Overlap<L>(s: State<L>) {
    exists p, q :: p in s.attachers && q in s.attachers && p != q
                   && Recovering(s.attachers[p]) && Recovering(s.attachers[q])
  }

  ghost predicate RecoveryOk<L>(s: State<L>) {
    && LoadsCurrent(s)
    && !Overlap(s)
  }

  ghost predicate ReadingOk<L>(s: State<L>, prog: Program<L>, s0: nat, l: L, n: nat) {
    && !Odd(s0) && s0 <= s.wseq
    && (s.wseq == s0 ==> l == Iterate(prog, s.mem, n))
  }

  ghost predicate ReadersOk<L>(s: State<L>, prog: Program<L>) {
    forall r :: r in s.readers ==>
      && (s.readers[r].ForReading? ==> ReadingOk(s, prog, s.readers[r].s0, s.readers[r].l, s.readers[r].n))
      && (s.readers[r].LoopReading? ==> ReadingOk(s, prog, s.readers[r].s0, s.readers[r].l, s.readers[r].n))
  }

  ghost predicate Inv<L>(s: State<L>, prog: Program<L>) {
    Exclusion(s) && RecoveryOk(s) && ReadersOk(s, prog)
  }

  lemma InitInv<L>(s: State<L>, prog: Program<L>)
    requires Init(s)
    ensures Inv(s, prog)
  {
  }

  predicate IsWriterAction(a: Action) {
    a.WriterLoad? || a.WriterCas? || a.WriterBackoff? || a.WriterStore? || a.WriterEnd? || a.WriterCrash?
  }

  /** A writer step that leaves the set of writers inside the lock alone. */
  lemma QuietWriterStep<L>(s: State<L>, s': State<L>, w: Pid)
    requires Exclusion(s) && RecoveryOk(s) && w in s.writers
    requires s'.wseq == s.wseq && s'.attachers == s.attachers && w in s'.writers
    requires s'.writers == s.writers[w := s'.writers[w]]
    requires Inside(s'.writers[w]) == Inside(s.writers[w])
    requires Inside(s.writers[w]) ==> s'.writers[w].seq0 == s.writers[w].seq0
    requires s'.writers[w].Holding? ==> s.writers[w].Holding?
    ensures Exclusion(s') && RecoveryOk(s')
  {
    if Odd(s.wseq) {
      var h :| h in s.writers && Inside(s.writers[h]);
      assert h in s'.writers && Inside(s'.writers[h]);
    }
  }

  lemma WriterStepKeeps<L>(s: State<L>, prog: Program<L>, d: Discipline, a: Action)
    requires Exclusion(s) && RecoveryOk(s) && IsWriterAction(a) && Enabled(s, prog, d, a)
    ensures var s' := Next(s, prog, d, a); Exclusion(s') && RecoveryOk(s')
  {
    var s' := Next(s, prog, d, a);
    var w := a.w;
    match a {
      case WriterCas(_) =>
        if s.wseq == s.writers[w].expected {
          assert Inside(s'.writers[w]);
        } else {
          QuietWriterStep(s, s', w);
        }
      case WriterEnd(_) =>
        assert Inside(s.writers[w]);
      case _ =>
        QuietWriterStep(s, s', w);
    }
  }

  /** The recovery step releases the lock of the crashed holder, and only that. */
  lemma AttachStepKeeps<L>(s: State<L>, prog: Program<L>, a: Action)
    requires Exclusion(s) && RecoveryOk(s) && (a.AttachLoad? || a.AttachStore?) && Enabled(s, prog, OneRecovery, a)
    ensures var s' := Next(s, prog, OneRecovery, a); Exclusion(s') && RecoveryOk(s')
  {
    var s' := Next(s, prog, OneRecovery, a);
    if Odd(s.wseq) {
      var h :| h in s.writers && Inside(s.writers[h]);
      if a.AttachLoad? {
        assert h in s'.writers && Inside(s'.writers[h]);
      } else if !Odd(s.attachers[a.p].v) {
        assert h in s'.writers && Inside(s'.writers[h]);
      }
    }
  }

  // ---- The sequence word and the data words ----

  /** The sequence never decreases, and a data word changes only while it is
   *  odd and only by the writer inside the lock. */
  lemma SequenceMonotone<L>(s: State<L>, prog: Program<L>, a: Action)
    requires Exclusion(s) && RecoveryOk(s) && Enabled(s, prog, OneRecovery, a)
    ensures var s' := Next(s, prog, OneRecovery, a);
            && s'.wseq >= s.wseq
            && (s'.mem != s.mem ==>
                  Odd(s.wseq) && a.WriterStore? && s.writers[a.w] == Holding(s.wseq - 1) && s'.wseq == s.wseq)
  {
    if a.WriterStore? || a.WriterEnd? {
      assert Inside(s.writers[a.w]);
    }
  }

  // ---- Readers ----

  lemma ReadingKept<L>(s: State<L>, s': State<L>, prog: Program<L>)
    requires ReadersOk(s, prog) && s'.readers == s.readers
    requires s'.wseq >= s.wseq && (s'.mem != s.mem ==> Odd(s.wseq) && s'.wseq == s.wseq)
    ensures ReadersOk(s', prog)
  {
    forall r | r in s'.readers
      ensures s'.readers[r].ForReading? ==> ReadingOk(s', prog, s'.readers[r].s0, s'.readers[r].l, s'.readers[r].n)
      ensures s'.readers[r].LoopReading? ==> ReadingOk(s', prog, s'.readers[r].s0, s'.readers[r].l, s'.readers[r].n)
    {
      assert r in s.readers;
    }
  }

  lemma ReaderStepKeeps<L>(s: State<L>, prog: Program<L>, d: Discipline, a: Action)
    requires ReadersOk(s, prog) && Enabled(s, prog, d, a)
    requires a.ReaderLoadSeq? || a.ReaderLoadWord? || a.ReaderCheck?
    ensures ReadersOk(Next(s, prog, d, a), prog)
  {
    var s' := Next(s, prog, d, a);
    var me := s.readers[a.r];
    forall r | r in s'.readers
      ensures s'.readers[r].ForReading? ==> ReadingOk(s', prog, s'.readers[r].s0, s'.readers[r].l, s'.readers[r].n)
      ensures s'.readers[r].LoopReading? ==> ReadingOk(s', prog, s'.readers[r].s0, s'.readers[r].l, s'.readers[r].n)
    {
      if r == a.r && a.ReaderLoadWord? {
        assert Iterate(prog, s.mem, me.n + 1) ==
               prog.absorb(Iterate(prog, s.mem, me.n), Load(s.mem, prog.next(me.l).value)) || s.wseq != me.s0;
      }
    }
  }

  lemma CoreStep<L>(s: State<L>, prog: Program<L>, a: Action)
    requires Exclusion(s) && RecoveryOk(s) && Enabled(s, prog, OneRecovery, a)
    ensures var s' := Next(s, prog, OneRecovery, a); Exclusion(s') && RecoveryOk(s')
  {
    if IsWriterAction(a) {
      WriterStepKeeps(s, prog, OneRecovery, a);
    } else if a.AttachLoad? || a.AttachStore? {
      AttachStepKeeps(s, prog, a);
    }
  }

  /** Every step keeps the invariant. */
  lemma StepInv<L>(s: State<L>, prog: Program<L>, a: Action)
    requires Inv(s, prog) && Enabled(s, prog, OneRecovery, a)
    ensures Inv(Next(s, prog, OneRecovery, a), prog)
  {
    SequenceMonotone(s, prog, a);
    CoreStep(s, prog, a);
    if IsWriterAction(a) || a.AttachLoad? || a.AttachStore? {
      ReadingKept(s, Next(s, prog, OneRecovery, a), prog);
    } else {
      ReaderStepKeeps(s, prog, OneRecovery, a);
    }
  }

  // ---- Whole runs ----

  ghost predicate IsRun<L>(s: State<L>, prog: Program<L>, d: Discipline, actions: seq<Action>)
    decreases |actions|
  {
    actions == [] ||
    (Enabled(s, prog, d, actions[0]) && IsRun(Next(s, prog, d, actions[0]), prog, d, actions[1..]))
  }

  ghost function Run<L>(s: State<L>, prog: Program<L>, d: Discipline, actions: seq<Action>): State<L>
    requires IsRun(s, prog, d, actions)
    decreases |actions|
  {
    if actions == [] then s else Run(Next(s, prog, d, actions[0]), prog, d, actions[1..])
  }

  lemma {:induction false} RunInv<L>(s: State<L>, prog: Program<L>, actions: seq<Action>)
    requires Inv(s, prog) && IsRun(s, prog, OneRecovery, actions)
    ensures Inv(Run(s, prog, OneRecovery, actions), prog)
    ensures Run(s, prog, OneRecovery, actions).wseq >= s.wseq
    decreases |actions|
  {
    if actions != [] {
      StepInv(s, prog, actions[0]);
      SequenceMonotone(s, prog, actions[0]);
      RunInv(Next(s, prog, OneRecovery, actions[0]), prog, actions[1..]);
    }
  }

  lemma {:induction false} RunConcat<L>(s: State<L>, prog: Program<L>, d: Discipline, a: seq<Action>, b: seq<Action>)
    requires IsRun(s, prog, d, a) && IsRun(Run(s, prog, d, a), prog, d, b)
    ensures IsRun(s, prog, d, a + b) && Run(s, prog, d, a + b) == Run(Run(s, prog, d, a), prog, d, b)
    decreases |a|
  {
    if a == [] {
      assert a + b == b;
    } else {
      assert (a + b)[1..] == a[1..] + b;
      RunConcat(Next(s, prog, d, a[0]), prog, d, a[1..], b);
    }
  }

  lemma OneStep<L>(s: State<L>, prog: Program<L>, d: Discipline, a: Action)
    requires Enabled(s, prog, d, a)
    ensures IsRun(s, prog, d, [a]) && Run(s, prog, d, [a]) == Next(s, prog, d, a)
  {
    assert [a][1..] == [];
  }

  /** In every reachable state the sequence is odd iff exactly one writer, live
   *  or crashed, is inside, and then it is that writer's seq0 + 1. */
  lemma WriterExclusion<L>(s: State<L>, prog: Program<L>, actions: seq<Action>)
    requires Init(s) && IsRun(s, prog, OneRecovery, actions)
    ensures var t := Run(s, prog, OneRecovery, actions);
            && (Odd(t.wseq) <==> exists w :: w in t.writers && Inside(t.writers[w]))
            && (forall w :: w in t.writers && Inside(t.writers[w]) ==> t.wseq == t.writers[w].seq0 + 1)
            && (forall v, w :: v in t.writers && w in t.writers && Inside(t.writers[v]) && Inside(t.writers[w]) ==> v == w)
            && t.wseq >= s.wseq
  {
    InitInv(s, prog);
    RunInv(s, prog, actions);
  }

  predicate Finished<L>(r: Reader<L>) {
    r.Accepted? || r.Busy? || r.LoopExit?
  }

  /** What a reader gives back: an accepted result, or that of a do-while exit
   *  with even s0. */
  function Result<L>(r: Reader<L>): Option<L> {
    if r.Accepted? then Some(r.l)
    else if r.LoopExit? && !Odd(r.s0) then r.out
    else None
  }

  /** Whatever a reader accepts, in any interleaving, is its program's result
   *  on the memory of one instant, the present one, at which no writer is
   *  inside the lock.  A do-while exit with even s0 always has a result. */
  lemma AcceptedIsSnapshot<L>(s: State<L>, prog: Program<L>, actions: seq<Action>, a: Action, r: Pid)
    requires Init(s) && IsRun(s, prog, OneRecovery, actions)
    requires Enabled(Run(s, prog, OneRecovery, actions), prog, OneRecovery, a)
    requires var t := Run(s, prog, OneRecovery, actions);
             r in t.readers && !Finished(t.readers[r]) && r in Next(t, prog, OneRecovery, a).readers
    ensures var t := Run(s, prog, OneRecovery, actions);
            var done := Next(t, prog, OneRecovery, a).readers[r];
            && (Result(done).Some? ==>
                  && IsSnapshot(prog, t.mem, Result(done).value)
                  && !Odd(t.wseq) && forall w :: w in t.writers ==> !Inside(t.writers[w]))
            && (done.Accepted? ==> Result(done) == Some(done.l))
            && (done.LoopExit? && !Odd(done.s0) ==> Result(done) == done.out && done.out.Some?)
  {
    InitInv(s, prog);
    RunInv(s, prog, actions);
    var t := Run(s, prog, OneRecovery, actions);
    assert t.readers[r].ForReading? ==> ReadingOk(t, prog, t.readers[r].s0, t.readers[r].l, t.readers[r].n);
    assert t.readers[r].LoopReading? ==> ReadingOk(t, prog, t.readers[r].s0, t.readers[r].l, t.readers[r].n);
  }

  // ---- Runs given state by state ----

  ghost predicate Moves<L>(s: State<L>, prog: Program<L>, d: Discipline, a: Action, t: State<L>) {
    Enabled(s, prog, d, a) && Next(s, prog, d, a) == t
  }

  ghost predicate IsTrace<L>(states: seq<State<L>>, prog: Program<L>, d: Discipline, actions: seq<Action>) {
    && |states| == |actions| + 1
    && forall i :: 0 <= i < |actions| ==> Moves(states[i], prog, d, actions[i], states[i + 1])
  }

  lemma {:induction false} TraceIsRun<L>(states: seq<State<L>>, prog: Program<L>, d: Discipline, actions: seq<Action>)
    requires IsTrace(states, prog, d, actions)
    ensures IsRun(states[0], prog, d, actions) && Run(states[0], prog, d, actions) == states[|actions|]
    decreases |actions|
  {
    if actions != [] {
      assert states[1..][0] == states[1];
      forall i | 0 <= i < |actions[1..]|
        ensures Moves(states[1..][i], prog, d, actions[1..][i], states[1..][i + 1])
      {
        assert states[1..][i] == states[i + 1] && actions[1..][i] == actions[i + 1];
      }
      TraceIsRun(states[1..], prog, d, actions[1..]);
    }
  }

  // ---- One writer alone ----

  function Stores(w: Pid, words: seq<(Addr, Word)>): seq<Action>
    decreases |words|
  {
    if words == [] then [] else [WriterStore(w, words[0].0, words[0].1)] + Stores(w, words[1..])
  }

  function Filled(mem: Memory, words: seq<(Addr, Word)>): Memory
    decreases |words|
  {
    if words == [] then mem else Filled(mem[words[0].0 := words[0].1], words[1..])
  }

  lemma {:induction false} StoresAlone<L>(s: State<L>, prog: Program<L>, d: Discipline, w: Pid, words: seq<(Addr, Word)>)
    requires w in s.writers && s.writers[w].Holding?
    ensures IsRun(s, prog, d, Stores(w, words))
    ensures Run(s, prog, d, Stores(w, words)) == s.(mem := Filled(s.mem, words))
    decreases |words|
  {
    if words != [] {
      var first := WriterStore(w, words[0].0, words[0].1);
      OneStep(s, prog, d, first);
      StoresAlone(Next(s, prog, d, first), prog, d, w, words[1..]);
      RunConcat(s, prog, d, [first], Stores(w, words[1..]));
    }
  }

  /** From every state with an even sequence a writer that begins can go through
   *  its section: the words are in memory, the lock is free again and the
   *  sequence two further, and nobody else is touched. */
  lemma WritesThrough<L>(s: State<L>, prog: Program<L>, d: Discipline, w: Pid, words: seq<(Addr, Word)>)
    requires !Odd(s.wseq) && w in s.writers && s.writers[w].Outside?
    ensures var section := [WriterLoad(w), WriterCas(w)] + (Stores(w, words) + [WriterEnd(w)]);
            && IsRun(s, prog, d, section)
            && Run(s, prog, d, section) == s.(wseq := s.wseq + 2, mem := Filled(s.mem, words))
  {
    var s1 := Next(s, prog, d, WriterLoad(w));
    var s2 := Next(s1, prog, d, WriterCas(w));
    var s3 := s2.(mem := Filled(s.mem, words));
    OneStep(s, prog, d, WriterLoad(w));
    OneStep(s1, prog, d, WriterCas(w));
    RunConcat(s, prog, d, [WriterLoad(w)], [WriterCas(w)]);
    assert [WriterLoad(w)] + [WriterCas(w)] == [WriterLoad(w), WriterCas(w)];
    StoresAlone(s2, prog, d, w, words);
    OneStep(s3, prog, d, WriterEnd(w));
    RunConcat(s2, prog, d, Stores(w, words), [WriterEnd(w)]);
    RunConcat(s, prog, d, [WriterLoad(w), WriterCas(w)], Stores(w, words) + [WriterEnd(w)]);
    assert Next(s3, prog, d, WriterEnd(w)).writers == s.writers;
  }
}
