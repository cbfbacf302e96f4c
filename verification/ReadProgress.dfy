/** That reads come to an end, and how (src/core/irt_shm.c:221-230,
 *  src/core/irt_index.c:264-278, src/core/irt_point_manager.c:167-174).
 *
 * While the sequence is even and stays as it is, a reader accepts at its first
 * check, whatever else goes on.  A `for` reader counts its attempts: it gives up
 * after the sixteenth that met an odd sequence or a sequence that had changed
 * since it began, and not before.
 */
module ReadProgress {
  import opened Common
  import opened Seqlock
  import opened LockedReads
  import N = NameIndex
  import opened LiveLookup
  import R = Registry

  // ---- While the sequence is even and stays ----

  /** The program needs exactly n loads on this memory. */
  ghost predicate Finishes<L>(prog: Program<L>, mem: Memory, n: nat) {
    && (forall i: nat :: i < n ==> prog.next(Iterate(prog, mem, i)).Some?)
    && prog.next(Iterate(prog, mem, n)).None?
  }

  predicate AtStart<L>(r: Reader<L>) {
    (r.ForStart? && r.attempt < 16) || r.LoopStart?
  }

  /** The reader after `own` of its steps, if the sequence is q throughout: one
   *  step to load it, one for each of n words, one to check it. */
  ghost function Progress<L>(prog: Program<L>, mem: Memory, q: nat, start: Reader<L>, n: nat, own: nat): Reader<L>
    requires AtStart(start)
  {
    if own == 0 then start
    else if own <= n + 1 then
      if start.ForStart? then ForReading(start.attempt, q, Iterate(prog, mem, own - 1), own - 1)
      else LoopReading(q, Iterate(prog, mem, own - 1), own - 1)
    else if start.ForStart? then Accepted(Iterate(prog, mem, n))
    else LoopExit(q, Some(Iterate(prog, mem, n)))
  }

  predicate IsOwn(a: Action, r: Pid) {
    a == ReaderLoadSeq(r) || a == ReaderLoadWord(r) || a == ReaderCheck(r)
  }

  function OwnSteps(actions: seq<Action>, r: Pid, n: nat): nat
    requires n <= |actions|
  {
    if n == 0 then 0 else OwnSteps(actions, r, n - 1) + if IsOwn(actions[n - 1], r) then 1 else 0
  }

  /** The step the reader takes next. */
  function NextOwn(r: Pid, n: nat, own: nat): Action {
    if own == 0 then ReaderLoadSeq(r) else if own <= n then ReaderLoadWord(r) else ReaderCheck(r)
  }

  ghost predicate Undisturbed<L>(states: seq<State<L>>, q: nat, mem: Memory) {
    forall i :: 0 <= i < |states| ==> states[i].wseq == q && states[i].mem == mem
  }

  /** A read during which the sequence is even and stays as it is: the reader
   *  loads the sequence, its n words and the sequence again, each when it is
   *  its turn, and accepts what its program gives on this memory. */
  lemma {:induction false} UndisturbedRead<L>(states: seq<State<L>>, prog: Program<L>, d: Discipline, actions: seq<Action>,
                                              r: Pid, q: nat, mem: Memory, n: nat, k: nat)
    requires IsTrace(states, prog, d, actions) && k <= |actions|
    requires !Odd(q) && Undisturbed(states, q, mem) && Finishes(prog, mem, n)
    requires r in states[0].readers && AtStart(states[0].readers[r])
    ensures r in states[k].readers && OwnSteps(actions, r, k) <= n + 2
    ensures states[k].readers[r] == Progress(prog, mem, q, states[0].readers[r], n, OwnSteps(actions, r, k))
    ensures OwnSteps(actions, r, k) < n + 2 ==> Enabled(states[k], prog, d, NextOwn(r, n, OwnSteps(actions, r, k)))
    decreases k
  {
    if k > 0 {
      UndisturbedRead(states, prog, d, actions, r, q, mem, n, k - 1);
      assert Moves(states[k - 1], prog, d, actions[k - 1], states[k]);
      var own := OwnSteps(actions, r, k - 1);
      ProgressStep(states[k - 1], prog, d, actions[k - 1], r, q, mem, n, states[0].readers[r], own);
    }
  }

  lemma ProgressStep<L>(s: State<L>, prog: Program<L>, d: Discipline, a: Action, r: Pid,
                        q: nat, mem: Memory, n: nat, start: Reader<L>, own: nat)
    requires Enabled(s, prog, d, a) && s.wseq == q && s.mem == mem && !Odd(q) && Finishes(prog, mem, n)
    requires AtStart(start) && own <= n + 2 && r in s.readers && s.readers[r] == Progress(prog, mem, q, start, n, own)
    ensures var t := Next(s, prog, d, a);
            r in t.readers &&
            if IsOwn(a, r) then own < n + 2 && t.readers[r] == Progress(prog, mem, q, start, n, own + 1)
            else t.readers[r] == s.readers[r]
  {
    if IsOwn(a, r) && 0 < own <= n {
      assert Iterate(prog, mem, own) ==
             prog.absorb(Iterate(prog, mem, own - 1), Load(mem, prog.next(Iterate(prog, mem, own - 1)).value));
    }
  }

  // ---- Reading alone ----

  function ReadAlone(r: Pid, n: nat): seq<Action> {
    [ReaderLoadSeq(r)] + LoadWords(r, n) + [ReaderCheck(r)]
  }

  function LoadWords(r: Pid, n: nat): seq<Action> {
    if n == 0 then [] else LoadWords(r, n - 1) + [ReaderLoadWord(r)]
  }

  /** How a read ends that was never disturbed. */
  function Ended<L>(start: Reader<L>, q: nat, l: L): Reader<L> {
    if start.ForStart? then Accepted(l) else LoopExit(q, Some(l))
  }

  ghost function WithReader<L>(s: State<L>, r: Pid, me: Reader<L>): State<L> {
    s.(readers := s.readers[r := me])
  }

  /** From every state with an even sequence a reader that begins can go through,
   *  and then has its program's result on the present memory; nobody else is
   *  touched. */
  lemma ReadsThrough<L>(s: State<L>, prog: Program<L>, d: Discipline, r: Pid, n: nat)
    requires !Odd(s.wseq) && Finishes(prog, s.mem, n) && r in s.readers && AtStart(s.readers[r])
    ensures IsRun(s, prog, d, ReadAlone(r, n))
    ensures Run(s, prog, d, ReadAlone(r, n))
            == WithReader(s, r, Ended(s.readers[r], s.wseq, Iterate(prog, s.mem, n)))
  {
    var start := s.readers[r];
    var first, last := [ReaderLoadSeq(r)] + LoadWords(r, n), [ReaderCheck(r)];
    LoadsThrough(s, prog, d, r, n, n);
    StepAlone(s, prog, d, r, n, n + 1);
    RunConcat(s, prog, d, first, last);
  }

  lemma StepAlone<L>(s: State<L>, prog: Program<L>, d: Discipline, r: Pid, n: nat, own: nat)
    requires !Odd(s.wseq) && Finishes(prog, s.mem, n) && r in s.readers && AtStart(s.readers[r]) && own < n + 2
    ensures var start := s.readers[r];
            var t := WithReader(s, r, Progress(prog, s.mem, s.wseq, start, n, own));
            && IsRun(t, prog, d, [NextOwn(r, n, own)])
            && Run(t, prog, d, [NextOwn(r, n, own)])
               == WithReader(s, r, Progress(prog, s.mem, s.wseq, start, n, own + 1))
  {
    var start := s.readers[r];
    var t := WithReader(s, r, Progress(prog, s.mem, s.wseq, start, n, own));
    ProgressStep(t, prog, d, NextOwn(r, n, own), r, s.wseq, s.mem, n, start, own);
    OneStep(t, prog, d, NextOwn(r, n, own));
  }

  lemma {:induction false} LoadsThrough<L>(s: State<L>, prog: Program<L>, d: Discipline, r: Pid, n: nat, k: nat)
    requires !Odd(s.wseq) && Finishes(prog, s.mem, n) && r in s.readers && AtStart(s.readers[r]) && k <= n
    ensures IsRun(s, prog, d, [ReaderLoadSeq(r)] + LoadWords(r, k))
    ensures Run(s, prog, d, [ReaderLoadSeq(r)] + LoadWords(r, k))
            == WithReader(s, r, Progress(prog, s.mem, s.wseq, s.readers[r], n, k + 1))
    decreases k
  {
    StepAlone(s, prog, d, r, n, k);
    if k == 0 {
      assert WithReader(s, r, s.readers[r]) == s;
      assert [ReaderLoadSeq(r)] + LoadWords(r, 0) == [ReaderLoadSeq(r)];
    } else {
      LoadsThrough(s, prog, d, r, n, k - 1);
      var before := [ReaderLoadSeq(r)] + LoadWords(r, k - 1);
      RunConcat(s, prog, d, before, [ReaderLoadWord(r)]);
      assert before + [ReaderLoadWord(r)] == [ReaderLoadSeq(r)] + LoadWords(r, k);
    }
  }

  // ---- Giving up ----

  /** At j the reader loads the sequence for the attempt that is under way before
   *  step n, and finds q. */
  ghost predicate LoadsAt<L>(states: seq<State<L>>, actions: seq<Action>, r: Pid, j: nat, n: nat, q: nat)
    requires |states| == |actions| + 1 && n <= |actions|
  {
    && j < n && actions[j] == ReaderLoadSeq(r) && states[j].wseq == q
    && forall i :: j < i < n ==> actions[i] != ReaderLoadSeq(r)
  }

  /** Step i ends an attempt of the reader in vain: it meets an odd sequence, or
   *  one that has changed since the attempt began. */
  ghost predicate FailsAt<L>(states: seq<State<L>>, actions: seq<Action>, r: Pid, i: nat)
    requires |states| == |actions| + 1 && i < |actions|
  {
    || (actions[i] == ReaderLoadSeq(r) && Odd(states[i].wseq))
    || (actions[i] == ReaderCheck(r) && exists j, q: nat :: LoadsAt(states, actions, r, j, i, q) && q != states[i].wseq)
  }

  ghost function Failures<L>(states: seq<State<L>>, actions: seq<Action>, r: Pid, n: nat): nat
    requires |states| == |actions| + 1 && n <= |actions|
  {
    if n == 0 then 0 else Failures(states, actions, r, n - 1) + if FailsAt(states, actions, r, n - 1) then 1 else 0
  }

  /** In every interleaving a `for` reader is Busy exactly when sixteen of its
   *  attempts have failed, and until then the number of its attempt is the
   *  number of failures. */
  lemma {:induction false} AttemptsCount<L>(states: seq<State<L>>, prog: Program<L>, d: Discipline, actions: seq<Action>,
                                            r: Pid, n: nat)
    requires IsTrace(states, prog, d, actions) && n <= |actions|
    requires r in states[0].readers && states[0].readers[r] == ForStart(0)
    ensures r in states[n].readers
    ensures var me, failed := states[n].readers[r], Failures(states, actions, r, n);
            match me
            case ForStart(k) => k == failed < 16
            case ForReading(k, s0, _, _) => k == failed < 16 && exists j: nat :: LoadsAt(states, actions, r, j, n, s0)
            case Accepted(_) => failed < 16
            case Busy => failed == 16
            case _ => false
    decreases n
  {
    if n > 0 {
      AttemptsCount(states, prog, d, actions, r, n - 1);
      var s, a := states[n - 1], actions[n - 1];
      assert Moves(s, prog, d, a, states[n]);
      var me := s.readers[r];
      if me.ForReading? {
        var j: nat :| LoadsAt(states, actions, r, j, n - 1, me.s0);
        if a == ReaderCheck(r) {
          assert FailsAt(states, actions, r, n - 1) <==> me.s0 != s.wseq;
        } else {
          assert LoadsAt(states, actions, r, j, n, me.s0);
        }
      } else if a == ReaderLoadSeq(r) {
        assert LoadsAt(states, actions, r, n - 1, n, s.wseq);
      }
    }
  }

  // ---- The copy and the lookup ----

  /** A program that is done after some number of loads is done after a first. */
  lemma {:induction false} FinishesSome<L>(prog: Program<L>, mem: Memory, n: nat) returns (m: nat)
    requires prog.next(Iterate(prog, mem, n)).None?
    ensures Finishes(prog, mem, m) && Iterate(prog, mem, m) == Iterate(prog, mem, n)
    decreases n
  {
    if n > 0 && prog.next(Iterate(prog, mem, n - 1)).None? {
      m := FinishesSome(prog, mem, n - 1);
    } else {
      m := n;
      SomeBefore(prog, mem, n);
    }
  }

  lemma {:induction false} SomeBefore<L>(prog: Program<L>, mem: Memory, n: nat)
    requires n > 0 ==> prog.next(Iterate(prog, mem, n - 1)).Some?
    ensures forall i: nat :: i < n ==> prog.next(Iterate(prog, mem, i)).Some?
    decreases n
  {
    if n > 1 {
      assert prog.next(Iterate(prog, mem, n - 2)).Some?;
      SomeBefore(prog, mem, n - 1);
    }
  }

  /** irt_meta_get, irt_pm_read and irt_pm_peek on a segment where no writer moves:
   *  n words are loaded and the block of memory is given back. */
  lemma CopyGoesThrough(s: State<seq<Word>>, at: nat -> Addr, n: nat, d: Discipline, r: Pid)
    requires !Odd(s.wseq) && r in s.readers && AtStart(s.readers[r])
    ensures IsRun(s, Copy(at, n), d, ReadAlone(r, n))
    ensures Run(s, Copy(at, n), d, ReadAlone(r, n)) == WithReader(s, r, Ended(s.readers[r], s.wseq, Block(s.mem, at, n)))
  {
    forall i: nat | i <= n
      ensures Iterate(Copy(at, n), s.mem, i) == Block(s.mem, at, i)
    {
      CopyPrefix(s.mem, at, n, i);
    }
    ReadsThrough(s, Copy(at, n), d, r, n);
  }

  /** The probe comes to its verdict, the answer of the map of points. */
  lemma ProbeFinishes(mem: Memory, q: Query, hf: N.Hash, ph: Phase) returns (n: nat)
    requires PhaseOk(hf, ph) && |ph.st.slots| > 0 && |ph.st.pts| <= U32_RANGE && Represents(mem, ph.st)
    requires q.hash == hf(q.key) && q.cap == |ph.st.slots| && R.NameFits(q.key) && q.key.name != []
    ensures Finishes(Probe(q), mem, n) && Iterate(Probe(q), mem, n) == Answer(R.Find(Visible(ph), q.key))
  {
    var m := ProbesFrom(q, mem, ph.st, 0);
    SearchInPhase(hf, ph, q.key);
    IterateIsFromInit(Probe(q), mem, m);
    n := FinishesSome(Probe(q), mem, m);
  }

  /** irt_index_lookup on a segment where no writer moves: the answer of the map
   *  of points is found. */
  lemma LookupGoesThrough(s: State<ProbeState>, q: Query, d: Discipline, r: Pid, hf: N.Hash, ph: Phase)
    returns (n: nat)
    requires !Odd(s.wseq) && r in s.readers && AtStart(s.readers[r])
    requires PhaseOk(hf, ph) && |ph.st.slots| > 0 && |ph.st.pts| <= U32_RANGE && Represents(s.mem, ph.st)
    requires q.hash == hf(q.key) && q.cap == |ph.st.slots| && R.NameFits(q.key) && q.key.name != []
    ensures IsRun(s, Probe(q), d, ReadAlone(r, n))
    ensures Run(s, Probe(q), d, ReadAlone(r, n))
            == WithReader(s, r, Ended(s.readers[r], s.wseq, Answer(R.Find(Visible(ph), q.key))))
  {
    n := ProbeFinishes(s.mem, q, hf, ph);
    ReadsThrough(s, Probe(q), d, r, n);
  }
}
