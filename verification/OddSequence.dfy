/** What becomes of readers and writers that load an odd sequence
 *  (src/core/irt_point_manager.c:161-197, src/internal/irt_seqlock.h:25-46): a
 *  do-while reader can leave its loop without a good copy, and a writer does not
 *  look again.
 */
module OddSequence {
  import opened Common
  import opened Seqlock

  // ---- Leaving with an odd sequence ----

  /** A do-while reader that starts while the very first writer is inside leaves
   *  its loop at once, with odd s0 and nothing copied: the `continue` compares
   *  s0 = 1 with the initial s1 = 1. */
  lemma OddExitHasNoCopy<L>(prog: Program<L>, mem: Memory) returns (s: State<L>, actions: seq<Action>)
    ensures Init(s) && s.mem == mem && IsRun(s, prog, OneRecovery, actions)
    ensures 0 in Run(s, prog, OneRecovery, actions).readers
    ensures Run(s, prog, OneRecovery, actions).readers[0] == LoopExit(1, None)
  {
    s := State(0, mem, map[0 := Outside], map[], map[0 := LoopStart(1, None)]);
    var s1 := s.(writers := map[0 := Trying(0, 0)]);
    var s2 := s1.(wseq := 1, writers := map[0 := Holding(0)]);
    var s3 := s2.(readers := map[0 := LoopExit(1, None)]);
    actions := [WriterLoad(0), WriterCas(0), ReaderLoadSeq(0)];
    assert Moves(s, prog, OneRecovery, WriterLoad(0), s1);
    assert Moves(s1, prog, OneRecovery, WriterCas(0), s2);
    assert Moves(s2, prog, OneRecovery, ReaderLoadSeq(0), s3);
    TraceIsRun([s, s1, s2, s3], prog, OneRecovery, actions);
  }

  /** The reader has copied l and sees, when it checks, that a writer came in
   *  between. */
  ghost predicate Rejects<L>(s: State<L>, a: Action, r: Pid, l: L) {
    && a == ReaderCheck(r) && r in s.readers
    && s.readers[r].LoopReading? && s.readers[r].l == l && s.wseq != s.readers[r].s0
  }

  /** Starting over, or gone with odd s0. */
  predicate Unserved<L>(r: Reader<L>) {
    r.LoopStart? || (r.LoopExit? && Odd(r.s0))
  }

  /** The sequence value that the test of the loop compares with: what the last
   *  check saw, 1 before any. */
  function LastSeen<L>(r: Reader<L>): nat
    requires r.LoopStart? || r.LoopExit?
  {
    if r.LoopStart? then r.s1 else r.s0
  }

  /** What such a reader has in hand it has rejected itself, at a check that saw
   *  the value it is left with; before any check it has nothing, and 1. */
  ghost predicate Accounted<L>(states: seq<State<L>>, actions: seq<Action>, r: Pid, me: Reader<L>, n: nat)
    requires |states| == |actions| + 1 && n <= |actions| && Unserved(me)
  {
    if me.out.None? then LastSeen(me) == 1
    else exists i: nat :: i < n && Rejects(states[i], actions[i], r, me.out.value) && states[i].wseq == LastSeen(me)
  }

  lemma {:induction false} LeftoverWasRejected<L>(states: seq<State<L>>, prog: Program<L>, d: Discipline,
                                                  actions: seq<Action>, r: Pid, n: nat)
    requires IsTrace(states, prog, d, actions) && n <= |actions|
    requires r in states[0].readers && states[0].readers[r] == LoopStart(1, None)
    ensures r in states[n].readers
    ensures var me := states[n].readers[r];
            && (me.LoopReading? ==> !Odd(me.s0))
            && (Unserved(me) ==> Accounted(states, actions, r, me, n))
    decreases n
  {
    if n > 0 {
      LeftoverWasRejected(states, prog, d, actions, r, n - 1);
      assert Moves(states[n - 1], prog, d, actions[n - 1], states[n]);
      LeftoverStep(states[n - 1], prog, d, actions[n - 1], r);
    }
  }

  lemma LeftoverStep<L>(s: State<L>, prog: Program<L>, d: Discipline, a: Action, r: Pid)
    requires Enabled(s, prog, d, a) && r in s.readers && (s.readers[r].LoopReading? ==> !Odd(s.readers[r].s0))
    ensures r in Next(s, prog, d, a).readers
    ensures var me, me' := s.readers[r], Next(s, prog, d, a).readers[r];
            && (me'.LoopReading? ==> !Odd(me'.s0))
            && (Unserved(me') ==>
                  || (Unserved(me) && me.out == me'.out && LastSeen(me) == LastSeen(me'))
                  || (me'.out.Some? && Rejects(s, a, r, me'.out.value) && s.wseq == LastSeen(me')))
  {
  }

  /** No exit with odd s0 carries a copy that was validated.  Without a copy it
   *  happens at the value 1 only; with one, at the value that the check saw at
   *  which the reader itself rejected the copy. */
  lemma OddExitWasRejected<L>(states: seq<State<L>>, prog: Program<L>, d: Discipline, actions: seq<Action>, r: Pid)
    requires IsTrace(states, prog, d, actions)
    requires r in states[0].readers && states[0].readers[r] == LoopStart(1, None)
    ensures r in states[|actions|].readers
    ensures var me := states[|actions|].readers[r];
            me.LoopExit? && Odd(me.s0) ==>
              if me.out.None? then me.s0 == 1
              else
                exists i: nat ::
                  i < |actions| && Rejects(states[i], actions[i], r, me.out.value) && states[i].wseq == me.s0
  {
    LeftoverWasRejected(states, prog, d, actions, r, |actions|);
  }

  /** A do-while reader that loads an odd sequence leaves iff it is the value of
   *  its last check, 1 before any, and otherwise starts over with what it has. */
  lemma OddLoadLeavesIff<L>(s: State<L>, prog: Program<L>, d: Discipline, r: Pid)
    requires r in s.readers && s.readers[r].LoopStart? && Odd(s.wseq)
    ensures Enabled(s, prog, d, ReaderLoadSeq(r))
    ensures var me, me' := s.readers[r], Next(s, prog, d, ReaderLoadSeq(r)).readers[r];
            me' == if s.wseq == me.s1 then LoopExit(s.wseq, me.out) else me
  {
  }

  // ---- A writer that meets an odd sequence ----

  /** Once write_begin has loaded an odd value it never looks at the word again:
   *  whatever the others do, it does not get the lock in this call. */
  lemma {:induction false} OddLoadNeverAcquires<L>(s: State<L>, prog: Program<L>, d: Discipline, actions: seq<Action>, w: Pid)
    requires w in s.writers && IsRun(s, prog, d, actions)
    requires s.writers[w].Outside? || s.writers[w].CrashedOutside? || (s.writers[w].Trying? && Odd(s.writers[w].expected))
    requires forall i :: 0 <= i < |actions| ==> actions[i] != WriterLoad(w)
    ensures var t := Run(s, prog, d, actions);
            && w in t.writers && !t.writers[w].Holding?
            && (t.writers[w].Trying? ==> s.writers[w].Trying? && t.writers[w].expected == s.writers[w].expected)
    decreases |actions|
  {
    if actions != [] {
      assert actions[0] != WriterLoad(w);
      OddLoadNeverAcquires(Next(s, prog, d, actions[0]), prog, d, actions[1..], w);
    }
  }

  function BackOffs(w: Pid, k: nat): seq<Action> {
    if k == 0 then [WriterLoad(w)] else BackOffs(w, k - 1) + [WriterBackoff(w)]
  }

  /** It backs off three times and gives up at the fourth. */
  lemma {:induction false} GivesUpAtFourth<L>(s: State<L>, prog: Program<L>, d: Discipline, w: Pid, k: nat)
    requires w in s.writers && s.writers[w].Outside? && Odd(s.wseq) && k <= 4
    ensures IsRun(s, prog, d, BackOffs(w, k))
    ensures Run(s, prog, d, BackOffs(w, k))
            == s.(writers := s.writers[w := if k < 4 then Trying(s.wseq, k) else Outside])
    decreases k
  {
    if k == 0 {
      OneStep(s, prog, d, WriterLoad(w));
    } else {
      GivesUpAtFourth(s, prog, d, w, k - 1);
      var t := s.(writers := s.writers[w := Trying(s.wseq, k - 1)]);
      OneStep(t, prog, d, WriterBackoff(w));
      RunConcat(s, prog, d, BackOffs(w, k - 1), [WriterBackoff(w)]);
      assert Next(t, prog, d, WriterBackoff(w)).writers
          == s.writers[w := if k < 4 then Trying(s.wseq, k) else Outside];
    }
  }
}
