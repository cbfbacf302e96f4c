/** Processes that recover at the same time (src/core/irt_shm.c:148-153 and
 *  212-230).
 *
 * A process that attaches loads the sequence word and, if it was odd, stores
 * the next even value.  Two of them that load the same odd value before either
 * stores can take the lock away from a writer that came in between.  Here is
 * such a run, and exactly when a state still has one.
 */
module Recovery {
  import opened Seqlock

  /** Two writers, two attaching processes, no readers. */
  function Duo<L>(q: nat, w0: Writer, w1: Writer, a0: Attacher, a1: Attacher): State<L> {
    State(q, map[], map[0 := w0, 1 := w1], map[0 := a0, 1 := a1], map[])
  }

  lemma DuoLoads<L>(prog: Program<L>, q: nat, w0: Writer, w1: Writer)
    requires !w0.Holding? && !w1.Holding?
    ensures Moves(Duo(q, w0, w1, Fresh, Fresh), prog, AnyRecovery, AttachLoad(0), Duo(q, w0, w1, Loaded(q), Fresh))
    ensures Moves(Duo(q, w0, w1, Loaded(q), Fresh), prog, AnyRecovery, AttachLoad(1), Duo(q, w0, w1, Loaded(q), Loaded(q)))
  {
  }

  lemma DuoStores<L>(prog: Program<L>, v: nat, q: nat, w1: Writer)
    requires Odd(v) && !w1.CrashedInside?
    ensures Moves(Duo(v, CrashedInside(v - 1), w1, Loaded(v), Loaded(v)), prog, AnyRecovery, AttachStore(0),
                  Duo(v + 1, CrashedOutside, w1, Attached, Loaded(v)))
    ensures Moves(Duo(q, CrashedOutside, w1, Attached, Loaded(v)), prog, AnyRecovery, AttachStore(1),
                  Duo(v + 1, CrashedOutside, w1, Attached, Attached))
  {
  }

  lemma DuoLocks<L>(prog: Program<L>, q: nat, w0: Writer, a0: Attacher, a1: Attacher)
    requires !Odd(q)
    ensures Moves(Duo(q, w0, Outside, a0, a1), prog, AnyRecovery, WriterLoad(1), Duo(q, w0, Trying(q, 0), a0, a1))
    ensures Moves(Duo(q, w0, Trying(q, 0), a0, a1), prog, AnyRecovery, WriterCas(1), Duo(q + 1, w0, Holding(q), a0, a1))
  {
  }

  function AfterCrash<L>(): State<L> {
    Duo(1, CrashedInside(0), Outside, Fresh, Fresh)
  }

  function OverlappingActions(): seq<Action> {
    [AttachLoad(0), AttachLoad(1), AttachStore(0), WriterLoad(1), WriterCas(1)]
  }

  lemma OverlappingRun<L>(prog: Program<L>)
    ensures IsRun(AfterCrash(), prog, AnyRecovery, OverlappingActions())
    ensures Run(AfterCrash(), prog, AnyRecovery, OverlappingActions())
            == Duo(3, CrashedOutside, Holding(2), Attached, Loaded(1))
  {
    DuoLoads(prog, 1, CrashedInside(0), Outside);
    DuoStores(prog, 1, 2, Outside);
    DuoLocks(prog, 2, CrashedOutside, Attached, Loaded(1));
    TraceIsRun([AfterCrash(),
                Duo(1, CrashedInside(0), Outside, Loaded(1), Fresh),
                Duo(1, CrashedInside(0), Outside, Loaded(1), Loaded(1)),
                Duo(2, CrashedOutside, Outside, Attached, Loaded(1)),
                Duo(2, CrashedOutside, Trying(2, 0), Attached, Loaded(1)),
                Duo(3, CrashedOutside, Holding(2), Attached, Loaded(1))],
               prog, AnyRecovery, OverlappingActions());
  }

  lemma AfterCrashInv<L>(prog: Program<L>)
    ensures Inv(AfterCrash(), prog)
  {
    var s: State<L> := AfterCrash();
    assert 0 in s.writers && Inside(s.writers[0]);
  }

  lemma HolderOverEven<L>()
    ensures !Exclusion<L>(Duo(2, CrashedOutside, Holding(2), Attached, Attached))
  {
    var u: State<L> := Duo(2, CrashedOutside, Holding(2), Attached, Attached);
    assert 1 in u.writers && Inside(u.writers[1]);
  }

  /** When two processes recover after the same crash and both load the odd
   *  sequence before either stores, the later store takes the lock away from a
   *  writer that has entered meanwhile: the sequence falls from 3 to 2 while
   *  that writer is inside. */
  lemma OverlappingRecoveriesBreak<L>(prog: Program<L>)
    ensures Inv(AfterCrash(), prog) && IsRun(AfterCrash(), prog, AnyRecovery, OverlappingActions())
    ensures var t := Run(AfterCrash(), prog, AnyRecovery, OverlappingActions());
            && t.wseq == 3 && Moves(t, prog, AnyRecovery, AttachStore(1), Duo(2, CrashedOutside, Holding(2), Attached, Attached))
    ensures !Exclusion<L>(Duo(2, CrashedOutside, Holding(2), Attached, Attached))
  {
    OverlappingRun(prog);
    DuoStores(prog, 1, 3, Holding(2));
    AfterCrashInv(prog);
    HolderOverEven<L>();
  }

  // ---- One process alone ----

  /** A crash stops a writer for good, inside the lock iff it held it. */
  lemma CrashStops<L>(s: State<L>, prog: Program<L>, d: Discipline, w: Pid, a: Action)
    requires Enabled(s, prog, d, WriterCrash(w))
    ensures var me, t := s.writers[w], Next(s, prog, d, WriterCrash(w));
            && t == s.(writers := s.writers[w := if me.Holding? then CrashedInside(me.seq0) else CrashedOutside])
            && (IsWriterAction(a) && a.w == w ==> !Enabled(t, prog, d, a))
  {
  }

  /** A process that attaches alone changes nothing but its own state when the
   *  sequence is even; when it is odd it makes it the next even value and frees
   *  the lock of whoever crashed inside. */
  lemma AttachesAlone<L>(s: State<L>, prog: Program<L>, d: Discipline, p: Pid)
    requires p in s.attachers && s.attachers[p].Fresh? && MayRecover(s, p, d)
    ensures IsRun(s, prog, d, [AttachLoad(p), AttachStore(p)])
    ensures var t := Run(s, prog, d, [AttachLoad(p), AttachStore(p)]);
            && t.attachers == s.attachers[p := Attached] && t.mem == s.mem && t.readers == s.readers
            && t.wseq == (if Odd(s.wseq) then s.wseq + 1 else s.wseq)
            && t.writers.Keys == s.writers.Keys
            && forall w :: w in s.writers ==>
                 t.writers[w] == if Odd(s.wseq) && s.writers[w].CrashedInside? then CrashedOutside else s.writers[w]
  {
    var s1 := Next(s, prog, d, AttachLoad(p));
    OneStep(s, prog, d, AttachLoad(p));
    OneStep(s1, prog, d, AttachStore(p));
    RunConcat(s, prog, d, [AttachLoad(p)], [AttachStore(p)]);
    assert [AttachLoad(p)] + [AttachStore(p)] == [AttachLoad(p), AttachStore(p)];
    assert s.attachers[p := Loaded(s.wseq)][p := Attached] == s.attachers[p := Attached];
  }

  // ---- Exactly when exclusion can be lost ----

  ghost predicate LiveWriter<L>(s: State<L>) {
    exists w :: w in s.writers && (s.writers[w].Outside? || s.writers[w].Trying?)
  }

  ghost predicate SomeRecovering<L>(s: State<L>) {
    exists p :: p in s.attachers && Recovering(s.attachers[p])
  }

  /** A pending store of recovery can meet a live writer inside: there is one, or
   *  one can enter because the sequence is even, or because another recovery
   *  makes it even. */
  ghost predicate Danger<L>(s: State<L>) {
    SomeRecovering(s) && (!NoLiveHolder(s) || (LiveWriter(s) && (!Odd(s.wseq) || Overlap(s))))
  }

  /** Some continuation, in which no further recovery overlaps with another, ends
   *  without mutual exclusion. */
  ghost predicate CanBreak<L>(s: State<L>, prog: Program<L>) {
    exists actions :: IsRun(s, prog, OneRecovery, actions) && !Exclusion(Run(s, prog, OneRecovery, actions))
  }

  function Entered<L>(s: State<L>, w: Pid): State<L> {
    s.(wseq := s.wseq + 1, writers := s.writers[w := Holding(s.wseq)])
  }

  /** How often a writer that met an odd sequence still backs off. */
  function Patience(w: Writer): nat {
    if !w.Trying? || !Odd(w.expected) then 0
    else if w.retry < WRITE_RETRIES then 1 + WRITE_RETRIES - w.retry
    else 1
  }

  /** Over an even sequence any live writer can enter by its own steps. */
  lemma {:induction false} WriterEnters<L>(s: State<L>, prog: Program<L>, d: Discipline, w: Pid) returns (actions: seq<Action>)
    requires !Odd(s.wseq) && w in s.writers && (s.writers[w].Outside? || s.writers[w].Trying?)
    ensures IsRun(s, prog, d, actions) && Run(s, prog, d, actions) == Entered(s, w)
    decreases if s.writers[w].Trying? && s.writers[w].expected == s.wseq then 0 else 1 + Patience(s.writers[w])
  {
    var me := s.writers[w];
    var a := if me.Outside? then WriterLoad(w) else if Odd(me.expected) then WriterBackoff(w) else WriterCas(w);
    OneStep(s, prog, d, a);
    actions := [a];
    if me.Outside? || Odd(me.expected) || me.expected != s.wseq {
      var s1 := Next(s, prog, d, a);
      var rest := WriterEnters(s1, prog, d, w);
      assert Entered(s1, w) == Entered(s, w);
      RunConcat(s, prog, d, [a], rest);
      actions := [a] + rest;
    }
  }

  /** A store of recovery while a live writer is inside. */
  lemma StoreBreaks<L>(s: State<L>, prog: Program<L>, p: Pid)
    requires p in s.attachers && Recovering(s.attachers[p]) && !NoLiveHolder(s)
    ensures CanBreak(s, prog)
  {
    var d := OneRecovery;
    OneStep(s, prog, d, AttachStore(p));
    var w :| w in s.writers && s.writers[w].Holding?;
    var t := Next(s, prog, d, AttachStore(p));
    assert w in t.writers && Inside(t.writers[w]) && !Odd(t.wseq);
  }

  /** Over an even sequence a live writer enters before the store. */
  lemma EnterBreaks<L>(s: State<L>, prog: Program<L>, p: Pid)
    requires p in s.attachers && Recovering(s.attachers[p]) && LiveWriter(s) && !Odd(s.wseq)
    ensures CanBreak(s, prog)
  {
    var w :| w in s.writers && (s.writers[w].Outside? || s.writers[w].Trying?);
    var enter := WriterEnters(s, prog, OneRecovery, w);
    var t := Entered(s, w);
    assert w in t.writers && t.writers[w].Holding?;
    StoreBreaks(t, prog, p);
    BreaksAfter(s, prog, enter);
  }

  lemma BreaksAfter<L>(s: State<L>, prog: Program<L>, first: seq<Action>)
    requires IsRun(s, prog, OneRecovery, first) && CanBreak(Run(s, prog, OneRecovery, first), prog)
    ensures CanBreak(s, prog)
  {
    var t := Run(s, prog, OneRecovery, first);
    var rest :| IsRun(t, prog, OneRecovery, rest) && !Exclusion(Run(t, prog, OneRecovery, rest));
    RunConcat(s, prog, OneRecovery, first, rest);
  }

  /** Two pending stores: the first makes the sequence even. */
  lemma OverlapBreaks<L>(s: State<L>, prog: Program<L>)
    requires Overlap(s) && LiveWriter(s)
    ensures CanBreak(s, prog)
  {
    var p, q :| p in s.attachers && q in s.attachers && p != q
                && Recovering(s.attachers[p]) && Recovering(s.attachers[q]);
    var w :| w in s.writers && (s.writers[w].Outside? || s.writers[w].Trying?);
    OneStep(s, prog, OneRecovery, AttachStore(p));
    var t := Next(s, prog, OneRecovery, AttachStore(p));
    assert t.attachers[q] == s.attachers[q] && t.writers[w] == s.writers[w];
    EnterBreaks(t, prog, q);
    BreaksAfter(s, prog, [AttachStore(p)]);
  }

  /** At most one process is recovering, and while it is the sequence is odd and
   *  no live writer is inside. */
  ghost predicate Calm<L>(s: State<L>) {
    Exclusion(s) && !Overlap(s) && (SomeRecovering(s) ==> Odd(s.wseq) && NoLiveHolder(s))
  }

  lemma CalmStep<L>(s: State<L>, prog: Program<L>, a: Action)
    requires Calm(s) && Enabled(s, prog, OneRecovery, a)
    ensures Calm(Next(s, prog, OneRecovery, a))
  {
    if !SomeRecovering(s) {
      assert RecoveryOk(s);
      CoreStep(s, prog, a);
    } else if a.AttachStore? {
      CalmStore(s, prog, a.p);
    } else {
      CalmOther(s, prog, a);
    }
  }

  lemma CalmStore<L>(s: State<L>, prog: Program<L>, p: Pid)
    requires Calm(s) && SomeRecovering(s) && Enabled(s, prog, OneRecovery, AttachStore(p))
    ensures Calm(Next(s, prog, OneRecovery, AttachStore(p)))
  {
    var t := Next(s, prog, OneRecovery, AttachStore(p));
    if Recovering(s.attachers[p]) {
      assert forall q :: q in t.attachers ==> !Recovering(t.attachers[q]);
      assert forall w :: w in t.writers ==> !Inside(t.writers[w]);
    } else {
      assert t.wseq == s.wseq && t.writers == s.writers;
      assert forall q :: q in t.attachers && Recovering(t.attachers[q]) ==> Recovering(s.attachers[q]);
    }
  }

  lemma CalmOther<L>(s: State<L>, prog: Program<L>, a: Action)
    requires Calm(s) && SomeRecovering(s) && !a.AttachStore? && Enabled(s, prog, OneRecovery, a)
    ensures Calm(Next(s, prog, OneRecovery, a))
  {
    var t := Next(s, prog, OneRecovery, a);
    assert t.wseq == s.wseq;
    assert forall w :: w in s.writers ==> Inside(t.writers[w]) == Inside(s.writers[w]);
    var h :| h in s.writers && Inside(s.writers[h]);
    assert h in t.writers && Inside(t.writers[h]);
    assert forall q :: q in t.attachers && Recovering(t.attachers[q]) ==> Recovering(s.attachers[q]);
  }

  lemma {:induction false} CalmRun<L>(s: State<L>, prog: Program<L>, actions: seq<Action>)
    requires Calm(s) && IsRun(s, prog, OneRecovery, actions)
    ensures Exclusion(Run(s, prog, OneRecovery, actions))
    decreases |actions|
  {
    if actions != [] {
      CalmStep(s, prog, actions[0]);
      CalmRun(Next(s, prog, OneRecovery, actions[0]), prog, actions[1..]);
    }
  }

  ghost predicate AllCrashed<L>(s: State<L>) {
    forall w :: w in s.writers ==> s.writers[w].CrashedOutside? || s.writers[w].CrashedInside?
  }

  lemma {:induction false} CrashedRun<L>(s: State<L>, prog: Program<L>, actions: seq<Action>)
    requires Exclusion(s) && AllCrashed(s) && IsRun(s, prog, OneRecovery, actions)
    ensures Exclusion(Run(s, prog, OneRecovery, actions))
    decreases |actions|
  {
    if actions != [] {
      CrashedStep(s, prog, actions[0]);
      CrashedRun(Next(s, prog, OneRecovery, actions[0]), prog, actions[1..]);
    }
  }

  lemma CrashedStep<L>(s: State<L>, prog: Program<L>, a: Action)
    requires Exclusion(s) && AllCrashed(s) && Enabled(s, prog, OneRecovery, a)
    ensures var s' := Next(s, prog, OneRecovery, a); Exclusion(s') && AllCrashed(s')
  {
    var s' := Next(s, prog, OneRecovery, a);
    if a.AttachStore? && Recovering(s.attachers[a.p]) {
      assert !Odd(s'.wseq) && forall w :: w in s'.writers ==> !Inside(s'.writers[w]);
    } else {
      assert s'.wseq == s.wseq && s'.writers == s.writers;
    }
  }

  /** Exactly when mutual exclusion, while it holds, can still be lost: a store of
   *  recovery is pending, and a live writer is inside, or one can be before that
   *  store. */
  lemma ExclusionLostIff<L>(s: State<L>, prog: Program<L>)
    requires Exclusion(s)
    ensures CanBreak(s, prog) <==> Danger(s)
  {
    if Danger(s) {
      var p :| p in s.attachers && Recovering(s.attachers[p]);
      if !NoLiveHolder(s) {
        StoreBreaks(s, prog, p);
      } else if !Odd(s.wseq) {
        EnterBreaks(s, prog, p);
      } else {
        OverlapBreaks(s, prog);
      }
    } else {
      forall actions | IsRun(s, prog, OneRecovery, actions)
        ensures Exclusion(Run(s, prog, OneRecovery, actions))
      {
        if SomeRecovering(s) && !LiveWriter(s) {
          NobodyAlive(s);
          CrashedRun(s, prog, actions);
        } else {
          CalmUnlessDanger(s);
          CalmRun(s, prog, actions);
        }
      }
    }
  }

  lemma CalmUnlessDanger<L>(s: State<L>)
    requires Exclusion(s) && !Danger(s) && (SomeRecovering(s) ==> LiveWriter(s))
    ensures Calm(s)
  {
  }

  lemma NobodyAlive<L>(s: State<L>)
    requires NoLiveHolder(s) && !LiveWriter(s)
    ensures AllCrashed(s)
  {
    forall w | w in s.writers
      ensures s.writers[w].CrashedOutside? || s.writers[w].CrashedInside?
    {
      assert !s.writers[w].Holding?;
    }
  }

  /** The states the condition speaks about: with recoveries started at will, as
   *  long as no live writer is inside, exclusion holds up to and including the
   *  first moment at which two of them overlap. */
  lemma {:induction false} SafeUntilOverlap<L>(s: State<L>, prog: Program<L>, actions: seq<Action>)
    requires Exclusion(s) && LoadsCurrent(s) && IsRun(s, prog, AnyRecovery, actions)
    requires NoOverlapBefore(s, prog, actions)
    ensures var t := Run(s, prog, AnyRecovery, actions);
            && Exclusion(t) && LoadsCurrent(t)
            && (CanBreak(t, prog) <==> Overlap(t) && LiveWriter(t))
    decreases |actions|
  {
    if actions == [] {
      ExclusionLostIff(s, prog);
      DangerIsOverlap(s);
    } else {
      if IsWriterAction(actions[0]) {
        WriterStepKeeps(s, prog, AnyRecovery, actions[0]);
      } else {
        AnyAttachStep(s, prog, actions[0]);
      }
      SafeUntilOverlap(Next(s, prog, AnyRecovery, actions[0]), prog, actions[1..]);
    }
  }

  lemma DangerIsOverlap<L>(s: State<L>)
    requires LoadsCurrent(s)
    ensures Danger(s) <==> Overlap(s) && LiveWriter(s)
  {
  }

  ghost predicate NoOverlapBefore<L>(s: State<L>, prog: Program<L>, actions: seq<Action>)
    requires IsRun(s, prog, AnyRecovery, actions)
    decreases |actions|
  {
    actions == [] ||
    (!Overlap(s) && NoOverlapBefore(Next(s, prog, AnyRecovery, actions[0]), prog, actions[1..]))
  }

  lemma AnyAttachStep<L>(s: State<L>, prog: Program<L>, a: Action)
    requires Exclusion(s) && RecoveryOk(s) && !IsWriterAction(a) && Enabled(s, prog, AnyRecovery, a)
    ensures var s' := Next(s, prog, AnyRecovery, a); Exclusion(s') && LoadsCurrent(s')
  {
    if a.AttachStore? {
      AttachStepKeeps(s, prog, a);
    } else if Odd(s.wseq) {
      var h :| h in s.writers && Inside(s.writers[h]);
      assert h in Next(s, prog, AnyRecovery, a).writers;
    }
  }
}
