/** Looking a name up while points are created, deleted, renamed and written
 *  (src/core/irt_index.c:249-279 against src/api/indurtdb.c:572-727).
 *
 * Every locked section of a writer carries out one registry operation; creating
 * a point takes two, registering it and indexing it.  Whatever the interleaving
 * of loads and stores, an accepted lookup answers what the map of points says
 * at that moment.
 */
module LiveLookup {
  import opened Common
  import opened Seqlock
  import opened LockedReads
  import N = NameIndex
  import R = Registry

  type Hash = N.Hash

  /** What one locked section does. */
  datatype Section =
    | Register(key: N.Key, id: u32, ptype: int, access: int)
    | Index
    | Delete(partition: u32, id: u32)
    | Rename(key: N.Key, id: u32)
    | Write(id: u32, valueType: byte, value: seq<byte>, quality: byte)
    | Other

  /** The registry, and the point that is registered but not yet indexed. */
  datatype Phase = Phase(st: N.Seg, pending: Option<u32>)

  /** Points are created, deleted and renamed by one caller at a time, which
   *  indexes what it has registered before it does anything else. */
  ghost predicate Allowed(ph: Phase, sec: Section)
    requires |ph.st.pts| <= U32_RANGE
  {
    match sec
    case Register(key, id, ptype, access) =>
      && ph.pending.None? && R.NameFits(key) && R.CreateArgsOk(ph.st, key, id, ptype, access)
      && !R.Named(ph.st.pts[id]) && R.Find(R.Abs(ph.st.pts), key).None?
    case Index => ph.pending.Some? && ph.pending.value < |ph.st.pts|
    case Delete(_, _) => ph.pending.None?
    case Rename(key, _) => ph.pending.None? && R.NameFits(key)
    case Write(_, _, _, _) => true
    case Other => true
  }

  ghost function Do(hf: Hash, ph: Phase, sec: Section): (ph': Phase)
    requires |ph.st.slots| > 0 && |ph.st.pts| <= U32_RANGE && Allowed(ph, sec)
    ensures |ph'.st.slots| == |ph.st.slots| && |ph'.st.pts| == |ph.st.pts|
  {
    match sec
    case Register(key, id, ptype, access) =>
      Phase(ph.st.(pts := ph.st.pts[id := R.Registered(ph.st.pts[id], key, ptype, access)]), Some(id))
    case Index =>
      var id := ph.pending.value;
      Phase(N.Insert(hf, ph.st, N.KeyOf(ph.st.pts[id]), id).0, None)
    case Delete(partition, id) => Phase(R.Delete(hf, ph.st, partition, id).0, None)
    case Rename(key, id) => Phase(R.Rename(hf, ph.st, key, id).0, None)
    case Write(id, ptype, value, quality) => ph.(st := R.Write(ph.st, id, ptype, value, quality).0)
    case Other => ph
  }

  ghost predicate PhaseOk(hf: Hash, ph: Phase) {
    if ph.pending.None? then R.Inv(hf, ph.st)
    else
      && |ph.st.pts| < |ph.st.slots| && ph.pending.value < |ph.st.pts|
      && R.Named(ph.st.pts[ph.pending.value])
      && R.PointsOk(ph.st.pts) && N.Chained(ph.st.slots)
      && R.Indexed(hf, ph.st.slots, ph.st.pts, {ph.pending.value})
      && ph.st.count == |N.LiveSet(ph.st.slots)|
  }

  /** The points a lookup can see. */
  ghost function Visible(ph: Phase): R.Map
    requires |ph.st.pts| <= U32_RANGE
  {
    if ph.pending.Some? then R.Abs(ph.st.pts) - {ph.pending.value} else R.Abs(ph.st.pts)
  }

  // ---- Sections keep the phase good ----

  lemma RegisterKeeps(hf: Hash, ph: Phase, key: N.Key, id: u32, ptype: int, access: int)
    requires PhaseOk(hf, ph) && |ph.st.pts| <= U32_RANGE && Allowed(ph, Register(key, id, ptype, access))
    ensures PhaseOk(hf, Do(hf, ph, Register(key, id, ptype, access)))
  {
    var pts := ph.st.pts;
    var p := R.Registered(pts[id], key, ptype, access);
    var pts' := pts[id := p];
    forall i: nat | i < |ph.st.slots| && N.Live(ph.st.slots[i])
      ensures R.SlotOk(hf, ph.st.slots[i], pts') && ph.st.slots[i].pid != id
    {
      assert R.SlotOk(hf, ph.st.slots[i], pts);
    }
    forall x: nat | x < |pts| && x != id && R.Named(pts[x])
      ensures N.KeyOf(pts[x]) != N.KeyOf(p)
    {
      assert !R.Carries(R.Abs(pts), x, key);
    }
    assert R.PointsOk(pts');
  }

  /** Without its name the pending point leaves a good registry. */
  ghost function Before(ph: Phase): N.Seg
    requires ph.pending.Some? && ph.pending.value < |ph.st.pts|
  {
    var id := ph.pending.value;
    ph.st.(pts := ph.st.pts[id := ph.st.pts[id].(name := [])])
  }

  lemma BeforeIsGood(hf: Hash, ph: Phase)
    requires PhaseOk(hf, ph) && ph.pending.Some?
    ensures R.Inv(hf, Before(ph))
  {
    var id := ph.pending.value;
    R.UnnamedIndexed(hf, ph.st.slots, ph.st.pts, id, ph.st.pts[id].(name := []));
  }

  lemma IndexKeeps(hf: Hash, ph: Phase)
    requires PhaseOk(hf, ph) && |ph.st.pts| <= U32_RANGE && Allowed(ph, Index)
    ensures PhaseOk(hf, Do(hf, ph, Index)) && Do(hf, ph, Index).st.pts == ph.st.pts
  {
    var id := ph.pending.value;
    var p, st0 := ph.st.pts[id], Before(ph);
    var key := N.KeyOf(p);
    BeforeIsGood(hf, ph);
    forall j: nat | j < |ph.st.slots|
      ensures !N.Matches(ph.st.slots[j], ph.st.pts, key, hf(key))
    {
      if N.Live(ph.st.slots[j]) {
        assert R.SlotOk(hf, ph.st.slots[j], ph.st.pts);
      }
    }
    var i := R.InsertionTakesFreeSlot(hf, ph.st.slots, st0.pts, key, ph.st.pts);
    assert ph.st.pts[id := p.(partition := key.partition)] == ph.st.pts;
    assert st0.pts[id := p] == ph.st.pts;
    var s := N.Slot(hf(key), id);
    R.NewPointIndexed(hf, ph.st.slots, st0.pts, id, p, i);
    N.PutKeepsChained(ph.st.slots, i, s);
    N.LiveSetPut(ph.st.slots, i, s);
  }

  /** Rewriting points without touching names and partitions. */
  lemma SameKeysKeep(hf: Hash, slots: seq<N.Slot>, pts: seq<N.Point>, pts': seq<N.Point>, missing: set<nat>)
    requires |pts'| == |pts| && forall x: nat :: x < |pts| ==> pts'[x].name == pts[x].name && pts'[x].partition == pts[x].partition
    requires R.PointsOk(pts) && R.Indexed(hf, slots, pts, missing)
    ensures R.PointsOk(pts') && R.Indexed(hf, slots, pts', missing)
  {
    assert forall x: nat :: x < |pts| ==> N.KeyOf(pts'[x]) == N.KeyOf(pts[x]);
    forall i: nat | i < |slots| && N.Live(slots[i])
      ensures R.SlotOk(hf, slots[i], pts')
    {
      assert R.SlotOk(hf, slots[i], pts);
    }
  }

  lemma WriteKeeps(hf: Hash, ph: Phase, id: u32, ptype: byte, value: seq<byte>, quality: byte)
    requires PhaseOk(hf, ph) && |ph.st.pts| <= U32_RANGE
    ensures PhaseOk(hf, Do(hf, ph, Write(id, ptype, value, quality)))
  {
    var missing: set<nat> := if ph.pending.Some? then {ph.pending.value as nat} else {};
    SameKeysKeep(hf, ph.st.slots, ph.st.pts, R.Write(ph.st, id, ptype, value, quality).0.pts, missing);
  }

  lemma SectionKeeps(hf: Hash, ph: Phase, sec: Section)
    requires PhaseOk(hf, ph) && |ph.st.pts| <= U32_RANGE && Allowed(ph, sec)
    ensures PhaseOk(hf, Do(hf, ph, sec))
  {
    match sec
    case Register(key, id, ptype, access) => RegisterKeeps(hf, ph, key, id, ptype, access);
    case Index => IndexKeeps(hf, ph);
    case Delete(partition, id) => R.DeleteKeepsInv(hf, ph.st, partition, id);
    case Rename(key, id) => R.RenameKeepsInv(hf, ph.st, key, id);
    case Write(id, ptype, value, quality) => WriteKeeps(hf, ph, id, ptype, value, quality);
    case Other =>
  }

  // ---- Sections as operations on the map ----

  lemma RegisterUnseen(hf: Hash, ph: Phase, key: N.Key, id: u32, ptype: int, access: int)
    requires PhaseOk(hf, ph) && |ph.st.pts| <= U32_RANGE && Allowed(ph, Register(key, id, ptype, access))
    ensures var ph' := Do(hf, ph, Register(key, id, ptype, access));
            Visible(ph') == Visible(ph) && ph'.pending == Some(id)
  {
    R.AbsUpdated(ph.st.pts, id, R.Registered(ph.st.pts[id], key, ptype, access));
  }

  lemma IndexSeen(hf: Hash, ph: Phase)
    requires PhaseOk(hf, ph) && |ph.st.pts| <= U32_RANGE && Allowed(ph, Index)
    ensures var ph', id := Do(hf, ph, Index), ph.pending.value;
            Visible(ph') == Visible(ph)[id := EntryOf(ph.st.pts[id])] && ph'.pending.None?
  {
    IndexKeeps(hf, ph);
    assert ph.pending.value in R.Abs(ph.st.pts);
  }

  lemma WriteSeen(hf: Hash, ph: Phase, id: u32, ptype: byte, value: seq<byte>, quality: byte)
    requires PhaseOk(hf, ph) && |ph.st.pts| <= U32_RANGE
    ensures var m, m' := Visible(ph), Visible(Do(hf, ph, Write(id, ptype, value, quality)));
            m' == m || (id in m && m' == m[id := m[id].(ptype := ptype)])
  {
    if id < |ph.st.pts| && ph.st.pts[id].access != R.READ_ONLY {
      WrittenAbs(ph.st.pts, id, ptype, value, quality);
      WriteWithout(R.Abs(ph.st.pts), id, ptype, if ph.pending.Some? then {ph.pending.value} else {});
    }
  }

  lemma WrittenAbs(pts: seq<N.Point>, id: u32, ptype: byte, value: seq<byte>, quality: byte)
    requires id < |pts| < N.TOMBSTONE
    ensures var m := R.Abs(pts);
            R.Abs(pts[id := pts[id].(ptype := ptype, value := value, quality := quality)])
            == if id in m then m[id := m[id].(ptype := ptype)] else m
  {
    R.AbsUpdated(pts, id, pts[id].(ptype := ptype, value := value, quality := quality));
  }

  lemma WriteWithout(m: R.Map, id: u32, ptype: byte, hidden: set<u32>)
    ensures id in m && id in hidden ==> m[id := m[id].(ptype := ptype)] - hidden == m - hidden
    ensures id in m && id !in hidden ==>
              m[id := m[id].(ptype := ptype)] - hidden == (m - hidden)[id := m[id].(ptype := ptype)]
  {
  }

  /** What a section does to the points a lookup can see: registering is not seen
   *  until indexing adds the point; delete and rename act as on the map; a value
   *  write changes at most a type. */
  lemma SectionOnMap(hf: Hash, ph: Phase, sec: Section)
    requires PhaseOk(hf, ph) && |ph.st.pts| <= U32_RANGE && Allowed(ph, sec)
    ensures var m, m' := Visible(ph), Visible(Do(hf, ph, sec));
            match sec
            case Register(_, id, _, _) => m' == m && Do(hf, ph, sec).pending == Some(id)
            case Index => m' == m[ph.pending.value := EntryOf(ph.st.pts[ph.pending.value])] && Do(hf, ph, sec).pending.None?
            case Delete(partition, id) => m' == R.SpecDelete(m, |ph.st.pts|, partition, id).0
            case Rename(key, id) => m' == R.SpecRename(m, |ph.st.pts|, key, id).0
            case Write(id, ptype, _, _) => m' == m || (id in m && m' == m[id := m[id].(ptype := ptype)])
            case Other => m' == m
  {
    match sec
    case Register(key, id, ptype, access) => RegisterUnseen(hf, ph, key, id, ptype, access);
    case Index => IndexSeen(hf, ph);
    case Delete(partition, id) => R.DeleteRefines(hf, ph.st, partition, id);
    case Rename(key, id) => R.RenameRefines(hf, ph.st, key, id);
    case Write(id, ptype, value, quality) => WriteSeen(hf, ph, id, ptype, value, quality);
    case Other =>
  }

  function EntryOf(p: N.Point): R.Entry {
    R.Entry(N.KeyOf(p), p.ptype, p.access)
  }

  /** Create's two sections together are the create of the map. */
  lemma TwoSectionsCreate(hf: Hash, ph: Phase, key: N.Key, id: u32, ptype: int, access: int)
    requires PhaseOk(hf, ph) && |ph.st.pts| <= U32_RANGE && Allowed(ph, Register(key, id, ptype, access))
    ensures var mid := Do(hf, ph, Register(key, id, ptype, access));
            && Allowed(mid, Index)
            && (Visible(Do(hf, mid, Index)), N.OK) == R.SpecCreate(Visible(ph), |ph.st.pts|, key, id, ptype, access)
  {
    var mid := Do(hf, ph, Register(key, id, ptype, access));
    RegisterKeeps(hf, ph, key, id, ptype, access);
    SectionOnMap(hf, ph, Register(key, id, ptype, access));
    SectionOnMap(hf, mid, Index);
  }

  // ---- Searching in a phase ----

  /** A search answers what the map of visible points says. */
  lemma SearchInPhase(hf: Hash, ph: Phase, key: N.Key)
    requires PhaseOk(hf, ph) && |ph.st.pts| <= U32_RANGE && R.NameFits(key) && key.name != []
    ensures |ph.st.slots| > 0
    ensures Verdict(ph.st, N.FindFrom(ph.st.slots, ph.st.pts, key, hf(key), 0)) == Answer(R.Find(Visible(ph), key))
  {
    var st := ph.st;
    var missing: set<nat> := if ph.pending.Some? then {ph.pending.value as nat} else {};
    R.SearchIsExact(hf, st.slots, st.pts, missing, key);
    var f := N.FindFrom(st.slots, st.pts, key, hf(key), 0);
    var m := Visible(ph);
    if f.Some? {
      var id: u32 := st.slots[f.value].pid;
      assert R.SlotOk(hf, st.slots[f.value], st.pts);
      assert R.Carries(m, id, key);
      OnlyOneCarries(hf, ph, key, id);
    } else {
      forall x: u32
        ensures !R.Carries(m, x, key)
      {
        assert x in m ==> !R.Hit(hf, st.pts, x, key);
      }
    }
  }

  function Answer(found: Option<u32>): ProbeState {
    if found.Some? then Found(found.value) else NotFound
  }

  lemma OnlyOneCarries(hf: Hash, ph: Phase, key: N.Key, id: u32)
    requires PhaseOk(hf, ph) && |ph.st.pts| <= U32_RANGE && R.Carries(Visible(ph), id, key)
    ensures R.Find(Visible(ph), key) == Some(id)
  {
    var found := R.Find(Visible(ph), key);
    assert R.Carries(Visible(ph), found.value, key);
    assert N.KeyOf(ph.st.pts[found.value]) == N.KeyOf(ph.st.pts[id]);
  }

  // ---- Runs whose sections are registry operations ----

  /** Each section the run completes leaves in memory what its operation makes of
   *  the registry; no writer crashes inside the lock, which would leave half an
   *  operation behind. */
  ghost predicate Performs<L>(s: State<L>, prog: Program<L>, actions: seq<Action>, hf: Hash, ph: Phase, secs: seq<Section>)
    requires IsRun(s, prog, OneRecovery, actions) && |ph.st.slots| > 0 && |ph.st.pts| <= U32_RANGE
    decreases |actions|
  {
    if actions == [] then secs == []
    else
      var a, next := actions[0], Next(s, prog, OneRecovery, actions[0]);
      if a.WriterEnd? then
        && secs != [] && Allowed(ph, secs[0])
        && Represents(s.mem, Do(hf, ph, secs[0]).st)
        && Performs(next, prog, actions[1..], hf, Do(hf, ph, secs[0]), secs[1..])
      else
        !(a.WriterCrash? && s.writers[a.w].Holding?) && Performs(next, prog, actions[1..], hf, ph, secs)
  }

  ghost function PhaseAfter(hf: Hash, ph: Phase, secs: seq<Section>): (ph': Phase)
    requires |ph.st.slots| > 0 && |ph.st.pts| <= U32_RANGE
    ensures |ph'.st.slots| == |ph.st.slots| && |ph'.st.pts| == |ph.st.pts|
    decreases |secs|
  {
    if secs != [] && Allowed(ph, secs[0]) then PhaseAfter(hf, Do(hf, ph, secs[0]), secs[1..]) else ph
  }

  /** While no writer is inside, memory holds the registry of the phase. */
  ghost predicate InStep<L>(s: State<L>, hf: Hash, ph: Phase) {
    && Exclusion(s) && RecoveryOk(s) && PhaseOk(hf, ph) && |ph.st.pts| <= U32_RANGE
    && (forall w :: w in s.writers ==> !s.writers[w].CrashedInside?)
    && (!Odd(s.wseq) ==> Represents(s.mem, ph.st))
  }

  lemma QuietStep<L>(s: State<L>, prog: Program<L>, a: Action, hf: Hash, ph: Phase)
    requires InStep(s, hf, ph) && Enabled(s, prog, OneRecovery, a) && !a.WriterEnd?
    requires !(a.WriterCrash? && s.writers[a.w].Holding?)
    ensures InStep(Next(s, prog, OneRecovery, a), hf, ph)
  {
    CoreStep(s, prog, a);
    SequenceMonotone(s, prog, a);
    NobodyRecovers(s);
  }

  /** Nobody recovers where nobody crashed inside. */
  lemma NobodyRecovers<L>(s: State<L>)
    requires Exclusion(s) && RecoveryOk(s)
    requires forall w :: w in s.writers ==> !s.writers[w].CrashedInside?
    ensures forall p :: p in s.attachers ==> !Recovering(s.attachers[p])
  {
    assert NoLiveHolder(s) ==> forall w :: w in s.writers ==> !Inside(s.writers[w]);
  }

  lemma EndStep<L>(s: State<L>, prog: Program<L>, a: Action, hf: Hash, ph: Phase, sec: Section)
    requires InStep(s, hf, ph) && Enabled(s, prog, OneRecovery, a) && a.WriterEnd?
    requires Allowed(ph, sec) && |ph.st.slots| > 0 && Represents(s.mem, Do(hf, ph, sec).st)
    ensures InStep(Next(s, prog, OneRecovery, a), hf, Do(hf, ph, sec))
  {
    CoreStep(s, prog, a);
    SectionKeeps(hf, ph, sec);
  }

  lemma {:induction false} RunInStep<L>(s: State<L>, prog: Program<L>, actions: seq<Action>,
                                        hf: Hash, ph: Phase, secs: seq<Section>)
    requires IsRun(s, prog, OneRecovery, actions) && |ph.st.slots| > 0 && InStep(s, hf, ph)
    requires Performs(s, prog, actions, hf, ph, secs)
    ensures InStep(Run(s, prog, OneRecovery, actions), hf, PhaseAfter(hf, ph, secs))
    decreases |actions|
  {
    if actions != [] {
      var a, next := actions[0], Next(s, prog, OneRecovery, actions[0]);
      if a.WriterEnd? {
        EndStep(s, prog, a, hf, ph, secs[0]);
        RunInStep(next, prog, actions[1..], hf, Do(hf, ph, secs[0]), secs[1..]);
      } else {
        QuietStep(s, prog, a, hf, ph);
        RunInStep(next, prog, actions[1..], hf, ph, secs);
      }
    }
  }

  /** irt_index_lookup against running writers: what it accepts is the answer of
   *  the map of points of that moment, in which a point counts from the moment
   *  it is indexed. */
  lemma AcceptedLookupIsFind(s: State<ProbeState>, q: Query, actions: seq<Action>, a: Action, r: Pid,
                             hf: Hash, ph: Phase, secs: seq<Section>)
    requires Init(s) && IsRun(s, Probe(q), OneRecovery, actions)
    requires PhaseOk(hf, ph) && |ph.st.slots| > 0 && |ph.st.pts| <= U32_RANGE && Represents(s.mem, ph.st)
    requires Performs(s, Probe(q), actions, hf, ph, secs)
    requires q.hash == hf(q.key) && q.cap == |ph.st.slots| && R.NameFits(q.key) && q.key.name != []
    requires Enabled(Run(s, Probe(q), OneRecovery, actions), Probe(q), OneRecovery, a)
    requires var t := Run(s, Probe(q), OneRecovery, actions);
             && r in t.readers && !Finished(t.readers[r])
             && r in Next(t, Probe(q), OneRecovery, a).readers
             && Result(Next(t, Probe(q), OneRecovery, a).readers[r]).Some?
    ensures var t, now := Run(s, Probe(q), OneRecovery, actions), PhaseAfter(hf, ph, secs);
            && PhaseOk(hf, now)
            && Result(Next(t, Probe(q), OneRecovery, a).readers[r]).value == Answer(R.Find(Visible(now), q.key))
  {
    InitInv(s, Probe(q));
    RunInStep(s, Probe(q), actions, hf, ph, secs);
    var t, now := Run(s, Probe(q), OneRecovery, actions), PhaseAfter(hf, ph, secs);
    AcceptedIsSnapshot(s, Probe(q), actions, a, r);
    AcceptedProbeIsSearch(s, q, actions, a, r, now.st);
    SearchInPhase(hf, now, q.key);
  }
}
