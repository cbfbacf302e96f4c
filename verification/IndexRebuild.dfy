/** The migration tool's copy of layout and index
 *  (tools/irt_migrate/irt_migrate/layout.py:44-78, 190-194 and 235-301).
 *
 * The tool computes the segment layout with unbounded integers and rebuilds
 * the name index from the point array alone.  Point names are read up to their
 * NUL, so that a NUL-terminated field holds at most 63 bytes.
 */
module IndexRebuild {
  import opened Common
  import opened Layout
  import opened NameIndex

  // ---- Layout ----

  function PyDoubled(cap: nat, want: nat): nat
    requires cap >= 1
    decreases want - cap
  {
    if cap < want then PyDoubled(2 * cap, want) else cap
  }

  method PyBuckets(maxPoints: nat) returns (cap: nat)
    ensures cap == PyDoubled(8, 2 * maxPoints)
  {
    cap := 8;
    while cap < 2 * maxPoints
      invariant cap >= 8 && PyDoubled(cap, 2 * maxPoints) == PyDoubled(8, 2 * maxPoints)
      decreases 2 * maxPoints - cap
    {
      cap := 2 * cap;
    }
  }

  function PyOffIndex(maxPoints: nat): nat {
    HEADER_SIZE + maxPoints * POINT_SIZE
  }

  function PyOffMeta(maxPoints: nat): nat {
    PyOffIndex(maxPoints) + PyDoubled(8, 2 * maxPoints) * SLOT_SIZE
  }

  function PyOffSubs(maxPoints: nat): nat {
    PyOffMeta(maxPoints) + maxPoints * META_SIZE
  }

  lemma {:induction false} PyDoubledSame(j: nat, want: nat)
    requires Pow2(j) <= 0x8000_0000 && want <= 0x8000_0000
    ensures Doubled(Pow2(j), want) == PyDoubled(Pow2(j), want)
    decreases 0x8000_0000 - Pow2(j)
  {
    Pow2At31();
    if Pow2(j) < want {
      if Pow2(j) > 0x4000_0000 {
        CapIs31(j);
      } else {
        assert Pow2(j + 1) == 2 * Pow2(j);
        PyDoubledSame(j + 1, want);
      }
    }
  }

  lemma PyDoubledReaches(cap: nat, want: nat)
    requires cap >= 1
    ensures PyDoubled(cap, want) >= want
    decreases want - cap
  {
    if cap < want {
      PyDoubledReaches(2 * cap, want);
    }
  }

  /** The tool and the library agree on the number of buckets up to 2^30
   *  points, and on all section offsets up to 23488101 points, no further. */
  lemma LayoutsAgreeIff(maxPoints: u32)
    ensures PyDoubled(8, 2 * maxPoints) == Buckets(maxPoints) <==> maxPoints <= 0x4000_0000
    ensures (&& PyOffIndex(maxPoints) == OffIndex(maxPoints)
             && PyOffMeta(maxPoints) == OffMeta(maxPoints)
             && PyOffSubs(maxPoints) == OffSubs(maxPoints))
            <==> maxPoints <= 23_488_101
  {
    Pow2At31();
    BucketsLeastPowerOfTwo(maxPoints);
    if maxPoints <= 0x4000_0000 {
      PyDoubledSame(3, 2 * maxPoints);
    } else {
      PyDoubledReaches(8, 2 * maxPoints);
    }
    if maxPoints <= LARGEST_UNWRAPPED {
      ExactPositions(maxPoints);
    } else {
      LargePositions(maxPoints);
    }
  }

  /** Past the limit the tool's subscriber offset does not fit in 32 bits. */
  lemma LargePositions(maxPoints: u32)
    requires maxPoints > LARGEST_UNWRAPPED
    ensures PyOffSubs(maxPoints) >= U32_RANGE
  {
    BucketsUpTo(maxPoints);
    FitsIff(maxPoints, Buckets(maxPoints));
    if maxPoints <= 0x4000_0000 {
      Pow2At31();
      PyDoubledSame(3, 2 * maxPoints);
    }
  }

  // ---- Rebuilding the index ----

  /** One round of build_index: the slots and the count after point pid. */
  function AddPoint(hf: Hash, slots: seq<Slot>, count: nat, pts: seq<Point>, pid: u32): (r: (seq<Slot>, nat))
    requires |slots| > 0 && pid < |pts|
    ensures |r.0| == |slots|
  {
    var p := pts[pid];
    if p.name == [] then (slots, count)
    else
      var h := hf(KeyOf(p));
      match PlaceFrom(slots, pts, KeyOf(p), h, 0, None)
      case Refresh(i) => (slots[i := Slot(h, pid)], count)
      case Put(i) => (slots[i := Slot(h, pid)], count + 1)
      case NoRoom => (slots, count)
  }

  /** build_index on the first n points. */
  function Built(hf: Hash, cap: nat, pts: seq<Point>, n: nat): (r: (seq<Slot>, nat))
    requires cap > 0 && n <= |pts| <= U32_RANGE
    ensures |r.0| == cap
  {
    if n == 0 then (seq(cap, _ => Slot(0, EMPTY)), 0)
    else
      var (slots, count) := Built(hf, cap, pts, n - 1);
      AddPoint(hf, slots, count, pts, n - 1)
  }

  /** The keys carried by the first n points. */
  ghost function KeysTo(pts: seq<Point>, n: nat): set<Key>
    requires n <= |pts|
  {
    set x | 0 <= x < n && pts[x].name != [] :: KeyOf(pts[x])
  }

  ghost predicate Carries(pts: seq<Point>, x: nat, k: Key) {
    x < |pts| && pts[x].name != [] && KeyOf(pts[x]) == k
  }

  /** id is the greatest of the first n points with its key. */
  ghost predicate Greatest(pts: seq<Point>, n: nat, id: nat) {
    && id < n <= |pts| && pts[id].name != []
    && forall x: nat :: id < x < n ==> !Carries(pts, x, KeyOf(pts[id]))
  }

  ghost predicate SlotGood(hf: Hash, s: Slot, pts: seq<Point>, n: nat) {
    Greatest(pts, n, s.pid) && s.hash == hf(KeyOf(pts[s.pid]))
  }

  ghost predicate HasKey(slots: seq<Slot>, pts: seq<Point>, k: Key) {
    exists i: nat :: i < |slots| && Live(slots[i]) && Carries(pts, slots[i].pid, k)
  }

  /** The table after the first n points: one live slot for each key, with the
   *  greatest point that carries it. */
  ghost predicate TableOk(hf: Hash, slots: seq<Slot>, pts: seq<Point>, n: nat, count: nat) {
    && |slots| > 0 && n <= |pts| < TOMBSTONE
    && (forall x: nat :: x < |pts| ==> |pts[x].name| <= NAME_MAX)
    && Chained(slots)
    && (forall i: nat :: i < |slots| && Live(slots[i]) ==> SlotGood(hf, slots[i], pts, n))
    && (forall i: nat, j: nat :: i < j < |slots| && Live(slots[i]) && Live(slots[j]) ==>
          slots[i].pid != slots[j].pid)
    && (forall x: nat :: x < n && pts[x].name != [] ==> HasKey(slots, pts, KeyOf(pts[x])))
    && count == |LiveSet(slots)| == |KeysTo(pts, n)|
  }

  lemma MatchIsCarries(hf: Hash, slots: seq<Slot>, pts: seq<Point>, n: nat, count: nat, k: Key, i: nat)
    requires TableOk(hf, slots, pts, n, count) && |k.name| <= NAME_MAX && i < |slots| && Live(slots[i])
    ensures Matches(slots[i], pts, k, hf(k)) <==> Carries(pts, slots[i].pid, k)
  {
    assert SlotGood(hf, slots[i], pts, n);
  }

  /** A search finds the greatest of the first n points with the key. */
  lemma SearchFindsGreatest(hf: Hash, slots: seq<Slot>, pts: seq<Point>, n: nat, count: nat, k: Key)
    requires TableOk(hf, slots, pts, n, count) && |k.name| <= NAME_MAX
    ensures var f := FindFrom(slots, pts, k, hf(k), 0);
            && (f.Some? ==> Live(slots[f.value]) && Greatest(pts, n, slots[f.value].pid) && Carries(pts, slots[f.value].pid, k))
            && (f.None? ==> forall x: nat :: x < n ==> !Carries(pts, x, k))
  {
    var f := FindFrom(slots, pts, k, hf(k), 0);
    FindIsExact(slots, pts, k, hf(k));
    if f.Some? {
      MatchIsCarries(hf, slots, pts, n, count, k, f.value);
      assert SlotGood(hf, slots[f.value], pts, n);
    } else {
      forall i: nat | i < |slots| && Live(slots[i])
        ensures !Carries(pts, slots[i].pid, k)
      {
        MatchIsCarries(hf, slots, pts, n, count, k, i);
      }
      assert !HasKey(slots, pts, k);
    }
  }

  lemma SkipKeepsTable(hf: Hash, slots: seq<Slot>, pts: seq<Point>, n: nat, count: nat)
    requires TableOk(hf, slots, pts, n, count) && n < |pts| && pts[n].name == []
    ensures TableOk(hf, slots, pts, n + 1, count)
  {
    assert KeysTo(pts, n + 1) == KeysTo(pts, n);
    forall i: nat | i < |slots| && Live(slots[i])
      ensures SlotGood(hf, slots[i], pts, n + 1)
    {
      assert SlotGood(hf, slots[i], pts, n);
    }
  }

  /** Writing point n into slot i leaves every key with a slot. */
  lemma KeysCovered(slots: seq<Slot>, pts: seq<Point>, n: u32, i: nat, s: Slot)
    requires n < |pts| < TOMBSTONE && pts[n].name != [] && i < |slots| && s.pid == n
    requires forall x: nat :: x < n && pts[x].name != [] ==> HasKey(slots, pts, KeyOf(pts[x]))
    requires Live(slots[i]) ==> Carries(pts, slots[i].pid, KeyOf(pts[n]))
    ensures forall x: nat :: x < n + 1 && pts[x].name != [] ==> HasKey(slots[i := s], pts, KeyOf(pts[x]))
  {
    var slots' := slots[i := s];
    forall x: nat | x < n + 1 && pts[x].name != []
      ensures HasKey(slots', pts, KeyOf(pts[x]))
    {
      if KeyOf(pts[x]) == KeyOf(pts[n]) {
        assert Live(slots'[i]) && Carries(pts, slots'[i].pid, KeyOf(pts[x]));
      } else {
        var j: nat :| j < |slots| && Live(slots[j]) && Carries(pts, slots[j].pid, KeyOf(pts[x]));
        assert slots'[j] == slots[j];
      }
    }
  }

  /** All other slots stay good: they carry other keys than point n. */
  lemma OthersStayGood(hf: Hash, slots: seq<Slot>, pts: seq<Point>, n: u32, count: nat, i: nat, s: Slot)
    requires TableOk(hf, slots, pts, n, count) && n < |pts| && pts[n].name != [] && i < |slots|
    requires s == Slot(hf(KeyOf(pts[n])), n)
    requires forall j: nat :: j < |slots| && j != i && Live(slots[j]) ==> !Carries(pts, slots[j].pid, KeyOf(pts[n]))
    ensures SlotGood(hf, s, pts, n + 1)
    ensures forall j: nat :: j < |slots| && j != i && Live(slots[j]) ==> SlotGood(hf, slots[j], pts, n + 1)
    ensures forall j: nat :: j < |slots| && j != i && Live(slots[j]) ==> slots[j].pid < n
  {
    forall j: nat | j < |slots| && j != i && Live(slots[j])
      ensures SlotGood(hf, slots[j], pts, n + 1) && slots[j].pid < n
    {
      assert SlotGood(hf, slots[j], pts, n);
    }
  }

  lemma RefreshKeepsTable(hf: Hash, slots: seq<Slot>, pts: seq<Point>, n: u32, count: nat, i: nat)
    requires TableOk(hf, slots, pts, n, count) && n < |pts| && pts[n].name != []
    requires i < |slots| && Live(slots[i]) && Carries(pts, slots[i].pid, KeyOf(pts[n]))
    ensures TableOk(hf, slots[i := Slot(hf(KeyOf(pts[n])), n)], pts, n + 1, count)
  {
    var s := Slot(hf(KeyOf(pts[n])), n);
    assert SlotGood(hf, slots[i], pts, n);
    forall j: nat | j < |slots| && j != i && Live(slots[j])
      ensures !Carries(pts, slots[j].pid, KeyOf(pts[n]))
    {
      OneSlotPerKey(hf, slots, pts, n, count, i, j);
    }
    OthersStayGood(hf, slots, pts, n, count, i, s);
    KeysCovered(slots, pts, n, i, s);
    OverwriteKeepsChained(slots, i, s);
    LiveSetSame(slots, i, s);
    assert KeysTo(pts, n + 1) == KeysTo(pts, n);
  }

  /** Two live slots never carry the same key: both would hold its greatest point. */
  lemma OneSlotPerKey(hf: Hash, slots: seq<Slot>, pts: seq<Point>, n: nat, count: nat, i: nat, j: nat)
    requires TableOk(hf, slots, pts, n, count) && i < |slots| && j < |slots| && i != j
    requires Live(slots[i]) && Live(slots[j])
    ensures KeyOf(pts[slots[i].pid]) != KeyOf(pts[slots[j].pid])
  {
    assert SlotGood(hf, slots[i], pts, n) && SlotGood(hf, slots[j], pts, n);
    var a: nat, b: nat := slots[i].pid, slots[j].pid;
    assert a != b;
    if a < b {
      assert !Carries(pts, b, KeyOf(pts[a]));
    } else {
      assert !Carries(pts, a, KeyOf(pts[b]));
    }
  }

  lemma PutKeepsTable(hf: Hash, slots: seq<Slot>, pts: seq<Point>, n: u32, count: nat, i: nat)
    requires TableOk(hf, slots, pts, n, count) && n < |pts| && pts[n].name != []
    requires i < |slots| && !Live(slots[i]) && Reaches(slots, Home(hf(KeyOf(pts[n])), |slots|), i)
    requires forall x: nat :: x < n ==> !Carries(pts, x, KeyOf(pts[n]))
    ensures TableOk(hf, slots[i := Slot(hf(KeyOf(pts[n])), n)], pts, n + 1, count + 1)
  {
    var s := Slot(hf(KeyOf(pts[n])), n);
    forall j: nat | j < |slots| && Live(slots[j])
      ensures !Carries(pts, slots[j].pid, KeyOf(pts[n]))
    {
      assert SlotGood(hf, slots[j], pts, n);
    }
    OthersStayGood(hf, slots, pts, n, count, i, s);
    KeysCovered(slots, pts, n, i, s);
    PutKeepsChained(slots, i, s);
    LiveSetPut(slots, i, s);
    NewKeyCounts(pts, n);
  }

  lemma NewKeyCounts(pts: seq<Point>, n: nat)
    requires n < |pts| && pts[n].name != [] && forall x: nat :: x < n ==> !Carries(pts, x, KeyOf(pts[n]))
    ensures |KeysTo(pts, n + 1)| == |KeysTo(pts, n)| + 1
  {
    assert KeysTo(pts, n + 1) == KeysTo(pts, n) + {KeyOf(pts[n])};
    assert forall x: nat :: x < n ==> Carries(pts, x, KeyOf(pts[n])) || pts[x].name == [] || KeyOf(pts[x]) != KeyOf(pts[n]);
    assert KeyOf(pts[n]) !in KeysTo(pts, n);
  }

  lemma KeysMonotone(pts: seq<Point>, n: nat)
    requires n < |pts|
    ensures KeysTo(pts, n) <= KeysTo(pts, n + 1)
  {
  }

  lemma {:induction false} KeysBounded(pts: seq<Point>, n: nat, m: nat)
    requires n <= m <= |pts|
    ensures |KeysTo(pts, n)| <= |KeysTo(pts, m)|
    decreases m - n
  {
    if n < m {
      KeysMonotone(pts, n);
      SubsetSize(KeysTo(pts, n), KeysTo(pts, n + 1));
      KeysBounded(pts, n + 1, m);
    }
  }

  /** One more point keeps the table right, provided there is room for a new key. */
  lemma AddPointKeepsTable(hf: Hash, slots: seq<Slot>, pts: seq<Point>, n: u32, count: nat)
    requires TableOk(hf, slots, pts, n, count) && n < |pts| && |KeysTo(pts, n + 1)| <= |slots|
    ensures var (slots', count') := AddPoint(hf, slots, count, pts, n); TableOk(hf, slots', pts, n + 1, count')
  {
    if pts[n].name == [] {
      SkipKeepsTable(hf, slots, pts, n, count);
    } else {
      var k := KeyOf(pts[n]);
      SearchFindsGreatest(hf, slots, pts, n, count, k);
      PlaceAgreesWithFind(slots, pts, k, hf(k), 0, None);
      var place := PlaceFrom(slots, pts, k, hf(k), 0, None);
      if place.Refresh? {
        RefreshKeepsTable(hf, slots, pts, n, count, place.i);
      } else {
        NewKeyCounts(pts, n);
        PlaceIsReachable(slots, pts, k, hf(k), 0, None);
        if place.NoRoom? {
          forall i: nat | i < |slots|
            ensures Live(slots[i])
          {
            NoRoomMeansAllLive(slots, pts, k, hf(k), i);
          }
          AllLiveMeansFull(slots);
          assert false;
        }
        PutKeepsTable(hf, slots, pts, n, count, place.i);
      }
    }
  }

  ghost predicate NamesTerminated(pts: seq<Point>) {
    |pts| < TOMBSTONE && forall x: nat :: x < |pts| ==> |pts[x].name| <= NAME_MAX
  }

  ghost predicate BuiltOk(hf: Hash, cap: nat, pts: seq<Point>, n: nat)
    requires cap > 0 && n <= |pts| <= U32_RANGE
  {
    TableOk(hf, Built(hf, cap, pts, n).0, pts, n, Built(hf, cap, pts, n).1)
  }

  lemma BuiltStart(hf: Hash, cap: nat, pts: seq<Point>)
    requires cap > 0 && NamesTerminated(pts)
    ensures BuiltOk(hf, cap, pts, 0)
  {
    assert LiveSet(Built(hf, cap, pts, 0).0) == {};
    assert KeysTo(pts, 0) == {};
  }

  lemma BuiltStep(hf: Hash, cap: nat, pts: seq<Point>, n: u32)
    requires cap > 0 && n < |pts| && NamesTerminated(pts) && |KeysTo(pts, |pts|)| <= cap
    requires BuiltOk(hf, cap, pts, n)
    ensures BuiltOk(hf, cap, pts, n + 1)
  {
    KeysBounded(pts, n + 1, |pts|);
    AddPointKeepsTable(hf, Built(hf, cap, pts, n).0, pts, n, Built(hf, cap, pts, n).1);
  }

  lemma {:induction false} BuiltTable(hf: Hash, cap: nat, pts: seq<Point>, n: nat)
    requires cap > 0 && n <= |pts| && NamesTerminated(pts) && |KeysTo(pts, |pts|)| <= cap
    ensures BuiltOk(hf, cap, pts, n)
  {
    if n == 0 {
      BuiltStart(hf, cap, pts);
    } else {
      var m := n - 1;
      BuiltTable(hf, cap, pts, m);
      BuiltStep(hf, cap, pts, m);
      assert n == m + 1;
    }
  }

  // ---- Probing the rebuilt index ----

  /** name_eq: partition and name equal, the name compared whole. */
  predicate NameEq(pts: seq<Point>, pid: nat, k: Key) {
    pid < |pts| && KeyOf(pts[pid]) == k
  }

  /** index_probe from probe position d on. */
  function PyProbe(slots: seq<Slot>, pts: seq<Point>, k: Key, h: u32, d: nat): (r: Option<u32>)
    requires d <= |slots| && |slots| > 0
    ensures r.Some? ==> NameEq(pts, r.value, k)
    decreases |slots| - d
  {
    if d == |slots| then None
    else
      var s := slots[At(|slots|, Home(h, |slots|), d)];
      if s.pid == EMPTY then None
      else if s.pid != TOMBSTONE && s.hash == h && NameEq(pts, s.pid, k) then Some(s.pid)
      else PyProbe(slots, pts, k, h, d + 1)
  }

  lemma {:induction false} PyProbeIsFind(slots: seq<Slot>, pts: seq<Point>, k: Key, h: u32, d: nat)
    requires d <= |slots| && |slots| > 0 && NamesTerminated(pts) && |k.name| <= NAME_MAX
    ensures var f := FindFrom(slots, pts, k, h, d);
            PyProbe(slots, pts, k, h, d) == if f.Some? then Some(slots[f.value].pid) else None
    decreases |slots| - d
  {
    if d < |slots| {
      PyProbeIsFind(slots, pts, k, h, d + 1);
    }
  }

  /** Probing the rebuilt index for any partition and name gives the greatest
   *  point that carries them, and nothing if no point does; the count is the
   *  number of distinct keys.  Correct for every table with room for them. */
  lemma RebuiltIndexIsExact(hf: Hash, cap: nat, pts: seq<Point>, k: Key)
    requires cap > 0 && NamesTerminated(pts) && |KeysTo(pts, |pts|)| <= cap && k.name != []
    ensures var (slots, count) := Built(hf, cap, pts, |pts|);
            var r := PyProbe(slots, pts, k, hf(k), 0);
            && (r.Some? ==> Greatest(pts, |pts|, r.value) && Carries(pts, r.value, k))
            && (r.None? ==> forall x: nat :: x < |pts| ==> !Carries(pts, x, k))
            && count == |KeysTo(pts, |pts|)|
  {
    BuiltTable(hf, cap, pts, |pts|);
    var (slots, count) := Built(hf, cap, pts, |pts|);
    if |k.name| <= NAME_MAX {
      PyProbeIsFind(slots, pts, k, hf(k), 0);
      SearchFindsGreatest(hf, slots, pts, |pts|, count, k);
    }
  }

  lemma {:induction false} KeysAtMost(pts: seq<Point>, n: nat)
    requires n <= |pts|
    ensures |KeysTo(pts, n)| <= n
  {
    if n > 0 {
      KeysAtMost(pts, n - 1);
      if pts[n - 1].name == [] {
        assert KeysTo(pts, n) == KeysTo(pts, n - 1);
      } else {
        assert KeysTo(pts, n) == KeysTo(pts, n - 1) + {KeyOf(pts[n - 1])};
      }
    } else {
      assert KeysTo(pts, 0) == {};
    }
  }

  /** The tool's own bucket count always has the room. */
  lemma BucketsHaveRoom(pts: seq<Point>)
    ensures |KeysTo(pts, |pts|)| <= PyDoubled(8, 2 * |pts|)
  {
    KeysAtMost(pts, |pts|);
    PyDoubledReaches(8, 2 * |pts|);
  }

  // ---- The loops ----

  /** The probe loop inside build_index. */
  method ScanSlots(slots: array<Slot>, pts: seq<Point>, k: Key, h: u32) returns (r: Placement)
    requires IsPow2(slots.Length)
    ensures slots.Length > 0 && r == PlaceFrom(slots[..], pts, k, h, 0, None)
  {
    var cap := slots.Length;
    ghost var e: nat :| cap == Pow2(e);
    MaskedPositions(h, 0, 0, e);
    var home := BitAnd(h, cap - 1);
    var tomb: Option<nat> := None;
    for d := 0 to cap
      invariant tomb.Some? ==> tomb.value < cap
      invariant PlaceFrom(slots[..], pts, k, h, d, tomb) == PlaceFrom(slots[..], pts, k, h, 0, None)
    {
      MaskedPositions(h, home, d, e);
      var i := BitAnd(home + d, cap - 1);
      if slots[i].pid == EMPTY {
        return Put(if tomb.Some? then tomb.value else i);
      }
      if slots[i].pid == TOMBSTONE {
        if tomb.None? {
          tomb := Some(i);
        }
        continue;
      }
      if Matches(slots[i], pts, k, h) {
        return Refresh(i);
      }
    }
    return if tomb.Some? then Put(tomb.value) else NoRoom;
  }

  method BuildIndex(hf: Hash, pts: seq<Point>, cap: nat) returns (slots: array<Slot>, count: nat)
    requires IsPow2(cap) && |pts| <= U32_RANGE
    ensures cap > 0 && fresh(slots) && (slots[..], count) == Built(hf, cap, pts, |pts|)
  {
    ghost var e: nat :| cap == Pow2(e);
    slots := new Slot[cap](_ => Slot(0, EMPTY));
    count := 0;
    assert slots[..] == seq(cap, _ => Slot(0, EMPTY));
    for pid := 0 to |pts|
      invariant (slots[..], count) == Built(hf, cap, pts, pid)
    {
      if pts[pid].name == [] {
        continue;
      }
      var h := hf(KeyOf(pts[pid]));
      var place := ScanSlots(slots, pts, KeyOf(pts[pid]), h);
      match place {
        case Refresh(i) =>
          slots[i] := Slot(h, pid);
        case Put(i) =>
          slots[i] := Slot(h, pid);
          count := count + 1;
        case NoRoom =>
      }
    }
  }

  method IndexProbe(slots: seq<Slot>, pts: seq<Point>, k: Key, h: u32) returns (r: Option<u32>)
    requires IsPow2(|slots|)
    ensures |slots| > 0 && r == PyProbe(slots, pts, k, h, 0)
  {
    var cap := |slots|;
    ghost var e: nat :| cap == Pow2(e);
    MaskedPositions(h, 0, 0, e);
    var home := BitAnd(h, cap - 1);
    for d := 0 to cap
      invariant PyProbe(slots, pts, k, h, d) == PyProbe(slots, pts, k, h, 0)
    {
      MaskedPositions(h, home, d, e);
      var i := BitAnd(home + d, cap - 1);
      if slots[i].pid == EMPTY {
        return None;
      }
      if slots[i].pid == TOMBSTONE {
        continue;
      }
      if slots[i].hash == h && NameEq(pts, slots[i].pid, k) {
        return Some(slots[i].pid);
      }
    }
    return None;
  }
}
