/** The name-to-id index of the segment (src/core/irt_index.c).
 *
 * An open-addressing table with linear probing and tombstones.  A slot holds
 * only a hash and a point id; the key it stands for is read from the point
 * array.  The hash is an arbitrary function of the key: nothing here depends
 * on which one the code uses.
 */
module NameIndex {
  import opened Common
  import opened Layout

  /** A byte of a C string before its terminating NUL. */
  type cbyte = x: int | 1 <= x < 256 witness 1
  type Name = seq<cbyte>

  /** Bytes of a name that fit in the point, and that strncmp looks at. */
  const NAME_MAX := 63

  /** What strncpy leaves in the 64-byte name field. */
  function Stored(name: Name): (s: Name)
    ensures |s| <= NAME_MAX && (|name| <= NAME_MAX ==> s == name)
  {
    if |name| <= NAME_MAX then name else name[..NAME_MAX]
  }

  datatype Key = Key(partition: u32, name: Name)

  type Hash = Key -> u32

  datatype Point = Point(name: Name, partition: u32, ptype: byte, access: byte,
                         unit: nat, quality: byte, value: seq<byte>)

  function KeyOf(p: Point): Key {
    Key(p.partition, p.name)
  }

  datatype Slot = Slot(hash: u32, pid: u32)

  const EMPTY: u32 := 0xFFFF_FFFF
  const TOMBSTONE: u32 := 0xFFFF_FFFE

  predicate Live(s: Slot) {
    s.pid != EMPTY && s.pid != TOMBSTONE
  }

  /** The parts of the segment that hold the registry. */
  datatype Seg = Seg(slots: seq<Slot>, pts: seq<Point>, count: nat)

  datatype Code = OK | ERR_ARG | ERR_FULL | ERR_NOT_FOUND | ERR_READ_ONLY | ERR_BUSY

  // ---- Probe positions ----

  function Home(hash: u32, cap: nat): (i: nat)
    requires cap > 0
    ensures i < cap
  {
    hash % cap
  }

  /** The d-th position probed, (home + d) & mask. */
  function At(cap: nat, home: nat, d: nat): (i: nat)
    requires home < cap && d < cap
    ensures i < cap
  {
    if home + d < cap then home + d else home + d - cap
  }

  /** At which probe position i is reached. */
  function Dist(cap: nat, home: nat, i: nat): (d: nat)
    requires home < cap && i < cap
    ensures d < cap && At(cap, home, d) == i
  {
    if home <= i then i - home else i + cap - home
  }

  lemma MaskedPositions(hash: u32, home: nat, d: nat, k: nat)
    requires home < Pow2(k) && d < Pow2(k)
    ensures BitAnd(hash, Pow2(k) - 1) == Home(hash, Pow2(k))
    ensures BitAnd(home + d, Pow2(k) - 1) == At(Pow2(k), home, d)
  {
    MaskIsRemainder(hash, k);
    MaskIsRemainder(home + d, k);
    var q := if home + d < Pow2(k) then 0 else 1;
    RemainderUnique(home + d, Pow2(k), q, At(Pow2(k), home, d));
  }

  /** One probe sequence visits every slot exactly once. */
  lemma ProbeVisitsAllOnce(cap: nat, home: nat, i: nat, d: nat)
    requires home < cap && i < cap && d < cap
    ensures At(cap, home, d) == i <==> d == Dist(cap, home, i)
  {
  }

  // ---- Matching and searching ----

  /** irt_index_slot_matches.  The bound on pid is the array bound of pts. */
  predicate Matches(s: Slot, pts: seq<Point>, key: Key, h: u32) {
    && s.hash == h && Live(s) && s.pid < |pts|
    && pts[s.pid].partition == key.partition
    && Stored(pts[s.pid].name) == Stored(key.name)
  }

  /** The slot the probe loop stops at, from probe position d on. */
  function FindFrom(slots: seq<Slot>, pts: seq<Point>, key: Key, h: u32, d: nat): (r: Option<nat>)
    requires d <= |slots| && |slots| > 0
    ensures r.Some? ==> r.value < |slots| && Matches(slots[r.value], pts, key, h)
    decreases |slots| - d
  {
    if d == |slots| then None
    else
      var i := At(|slots|, Home(h, |slots|), d);
      if slots[i].pid == EMPTY then None
      else if Matches(slots[i], pts, key, h) then Some(i)
      else FindFrom(slots, pts, key, h, d + 1)
  }

  /** No EMPTY slot before i on the probe sequence from home. */
  ghost predicate Reaches(slots: seq<Slot>, home: nat, i: nat)
    requires home < |slots| && i < |slots|
  {
    forall d: nat :: d < Dist(|slots|, home, i) ==> slots[At(|slots|, home, d)].pid != EMPTY
  }

  /** Every live slot can be reached from its own home bucket. */
  ghost predicate Chained(slots: seq<Slot>)
    requires |slots| > 0
  {
    forall i: nat :: i < |slots| && Live(slots[i]) ==> Reaches(slots, Home(slots[i].hash, |slots|), i)
  }

  lemma {:induction false} NotFoundMeansNoMatch(slots: seq<Slot>, pts: seq<Point>, key: Key, h: u32, d: nat, i: nat)
    requires d <= |slots| && |slots| > 0 && i < |slots|
    requires Reaches(slots, Home(h, |slots|), i) && d <= Dist(|slots|, Home(h, |slots|), i)
    requires FindFrom(slots, pts, key, h, d).None? && slots[i].pid != EMPTY
    ensures !Matches(slots[i], pts, key, h)
    decreases |slots| - d
  {
    if d < Dist(|slots|, Home(h, |slots|), i) {
      assert slots[At(|slots|, Home(h, |slots|), d)].pid != EMPTY;
      NotFoundMeansNoMatch(slots, pts, key, h, d + 1, i);
    }
  }

  /** On a chained table the search finds a matching slot iff there is one. */
  lemma FindIsExact(slots: seq<Slot>, pts: seq<Point>, key: Key, h: u32)
    requires |slots| > 0 && Chained(slots)
    ensures var r := FindFrom(slots, pts, key, h, 0);
            r.Some? <==> exists i: nat :: i < |slots| && Matches(slots[i], pts, key, h)
  {
    if FindFrom(slots, pts, key, h, 0).None? {
      forall i: nat | i < |slots|
        ensures !Matches(slots[i], pts, key, h)
      {
        if Matches(slots[i], pts, key, h) {
          NotFoundMeansNoMatch(slots, pts, key, h, 0, i);
        }
      }
    }
  }

  // ---- Insertion ----

  /** What the insertion loop decides: refresh a slot of the same key, put the
   *  key into a free slot, or find no room. */
  datatype Placement = Refresh(i: nat) | Put(i: nat) | NoRoom

  function PlaceFrom(slots: seq<Slot>, pts: seq<Point>, key: Key, h: u32, d: nat, tomb: Option<nat>): (r: Placement)
    requires d <= |slots| && |slots| > 0
    requires tomb.Some? ==> tomb.value < |slots|
    ensures !r.NoRoom? ==> r.i < |slots|
    decreases |slots| - d
  {
    if d == |slots| then
      if tomb.Some? then Put(tomb.value) else NoRoom
    else
      var i := At(|slots|, Home(h, |slots|), d);
      if slots[i].pid == EMPTY then Put(if tomb.Some? then tomb.value else i)
      else if slots[i].pid == TOMBSTONE then
        PlaceFrom(slots, pts, key, h, d + 1, if tomb.Some? then tomb else Some(i))
      else if Matches(slots[i], pts, key, h) then Refresh(i)
      else PlaceFrom(slots, pts, key, h, d + 1, tomb)
  }

  /** A slot of the same key is refreshed iff the search finds one. */
  lemma {:induction false} PlaceAgreesWithFind(slots: seq<Slot>, pts: seq<Point>, key: Key, h: u32, d: nat, tomb: Option<nat>)
    requires d <= |slots| && |slots| > 0
    requires tomb.Some? ==> tomb.value < |slots|
    ensures var r, f := PlaceFrom(slots, pts, key, h, d, tomb), FindFrom(slots, pts, key, h, d);
            (r.Refresh? <==> f.Some?) && (r.Refresh? ==> f == Some(r.i))
    decreases |slots| - d
  {
    if d < |slots| {
      var i := At(|slots|, Home(h, |slots|), d);
      if slots[i].pid == TOMBSTONE {
        PlaceAgreesWithFind(slots, pts, key, h, d + 1, if tomb.Some? then tomb else Some(i));
      } else if slots[i].pid != EMPTY && !Matches(slots[i], pts, key, h) {
        PlaceAgreesWithFind(slots, pts, key, h, d + 1, tomb);
      }
    }
  }

  /** A free slot is chosen with no EMPTY slot before it; there is no room only
   *  if every slot from probe position d on is live. */
  lemma {:induction false} PlaceIsReachable(slots: seq<Slot>, pts: seq<Point>, key: Key, h: u32, d: nat, tomb: Option<nat>)
    requires d <= |slots| && |slots| > 0
    requires tomb.Some? ==> tomb.value < |slots| && slots[tomb.value].pid == TOMBSTONE
    ensures var r := PlaceFrom(slots, pts, key, h, d, tomb);
            var home := Home(h, |slots|);
            && (r.Put? ==> !Live(slots[r.i]))
            && (r.Put? && tomb.Some? ==> r.i == tomb.value)
            && (r.Put? && tomb.None? ==> d <= Dist(|slots|, home, r.i))
            && (r.Put? && tomb.None? ==>
                  forall e: nat :: d <= e < Dist(|slots|, home, r.i) ==> slots[At(|slots|, home, e)].pid != EMPTY)
            && (r.NoRoom? ==>
                  && tomb.None?
                  && forall e: nat :: d <= e < |slots| ==> Live(slots[At(|slots|, home, e)]))
    decreases |slots| - d
  {
    if d < |slots| {
      var i := At(|slots|, Home(h, |slots|), d);
      if slots[i].pid == TOMBSTONE {
        PlaceIsReachable(slots, pts, key, h, d + 1, if tomb.Some? then tomb else Some(i));
      } else if slots[i].pid != EMPTY && !Matches(slots[i], pts, key, h) {
        PlaceIsReachable(slots, pts, key, h, d + 1, tomb);
      }
    }
  }

  lemma NoRoomMeansAllLive(slots: seq<Slot>, pts: seq<Point>, key: Key, h: u32, i: nat)
    requires |slots| > 0 && i < |slots|
    requires PlaceFrom(slots, pts, key, h, 0, None).NoRoom?
    ensures Live(slots[i])
  {
    PlaceIsReachable(slots, pts, key, h, 0, None);
    var d := Dist(|slots|, Home(h, |slots|), i);
    assert At(|slots|, Home(h, |slots|), d) == i;
  }

  lemma PutKeepsChained(slots: seq<Slot>, i: nat, s: Slot)
    requires |slots| > 0 && Chained(slots) && i < |slots|
    requires !Live(slots[i]) && Live(s) && Reaches(slots, Home(s.hash, |slots|), i)
    ensures Chained(slots[i := s])
  {
    var t := slots[i := s];
    forall j: nat | j < |t| && Live(t[j])
      ensures Reaches(t, Home(t[j].hash, |t|), j)
    {
      assert Reaches(slots, Home(t[j].hash, |t|), j);
    }
  }

  /** Overwriting a live slot keeps the table chained, as long as a new live
   *  content keeps the hash. */
  lemma OverwriteKeepsChained(slots: seq<Slot>, i: nat, s: Slot)
    requires |slots| > 0 && Chained(slots) && i < |slots|
    requires Live(slots[i]) && s.pid != EMPTY && s.hash == slots[i].hash
    ensures Chained(slots[i := s])
  {
    var t := slots[i := s];
    forall j: nat | j < |t| && Live(t[j])
      ensures Reaches(t, Home(t[j].hash, |t|), j)
    {
      assert Reaches(slots, Home(t[j].hash, |t|), j);
    }
  }

  // ---- Counting live slots ----

  ghost function LiveSet(slots: seq<Slot>): set<nat> {
    set i: nat | i < |slots| && Live(slots[i])
  }

  lemma LiveSetPut(slots: seq<Slot>, i: nat, s: Slot)
    requires i < |slots| && !Live(slots[i]) && Live(s)
    ensures |LiveSet(slots[i := s])| == |LiveSet(slots)| + 1
  {
    assert LiveSet(slots[i := s]) == LiveSet(slots) + {i};
  }

  lemma LiveSetKill(slots: seq<Slot>, i: nat, s: Slot)
    requires i < |slots| && Live(slots[i]) && !Live(s)
    ensures |LiveSet(slots[i := s])| == |LiveSet(slots)| - 1
  {
    assert LiveSet(slots[i := s]) == LiveSet(slots) - {i};
  }

  lemma LiveSetSame(slots: seq<Slot>, i: nat, s: Slot)
    requires i < |slots| && Live(slots[i]) && Live(s)
    ensures LiveSet(slots[i := s]) == LiveSet(slots)
  {
  }

  /** Live slots with distinct ids below n are at most n. */
  lemma {:induction false} DistinctIdsBounded(slots: seq<Slot>, live: set<nat>, n: nat)
    requires forall i :: i in live ==> i < |slots| && slots[i].pid < n
    requires forall i, j :: i in live && j in live && i != j ==> slots[i].pid != slots[j].pid
    ensures |live| <= n
    decreases n
  {
    if n > 0 {
      if i :| i in live && slots[i].pid == n - 1 {
        DistinctIdsBounded(slots, live - {i}, n - 1);
      } else {
        DistinctIdsBounded(slots, live, n - 1);
      }
    } else if i :| i in live {
      assert false;
    }
  }

  lemma AllLiveMeansFull(slots: seq<Slot>)
    requires forall i: nat :: i < |slots| ==> Live(slots[i])
    ensures |LiveSet(slots)| == |slots|
  {
    assert LiveSet(slots) == Below(|slots|);
  }

  ghost function Below(n: nat): (s: set<nat>)
    ensures |s| == n && forall i: nat :: i in s <==> i < n
  {
    if n == 0 then {} else Below(n - 1) + {n - 1}
  }

  // ---- The locked operations as functions of the segment ----

  function Insert(hf: Hash, st: Seg, key: Key, id: u32): (r: (Seg, Code))
    requires |st.slots| > 0
    ensures |r.0.slots| == |st.slots| && |r.0.pts| == |st.pts|
  {
    if key.name == [] || id >= |st.pts| then (st, ERR_ARG)
    else
      var pts := st.pts[id := st.pts[id].(partition := key.partition)];
      var h := hf(key);
      match PlaceFrom(st.slots, pts, key, h, 0, None)
      case Refresh(i) => (Seg(st.slots[i := st.slots[i].(pid := id)], pts, st.count), OK)
      case Put(i) => (Seg(st.slots[i := Slot(h, id)], pts, st.count + 1), OK)
      case NoRoom => (Seg(st.slots, pts, st.count), ERR_FULL)
  }

  function Remove(hf: Hash, st: Seg, key: Key): (r: (Seg, Code))
    requires |st.slots| > 0
    ensures |r.0.slots| == |st.slots| && r.0.pts == st.pts
  {
    if key.name == [] then (st, ERR_ARG)
    else
      match FindFrom(st.slots, st.pts, key, hf(key), 0)
      case None => (st, ERR_NOT_FOUND)
      case Some(i) =>
        (Seg(st.slots[i := st.slots[i].(pid := TOMBSTONE)], st.pts,
             if st.count > 0 then st.count - 1 else 0), OK)
  }

  function Lookup(hf: Hash, st: Seg, key: Key): (r: (Option<u32>, Code))
    requires |st.slots| > 0
  {
    if key.name == [] then (None, ERR_ARG)
    else
      match FindFrom(st.slots, st.pts, key, hf(key), 0)
      case None => (None, ERR_NOT_FOUND)
      case Some(i) => (Some(st.slots[i].pid), OK)
  }

  /** What insertion does: on success one slot holds hash and id of the key, and
   *  the count grows iff that slot was not live; otherwise the slots stay. */
  lemma InsertAnswers(hf: Hash, st: Seg, key: Key, id: u32)
    requires |st.slots| > 0
    ensures var (st', rc) := Insert(hf, st, key, id);
            && (rc == ERR_ARG <==> key.name == [] || id >= |st.pts|)
            && (rc == ERR_ARG ==> st' == st)
            && (rc == OK ==> exists i: nat :: i < |st.slots| && PutsAt(st, st', i, Slot(hf(key), id)))
            && (rc != OK ==> rc in {ERR_ARG, ERR_FULL} && st'.slots == st.slots && st'.count == st.count)
            && (rc != ERR_ARG ==> st'.pts == st.pts[id := st.pts[id].(partition := key.partition)])
  {
    if key.name != [] && id < |st.pts| {
      var pts := st.pts[id := st.pts[id].(partition := key.partition)];
      PlaceIsReachable(st.slots, pts, key, hf(key), 0, None);
      PlaceAgreesWithFind(st.slots, pts, key, hf(key), 0, None);
      var place := PlaceFrom(st.slots, pts, key, hf(key), 0, None);
      if !place.NoRoom? {
        assert PutsAt(st, Insert(hf, st, key, id).0, place.i, Slot(hf(key), id));
      }
    }
  }

  ghost predicate PutsAt(st: Seg, st': Seg, i: nat, s: Slot)
    requires i < |st.slots|
  {
    st'.slots == st.slots[i := s] && st'.count == st.count + if Live(st.slots[i]) then 0 else 1
  }

  // ---- The segment in memory ----

  class Segment {
    const hf: Hash
    const slots: array<Slot>
    const pts: array<Point>
    var count: nat

    ghost predicate Valid()
      reads this
    {
      slots.Length > 0 && IsPow2(slots.Length)
    }

    ghost function View(): Seg
      reads this, slots, pts
    {
      Seg(slots[..], pts[..], count)
    }

    /** The owner's irt_shm_init: cleared points, and irt_index_clear. */
    constructor (hf: Hash, maxPoints: u32, blank: Point)
      ensures Valid() && fresh(slots) && fresh(pts)
      ensures this.hf == hf && slots.Length == Buckets(maxPoints) && pts.Length == maxPoints
      ensures View() == Seg(seq(Buckets(maxPoints), _ => Slot(0xFFFF_FFFF, EMPTY)),
                            seq(maxPoints, _ => blank), 0)
    {
      var cap := LayoutBuckets(maxPoints);
      this.hf := hf;
      slots := new Slot[cap](_ => Slot(0xFFFF_FFFF, EMPTY));
      pts := new Point[maxPoints](_ => blank);
      count := 0;
      BucketsLeastPowerOfTwo(maxPoints);
    }

    /** The probe loop of irt_index_remove_locked and irt_index_probe. */
    method Probe(key: Key, h: u32) returns (r: Option<nat>)
      requires Valid()
      ensures r == FindFrom(slots[..], pts[..], key, h, 0)
    {
      var cap := slots.Length;
      ghost var k: nat :| cap == Pow2(k);
      MaskedPositions(h, 0, 0, k);
      var home := BitAnd(h, cap - 1);
      for d := 0 to cap
        invariant FindFrom(slots[..], pts[..], key, h, d) == FindFrom(slots[..], pts[..], key, h, 0)
      {
        MaskedPositions(h, home, d, k);
        var i := BitAnd(home + d, cap - 1);
        if slots[i].pid == EMPTY {
          return None;
        }
        if slots[i].pid == TOMBSTONE {
          continue;
        }
        if Matches(slots[i], pts[..], key, h) {
          return Some(i);
        }
      }
      return None;
    }

    /** The probe loop of irt_index_insert_locked: like Probe, but it remembers
     *  the first tombstone as the place to reuse. */
    method ProbeForInsert(key: Key, h: u32) returns (r: Placement)
      requires Valid()
      ensures r == PlaceFrom(slots[..], pts[..], key, h, 0, None)
    {
      var cap := slots.Length;
      ghost var k: nat :| cap == Pow2(k);
      MaskedPositions(h, 0, 0, k);
      var home := BitAnd(h, cap - 1);
      var tomb: Option<nat> := None;
      for d := 0 to cap
        invariant tomb.Some? ==> tomb.value < cap
        invariant PlaceFrom(slots[..], pts[..], key, h, d, tomb) == PlaceFrom(slots[..], pts[..], key, h, 0, None)
      {
        MaskedPositions(h, home, d, k);
        var i := BitAnd(home + d, cap - 1);
        var pid := slots[i].pid;
        if pid == EMPTY {
          return Put(if tomb.Some? then tomb.value else i);
        }
        if pid == TOMBSTONE {
          if tomb.None? {
            tomb := Some(i);
          }
          continue;
        }
        if Matches(slots[i], pts[..], key, h) {
          return Refresh(i);
        }
      }
      return if tomb.Some? then Put(tomb.value) else NoRoom;
    }

    method InsertLocked(key: Key, id: u32) returns (rc: Code)
      requires Valid()
      modifies this`count, slots, pts
      ensures Valid()
      ensures (View(), rc) == Insert(hf, old(View()), key, id)
    {
      if key.name == [] || id >= pts.Length {
        return ERR_ARG;
      }
      pts[id] := pts[id].(partition := key.partition);
      var h := hf(key);
      var place := ProbeForInsert(key, h);
      match place {
        case Refresh(i) =>
          slots[i] := slots[i].(pid := id);
          rc := OK;
        case Put(i) =>
          slots[i] := Slot(h, id);
          count := count + 1;
          rc := OK;
        case NoRoom =>
          rc := ERR_FULL;
      }
    }

    method RemoveLocked(key: Key) returns (rc: Code)
      requires Valid()
      modifies this`count, slots
      ensures Valid()
      ensures (View(), rc) == Remove(hf, old(View()), key)
    {
      if key.name == [] {
        return ERR_ARG;
      }
      var found := Probe(key, hf(key));
      if found.None? {
        return ERR_NOT_FOUND;
      }
      slots[found.value] := slots[found.value].(pid := TOMBSTONE);
      if count > 0 {
        count := count - 1;
      }
      rc := OK;
    }

    /** irt_index_lookup in a window in which no writer holds the lock. */
    method IndexLookup(key: Key) returns (id: Option<u32>, rc: Code)
      requires Valid()
      ensures (id, rc) == Lookup(hf, View(), key)
    {
      if key.name == [] {
        return None, ERR_ARG;
      }
      var found := Probe(key, hf(key));
      if found.None? {
        return None, ERR_NOT_FOUND;
      }
      return Some(slots[found.value].pid), OK;
    }
  }
}
