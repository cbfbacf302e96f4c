/** Creating, deleting, renaming and finding points (src/api/indurtdb.c:378-731).
 *
 * The registry lives in two places that must agree: the point array and the
 * name-to-id index.  Each locked section is one atomic step.  The main result
 * is that, over every run, the two together are a map from ids to entries in
 * which no two ids carry the same (partition, name).
 */
module Registry {
  import opened Common
  import opened Layout
  import opened NameIndex

  const TYPE_FLOAT: int := 6
  const READ_ONLY: byte := 1
  const READ_WRITE: byte := 3
  const GOOD: byte := 0
  function ZeroValue(): seq<byte> {
    seq(32, _ => 0)
  }

  predicate Named(p: Point) {
    p.name != []
  }

  // ---- The operations as functions of the segment ----

  /** h_point_register */
  function Registered(p: Point, key: Key, ptype: byte, access: byte): Point {
    p.(ptype := ptype, access := access, unit := 0, partition := key.partition,
       quality := GOOD, value := ZeroValue(), name := Stored(key.name))
  }

  predicate CreateArgsOk(st: Seg, key: Key, id: u32, ptype: int, access: int) {
    && key.name != []
    && 0 <= ptype <= TYPE_FLOAT
    && (access == READ_ONLY || access == READ_WRITE)
    && id < |st.pts|
  }

  function Create(hf: Hash, st: Seg, key: Key, id: u32, ptype: int, access: int): (r: (Seg, Code))
    requires |st.slots| > 0
    ensures |r.0.slots| == |st.slots| && |r.0.pts| == |st.pts|
  {
    if !CreateArgsOk(st, key, id, ptype, access) then (st, ERR_ARG)
    else
      var exist := Lookup(hf, st, key).0;
      if exist.Some? && exist.value != id then (st, ERR_ARG)
      else if Named(st.pts[id]) then (st, ERR_FULL)
      else
        var st1 := st.(pts := st.pts[id := Registered(st.pts[id], key, ptype, access)]);
        var (st2, rc) := Insert(hf, st1, key, id);
        if rc == OK then (st2, OK)
        else (st2.(pts := st2.pts[id := st2.pts[id].(name := [])]), rc)
  }

  function Delete(hf: Hash, st: Seg, partition: u32, id: u32): (r: (Seg, Code))
    requires |st.slots| > 0
    ensures |r.0.slots| == |st.slots| && |r.0.pts| == |st.pts|
  {
    if id >= |st.pts| then (st, ERR_ARG)
    else if !Named(st.pts[id]) || st.pts[id].partition != partition then (st, ERR_NOT_FOUND)
    else
      var st1 := Remove(hf, st, KeyOf(st.pts[id])).0;
      (st1.(pts := st1.pts[id := st1.pts[id].(name := [])]), OK)
  }

  function Rename(hf: Hash, st: Seg, key: Key, id: u32): (r: (Seg, Code))
    requires |st.slots| > 0
    ensures |r.0.slots| == |st.slots| && |r.0.pts| == |st.pts|
  {
    if key.name == [] || id >= |st.pts| then (st, ERR_ARG)
    else
      var exist := Lookup(hf, st, key).0;
      if exist.Some? && exist.value != id then (st, ERR_ARG)
      else if !Named(st.pts[id]) || st.pts[id].partition != key.partition then (st, ERR_NOT_FOUND)
      else if st.pts[id].name == key.name then (st, OK)
      else
        var (st1, rc) := Insert(hf, st, key, id);
        if rc != OK then (st1, ERR_FULL)
        else
          var st2 := Remove(hf, st1, Key(key.partition, st1.pts[id].name)).0;
          (st2.(pts := st2.pts[id := st2.pts[id].(name := Stored(key.name))]), OK)
  }

  /** pm_write_impl_q, as far as the registry sees it: a value write also sets
   *  the type and quality of the point. */
  function Write(st: Seg, id: u32, ptype: byte, value: seq<byte>, quality: byte): (r: (Seg, Code))
    ensures r.0.slots == st.slots && |r.0.pts| == |st.pts|
  {
    if id >= |st.pts| then (st, ERR_ARG)
    else if st.pts[id].access == READ_ONLY then (st, ERR_READ_ONLY)
    else (st.(pts := st.pts[id := st.pts[id].(ptype := ptype, value := value, quality := quality)]), OK)
  }

  // ---- The abstract registry ----

  datatype Entry = Entry(key: Key, ptype: byte, access: byte)

  type Map = map<u32, Entry>

  ghost function Abs(pts: seq<Point>): Map
    requires |pts| <= U32_RANGE
  {
    map id: u32 | id < |pts| && Named(pts[id]) :: Entry(KeyOf(pts[id]), pts[id].ptype, pts[id].access)
  }

  ghost predicate Carries(m: Map, id: u32, key: Key) {
    id in m && m[id].key == key
  }

  /** What finding a name means. */
  ghost function Find(m: Map, key: Key): (r: Option<u32>)
    ensures r.Some? ==> Carries(m, r.value, key)
    ensures r.None? ==> forall id: u32 :: !Carries(m, id, key)
  {
    if id: u32 :| Carries(m, id, key) then Some(id) else None
  }

  ghost function SpecCreate(m: Map, max: nat, key: Key, id: u32, ptype: int, access: int): (Map, Code) {
    if key.name == [] || !(0 <= ptype <= 6) || !(access == 1 || access == 3) || id >= max then (m, ERR_ARG)
    else if exists other: u32 :: other != id && Carries(m, other, key) then (m, ERR_ARG)
    else if id in m then (m, ERR_FULL)
    else (m[id := Entry(key, ptype, access)], OK)
  }

  ghost function SpecDelete(m: Map, max: nat, partition: u32, id: u32): (Map, Code) {
    if id >= max then (m, ERR_ARG)
    else if id !in m || m[id].key.partition != partition then (m, ERR_NOT_FOUND)
    else (m - {id}, OK)
  }

  ghost function SpecRename(m: Map, max: nat, key: Key, id: u32): (Map, Code) {
    if key.name == [] || id >= max then (m, ERR_ARG)
    else if exists other: u32 :: other != id && Carries(m, other, key) then (m, ERR_ARG)
    else if id !in m || m[id].key.partition != key.partition then (m, ERR_NOT_FOUND)
    else (m[id := m[id].(key := key)], OK)
  }

  /** No two ids carry the same partition and name. */
  ghost predicate Injective(m: Map) {
    forall a: u32, b: u32 :: a in m && b in m && m[a].key == m[b].key ==> a == b
  }

  // ---- The invariant that ties the table to the points ----

  ghost predicate HasSlot(slots: seq<Slot>, id: nat) {
    exists i: nat :: i < |slots| && slots[i].pid == id
  }

  ghost predicate SlotOk(hf: Hash, s: Slot, pts: seq<Point>) {
    s.pid < |pts| && Named(pts[s.pid]) && s.hash == hf(KeyOf(pts[s.pid]))
  }

  /** Every live slot carries the hash of the key of a named point, no point
   *  has two slots, and every named point outside `missing` has one. */
  ghost predicate Indexed(hf: Hash, slots: seq<Slot>, pts: seq<Point>, missing: set<nat>) {
    && (forall i: nat :: i < |slots| && Live(slots[i]) ==> SlotOk(hf, slots[i], pts) && slots[i].pid !in missing)
    && (forall i: nat, j: nat :: i < j < |slots| && Live(slots[i]) && Live(slots[j]) ==> slots[i].pid != slots[j].pid)
    && (forall id: nat :: id < |pts| && Named(pts[id]) && id !in missing ==> HasSlot(slots, id))
  }

  ghost predicate PointsOk(pts: seq<Point>) {
    && |pts| < TOMBSTONE
    && (forall id: nat :: id < |pts| ==> |pts[id].name| <= NAME_MAX)
    && (forall a: nat, b: nat :: a < b < |pts| && Named(pts[a]) && Named(pts[b]) ==> KeyOf(pts[a]) != KeyOf(pts[b]))
  }

  ghost predicate Inv(hf: Hash, st: Seg) {
    && |st.pts| < |st.slots|
    && PointsOk(st.pts)
    && Chained(st.slots)
    && Indexed(hf, st.slots, st.pts, {})
    && st.count == |LiveSet(st.slots)|
  }

  // ---- Searching under the invariant ----

  /** Point id answers a search for key.  For names that fit this is equality
   *  of keys; a longer name is cut for the comparison but hashed whole. */
  ghost predicate Hit(hf: Hash, pts: seq<Point>, id: nat, key: Key)
    requires id < |pts|
  {
    Named(pts[id]) && KeyOf(pts[id]) == Key(key.partition, Stored(key.name)) && hf(KeyOf(pts[id])) == hf(key)
  }

  lemma MatchIsHit(hf: Hash, slots: seq<Slot>, pts: seq<Point>, missing: set<nat>, key: Key, i: nat)
    requires PointsOk(pts) && Indexed(hf, slots, pts, missing) && i < |slots| && Live(slots[i])
    ensures Matches(slots[i], pts, key, hf(key)) <==> Hit(hf, pts, slots[i].pid, key)
  {
    assert SlotOk(hf, slots[i], pts);
  }

  lemma SearchIsExact(hf: Hash, slots: seq<Slot>, pts: seq<Point>, missing: set<nat>, key: Key)
    requires |slots| > 0 && PointsOk(pts) && Chained(slots) && Indexed(hf, slots, pts, missing)
    ensures var f := FindFrom(slots, pts, key, hf(key), 0);
            && (f.Some? ==> Hit(hf, pts, slots[f.value].pid, key))
            && (f.None? ==> forall id: nat :: id < |pts| && id !in missing ==> !Hit(hf, pts, id, key))
  {
    var f := FindFrom(slots, pts, key, hf(key), 0);
    FindIsExact(slots, pts, key, hf(key));
    if f.Some? {
      MatchIsHit(hf, slots, pts, missing, key, f.value);
    } else {
      forall id: nat | id < |pts| && id !in missing
        ensures !Hit(hf, pts, id, key)
      {
        if Named(pts[id]) {
          var i: nat :| i < |slots| && slots[i].pid == id;
          MatchIsHit(hf, slots, pts, missing, key, i);
        }
      }
    }
  }

  /** The index is never full: there are fewer points than slots, and
   *  tombstones are reused. */
  lemma NeverFull(hf: Hash, slots: seq<Slot>, pts: seq<Point>, missing: set<nat>, key: Key, pts': seq<Point>)
    requires |pts| < |slots| && Indexed(hf, slots, pts, missing)
    ensures !PlaceFrom(slots, pts', key, hf(key), 0, None).NoRoom?
  {
    if PlaceFrom(slots, pts', key, hf(key), 0, None).NoRoom? {
      forall i: nat | i < |slots|
        ensures Live(slots[i])
      {
        NoRoomMeansAllLive(slots, pts', key, hf(key), i);
      }
      AllLiveMeansFull(slots);
      DistinctIdsBounded(slots, LiveSet(slots), |pts|);
    }
  }

  /** With no matching slot, insertion takes a free slot that the key's probe
   *  sequence reaches. */
  lemma InsertionTakesFreeSlot(hf: Hash, slots: seq<Slot>, pts: seq<Point>, key: Key, pts': seq<Point>) returns (i: nat)
    requires 0 <= |pts| < |slots| && Indexed(hf, slots, pts, {})
    requires forall j: nat :: j < |slots| ==> !Matches(slots[j], pts', key, hf(key))
    ensures i < |slots| && PlaceFrom(slots, pts', key, hf(key), 0, None) == Put(i)
    ensures !Live(slots[i]) && Reaches(slots, Home(hf(key), |slots|), i)
  {
    PlaceAgreesWithFind(slots, pts', key, hf(key), 0, None);
    PlaceIsReachable(slots, pts', key, hf(key), 0, None);
    NeverFull(hf, slots, pts, {}, key, pts');
    i := PlaceFrom(slots, pts', key, hf(key), 0, None).i;
  }

  // ---- One step keeps the invariant ----

  lemma NewPointIndexed(hf: Hash, slots: seq<Slot>, pts: seq<Point>, id: nat, p: Point, i: nat)
    requires Indexed(hf, slots, pts, {}) && id < |pts| < TOMBSTONE && i < |slots|
    requires !Named(pts[id]) && Named(p) && !Live(slots[i])
    ensures Indexed(hf, slots[i := Slot(hf(KeyOf(p)), id)], pts[id := p], {})
  {
    var slots', pts' := slots[i := Slot(hf(KeyOf(p)), id)], pts[id := p];
    forall j: nat | j < |slots'| && Live(slots'[j])
      ensures SlotOk(hf, slots'[j], pts')
      ensures j != i ==> slots'[j].pid != id
    {
      if j != i {
        assert SlotOk(hf, slots[j], pts);
      }
    }
    forall x: nat | x < |pts'| && Named(pts'[x])
      ensures HasSlot(slots', x)
    {
      if x == id {
        assert slots'[i].pid == x;
      } else {
        var j: nat :| j < |slots| && slots[j].pid == x;
        assert slots'[j].pid == x;
      }
    }
  }

  lemma CreateStep(hf: Hash, st: Seg, key: Key, id: u32, ptype: int, access: int) returns (i: nat)
    requires Inv(hf, st) && CreateArgsOk(st, key, id, ptype, access) && !Named(st.pts[id])
    requires forall x: nat :: x < |st.pts| ==> !Hit(hf, st.pts, x, key)
    ensures i < |st.slots| && !Live(st.slots[i]) && Reaches(st.slots, Home(hf(key), |st.slots|), i)
    ensures var p := Registered(st.pts[id], key, ptype, access);
            Create(hf, st, key, id, ptype, access)
            == (Seg(st.slots[i := Slot(hf(key), id)], st.pts[id := p], st.count + 1), OK)
  {
    SearchIsExact(hf, st.slots, st.pts, {}, key);
    var p := Registered(st.pts[id], key, ptype, access);
    var pts' := st.pts[id := p];
    forall j: nat | j < |st.slots|
      ensures !Matches(st.slots[j], pts', key, hf(key))
    {
      if Live(st.slots[j]) {
        assert SlotOk(hf, st.slots[j], st.pts);
        MatchIsHit(hf, st.slots, st.pts, {}, key, j);
      }
    }
    i := InsertionTakesFreeSlot(hf, st.slots, st.pts, key, pts');
    assert pts'[id := pts'[id].(partition := key.partition)] == pts';
  }

  predicate NameFits(key: Key) {
    |key.name| <= NAME_MAX
  }

  /** Create either changes nothing or registers the point; the result is a
   *  good registry exactly when cutting the name to 63 bytes leaves its hash
   *  unchanged, in particular for every name that fits. */
  lemma CreateKeepsInvIff(hf: Hash, st: Seg, key: Key, id: u32, ptype: int, access: int)
    requires Inv(hf, st)
    ensures var (st', rc) := Create(hf, st, key, id, ptype, access);
            && (rc != OK ==> st' == st)
            && (rc == OK ==> (Inv(hf, st') <==> hf(key) == hf(Key(key.partition, Stored(key.name)))))
  {
    SearchIsExact(hf, st.slots, st.pts, {}, key);
    if CreateArgsOk(st, key, id, ptype, access) && !Named(st.pts[id])
       && forall x: nat :: x < |st.pts| ==> !Hit(hf, st.pts, x, key)
    {
      var i := CreateStep(hf, st, key, id, ptype, access);
      var p := Registered(st.pts[id], key, ptype, access);
      var slots', pts' := st.slots[i := Slot(hf(key), id)], st.pts[id := p];
      if hf(key) == hf(KeyOf(p)) {
        NewPointIndexed(hf, st.slots, st.pts, id, p, i);
        PutKeepsChained(st.slots, i, Slot(hf(key), id));
        LiveSetPut(st.slots, i, Slot(hf(key), id));
        forall x: nat | x < |st.pts| && x != id && Named(st.pts[x])
          ensures KeyOf(st.pts[x]) != KeyOf(p)
        {
          assert !Hit(hf, st.pts, x, key);
        }
        assert PointsOk(pts');
      } else {
        assert Live(slots'[i]) && !SlotOk(hf, slots'[i], pts');
      }
    }
  }

  /** A created point does not keep the value of the one that held its place
   *  before: the value is zero and good, the unit 0, and it has the type, access
   *  and partition asked for and the first 63 bytes of the name.  Every other
   *  point is as it was. */
  lemma CreateClears(hf: Hash, st: Seg, key: Key, id: u32, ptype: int, access: int)
    requires |st.slots| > 0
    ensures var (st', rc) := Create(hf, st, key, id, ptype, access);
            rc == OK ==>
              && id < |st.pts| && st.pts[id].name == [] && IsNew(st'.pts[id], key, ptype, access)
              && forall x: nat :: x < |st.pts| && x != id ==> st'.pts[x] == st.pts[x]
  {
  }

  ghost predicate IsNew(p: Point, key: Key, ptype: int, access: int) {
    && |p.value| == 32 && (forall k :: 0 <= k < 32 ==> p.value[k] == 0)
    && p.quality == 0 && p.unit == 0 && p.ptype == ptype && p.access == access && p.partition == key.partition
    && p.name == if |key.name| <= 63 then key.name else key.name[..63]
  }

  /** Killing the slot of a point leaves exactly that point without a slot. */
  lemma KillUnindexes(hf: Hash, slots: seq<Slot>, pts: seq<Point>, i: nat, s: Slot)
    requires Indexed(hf, slots, pts, {}) && i < |slots| && Live(slots[i]) && !Live(s)
    requires |pts| < TOMBSTONE
    ensures Indexed(hf, slots[i := s], pts, {slots[i].pid})
  {
    var slots' := slots[i := s];
    var gone := slots[i].pid;
    forall j: nat | j < |slots'| && Live(slots'[j])
      ensures SlotOk(hf, slots'[j], pts) && slots'[j].pid != gone
    {
      assert SlotOk(hf, slots[j], pts);
    }
    forall x: nat | x < |pts| && Named(pts[x]) && x != gone
      ensures HasSlot(slots', x)
    {
      var j: nat :| j < |slots| && slots[j].pid == x;
      assert slots'[j].pid == x;
    }
  }

  lemma UnnamedIndexed(hf: Hash, slots: seq<Slot>, pts: seq<Point>, id: nat, p: Point)
    requires id < |pts| && Indexed(hf, slots, pts, {id}) && !Named(p)
    ensures Indexed(hf, slots, pts[id := p], {})
  {
    var pts' := pts[id := p];
    forall j: nat | j < |slots| && Live(slots[j])
      ensures SlotOk(hf, slots[j], pts')
    {
      assert SlotOk(hf, slots[j], pts);
    }
  }

  /** Under the invariant, removing the key of a named point kills its slot. */
  lemma RemoveKillsOwnSlot(hf: Hash, st: Seg, id: nat) returns (i: nat)
    requires Inv(hf, st) && id < |st.pts| && Named(st.pts[id])
    ensures i < |st.slots| && st.slots[i].pid == id && st.count > 0
    ensures var key := KeyOf(st.pts[id]);
            && FindFrom(st.slots, st.pts, key, hf(key), 0) == Some(i)
            && Remove(hf, st, key)
               == (Seg(st.slots[i := st.slots[i].(pid := TOMBSTONE)], st.pts, st.count - 1), OK)
  {
    var key := KeyOf(st.pts[id]);
    SearchIsExact(hf, st.slots, st.pts, {}, key);
    assert Hit(hf, st.pts, id, key);
    i := FindFrom(st.slots, st.pts, key, hf(key), 0).value;
    var other: nat := st.slots[i].pid;
    assert KeyOf(st.pts[other]) == KeyOf(st.pts[id]);
    assert i in LiveSet(st.slots);
  }

  /** Delete keeps the invariant, whatever its arguments. */
  lemma DeleteKeepsInv(hf: Hash, st: Seg, partition: u32, id: u32)
    requires Inv(hf, st)
    ensures var (st', rc) := Delete(hf, st, partition, id);
            && Inv(hf, st')
            && (rc != OK ==> st' == st)
            && (rc == OK ==> id < |st.pts| && st'.pts == st.pts[id := st.pts[id].(name := [])])
  {
    if id < |st.pts| && Named(st.pts[id]) && st.pts[id].partition == partition {
      var i := RemoveKillsOwnSlot(hf, st, id);
      var dead := st.slots[i].(pid := TOMBSTONE);
      KillUnindexes(hf, st.slots, st.pts, i, dead);
      UnnamedIndexed(hf, st.slots[i := dead], st.pts, id, st.pts[id].(name := []));
      OverwriteKeepsChained(st.slots, i, dead);
      LiveSetKill(st.slots, i, dead);
    }
  }

  // ---- Rename: one id holds two slots for a moment ----

  lemma RenameInserts(hf: Hash, st: Seg, key: Key, id: u32) returns (i: nat)
    requires Inv(hf, st) && key.name != [] && id < |st.pts| && Named(st.pts[id])
    requires st.pts[id].partition == key.partition
    requires forall x: nat :: x < |st.pts| ==> !Hit(hf, st.pts, x, key)
    ensures i < |st.slots| && !Live(st.slots[i]) && Reaches(st.slots, Home(hf(key), |st.slots|), i)
    ensures Insert(hf, st, key, id) == (Seg(st.slots[i := Slot(hf(key), id)], st.pts, st.count + 1), OK)
    ensures Lookup(hf, st, key).0 == None
  {
    SearchIsExact(hf, st.slots, st.pts, {}, key);
    forall j: nat | j < |st.slots|
      ensures !Matches(st.slots[j], st.pts, key, hf(key))
    {
      if Live(st.slots[j]) {
        assert SlotOk(hf, st.slots[j], st.pts);
        MatchIsHit(hf, st.slots, st.pts, {}, key, j);
      }
    }
    i := InsertionTakesFreeSlot(hf, st.slots, st.pts, key, st.pts);
    assert st.pts[id := st.pts[id].(partition := key.partition)] == st.pts;
  }

  /** The removal looks for the old key; whichever of the point's two slots it
   *  finds, a slot with the hash of the new key is left. */
  lemma RenameStep(hf: Hash, st: Seg, key: Key, id: u32) returns (i: nat, prior: nat, killed: nat)
    requires Inv(hf, st) && key.name != [] && id < |st.pts| && Named(st.pts[id])
    requires st.pts[id].partition == key.partition && st.pts[id].name != key.name
    requires forall x: nat :: x < |st.pts| ==> !Hit(hf, st.pts, x, key)
    ensures i < |st.slots| && prior < |st.slots| && (killed == i || killed == prior) && i != prior
    ensures !Live(st.slots[i]) && Reaches(st.slots, Home(hf(key), |st.slots|), i)
    ensures st.slots[prior] == Slot(hf(KeyOf(st.pts[id])), id)
    ensures killed == i ==> hf(key) == hf(KeyOf(st.pts[id]))
    ensures var slots1 := st.slots[i := Slot(hf(key), id)];
            Rename(hf, st, key, id)
            == (Seg(slots1[killed := slots1[killed].(pid := TOMBSTONE)],
                    st.pts[id := st.pts[id].(name := Stored(key.name))], st.count), OK)
  {
    var k := KeyOf(st.pts[id]);
    i := RenameInserts(hf, st, key, id);
    prior := RemoveKillsOwnSlot(hf, st, id);
    assert SlotOk(hf, st.slots[prior], st.pts);
    var slots1 := st.slots[i := Slot(hf(key), id)];
    PutKeepsChained(st.slots, i, Slot(hf(key), id));
    assert Matches(slots1[prior], st.pts, k, hf(k));
    FindIsExact(slots1, st.pts, k, hf(k));
    killed := FindFrom(slots1, st.pts, k, hf(k), 0).value;
    OnlyTwoSlots(hf, st, slots1, id, i, prior, killed);
    assert Key(key.partition, st.pts[id].name) == k;
  }

  lemma OnlyTwoSlots(hf: Hash, st: Seg, slots1: seq<Slot>, id: u32, i: nat, prior: nat, killed: nat)
    requires Inv(hf, st) && id < |st.pts| && Named(st.pts[id])
    requires i < |st.slots| && prior < |st.slots| && killed < |st.slots| && !Live(st.slots[i])
    requires st.slots[prior].pid == id
    requires |slots1| == |st.slots| && slots1 == st.slots[i := Slot(slots1[i].hash, id)]
    requires Matches(slots1[killed], st.pts, KeyOf(st.pts[id]), hf(KeyOf(st.pts[id])))
    ensures killed == i || killed == prior
    ensures killed == i ==> slots1[i].hash == hf(KeyOf(st.pts[id]))
  {
    if killed != i {
      var other: nat := slots1[killed].pid;
      assert slots1[killed] == st.slots[killed];
      assert SlotOk(hf, st.slots[killed], st.pts);
      assert KeyOf(st.pts[other]) == KeyOf(st.pts[id]);
      assert st.slots[killed].pid == st.slots[prior].pid;
    }
  }

  lemma RenamedIndexed(hf: Hash, st: Seg, key: Key, id: u32, i: nat, prior: nat, killed: nat)
    requires Inv(hf, st) && id < |st.pts| && Named(st.pts[id]) && key.name != []
    requires st.pts[id].partition == key.partition
    requires i < |st.slots| && prior < |st.slots| && i != prior && (killed == i || killed == prior)
    requires !Live(st.slots[i]) && st.slots[prior] == Slot(hf(KeyOf(st.pts[id])), id)
    requires killed == i ==> hf(key) == hf(KeyOf(st.pts[id]))
    requires hf(key) == hf(Key(key.partition, Stored(key.name)))
    ensures var slots1 := st.slots[i := Slot(hf(key), id)];
            Indexed(hf, slots1[killed := slots1[killed].(pid := TOMBSTONE)],
                    st.pts[id := st.pts[id].(name := Stored(key.name))], {})
  {
    var slots1 := st.slots[i := Slot(hf(key), id)];
    var slots' := slots1[killed := slots1[killed].(pid := TOMBSTONE)];
    var pts' := st.pts[id := st.pts[id].(name := Stored(key.name))];
    var kept := if killed == i then prior else i;
    assert slots'[kept] == Slot(hf(key), id);
    forall j: nat | j < |slots'| && Live(slots'[j])
      ensures SlotOk(hf, slots'[j], pts')
      ensures j != kept ==> slots'[j].pid != id && slots'[j] == st.slots[j] && Live(st.slots[j])
    {
      if j != kept {
        assert SlotOk(hf, st.slots[j], st.pts);
      }
    }
    forall x: nat | x < |pts'| && Named(pts'[x])
      ensures HasSlot(slots', x)
    {
      if x == id {
        assert slots'[kept].pid == x;
      } else {
        var j: nat :| j < |st.slots| && st.slots[j].pid == x;
        assert slots'[j].pid == x;
      }
    }
  }

  lemma RenamedChained(hf: Hash, st: Seg, key: Key, id: u32, i: nat, prior: nat, killed: nat)
    requires Inv(hf, st) && id < |st.pts|
    requires i < |st.slots| && prior < |st.slots| && i != prior && (killed == i || killed == prior)
    requires !Live(st.slots[i]) && Reaches(st.slots, Home(hf(key), |st.slots|), i)
    requires Live(st.slots[prior])
    ensures var slots1 := st.slots[i := Slot(hf(key), id)];
            var slots' := slots1[killed := slots1[killed].(pid := TOMBSTONE)];
            Chained(slots') && |LiveSet(slots')| == |LiveSet(st.slots)|
  {
    var s := Slot(hf(key), id);
    var slots1 := st.slots[i := s];
    PutKeepsChained(st.slots, i, s);
    LiveSetPut(st.slots, i, s);
    OverwriteKeepsChained(slots1, killed, slots1[killed].(pid := TOMBSTONE));
    LiveSetKill(slots1, killed, slots1[killed].(pid := TOMBSTONE));
  }

  predicate RenameApplies(st: Seg, key: Key, id: u32) {
    key.name != [] && id < |st.pts| && Named(st.pts[id]) && st.pts[id].partition == key.partition
  }

  /** Rename under a name that fits: nothing changes on error, and on success
   *  the point has the new name and the invariant holds. */
  lemma RenameKeepsInv(hf: Hash, st: Seg, key: Key, id: u32)
    requires Inv(hf, st) && NameFits(key)
    ensures var (st', rc) := Rename(hf, st, key, id);
            && Inv(hf, st')
            && (rc != OK ==> st' == st)
            && (rc == OK ==> id < |st.pts| && st'.pts == st.pts[id := st.pts[id].(name := key.name)])
  {
    SearchIsExact(hf, st.slots, st.pts, {}, key);
    if RenameApplies(st, key, id) && st.pts[id].name != key.name
       && forall x: nat :: x < |st.pts| ==> !Hit(hf, st.pts, x, key)
    {
      RenameFresh(hf, st, key, id);
    } else if RenameApplies(st, key, id) {
      assert st.pts[id := st.pts[id].(name := st.pts[id].name)] == st.pts;
    }
  }

  lemma RenameFresh(hf: Hash, st: Seg, key: Key, id: u32)
    requires Inv(hf, st) && RenameApplies(st, key, id) && st.pts[id].name != key.name
    requires forall x: nat :: x < |st.pts| ==> !Hit(hf, st.pts, x, key)
    ensures var (st', rc) := Rename(hf, st, key, id);
            && rc == OK && st'.pts == st.pts[id := st.pts[id].(name := Stored(key.name))]
            && (Inv(hf, st') <==> hf(key) == hf(Key(key.partition, Stored(key.name))))
  {
    var i, prior, killed := RenameStep(hf, st, key, id);
    RenamedChained(hf, st, key, id, i, prior, killed);
    var st' := Rename(hf, st, key, id).0;
    if hf(key) == hf(Key(key.partition, Stored(key.name))) {
      RenamedIndexed(hf, st, key, id, i, prior, killed);
      forall x: nat | x < |st.pts| && x != id && Named(st.pts[x])
        ensures KeyOf(st.pts[x]) != KeyOf(st'.pts[id])
      {
        assert !Hit(hf, st.pts, x, key);
      }
    } else {
      var kept := if killed == i then prior else i;
      assert Live(st'.slots[kept]) && !SlotOk(hf, st'.slots[kept], st'.pts);
    }
  }

  /** Renaming to an over-long name whose first 63 bytes are the current name
   *  and share its hash refreshes the point's slot and then kills it. */
  lemma RenameOntoOwnPrefix(hf: Hash, st: Seg, key: Key, id: u32)
    requires Inv(hf, st) && RenameApplies(st, key, id) && st.pts[id].name != key.name
    requires Hit(hf, st.pts, id, key)
    ensures var (st', rc) := Rename(hf, st, key, id);
            rc == OK && !Inv(hf, st')
  {
    var k := KeyOf(st.pts[id]);
    SearchIsExact(hf, st.slots, st.pts, {}, key);
    var j := FindFrom(st.slots, st.pts, key, hf(key), 0).value;
    var other: nat := st.slots[j].pid;
    assert KeyOf(st.pts[other]) == k;
    assert st.pts[id := st.pts[id].(partition := key.partition)] == st.pts;
    PlaceAgreesWithFind(st.slots, st.pts, key, hf(key), 0, None);
    assert st.slots[j := st.slots[j].(pid := id)] == st.slots;
    assert Insert(hf, st, key, id) == (st, OK);
    var i := RemoveKillsOwnSlot(hf, st, id);
    var st' := Rename(hf, st, key, id).0;
    assert st'.slots == st.slots[i := st.slots[i].(pid := TOMBSTONE)];
    assert forall x: nat :: x < |st.slots| && x != i ==> st.slots[x].pid != id;
    assert !HasSlot(st'.slots, id);
  }

  /** Exactly when rename keeps the registry good: the name fits, or cutting it
   *  to 63 bytes changes neither its hash nor the point's current name. */
  lemma RenameKeepsInvIff(hf: Hash, st: Seg, key: Key, id: u32)
    requires Inv(hf, st)
    ensures var (st', rc) := Rename(hf, st, key, id);
            && (rc != OK ==> st' == st)
            && (rc == OK ==> id < |st.pts|)
            && (rc == OK ==>
                  (Inv(hf, st') <==>
                     (NameFits(key)
                      || (hf(key) == hf(Key(key.partition, Stored(key.name))) && st.pts[id].name != Stored(key.name)))))
  {
    if NameFits(key) {
      RenameKeepsInv(hf, st, key, id);
    } else {
      SearchIsExact(hf, st.slots, st.pts, {}, key);
      if RenameApplies(st, key, id) && forall x: nat :: x < |st.pts| ==> !Hit(hf, st.pts, x, key) {
        RenameFresh(hf, st, key, id);
      } else if RenameApplies(st, key, id) {
        var j := FindFrom(st.slots, st.pts, key, hf(key), 0);
        if j.Some? && st.slots[j.value].pid == id {
          RenameOntoOwnPrefix(hf, st, key, id);
        }
      }
    }
  }

  // ---- Loading a configuration entry ----

  /** One entry of indurtdb_h_load_config: the slot of the array is overwritten
   *  unconditionally, then the name is inserted. */
  function LoadOne(hf: Hash, st: Seg, id: u32, name: Name, ptype: byte, unit: nat, access: byte): (r: (Seg, Code))
    requires |st.slots| > 0
    ensures |r.0.slots| == |st.slots| && |r.0.pts| == |st.pts|
  {
    if id >= |st.pts| || ptype > TYPE_FLOAT then (st, OK)
    else
      var p := st.pts[id].(ptype := ptype, unit := unit, access := access, partition := 0, name := Stored(name));
      var (st', rc) := Insert(hf, st.(pts := st.pts[id := p]), Key(0, Stored(name)), id);
      (st', if rc == ERR_FULL then ERR_FULL else OK)
  }

  /** What an entry must meet for the registry to stay good: the point is
   *  unnamed or its key has the hash of the new one, and no other point has
   *  the new key; an empty name must not land on a named point. */
  ghost predicate LoadIsSafe(hf: Hash, st: Seg, id: u32, name: Name, ptype: byte) {
    || id >= |st.pts| || ptype > TYPE_FLOAT
    || (name == [] && !Named(st.pts[id]))
    || (&& name != []
        && (Named(st.pts[id]) ==> hf(KeyOf(st.pts[id])) == hf(Key(0, Stored(name))))
        && forall x: nat :: x < |st.pts| && x != id && Named(st.pts[x]) ==> KeyOf(st.pts[x]) != Key(0, Stored(name)))
  }

  lemma LoadOverwritesUnnamed(hf: Hash, st: Seg, id: u32, p: Point)
    requires Inv(hf, st) && id < |st.pts| && !Named(p)
    ensures Inv(hf, st.(pts := st.pts[id := p])) <==> !Named(st.pts[id])
  {
    var pts' := st.pts[id := p];
    if Named(st.pts[id]) {
      var i: nat :| i < |st.slots| && st.slots[i].pid == id;
      assert Live(st.slots[i]) && !SlotOk(hf, st.slots[i], pts');
    } else {
      forall i: nat | i < |st.slots| && Live(st.slots[i])
        ensures SlotOk(hf, st.slots[i], pts')
      {
        assert SlotOk(hf, st.slots[i], st.pts);
      }
    }
  }

  /** No point other than id has the key k. */
  ghost predicate FreeFor(pts: seq<Point>, id: nat, k: Key) {
    forall x: nat :: x < |pts| && x != id && Named(pts[x]) ==> KeyOf(pts[x]) != k
  }

  lemma OverwrittenPointsOk(pts: seq<Point>, id: nat, p: Point)
    requires PointsOk(pts) && id < |pts| && |p.name| <= NAME_MAX
    requires Named(p) ==> FreeFor(pts, id, KeyOf(p))
    ensures PointsOk(pts[id := p])
  {
  }

  lemma OverwrittenSameHash(hf: Hash, slots: seq<Slot>, pts: seq<Point>, id: nat, p: Point)
    requires Indexed(hf, slots, pts, {}) && id < |pts| && Named(p) && Named(pts[id])
    requires hf(KeyOf(pts[id])) == hf(KeyOf(p))
    ensures Indexed(hf, slots, pts[id := p], {})
  {
    forall i: nat | i < |slots| && Live(slots[i])
      ensures SlotOk(hf, slots[i], pts[id := p])
    {
      assert SlotOk(hf, slots[i], pts);
    }
  }

  /** The only slots that can match the new key of point id are its own. */
  lemma OnlyOwnSlotMatches(hf: Hash, st: Seg, id: nat, p: Point, j: nat)
    requires Inv(hf, st) && id < |st.pts| && |p.name| <= NAME_MAX && FreeFor(st.pts, id, KeyOf(p))
    requires j < |st.slots| && Matches(st.slots[j], st.pts[id := p], KeyOf(p), hf(KeyOf(p)))
    ensures st.slots[j].pid == id && Named(st.pts[id]) && hf(KeyOf(st.pts[id])) == hf(KeyOf(p))
  {
    assert SlotOk(hf, st.slots[j], st.pts);
  }

  lemma LoadFindsOwnSlot(hf: Hash, st: Seg, id: nat, p: Point) returns (j: nat)
    requires Inv(hf, st) && id < |st.pts| && |p.name| <= NAME_MAX && FreeFor(st.pts, id, KeyOf(p))
    requires Named(st.pts[id]) && hf(KeyOf(st.pts[id])) == hf(KeyOf(p))
    ensures j < |st.slots| && st.slots[j].pid == id
    ensures PlaceFrom(st.slots, st.pts[id := p], KeyOf(p), hf(KeyOf(p)), 0, None) == Refresh(j)
  {
    var k, pts' := KeyOf(p), st.pts[id := p];
    var own: nat :| own < |st.slots| && st.slots[own].pid == id;
    assert SlotOk(hf, st.slots[own], st.pts);
    assert Matches(st.slots[own], pts', k, hf(k));
    PlaceAgreesWithFind(st.slots, pts', k, hf(k), 0, None);
    FindIsExact(st.slots, pts', k, hf(k));
    j := FindFrom(st.slots, pts', k, hf(k), 0).value;
    OnlyOwnSlotMatches(hf, st, id, p, j);
  }

  lemma LoadTakesFreeSlot(hf: Hash, st: Seg, id: nat, p: Point) returns (i: nat)
    requires Inv(hf, st) && id < |st.pts| && |p.name| <= NAME_MAX && FreeFor(st.pts, id, KeyOf(p))
    requires Named(st.pts[id]) ==> hf(KeyOf(st.pts[id])) != hf(KeyOf(p))
    ensures i < |st.slots| && !Live(st.slots[i]) && Reaches(st.slots, Home(hf(KeyOf(p)), |st.slots|), i)
    ensures PlaceFrom(st.slots, st.pts[id := p], KeyOf(p), hf(KeyOf(p)), 0, None) == Put(i)
  {
    var k, pts' := KeyOf(p), st.pts[id := p];
    forall j: nat | j < |st.slots|
      ensures !Matches(st.slots[j], pts', k, hf(k))
    {
      if Matches(st.slots[j], pts', k, hf(k)) {
        OnlyOwnSlotMatches(hf, st, id, p, j);
      }
    }
    i := InsertionTakesFreeSlot(hf, st.slots, st.pts, k, pts');
  }

  /** A loaded key that no other point has: what insertion then does. */
  lemma LoadNewKey(hf: Hash, st: Seg, id: u32, p: Point)
    requires Inv(hf, st) && id < |st.pts| && Named(p) && |p.name| <= NAME_MAX && FreeFor(st.pts, id, KeyOf(p))
    ensures var (st', rc) := Insert(hf, st.(pts := st.pts[id := p]), KeyOf(p), id);
            && rc == OK
            && (Inv(hf, st') <==> (Named(st.pts[id]) ==> hf(KeyOf(st.pts[id])) == hf(KeyOf(p))))
  {
    var k, pts' := KeyOf(p), st.pts[id := p];
    assert pts'[id := pts'[id].(partition := k.partition)] == pts';
    OverwrittenPointsOk(st.pts, id, p);
    if Named(st.pts[id]) && hf(KeyOf(st.pts[id])) == hf(k) {
      var j := LoadFindsOwnSlot(hf, st, id, p);
      assert st.slots[j := st.slots[j].(pid := id)] == st.slots;
      OverwrittenSameHash(hf, st.slots, st.pts, id, p);
    } else {
      var i := LoadTakesFreeSlot(hf, st, id, p);
      var s := Slot(hf(k), id);
      if Named(st.pts[id]) {
        var j: nat :| j < |st.slots| && st.slots[j].pid == id;
        assert SlotOk(hf, st.slots[j], st.pts);
        assert !SlotOk(hf, st.slots[i := s][j], pts');
      } else {
        NewPointIndexed(hf, st.slots, st.pts, id, p, i);
        PutKeepsChained(st.slots, i, s);
        LiveSetPut(st.slots, i, s);
      }
    }
  }

  /** Exactly when loading one entry leaves the registry good. */
  lemma LoadKeepsInvIff(hf: Hash, st: Seg, id: u32, name: Name, ptype: byte, unit: nat, access: byte)
    requires Inv(hf, st)
    ensures Inv(hf, LoadOne(hf, st, id, name, ptype, unit, access).0) <==> LoadIsSafe(hf, st, id, name, ptype)
  {
    if id < |st.pts| && ptype <= TYPE_FLOAT {
      var p := st.pts[id].(ptype := ptype, unit := unit, access := access, partition := 0, name := Stored(name));
      var k := Key(0, Stored(name));
      var st' := LoadOne(hf, st, id, name, ptype, unit, access).0;
      if name == [] {
        LoadOverwritesUnnamed(hf, st, id, p);
      } else if x: nat :| x < |st.pts| && x != id && Named(st.pts[x]) && KeyOf(st.pts[x]) == k {
        assert st'.pts == st.pts[id := p];
        assert KeyOf(st'.pts[x]) == KeyOf(st'.pts[id]);
      } else {
        LoadNewKey(hf, st, id, p);
      }
    }
  }

  /** An entry as parsed; badValue marks a number that could not be read. */
  datatype ConfigEntry = ConfigEntry(id: u32, name: Name, ptype: byte, unit: nat, access: byte, badValue: bool)

  /** Entries with an id out of range or an unknown type are passed over. */
  predicate Effective(e: ConfigEntry, max: nat) {
    e.id < max && e.ptype <= TYPE_FLOAT
  }

  /** indurtdb_h_load_config.  The meta data it also writes are not part of the
   *  registry. */
  function LoadConfig(hf: Hash, st: Seg, entries: seq<ConfigEntry>): (r: (Seg, Code))
    requires |st.slots| > 0
    decreases |entries|
  {
    if entries == [] then (st, OK)
    else
      var e := entries[0];
      if Effective(e, |st.pts|) && e.badValue then (st, ERR_ARG)
      else
        var (st', rc) := LoadOne(hf, st, e.id, e.name, e.ptype, e.unit, e.access);
        if rc == ERR_FULL then (st', ERR_FULL) else LoadConfig(hf, st', entries[1..])
  }

  /** Every slot is live and none answers a search for the key. */
  ghost predicate NoRoomFor(hf: Hash, slots: seq<Slot>, pts: seq<Point>, key: Key) {
    forall i: nat :: i < |slots| ==> Live(slots[i]) && !Matches(slots[i], pts, key, hf(key))
  }

  lemma NoRoomIff(hf: Hash, slots: seq<Slot>, pts: seq<Point>, key: Key)
    requires |slots| > 0
    ensures PlaceFrom(slots, pts, key, hf(key), 0, None).NoRoom? <==> NoRoomFor(hf, slots, pts, key)
  {
    PlaceIsReachable(slots, pts, key, hf(key), 0, None);
    PlaceAgreesWithFind(slots, pts, key, hf(key), 0, None);
    if PlaceFrom(slots, pts, key, hf(key), 0, None).NoRoom? {
      forall i: nat | i < |slots|
        ensures Live(slots[i]) && !Matches(slots[i], pts, key, hf(key))
      {
        NoRoomMeansAllLive(slots, pts, key, hf(key), i);
        forall d: nat | d < |slots|
          ensures Live(slots[At(|slots|, Home(hf(key), |slots|), d)])
        {
          NoRoomMeansAllLive(slots, pts, key, hf(key), At(|slots|, Home(hf(key), |slots|), d));
        }
        NotFoundMeansNoMatch(slots, pts, key, hf(key), 0, i);
      }
    }
  }

  /** How a configuration load ends: an effective entry with an unreadable number
   *  ends it before anything of it is loaded, and one that finds no room in the
   *  index after its point is written; entries with an id out of range or an
   *  unknown type are passed over; otherwise the rest follows. */
  lemma ConfigStops(hf: Hash, st: Seg, entries: seq<ConfigEntry>)
    requires |st.slots| > 0 && entries != []
    ensures var e := entries[0];
            var key := Key(0, if |e.name| <= 63 then e.name else e.name[..63]);
            var (st1, _) := LoadOne(hf, st, e.id, e.name, e.ptype, e.unit, e.access);
            LoadConfig(hf, st, entries)
            == if e.id >= |st.pts| || e.ptype > 6 then LoadConfig(hf, st, entries[1..])
               else if e.badValue then (st, ERR_ARG)
               else if e.name != [] && NoRoomFor(hf, st.slots, st1.pts, key) then (st1, ERR_FULL)
               else LoadConfig(hf, st1, entries[1..])
  {
    var e := entries[0];
    if e.id < |st.pts| && e.ptype <= TYPE_FLOAT && e.name != [] {
      var key := Key(0, Stored(e.name));
      var p := st.pts[e.id].(ptype := e.ptype, unit := e.unit, access := e.access, partition := 0, name := Stored(e.name));
      var pts' := st.pts[e.id := p];
      assert pts'[e.id := pts'[e.id].(partition := 0)] == pts';
      NoRoomIff(hf, st.slots, pts', key);
    }
  }

  ghost predicate DistinctEntries(entries: seq<ConfigEntry>) {
    && (forall i :: 0 <= i < |entries| ==> entries[i].name != [])
    && (forall i, j :: 0 <= i < j < |entries| ==>
          entries[i].id != entries[j].id && Stored(entries[i].name) != Stored(entries[j].name))
  }

  /** The entry's point is still unnamed and its key unused. */
  ghost predicate Untouched(pts: seq<Point>, e: ConfigEntry) {
    e.id < |pts| ==> !Named(pts[e.id]) && FreeFor(pts, e.id, Key(0, Stored(e.name)))
  }

  lemma LoadTouchesOnlyItsPoint(hf: Hash, st: Seg, e: ConfigEntry, x: nat)
    requires |st.slots| > 0 && x < |st.pts|
    ensures var pts' := LoadOne(hf, st, e.id, e.name, e.ptype, e.unit, e.access).0.pts;
            && (x != e.id ==> pts'[x] == st.pts[x])
            && (x == e.id ==> pts'[x] == st.pts[x] || KeyOf(pts'[x]) == Key(0, Stored(e.name)))
            && pts'[x].value == st.pts[x].value && pts'[x].quality == st.pts[x].quality
  {
  }

  lemma StaysUntouched(hf: Hash, st: Seg, e: ConfigEntry, later: ConfigEntry)
    requires |st.slots| > 0 && Untouched(st.pts, e) && Untouched(st.pts, later)
    requires e.id != later.id && Stored(e.name) != Stored(later.name)
    ensures Untouched(LoadOne(hf, st, e.id, e.name, e.ptype, e.unit, e.access).0.pts, later)
  {
    forall x: nat | x < |st.pts|
      ensures var pts' := LoadOne(hf, st, e.id, e.name, e.ptype, e.unit, e.access).0.pts;
              pts'[x] == st.pts[x] || (x == e.id && KeyOf(pts'[x]) == Key(0, Stored(e.name)))
    {
      LoadTouchesOnlyItsPoint(hf, st, e, x);
    }
  }

  /** The point is what its entry says, in partition 0. */
  ghost predicate Loaded(pts: seq<Point>, e: ConfigEntry) {
    e.id < |pts| && e.ptype <= 6 ==>
      var p := pts[e.id];
      && p.ptype == e.ptype && p.unit == e.unit && p.access == e.access && p.partition == 0
      && p.name == (if |e.name| <= 63 then e.name else e.name[..63])
  }

  lemma LoadOneLoads(hf: Hash, st: Seg, e: ConfigEntry)
    requires Inv(hf, st) && e.name != [] && Untouched(st.pts, e)
    ensures var (st', rc) := LoadOne(hf, st, e.id, e.name, e.ptype, e.unit, e.access);
            Inv(hf, st') && rc == OK && Loaded(st'.pts, e)
  {
    LoadKeepsInvIff(hf, st, e.id, e.name, e.ptype, e.unit, e.access);
    if Effective(e, |st.pts|) {
      var p := st.pts[e.id].(ptype := e.ptype, unit := e.unit, access := e.access, partition := 0, name := Stored(e.name));
      NeverFull(hf, st.slots, st.pts, {}, Key(0, Stored(e.name)), st.pts[e.id := p]);
      assert st.pts[e.id := p][e.id := p.(partition := 0)] == st.pts[e.id := p];
    }
  }

  lemma {:induction false} LaterLoadsKeep(hf: Hash, st: Seg, e: ConfigEntry, entries: seq<ConfigEntry>)
    requires |st.slots| > 0 && Loaded(st.pts, e) && forall i :: 0 <= i < |entries| ==> entries[i].id != e.id
    ensures Loaded(LoadConfig(hf, st, entries).0.pts, e)
    decreases |entries|
  {
    if entries != [] {
      var f := entries[0];
      if e.id < |st.pts| {
        LoadTouchesOnlyItsPoint(hf, st, f, e.id);
      }
      LaterLoadsKeep(hf, LoadOne(hf, st, f.id, f.name, f.ptype, f.unit, f.access).0, e, entries[1..]);
    }
  }

  /** A configuration with distinct ids and distinct names, loaded over
   *  unnamed points, gives a good registry.  It is accepted iff no effective
   *  entry has an unreadable number, and then all effective entries are there. */
  lemma {:induction false} DistinctConfigLoads(hf: Hash, st: Seg, entries: seq<ConfigEntry>)
    requires Inv(hf, st) && DistinctEntries(entries)
    requires forall i :: 0 <= i < |entries| ==> Untouched(st.pts, entries[i])
    ensures var (st', rc) := LoadConfig(hf, st, entries);
            && Inv(hf, st') && |st'.pts| == |st.pts|
            && (rc == OK || rc == ERR_ARG)
            && (rc == OK <==> forall i :: 0 <= i < |entries| && Effective(entries[i], |st.pts|) ==> !entries[i].badValue)
            && (rc == OK ==> forall i :: 0 <= i < |entries| ==> Loaded(st'.pts, entries[i]))
    decreases |entries|
  {
    if entries != [] {
      var e := entries[0];
      var (st', rc) := LoadOne(hf, st, e.id, e.name, e.ptype, e.unit, e.access);
      LoadOneLoads(hf, st, e);
      forall i | 0 <= i < |entries[1..]|
        ensures Untouched(st'.pts, entries[1..][i])
      {
        StaysUntouched(hf, st, e, entries[i + 1]);
      }
      DistinctConfigLoads(hf, st', entries[1..]);
      LaterLoadsKeep(hf, st', e, entries[1..]);
      assert forall i :: 0 < i < |entries| ==> entries[i] == entries[1..][i - 1];
    }
  }

  // ---- What the invariant gives in every reachable state ----

  lemma FreshRegistryInv(hf: Hash, maxPoints: u32, blank: Point)
    requires maxPoints < 0x8000_0000 && !Named(blank)
    ensures Inv(hf, Seg(seq(Buckets(maxPoints), _ => Slot(0xFFFF_FFFF, EMPTY)), seq(maxPoints, _ => blank), 0))
  {
    BucketsLeastPowerOfTwo(maxPoints);
    var slots := seq(Buckets(maxPoints), _ => Slot(0xFFFF_FFFF, EMPTY));
    assert LiveSet(slots) == {};
  }

  /** Insertion finds room in every good state, for every key and id. */
  lemma IndexNeverFull(hf: Hash, st: Seg, key: Key, id: u32)
    requires Inv(hf, st)
    ensures Insert(hf, st, key, id).1 != ERR_FULL
  {
    if key.name != [] && id < |st.pts| {
      NeverFull(hf, st.slots, st.pts, {}, key, st.pts[id := st.pts[id].(partition := key.partition)]);
    }
  }

  /** Every named point has exactly one live slot; it carries the hash of the
   *  point's key and no EMPTY slot precedes it on the key's probe sequence. */
  lemma ExactlyOneReachableSlot(hf: Hash, st: Seg, id: nat)
    requires Inv(hf, st) && id < |st.pts| && Named(st.pts[id])
    ensures exists i: nat ::
              && i < |st.slots| && st.slots[i] == Slot(hf(KeyOf(st.pts[id])), id)
              && Reaches(st.slots, Home(hf(KeyOf(st.pts[id])), |st.slots|), i)
              && forall j: nat :: j < |st.slots| && st.slots[j].pid == id ==> j == i
  {
    var i: nat :| i < |st.slots| && st.slots[i].pid == id;
    assert SlotOk(hf, st.slots[i], st.pts);
    assert st.slots[i] == Slot(hf(KeyOf(st.pts[id])), id);
    assert Reaches(st.slots, Home(hf(KeyOf(st.pts[id])), |st.slots|), i);
  }

  ghost function PidsOf(slots: seq<Slot>, live: set<nat>): set<u32>
    requires forall i :: i in live ==> i < |slots|
  {
    set i | i in live :: slots[i].pid
  }

  lemma {:induction false} DistinctPidsCount(slots: seq<Slot>, live: set<nat>)
    requires forall i :: i in live ==> i < |slots|
    requires forall i, j :: i in live && j in live && i != j ==> slots[i].pid != slots[j].pid
    ensures |PidsOf(slots, live)| == |live|
    decreases |live|
  {
    if i :| i in live {
      DistinctPidsCount(slots, live - {i});
      assert PidsOf(slots, live) == PidsOf(slots, live - {i}) + {slots[i].pid};
    } else {
      assert PidsOf(slots, live) == {};
    }
  }

  lemma PidsAreRegistered(hf: Hash, st: Seg)
    requires Inv(hf, st)
    ensures PidsOf(st.slots, LiveSet(st.slots)) == Abs(st.pts).Keys
  {
    forall id: u32
      ensures id in PidsOf(st.slots, LiveSet(st.slots)) <==> id in Abs(st.pts).Keys
    {
      if id < |st.pts| && Named(st.pts[id]) {
        var i: nat :| i < |st.slots| && st.slots[i].pid == id;
        assert i in LiveSet(st.slots);
      } else if i: nat :| i in LiveSet(st.slots) && st.slots[i].pid == id {
        assert SlotOk(hf, st.slots[i], st.pts);
      }
    }
  }

  /** index_count is the number of registered points. */
  lemma CountIsRegistered(hf: Hash, st: Seg)
    requires Inv(hf, st)
    ensures st.count == |Abs(st.pts)|
  {
    DistinctPidsCount(st.slots, LiveSet(st.slots));
    PidsAreRegistered(hf, st);
    assert |Abs(st.pts)| == |Abs(st.pts).Keys|;
  }

  lemma InvIsInjective(hf: Hash, st: Seg)
    requires Inv(hf, st)
    ensures Injective(Abs(st.pts))
  {
  }

  // ---- Refinement of the map ----

  lemma AbsUpdated(pts: seq<Point>, id: u32, p: Point)
    requires id < |pts| < TOMBSTONE
    ensures Abs(pts[id := p]) == if Named(p) then Abs(pts)[id := Entry(KeyOf(p), p.ptype, p.access)] else Abs(pts) - {id}
  {
  }

  /** A search for a key that fits answers exactly what the map says. */
  lemma LookupRefines(hf: Hash, st: Seg, key: Key)
    requires Inv(hf, st) && NameFits(key)
    ensures Lookup(hf, st, key) ==
              if key.name == [] then (None, ERR_ARG)
              else (Find(Abs(st.pts), key), if Find(Abs(st.pts), key).Some? then OK else ERR_NOT_FOUND)
  {
    SearchIsExact(hf, st.slots, st.pts, {}, key);
    var f := FindFrom(st.slots, st.pts, key, hf(key), 0);
    var m := Abs(st.pts);
    if key.name != [] && f.Some? {
      assert Carries(m, st.slots[f.value].pid, key);
    } else if key.name != [] {
      forall id: u32
        ensures !Carries(m, id, key)
      {
        assert id < |st.pts| ==> !Hit(hf, st.pts, id, key);
      }
    }
  }

  lemma ConflictIsFound(m: Map, key: Key, id: u32)
    requires Injective(m)
    ensures (exists other: u32 :: other != id && Carries(m, other, key))
            <==> Find(m, key).Some? && Find(m, key).value != id
  {
    if Find(m, key).Some? {
      assert Carries(m, Find(m, key).value, key);
    }
  }

  lemma NoHitForNewKey(hf: Hash, st: Seg, key: Key)
    requires Inv(hf, st) && NameFits(key) && Find(Abs(st.pts), key).None?
    ensures forall x: nat :: x < |st.pts| ==> !Hit(hf, st.pts, x, key)
  {
    forall x: nat | x < |st.pts|
      ensures !Hit(hf, st.pts, x, key)
    {
      assert !Carries(Abs(st.pts), x, key);
    }
  }

  lemma CreateRegisters(hf: Hash, st: Seg, key: Key, id: u32, ptype: int, access: int)
    requires Inv(hf, st) && NameFits(key) && CreateArgsOk(st, key, id, ptype, access)
    requires !Named(st.pts[id]) && Find(Abs(st.pts), key).None?
    ensures var (st', rc) := Create(hf, st, key, id, ptype, access);
            rc == OK && Abs(st'.pts) == Abs(st.pts)[id := Entry(key, ptype, access)]
  {
    NoHitForNewKey(hf, st, key);
    var i := CreateStep(hf, st, key, id, ptype, access);
    AbsUpdated(st.pts, id, Registered(st.pts[id], key, ptype, access));
  }

  lemma CreateRefines(hf: Hash, st: Seg, key: Key, id: u32, ptype: int, access: int)
    requires Inv(hf, st) && NameFits(key)
    ensures var (st', rc) := Create(hf, st, key, id, ptype, access);
            Inv(hf, st') && (Abs(st'.pts), rc) == SpecCreate(Abs(st.pts), |st.pts|, key, id, ptype, access)
  {
    CreateKeepsInvIff(hf, st, key, id, ptype, access);
    if CreateArgsOk(st, key, id, ptype, access) {
      LookupRefines(hf, st, key);
      InvIsInjective(hf, st);
      ConflictIsFound(Abs(st.pts), key, id);
      if !Named(st.pts[id]) && Find(Abs(st.pts), key).None? {
        CreateRegisters(hf, st, key, id, ptype, access);
      }
    }
  }

  lemma DeleteRefines(hf: Hash, st: Seg, partition: u32, id: u32)
    requires Inv(hf, st)
    ensures var (st', rc) := Delete(hf, st, partition, id);
            Inv(hf, st') && (Abs(st'.pts), rc) == SpecDelete(Abs(st.pts), |st.pts|, partition, id)
  {
    DeleteKeepsInv(hf, st, partition, id);
    if id < |st.pts| {
      AbsUpdated(st.pts, id, st.pts[id].(name := []));
    }
  }

  lemma RenameRefines(hf: Hash, st: Seg, key: Key, id: u32)
    requires Inv(hf, st) && NameFits(key)
    ensures var (st', rc) := Rename(hf, st, key, id);
            Inv(hf, st') && (Abs(st'.pts), rc) == SpecRename(Abs(st.pts), |st.pts|, key, id)
  {
    RenameKeepsInv(hf, st, key, id);
    var m := Abs(st.pts);
    if key.name != [] && id < |st.pts| {
      LookupRefines(hf, st, key);
      InvIsInjective(hf, st);
      ConflictIsFound(m, key, id);
      IndexNeverFull(hf, st, key, id);
      AbsUpdated(st.pts, id, st.pts[id].(name := key.name));
    }
  }

  /** A value write is refused to a read-only point only; it sets value, quality
   *  and type, and touches no other point. */
  lemma WriteStores(st: Seg, id: u32, ptype: byte, value: seq<byte>, quality: byte)
    ensures var (st', rc) := Write(st, id, ptype, value, quality);
            && rc == (if id >= |st.pts| then ERR_ARG else if st.pts[id].access == 1 then ERR_READ_ONLY else OK)
            && (rc != OK ==> st' == st)
            && (rc == OK ==>
                  && st'.slots == st.slots && st'.count == st.count
                  && st'.pts[id].value == value && st'.pts[id].quality == quality && st'.pts[id].ptype == ptype
                  && st'.pts[id] == st.pts[id].(value := value, quality := quality, ptype := ptype)
                  && forall x: nat :: x < |st.pts| && x != id ==> st'.pts[x] == st.pts[x])
  {
  }

  lemma WriteRefines(hf: Hash, st: Seg, id: u32, ptype: byte, value: seq<byte>, quality: byte)
    requires Inv(hf, st)
    ensures var (st', rc) := Write(st, id, ptype, value, quality);
            && Inv(hf, st')
            && Abs(st'.pts) == if rc == OK && id in Abs(st.pts)
                               then Abs(st.pts)[id := Abs(st.pts)[id].(ptype := ptype)] else Abs(st.pts)
  {
    if id < |st.pts| && st.pts[id].access != READ_ONLY {
      var p := st.pts[id].(ptype := ptype, value := value, quality := quality);
      AbsUpdated(st.pts, id, p);
      forall i: nat | i < |st.slots| && Live(st.slots[i])
        ensures SlotOk(hf, st.slots[i], st.pts[id := p])
      {
        assert SlotOk(hf, st.slots[i], st.pts);
      }
    }
  }

  // ---- Runs ----

  datatype Command =
    | CreateCmd(key: Key, id: u32, ptype: int, access: int)
    | DeleteCmd(partition: u32, id: u32)
    | RenameCmd(key: Key, id: u32)
    | FindCmd(key: Key)
    | WriteCmd(id: u32, valueType: byte, value: seq<byte>, quality: byte)

  datatype Reply = Reply(code: Code, found: Option<u32>)

  function Step(hf: Hash, st: Seg, c: Command): (r: (Seg, Reply))
    requires |st.slots| > 0
    ensures |r.0.slots| == |st.slots| && |r.0.pts| == |st.pts|
  {
    match c
    case CreateCmd(key, id, ptype, access) =>
      var (st', rc) := Create(hf, st, key, id, ptype, access); (st', Reply(rc, None))
    case DeleteCmd(partition, id) =>
      var (st', rc) := Delete(hf, st, partition, id); (st', Reply(rc, None))
    case RenameCmd(key, id) =>
      var (st', rc) := Rename(hf, st, key, id); (st', Reply(rc, None))
    case FindCmd(key) =>
      var (found, rc) := Lookup(hf, st, key); (st, Reply(rc, found))
    case WriteCmd(id, valueType, value, quality) =>
      var (st', rc) := Write(st, id, valueType, value, quality); (st', Reply(rc, None))
  }

  function Run(hf: Hash, st: Seg, cmds: seq<Command>): (r: (Seg, seq<Reply>))
    requires |st.slots| > 0
    ensures |r.0.slots| == |st.slots| && |r.0.pts| == |st.pts|
    decreases |cmds|
  {
    if cmds == [] then (st, [])
    else
      var (st1, reply) := Step(hf, st, cmds[0]);
      var (st2, replies) := Run(hf, st1, cmds[1..]);
      (st2, [reply] + replies)
  }

  /** The same commands on a plain map.  Whether a value write to an
   *  unregistered point is refused depends on what its cell held before; the
   *  map does not know and its reply there stands for either. */
  ghost function SpecStep(m: Map, max: nat, c: Command): (Map, Reply) {
    match c
    case CreateCmd(key, id, ptype, access) =>
      var (m', rc) := SpecCreate(m, max, key, id, ptype, access); (m', Reply(rc, None))
    case DeleteCmd(partition, id) =>
      var (m', rc) := SpecDelete(m, max, partition, id); (m', Reply(rc, None))
    case RenameCmd(key, id) =>
      var (m', rc) := SpecRename(m, max, key, id); (m', Reply(rc, None))
    case FindCmd(key) =>
      if key.name == [] then (m, Reply(ERR_ARG, None))
      else (m, Reply(if Find(m, key).Some? then OK else ERR_NOT_FOUND, Find(m, key)))
    case WriteCmd(id, valueType, _, _) =>
      if id !in m then (m, Reply(OK, None))
      else if m[id].access == 1 then (m, Reply(ERR_READ_ONLY, None))
      else (m[id := m[id].(ptype := valueType)], Reply(OK, None))
  }

  predicate NamesFit(c: Command) {
    c.CreateCmd? || c.RenameCmd? || c.FindCmd? ==> NameFits(c.key)
  }

  ghost function SpecRun(m: Map, max: nat, cmds: seq<Command>): (r: (Map, seq<Reply>))
    ensures |r.1| == |cmds|
    decreases |cmds|
  {
    if cmds == [] then (m, [])
    else
      var (m1, reply) := SpecStep(m, max, cmds[0]);
      var (m2, replies) := SpecRun(m1, max, cmds[1..]);
      (m2, [reply] + replies)
  }

  lemma StepRefines(hf: Hash, st: Seg, c: Command)
    requires Inv(hf, st) && NamesFit(c)
    ensures var (st', reply) := Step(hf, st, c);
            var (m', answer) := SpecStep(Abs(st.pts), |st.pts|, c);
            && Inv(hf, st') && Abs(st'.pts) == m'
            && (reply == answer || (c.WriteCmd? && c.id !in Abs(st.pts)))
  {
    match c {
      case CreateCmd(key, id, ptype, access) => CreateRefines(hf, st, key, id, ptype, access);
      case DeleteCmd(partition, id) => DeleteRefines(hf, st, partition, id);
      case RenameCmd(key, id) => RenameRefines(hf, st, key, id);
      case FindCmd(key) => LookupRefines(hf, st, key);
      case WriteCmd(id, valueType, value, quality) => WriteRefines(hf, st, id, valueType, value, quality);
    }
  }

  /** Over every run from a good state the table and the points refine the map:
   *  the invariant is kept, the final map and all answers are the map's. */
  lemma {:induction false} RunRefines(hf: Hash, st: Seg, cmds: seq<Command>)
    requires Inv(hf, st) && forall k :: 0 <= k < |cmds| ==> NamesFit(cmds[k])
    ensures var (st', replies) := Run(hf, st, cmds);
            var (m', answers) := SpecRun(Abs(st.pts), |st.pts|, cmds);
            && Inv(hf, st') && Abs(st'.pts) == m' && |replies| == |cmds|
            && forall k :: 0 <= k < |cmds| && !cmds[k].WriteCmd? ==> replies[k] == answers[k]
    decreases |cmds|
  {
    if cmds != [] {
      StepRefines(hf, st, cmds[0]);
      RunRefines(hf, Step(hf, st, cmds[0]).0, cmds[1..]);
    }
  }

  // ---- The operations on the segment in memory ----

  method CreatePointIn(s: Segment, partition: u32, id: u32, name: Name, ptype: int, access: int) returns (rc: Code)
    requires s.Valid()
    modifies s`count, s.slots, s.pts
    ensures s.Valid()
    ensures (s.View(), rc) == Create(s.hf, old(s.View()), Key(partition, name), id, ptype, access)
  {
    var key := Key(partition, name);
    if name == [] || !(0 <= ptype <= TYPE_FLOAT) || (access != READ_ONLY && access != READ_WRITE) || id >= s.pts.Length {
      return ERR_ARG;
    }
    var exist, _ := s.IndexLookup(key);
    if exist.Some? && exist.value != id {
      return ERR_ARG;
    }
    if s.pts[id].name != [] {
      return ERR_FULL;
    }
    s.pts[id] := Registered(s.pts[id], key, ptype, access);
    rc := s.InsertLocked(key, id);
    if rc != OK {
      s.pts[id] := s.pts[id].(name := []);
    }
  }

  method DeletePointIn(s: Segment, partition: u32, id: u32) returns (rc: Code)
    requires s.Valid()
    modifies s`count, s.slots, s.pts
    ensures s.Valid()
    ensures (s.View(), rc) == Delete(s.hf, old(s.View()), partition, id)
  {
    if id >= s.pts.Length {
      return ERR_ARG;
    }
    if s.pts[id].name == [] || s.pts[id].partition != partition {
      return ERR_NOT_FOUND;
    }
    // The slot is removed while the point still has its name: the removal
    // compares against the point array.
    var _ := s.RemoveLocked(KeyOf(s.pts[id]));
    s.pts[id] := s.pts[id].(name := []);
    rc := OK;
  }

  method RenamePointIn(s: Segment, partition: u32, id: u32, name: Name) returns (rc: Code)
    requires s.Valid()
    modifies s`count, s.slots, s.pts
    ensures s.Valid()
    ensures (s.View(), rc) == Rename(s.hf, old(s.View()), Key(partition, name), id)
  {
    var key := Key(partition, name);
    if name == [] || id >= s.pts.Length {
      return ERR_ARG;
    }
    var exist, _ := s.IndexLookup(key);
    if exist.Some? && exist.value != id {
      return ERR_ARG;
    }
    if s.pts[id].name == [] || s.pts[id].partition != partition {
      return ERR_NOT_FOUND;
    }
    if s.pts[id].name == name {
      return OK;
    }
    rc := s.InsertLocked(key, id);
    if rc != OK {
      return ERR_FULL;
    }
    var _ := s.RemoveLocked(Key(partition, s.pts[id].name));
    s.pts[id] := s.pts[id].(name := Stored(name));
  }

  method FindByNameIn(s: Segment, partition: u32, name: Name) returns (id: Option<u32>, rc: Code)
    requires s.Valid()
    ensures (id, rc) == Lookup(s.hf, s.View(), Key(partition, name))
  {
    id, rc := s.IndexLookup(Key(partition, name));
  }
}
