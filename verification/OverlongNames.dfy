/** What names longer than 63 bytes do to the registry, as a caller sees it, and
 *  names at which it happens (src/api/indurtdb.c:559-560 and 572-727,
 *  src/core/irt_index.c:71-107).
 *
 * The name is hashed whole, stored and compared cut to 63 bytes.
 */
module OverlongNames {
  import opened Common
  import opened Layout
  import opened NameIndex
  import opened Registry
  import opened KeyHash

  /** The key under which the point is listed. */
  function Cut(key: Key): Key {
    Key(key.partition, Stored(key.name))
  }

  // ---- One creation ----

  /** A point created under a name whose hash changes by the cut is found under
   *  the name given, but not under the one it is listed by: that search answers
   *  what it answered before. */
  lemma ListedNameIsNotFound(hf: Hash, st: Seg, key: Key, id: u32, ptype: int, access: int)
    requires Inv(hf, st) && Create(hf, st, key, id, ptype, access).1 == OK && hf(key) != hf(Cut(key))
    ensures var st' := Create(hf, st, key, id, ptype, access).0;
            && Lookup(hf, st', key) == (Some(id), OK)
            && Lookup(hf, st', Cut(key)) == Lookup(hf, st, Cut(key))
  {
    SearchIsExact(hf, st.slots, st.pts, {}, key);
    assert forall x: nat :: x < |st.pts| ==> !Hit(hf, st.pts, x, key);
    var i := CreateStep(hf, st, key, id, ptype, access);
    var st' := Create(hf, st, key, id, ptype, access).0;
    PutKeepsChained(st.slots, i, Slot(hf(key), id));
    forall j: nat | j < |st.slots|
      ensures Matches(st'.slots[j], st'.pts, key, hf(key)) <==> j == i
      ensures Matches(st'.slots[j], st'.pts, Cut(key), hf(Cut(key))) <==> Matches(st.slots[j], st.pts, Cut(key), hf(Cut(key)))
    {
      if j != i && Live(st.slots[j]) {
        assert SlotOk(hf, st.slots[j], st.pts);
        MatchIsHit(hf, st.slots, st.pts, {}, key, j);
      }
    }
    FindIsExact(st'.slots, st'.pts, key, hf(key));
    FindIsExact(st.slots, st.pts, Cut(key), hf(Cut(key)));
    FindIsExact(st'.slots, st'.pts, Cut(key), hf(Cut(key)));
    OneMatch(hf, st, Cut(key));
  }

  lemma OneMatch(hf: Hash, st: Seg, key: Key)
    requires Inv(hf, st)
    ensures forall i: nat, j: nat ::
              (i < |st.slots| && j < |st.slots|
               && Matches(st.slots[i], st.pts, key, hf(key)) && Matches(st.slots[j], st.pts, key, hf(key))) ==> i == j
  {
    forall i: nat, j: nat | i < |st.slots| && j < |st.slots|
      && Matches(st.slots[i], st.pts, key, hf(key)) && Matches(st.slots[j], st.pts, key, hf(key))
      ensures i == j
    {
      MatchIsHit(hf, st.slots, st.pts, {}, key, i);
      MatchIsHit(hf, st.slots, st.pts, {}, key, j);
      var a: nat, b: nat := st.slots[i].pid, st.slots[j].pid;
      assert KeyOf(st.pts[a]) == KeyOf(st.pts[b]);
    }
  }

  // ---- Creating and deleting again ----

  /** Point id is free and no point is listed under cut; its slots that were
   *  left behind carry the used hashes. */
  ghost predicate Leaky(hf: Hash, st: Seg, id: u32, cut: Key, used: set<u32>) {
    && |st.slots| > 0 && id < |st.pts| < TOMBSTONE && !Named(st.pts[id])
    && 0 < |cut.name| <= NAME_MAX && hf(cut) !in used
    && (forall x: nat :: x < |st.pts| && Named(st.pts[x]) ==> Cut(KeyOf(st.pts[x])) != cut)
    && (forall i: nat :: i < |st.slots| && Live(st.slots[i]) && st.slots[i].pid == id ==> st.slots[i].hash in used)
  }

  lemma GoodIsLeaky(hf: Hash, st: Seg, id: u32, cut: Key)
    requires Inv(hf, st) && id < |st.pts| && !Named(st.pts[id]) && 0 < |cut.name| <= NAME_MAX
    requires Find(Abs(st.pts), cut).None?
    ensures Leaky(hf, st, id, cut, {})
  {
    forall x: nat | x < |st.pts| && Named(st.pts[x])
      ensures Cut(KeyOf(st.pts[x])) != cut
    {
      assert !Carries(Abs(st.pts), x, cut);
    }
    forall i: nat | i < |st.slots| && Live(st.slots[i])
      ensures st.slots[i].pid != id
    {
      assert SlotOk(hf, st.slots[i], st.pts);
    }
  }

  /** The key is cut to `cut` and its hash is a new one. */
  predicate NewLongName(hf: Hash, key: Key, cut: Key, used: set<u32>) {
    key.name != [] && Cut(key) == cut && hf(key) != hf(cut) && hf(key) !in used
  }

  function Cycle(hf: Hash, st: Seg, key: Key, id: u32, ptype: int, access: int): (st': Seg)
    requires |st.slots| > 0
    ensures |st'.slots| == |st.slots| && |st'.pts| == |st.pts|
  {
    Delete(hf, Create(hf, st, key, id, ptype, access).0, key.partition, id).0
  }

  /** Creation under a long name with a new hash takes a slot that is not live,
   *  and is refused as FULL once all are. */
  lemma LongCreate(hf: Hash, st: Seg, id: u32, cut: Key, used: set<u32>, key: Key, ptype: int, access: int) returns (i: nat)
    requires Leaky(hf, st, id, cut, used) && NewLongName(hf, key, cut, used)
    requires CreateArgsOk(st, key, id, ptype, access)
    ensures |LiveSet(st.slots)| == |st.slots| ==> Create(hf, st, key, id, ptype, access).1 == ERR_FULL
    ensures |LiveSet(st.slots)| != |st.slots| ==>
              && i < |st.slots| && !Live(st.slots[i])
              && Create(hf, st, key, id, ptype, access)
                 == (Seg(st.slots[i := Slot(hf(key), id)],
                         st.pts[id := Registered(st.pts[id], key, ptype, access)], st.count + 1), OK)
  {
    var pts' := st.pts[id := Registered(st.pts[id], key, ptype, access)];
    assert pts'[id := pts'[id].(partition := key.partition)] == pts';
    NothingMatches(hf, st.slots, st.pts, id, cut, used, key);
    NothingMatches(hf, st.slots, pts', id, cut, used, key);
    PlaceAgreesWithFind(st.slots, pts', key, hf(key), 0, None);
    PlaceIsReachable(st.slots, pts', key, hf(key), 0, None);
    var r := PlaceFrom(st.slots, pts', key, hf(key), 0, None);
    if r.NoRoom? {
      forall j: nat | j < |st.slots|
        ensures Live(st.slots[j])
      {
        NoRoomMeansAllLive(st.slots, pts', key, hf(key), j);
      }
      AllLiveMeansFull(st.slots);
      i := 0;
    } else {
      i := r.i;
      NotAllLive(st.slots, i);
    }
  }

  /** Deleting the point again clears its name but leaves its slot. */
  lemma LongDelete(hf: Hash, st: Seg, id: u32, cut: Key, used: set<u32>, key: Key, p: Point, i: nat)
    requires Leaky(hf, st, id, cut, used) && NewLongName(hf, key, cut, used)
    requires i < |st.slots| && !Live(st.slots[i]) && KeyOf(p) == cut
    ensures var st1 := Seg(st.slots[i := Slot(hf(key), id)], st.pts[id := p], st.count + 1);
            var st2 := Seg(st1.slots, st.pts[id := p.(name := [])], st.count + 1);
            && Delete(hf, st1, key.partition, id) == (st2, OK)
            && Leaky(hf, st2, id, cut, used + {hf(key)})
            && |LiveSet(st2.slots)| == |LiveSet(st.slots)| + 1
            && SameNames(st.pts, st2.pts)
  {
    var slots', pts' := st.slots[i := Slot(hf(key), id)], st.pts[id := p];
    LiveSetPut(st.slots, i, Slot(hf(key), id));
    NothingMatches(hf, slots', pts', id, cut, used + {hf(key)}, cut);
    assert pts'[id := p.(name := [])] == st.pts[id := p.(name := [])];
  }

  /** Creating under a long name with a new hash and deleting the point leaves
   *  one more live slot, which belongs to no point; and all names as they were. */
  lemma CycleLeaks(hf: Hash, st: Seg, id: u32, cut: Key, used: set<u32>, key: Key, ptype: int, access: int)
    requires Leaky(hf, st, id, cut, used) && NewLongName(hf, key, cut, used)
    requires CreateArgsOk(st, key, id, ptype, access) && |LiveSet(st.slots)| != |st.slots|
    ensures var (st1, rc) := Create(hf, st, key, id, ptype, access);
            var st2 := Cycle(hf, st, key, id, ptype, access);
            && rc == OK && Delete(hf, st1, key.partition, id).1 == OK
            && Leaky(hf, st2, id, cut, used + {hf(key)})
            && |LiveSet(st2.slots)| == |LiveSet(st.slots)| + 1 && SameNames(st.pts, st2.pts)
  {
    var i := LongCreate(hf, st, id, cut, used, key, ptype, access);
    LongDelete(hf, st, id, cut, used, key, Registered(st.pts[id], key, ptype, access), i);
  }

  function Cycles(hf: Hash, st: Seg, keys: seq<Key>, id: u32, ptype: int, access: int): (st': Seg)
    requires |st.slots| > 0
    ensures |st'.slots| == |st.slots| && |st'.pts| == |st.pts|
    decreases |keys|
  {
    if keys == [] then st else Cycles(hf, Cycle(hf, st, keys[0], id, ptype, access), keys[1..], id, ptype, access)
  }

  /** Long names that are cut alike and have different hashes. */
  ghost predicate NewLongNames(hf: Hash, keys: seq<Key>, cut: Key, used: set<u32>) {
    && (forall i :: 0 <= i < |keys| ==> NewLongName(hf, keys[i], cut, used))
    && (forall i, j :: 0 <= i < j < |keys| ==> hf(keys[i]) != hf(keys[j]))
  }

  /** So creating and deleting one point under such names over and over fills the
   *  table: all names are as before, and the next creation is refused as FULL. */
  lemma {:induction false} CyclesFillIndex(hf: Hash, st: Seg, id: u32, cut: Key, used: set<u32>, keys: seq<Key>, last: Key,
                                           ptype: int, access: int)
    requires Leaky(hf, st, id, cut, used) && NewLongNames(hf, keys + [last], cut, used)
    requires CreateArgsOk(st, last, id, ptype, access) && |LiveSet(st.slots)| + |keys| == |st.slots|
    ensures var full := Cycles(hf, st, keys, id, ptype, access);
            SameNames(st.pts, full.pts) && Create(hf, full, last, id, ptype, access).1 == ERR_FULL
    decreases |keys|
  {
    if keys == [] {
      assert ([] + [last])[0] == last;
      var _ := LongCreate(hf, st, id, cut, used, last, ptype, access);
    } else {
      var all, key := keys + [last], keys[0];
      assert all[0] == key && all[1..] == keys[1..] + [last];
      CycleLeaks(hf, st, id, cut, used, key, ptype, access);
      RestAreNew(hf, all, cut, used);
      CyclesFillIndex(hf, Cycle(hf, st, key, id, ptype, access), id, cut, used + {hf(key)}, keys[1..], last, ptype, access);
    }
  }

  lemma RestAreNew(hf: Hash, keys: seq<Key>, cut: Key, used: set<u32>)
    requires keys != [] && NewLongNames(hf, keys, cut, used)
    ensures NewLongNames(hf, keys[1..], cut, used + {hf(keys[0])})
  {
  }

  predicate SameNames(a: seq<Point>, b: seq<Point>) {
    |a| == |b| && forall i :: 0 <= i < |a| ==> a[i].name == b[i].name && (a[i].name != [] ==> a[i] == b[i])
  }

  /** No slot matches a key that is cut to `cut` and whose hash is not used, also
   *  while point id itself is named so. */
  lemma NothingMatches(hf: Hash, slots: seq<Slot>, pts: seq<Point>, id: u32, cut: Key, used: set<u32>, key: Key)
    requires |slots| > 0 && 0 < |cut.name| <= NAME_MAX && Cut(key) == cut && hf(key) !in used
    requires forall x: nat :: x < |pts| && x != id && Named(pts[x]) ==> Cut(KeyOf(pts[x])) != cut
    requires forall i: nat :: i < |slots| && Live(slots[i]) && slots[i].pid == id ==> slots[i].hash in used
    ensures FindFrom(slots, pts, key, hf(key), 0).None?
  {
    var f := FindFrom(slots, pts, key, hf(key), 0);
    assert f.Some? ==> var x: nat := slots[f.value].pid; Cut(KeyOf(pts[x])) == cut && Named(pts[x]);
  }

  lemma NotAllLive(slots: seq<Slot>, i: nat)
    requires i < |slots| && !Live(slots[i])
    ensures |LiveSet(slots)| < |slots|
  {
    assert LiveSet(slots) <= Below(|slots|) - {i};
    SubsetSize(LiveSet(slots), Below(|slots|) - {i});
  }

  // ---- At names that exist ----

  /** What the code's own hash gives for "CB0rk" and n times `z`, alone and
   *  followed by a digit. */
  ghost predicate KnownHashes(hf: Hash, n: nat) {
    && hf(Key(0, Growing(n))) == 0x5DA15728
    && hf(NumberedKey(n, 48)) == 0xB2787EF4
    && hf(NumberedKey(n, 49)) == 0x9E6A6B37
    && hf(NumberedKey(n, 50)) == 0x601FA9CF
    && hf(NumberedKey(n, 51)) == 0xB339676B
    && hf(NumberedKey(n, 52)) == 0xF2F0AC48
    && hf(NumberedKey(n, 53)) == 0x38ADE9AE
    && hf(NumberedKey(n, 54)) == 0xFDDA1C2C
    && hf(NumberedKey(n, 55)) == 0xFCA8EAC6
    && hf(NumberedKey(n, 56)) == 0xA4E5296F
  }

  function NumberedKey(n: nat, b: cbyte): Key {
    Key(0, Growing(n) + [b])
  }

  lemma ComposeHashIsKnown(n: nat)
    ensures KnownHashes(ComposeHash, n)
  {
    GrowingHash(n);
    DigitHashes();
    HashWithByte(n, 48);
    HashWithByte(n, 49);
    HashWithByte(n, 50);
    HashWithByte(n, 51);
    HashWithByte(n, 52);
    HashWithByte(n, 53);
    HashWithByte(n, 54);
    HashWithByte(n, 55);
    HashWithByte(n, 56);
  }

  /** A registry without points. */
  function Fresh(maxPoints: u32, blank: Point): (st: Seg)
    ensures |st.slots| >= 8 && |st.pts| == maxPoints
  {
    BucketsLeastPowerOfTwo(maxPoints);
    Seg(seq(Buckets(maxPoints), _ => Slot(0xFFFF_FFFF, EMPTY)), seq(maxPoints, _ => blank), 0)
  }

  /** The first point of a fresh registry. */
  lemma FreshCreate(hf: Hash, st: Seg, key: Key)
    requires Inv(hf, st) && |st.pts| > 0 && key.name != []
    requires forall x :: 0 <= x < |st.pts| ==> !Named(st.pts[x])
    ensures var (st', rc) := Create(hf, st, key, 0, 0, 3);
            rc == OK && st'.pts == st.pts[0 := Registered(st.pts[0], key, 0, 3)]
  {
    var i := CreateStep(hf, st, key, 0, 0, 3);
  }

  /** A good registry with room for points and without any. */
  ghost predicate Unused(hf: Hash, st: Seg) {
    Inv(hf, st) && |st.pts| > 0 && forall x :: 0 <= x < |st.pts| ==> !Named(st.pts[x])
  }

  lemma FreshIsUnused(hf: Hash, maxPoints: u32, blank: Point)
    requires 0 < maxPoints < 0x8000_0000 && !Named(blank)
    ensures Unused(hf, Fresh(maxPoints, blank))
  {
    FreshRegistryInv(hf, maxPoints, blank);
  }

  /** Creating the first point under "CB0rk", 58 times `z` and a `0`, which are 64
   *  bytes: it is not found under the name it is listed by. */
  ghost predicate LongNameLost(hf: Hash, st: Seg)
    requires Unused(hf, st)
  {
    var (st', rc) := Create(hf, st, NumberedKey(58, 48), 0, 0, 3);
    && rc == OK && !Inv(hf, st') && st'.pts[0].name == Growing(58)
    && Lookup(hf, st', Key(0, Growing(58))) == (None, ERR_NOT_FOUND)
  }

  /** Renaming the point "CB0rk" and 58 times `z` to the same with 59 succeeds
   *  and leaves it without a slot. */
  ghost predicate GrownNameLost(hf: Hash, st: Seg)
    requires Unused(hf, st)
  {
    var st1 := Create(hf, st, Key(0, Growing(58)), 0, 0, 3).0;
    var (st2, rc) := Rename(hf, st1, Key(0, Growing(59)), 0);
    Inv(hf, st1) && rc == OK && !Inv(hf, st2)
  }

  /** Loading a configuration that names point 0 "CB0rk", and later one that names
   *  it "CB0rk0", leaves a stale slot. */
  ghost predicate ReloadGoesStale(hf: Hash, st: Seg)
    requires Unused(hf, st)
  {
    var st1 := LoadOne(hf, st, 0, Growing(0), 0, 0, 3).0;
    Inv(hf, st1) && !Inv(hf, LoadOne(hf, st1, 0, Growing(0) + [48], 0, 0, 3).0)
  }

  lemma LongNameIsLostFor(hf: Hash, st: Seg)
    requires KnownHashes(hf, 58) && Unused(hf, st)
    ensures LongNameLost(hf, st)
  {
    var key := NumberedKey(58, 48);
    FreshCreate(hf, st, key);
    CutOfNumbered(48);
    CreateKeepsInvIff(hf, st, key, 0, 0, 3);
    ListedNameIsNotFound(hf, st, key, 0, 0, 3);
    LookupRefines(hf, st, Cut(key));
  }

  lemma CutOfNumbered(b: cbyte)
    ensures Cut(NumberedKey(58, b)) == Key(0, Growing(58))
  {
    assert (Growing(58) + [b])[..63] == Growing(58);
  }

  lemma GrownNameLosesSlotFor(hf: Hash, st: Seg)
    requires KnownHashes(hf, 58) && KnownHashes(hf, 59) && Unused(hf, st)
    ensures GrownNameLost(hf, st)
  {
    var key := Key(0, Growing(58));
    FreshCreate(hf, st, key);
    CreateKeepsInvIff(hf, st, key, 0, 0, 3);
    assert Growing(59)[..63] == Growing(58);
    RenameOntoOwnPrefix(hf, Create(hf, st, key, 0, 0, 3).0, Key(0, Growing(59)), 0);
  }

  lemma ReloadLeavesStaleSlotFor(hf: Hash, st: Seg)
    requires KnownHashes(hf, 0) && Unused(hf, st)
    ensures ReloadGoesStale(hf, st)
  {
    var st1 := LoadOne(hf, st, 0, Growing(0), 0, 0, 3).0;
    LoadKeepsInvIff(hf, st, 0, Growing(0), 0, 0, 3);
    assert KeyOf(st1.pts[0]) == Key(0, Growing(0)) && Named(st1.pts[0]);
    LoadKeepsInvIff(hf, st1, 0, Growing(0) + [48], 0, 0, 3);
    assert Key(0, Growing(0) + [48]) == NumberedKey(0, 48);
  }

  function EightKeys(): seq<Key> {
    [NumberedKey(58, 48), NumberedKey(58, 49), NumberedKey(58, 50), NumberedKey(58, 51),
     NumberedKey(58, 52), NumberedKey(58, 53), NumberedKey(58, 54), NumberedKey(58, 55)]
  }

  lemma EightLongNamesFillIndexFor(hf: Hash, st: Seg)
    requires KnownHashes(hf, 58) && Unused(hf, st)
    requires |st.slots| == 8 && LiveSet(st.slots) == {}
    ensures var full := Cycles(hf, st, EightKeys(), 0, 0, 3);
            !Named(full.pts[0]) && Create(hf, full, NumberedKey(58, 56), 0, 0, 3).1 == ERR_FULL
  {
    var cut := Key(0, Growing(58));
    GoodIsLeaky(hf, st, 0, cut);
    NumberedAreNew(hf, cut);
    CyclesFillIndex(hf, st, 0, cut, {}, EightKeys(), NumberedKey(58, 56), 0, 3);
  }

  lemma NumberedAreNew(hf: Hash, cut: Key)
    requires KnownHashes(hf, 58) && cut == Key(0, Growing(58))
    ensures NewLongNames(hf, EightKeys() + [NumberedKey(58, 56)], cut, {})
  {
    var keys := EightKeys() + [NumberedKey(58, 56)];
    forall i | 0 <= i < 9
      ensures keys[i] == NumberedKey(58, 48 + i) && Cut(keys[i]) == cut
    {
      CutOfNumbered(48 + i);
    }
  }

  /** With the code's own hash, in a fresh registry for any number of points:
   *  creation under a long name, renaming to one, and reloading a configuration
   *  each spoil the registry at the names above. */
  lemma RealNamesSpoil(maxPoints: u32, blank: Point)
    requires 0 < maxPoints < 0x8000_0000 && !Named(blank)
    ensures var st := Fresh(maxPoints, blank);
            && Unused(ComposeHash, st)
            && LongNameLost(ComposeHash, st) && GrownNameLost(ComposeHash, st) && ReloadGoesStale(ComposeHash, st)
  {
    var st := Fresh(maxPoints, blank);
    FreshIsUnused(ComposeHash, maxPoints, blank);
    ComposeHashIsKnown(58);
    ComposeHashIsKnown(59);
    ComposeHashIsKnown(0);
    LongNameIsLostFor(ComposeHash, st);
    GrownNameLosesSlotFor(ComposeHash, st);
    ReloadLeavesStaleSlotFor(ComposeHash, st);
  }

  /** A registry for one point has eight slots.  Creating and deleting the point
   *  under the eight long names that end in 0 to 7 leaves it without points, and
   *  unable to take one under the name that ends in 8. */
  lemma EightLongNamesFillIndex(blank: Point)
    requires !Named(blank)
    ensures var full := Cycles(ComposeHash, Fresh(1, blank), EightKeys(), 0, 0, 3);
            !Named(full.pts[0]) && Create(ComposeHash, full, NumberedKey(58, 56), 0, 0, 3).1 == ERR_FULL
  {
    FreshIsUnused(ComposeHash, 1, blank);
    ComposeHashIsKnown(58);
    OnePointEightSlots(blank);
    EightLongNamesFillIndexFor(ComposeHash, Fresh(1, blank));
  }

  lemma OnePointEightSlots(blank: Point)
    ensures |Fresh(1, blank).slots| == 8 && LiveSet(Fresh(1, blank).slots) == {}
  {
    BucketsLeastPowerOfTwo(1);
    assert Pow2(3) == 8;
  }
}
