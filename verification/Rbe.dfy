/** Report by exception: which values a connection is told about
 *  (rtdbd/src/rbe.c, src/core/irt_semantics.c:26-50).
 *
 * A connection remembers, for each point it subscribed to, the last value it
 * reported, in a fixed table of slots.  Doubles are modelled as reals.
 */
module Rbe {
  import opened Common

  /** RTDBD_RBE_MAX, the same as the limit on subscriptions. */
  const SLOTS: nat := 32

  datatype Slot = Slot(id: u32, last: real, valid: bool)

  const EMPTY_SLOT := Slot(0, 0.0, false)

  /** The meta data of a point; the three flags are bits of its flags word. */
  datatype Meta = Meta(eurMin: real, eurMax: real, deadband: real, eur: bool, deadbandAbs: bool, deadbandPct: bool)

  datatype Limit = LimitNone | LimitLow | LimitHigh

  function EurangeLimit(enabled: bool, min: real, max: real, v: real): Limit {
    if !enabled then LimitNone
    else if v < min then LimitLow
    else if v > max then LimitHigh
    else LimitNone
  }

  /** The zone of a value: none while the check is off. */
  lemma EurangeZones(enabled: bool, min: real, max: real, v: real)
    ensures EurangeLimit(enabled, min, max, v) == LimitLow <==> enabled && v < min
    ensures EurangeLimit(enabled, min, max, v) == LimitHigh <==> enabled && min <= v && max < v
  {
  }

  predicate DeadbandExceeded(absMode: bool, deadband: real, min: real, max: real, last: real, cur: real) {
    var delta := if cur > last then cur - last else last - cur;
    if absMode then delta > deadband
    else
      var span := max - min;
      if span <= 0.0 then false
      else delta > deadband * 0.01 * span
  }

  /** The part of rbe_decide after the slot is known to be valid. */
  predicate Exceeds(meta: Option<Meta>, last: real, v: real) {
    if meta.None? then true
    else
      var m := meta.value;
      var rbeOn := m.deadbandAbs || m.deadbandPct;
      if !rbeOn && !m.eur then true
      else
        || (rbeOn && DeadbandExceeded(!m.deadbandPct, m.deadband, m.eurMin, m.eurMax, last, v))
        || (m.eur && EurangeLimit(true, m.eurMin, m.eurMax, last) != EurangeLimit(true, m.eurMin, m.eurMax, v))
  }

  // ---- The slot table ----

  /** The search of rbe_decide: the first slot of the point, otherwise the
   *  first empty slot seen. */
  function LocateFrom(s: seq<Slot>, id: u32, i: nat, free: Option<nat>): (r: Option<nat>)
    requires i <= |s| && (free.Some? ==> free.value < |s|)
    ensures r.Some? ==> r.value < |s|
    decreases |s| - i
  {
    if i == |s| then free
    else if s[i].id == id then Some(i)
    else LocateFrom(s, id, i + 1, if free.None? && s[i].id == 0 && !s[i].valid then Some(i) else free)
  }

  function Decide(s: seq<Slot>, id: u32, v: real, meta: Option<Meta>): (seq<Slot>, bool) {
    var at := LocateFrom(s, id, 0, None);
    if at.None? then (s, true)
    else
      var slot := s[at.value];
      if !slot.valid then (s[at.value := Slot(id, v, true)], true)
      else if Exceeds(meta, slot.last, v) then (s[at.value := slot.(last := v)], true)
      else (s, false)
  }

  function FindFrom(s: seq<Slot>, id: u32, i: nat): (r: nat)
    requires i <= |s|
    ensures i <= r <= |s| && (r < |s| ==> s[r].id == id)
    ensures forall j :: i <= j < r ==> s[j].id != id
    decreases |s| - i
  {
    if i == |s| || s[i].id == id then i else FindFrom(s, id, i + 1)
  }

  function Clear(s: seq<Slot>, id: u32): seq<Slot> {
    var at := FindFrom(s, id, 0);
    if at < |s| then s[at := s[at].(id := 0, valid := false)] else s
  }

  // ---- The table as a map from points to last reported values ----

  ghost predicate Holds(s: seq<Slot>, i: nat, id: u32) {
    i < |s| && s[i].id == id && s[i].valid
  }

  /** The last value reported for a point, if any. */
  ghost function LastOf(s: seq<Slot>, id: u32): (r: Option<real>)
    ensures r.Some? <==> exists i: nat :: Holds(s, i, id)
    ensures r.Some? ==> exists i: nat :: Holds(s, i, id) && s[i].last == r.value
  {
    if i: nat :| Holds(s, i, id) then Some(s[i].last) else None
  }

  /** Slots of non-zero points are valid and belong to different points, all
   *  among the given ones.  Nothing is said about slots with point id 0. */
  ghost predicate SlotsSane(s: seq<Slot>, points: set<u32>) {
    && |s| == SLOTS
    && (forall i :: 0 <= i < |s| && s[i].id != 0 ==> s[i].valid && s[i].id in points)
    && (forall i, j :: 0 <= i < j < |s| && s[i].id == s[j].id ==> s[i].id == 0)
  }

  /** Point 0 was never reported: every slot with id 0 is free. */
  ghost predicate NoZeroSlot(s: seq<Slot>) {
    forall i :: 0 <= i < |s| && s[i].id == 0 ==> !s[i].valid
  }

  predicate FreeSlot(x: Slot) {
    x.id == 0 && !x.valid
  }

  ghost function Occupied(s: seq<Slot>, n: nat): (ids: set<u32>)
    requires n <= |s|
    ensures forall id :: id in ids <==> exists i :: 0 <= i < n && s[i].id == id
  {
    if n == 0 then {} else Occupied(s, n - 1) + {s[n - 1].id}
  }

  lemma {:induction false} OccupiedSize(s: seq<Slot>, n: nat)
    requires n <= |s|
    requires forall i, j :: 0 <= i < j < n ==> s[i].id != s[j].id
    ensures |Occupied(s, n)| == n
  {
    if n > 0 {
      OccupiedSize(s, n - 1);
    }
  }

  /** The search gives the first slot of the point, or if it has none the first
   *  free slot, or if there is none either nothing. */
  lemma {:induction false} LocateIsExact(s: seq<Slot>, id: u32, i: nat, free: Option<nat>)
    requires i <= |s| && (free.Some? ==> free.value < i && FreeSlot(s[free.value]))
    requires forall j :: 0 <= j < i ==> s[j].id != id
    requires forall j :: 0 <= j < (if free.Some? then free.value else i) ==> !FreeSlot(s[j])
    ensures var r := LocateFrom(s, id, i, free);
            && (r.Some? && s[r.value].id == id ==> forall j :: 0 <= j < r.value ==> s[j].id != id)
            && (r.Some? && s[r.value].id != id ==>
                  && (forall j :: 0 <= j < |s| ==> s[j].id != id)
                  && FreeSlot(s[r.value]) && forall j :: 0 <= j < r.value ==> !FreeSlot(s[j]))
            && (r.None? ==> forall j :: 0 <= j < |s| ==> s[j].id != id && !FreeSlot(s[j]))
    decreases |s| - i
  {
    if i < |s| && s[i].id != id {
      LocateIsExact(s, id, i + 1, if free.None? && s[i].id == 0 && !s[i].valid then Some(i) else free);
    }
  }

  /** As long as point 0 was never reported, and with at most as many subscribed
   *  points as slots, a subscribed point always finds a slot: the fallback of
   *  rbe_decide is unreachable. */
  lemma FallbackUnreachable(s: seq<Slot>, points: set<u32>, id: u32)
    requires SlotsSane(s, points) && NoZeroSlot(s) && |points| <= SLOTS && id in points && id != 0
    ensures LocateFrom(s, id, 0, None).Some?
  {
    LocateIsExact(s, id, 0, None);
    if LocateFrom(s, id, 0, None).None? {
      OccupiedSize(s, SLOTS);
      assert Occupied(s, SLOTS) <= points - {id};
      SubsetSize(Occupied(s, SLOTS), points - {id});
    }
  }

  lemma LastIsSlot(s: seq<Slot>, points: set<u32>, i: nat)
    requires SlotsSane(s, points) && i < |s| && s[i].id != 0
    ensures LastOf(s, s[i].id) == Some(s[i].last)
  {
    assert Holds(s, i, s[i].id);
    var r := LastOf(s, s[i].id);
    var j: nat :| Holds(s, j, s[i].id) && s[j].last == r.value;
    assert i == j;
  }

  lemma LastIsNone(s: seq<Slot>, id: u32)
    requires forall i :: 0 <= i < |s| ==> s[i].id != id
    ensures LastOf(s, id).None?
  {
  }

  /** rbe_decide on a subscribed point other than 0: report iff nothing was
   *  reported yet or the value exceeds; remember exactly the reported values
   *  when a slot was found, touch no other point, keep the table well-formed. */
  lemma DecideRefines(s: seq<Slot>, points: set<u32>, id: u32, v: real, meta: Option<Meta>)
    requires SlotsSane(s, points) && id in points && id != 0
    ensures var (s', report) := Decide(s, id, v, meta);
            && SlotsSane(s', points) && (NoZeroSlot(s) ==> NoZeroSlot(s'))
            && report == (LastOf(s, id).None? || Exceeds(meta, LastOf(s, id).value, v))
            && LastOf(s', id) == (if report && LocateFrom(s, id, 0, None).Some? then Some(v) else LastOf(s, id))
            && forall x: u32 :: x != id && x != 0 ==> LastOf(s', x) == LastOf(s, x)
  {
    LocateIsExact(s, id, 0, None);
    if LocateFrom(s, id, 0, None).None? {
      LastIsNone(s, id);
    } else {
      var at := LocateFrom(s, id, 0, None).value;
      var (s', report) := Decide(s, id, v, meta);
      if s[at].id == id {
        LastIsSlot(s, points, at);
      } else {
        LastIsNone(s, id);
      }
      assert s'[at].id == id;
      LastIsSlot(s', points, at);
      OthersKept(s, s', points, at, id);
    }
  }

  /** rbe_decide on point 0 leaves every other point alone. */
  lemma DecideZeroKeepsOthers(s: seq<Slot>, points: set<u32>, v: real, meta: Option<Meta>)
    requires SlotsSane(s, points)
    ensures var s' := Decide(s, 0, v, meta).0;
            SlotsSane(s', points) && forall x: u32 :: x != 0 ==> LastOf(s', x) == LastOf(s, x)
  {
    LocateIsExact(s, 0, 0, None);
    if LocateFrom(s, 0, 0, None).Some? {
      var at := LocateFrom(s, 0, 0, None).value;
      OthersKept(s, Decide(s, 0, v, meta).0, points, at, 0);
    }
  }

  lemma OthersKept(s: seq<Slot>, s': seq<Slot>, points: set<u32>, at: nat, id: u32)
    requires SlotsSane(s, points) && SlotsSane(s', points) && at < |s|
    requires forall i :: 0 <= i < |s| && i != at ==> s'[i] == s[i]
    requires (s[at].id == 0 || s[at].id == id) && (s'[at].id == 0 || s'[at].id == id)
    ensures forall x: u32 :: x != id && x != 0 ==> LastOf(s', x) == LastOf(s, x)
  {
    forall x: u32 | x != id && x != 0
      ensures LastOf(s', x) == LastOf(s, x)
    {
      OtherPointKept(s, s', points, at, x);
    }
  }

  lemma OtherPointKept(s: seq<Slot>, s': seq<Slot>, points: set<u32>, at: nat, x: u32)
    requires SlotsSane(s, points) && SlotsSane(s', points) && at < |s|
    requires forall i :: 0 <= i < |s| && i != at ==> s'[i] == s[i]
    requires s[at].id != x && s'[at].id != x && x != 0
    ensures LastOf(s', x) == LastOf(s, x)
  {
    if LastOf(s, x).Some? {
      var i: nat :| Holds(s, i, x);
      LastIsSlot(s, points, i);
      LastIsSlot(s', points, i);
    } else {
      forall i | 0 <= i < |s'|
        ensures s'[i].id != x
      {
        assert !Holds(s, i, x);
      }
      LastIsNone(s', x);
    }
  }

  /** rbe_clear forgets the point, unless it is 0, and nothing else. */
  lemma ClearRefines(s: seq<Slot>, points: set<u32>, id: u32)
    requires SlotsSane(s, points)
    ensures var s' := Clear(s, id);
            && SlotsSane(s', points - {id}) && (NoZeroSlot(s) ==> NoZeroSlot(s'))
            && (id != 0 ==> LastOf(s', id).None?)
            && forall x: u32 :: x != id && x != 0 ==> LastOf(s', x) == LastOf(s, x)
  {
    var s' := Clear(s, id);
    var at := FindFrom(s, id, 0);
    if id != 0 {
      assert forall i :: 0 <= i < |s'| ==> s'[i].id != id;
      LastIsNone(s', id);
    }
    if at < |s| {
      OthersKept(s, s', points, at, id);
    }
  }

  // ---- A whole sequence of values of one point ----

  function Distance(a: real, b: real): real {
    if a < b then b - a else a - b
  }

  /** What a suppressed value must satisfy against the last reported one. */
  predicate Near(m: Meta, last: real, v: real) {
    && (m.deadbandPct && m.eurMax > m.eurMin ==> Distance(last, v) <= m.deadband * 0.01 * (m.eurMax - m.eurMin))
    && (m.deadbandAbs && !m.deadbandPct ==> Distance(last, v) <= m.deadband)
    && (m.eur ==> (v < m.eurMin <==> last < m.eurMin))
    && (m.eur && m.eurMin <= m.eurMax ==> (v > m.eurMax <==> last > m.eurMax))
  }

  /** Which values of the sequence are reported, starting from a last report. */
  function Reports(m: Meta, last: Option<real>, vs: seq<real>): (r: seq<bool>)
    ensures |r| == |vs|
    decreases |vs|
  {
    if vs == [] then []
    else
      var report := last.None? || Exceeds(Some(m), last.value, vs[0]);
      [report] + Reports(m, if report then Some(vs[0]) else last, vs[1..])
  }

  /** j is the last reported value before k. */
  ghost predicate LastReport(r: seq<bool>, j: nat, k: nat) {
    j < k <= |r| && r[j] && forall i :: j < i < k ==> !r[i]
  }

  /** Whatever the sequence, a suppressed value is near the last value reported
   *  before it, and a reported value after the first is not, unless the meta
   *  data asks for every value. */
  lemma {:induction false} SuppressedIffNear(m: Meta, last: Option<real>, vs: seq<real>, j: nat, k: nat)
    requires k < |vs| && LastReport(Reports(m, last, vs), j, k)
    ensures Reports(m, last, vs)[k] <==>
              (!m.eur && !m.deadbandAbs && !m.deadbandPct) || !Near(m, vs[j], vs[k])
    decreases |vs|
  {
    var r := Reports(m, last, vs);
    var last' := if r[0] then Some(vs[0]) else last;
    var r' := Reports(m, last', vs[1..]);
    assert r == [r[0]] + r';
    if j > 0 {
      forall i | j - 1 < i < k - 1
        ensures !r'[i]
      {
        assert r'[i] == r[i + 1];
      }
      assert r'[j - 1] == r[j] && r'[k - 1] == r[k];
      SuppressedIffNear(m, last', vs[1..], j - 1, k - 1);
    } else {
      forall i | 0 <= i < k - 1
        ensures !r'[i]
      {
        assert r'[i] == r[i + 1];
      }
      SilentThen(m, vs[0], vs[1..], k - 1);
      assert r'[k - 1] == r[k];
      ExceedsIsNotNear(m, vs[0], vs[k]);
    }
  }

  lemma {:induction false} SilentThen(m: Meta, last: real, vs: seq<real>, k: nat)
    requires k < |vs| && forall i :: 0 <= i < k ==> !Reports(m, Some(last), vs)[i]
    ensures Reports(m, Some(last), vs)[k] == Exceeds(Some(m), last, vs[k])
    decreases |vs|
  {
    var r := Reports(m, Some(last), vs);
    if k > 0 {
      assert !r[0];
      var r' := Reports(m, Some(last), vs[1..]);
      assert r == [r[0]] + r';
      forall i | 0 <= i < k - 1
        ensures !r'[i]
      {
        assert r'[i] == r[i + 1];
      }
      SilentThen(m, last, vs[1..], k - 1);
    }
  }

  /** A value is reported unless it is near the last one; without meta data, or
   *  without any mode in it, every value is. */
  lemma ExceedsIsNotNear(m: Meta, last: real, v: real)
    ensures Exceeds(Some(m), last, v) <==> (!m.eur && !m.deadbandAbs && !m.deadbandPct) || !Near(m, last, v)
    ensures Exceeds(None, last, v)
  {
  }

  // ---- Point id 0 ----

  /** Point 0 cannot be told from an empty slot.  Subscribe to 5 and 0, report
   *  both, unsubscribe both, subscribe to 7 and report it, subscribe to 0
   *  again: the slot of point 0 was never cleared, and its first value after
   *  the new subscription is suppressed. */
  lemma ZeroLosesFirstValue(v: real, m: Meta)
    requires m.deadbandAbs && !m.deadbandPct && !m.eur && m.deadband >= 0.0
    ensures var s0 := seq(SLOTS, _ => EMPTY_SLOT);
            var s1 := Decide(Decide(s0, 5, v, Some(m)).0, 0, v, Some(m)).0;
            var s2 := Clear(Clear(s1, 5), 0);
            var s3 := Decide(s2, 7, v, Some(m)).0;
            !Decide(s3, 0, v, Some(m)).1
  {
    var s0 := seq(SLOTS, _ => EMPTY_SLOT);
    var a := Slot(5, v, true);
    var b := Slot(0, v, true);
    var s1a := s0[0 := a];
    assert Decide(s0, 5, v, Some(m)) == (s1a, true) by { FirstFree(s0, 5); }
    assert LocateFrom(s1a, 0, 0, None) == LocateFrom(s1a, 0, 1, None) == Some(1);
    var s1 := s1a[1 := b];
    assert Decide(s1a, 0, v, Some(m)) == (s1, true);
    var c := a.(id := 0, valid := false);
    var s2 := s1[0 := c];
    assert FindFrom(s1, 5, 0) == 0 && FindFrom(s2, 0, 0) == 0;
    assert Clear(s1, 5) == s2;
    assert s2[0].(id := 0, valid := false) == s2[0] && s2[0 := s2[0]] == s2;
    assert Clear(s2, 0) == s2;
    FirstFree(s2, 7);
    var s3 := s2[0 := Slot(7, v, true)];
    assert Decide(s2, 7, v, Some(m)) == (s3, true);
    assert LocateFrom(s3, 0, 0, None) == LocateFrom(s3, 0, 1, None) == Some(1);
  }

  lemma {:induction false} LocateMisses(s: seq<Slot>, id: u32, i: nat, free: Option<nat>)
    requires i <= |s| && (free.Some? ==> free.value < |s|) && free.Some?
    requires forall j :: i <= j < |s| ==> s[j].id != id
    ensures LocateFrom(s, id, i, free) == free
    decreases |s| - i
  {
    if i < |s| {
      LocateMisses(s, id, i + 1, free);
    }
  }

  lemma FirstFree(s: seq<Slot>, id: u32)
    requires |s| > 0 && s[0].id == 0 && !s[0].valid && id != 0
    requires forall j :: 0 <= j < |s| ==> s[j].id != id
    ensures LocateFrom(s, id, 0, None) == Some(0)
  {
    LocateMisses(s, id, 1, Some(0));
  }

  // ---- The table in memory ----

  method StateInit(s: array<Slot>)
    requires s.Length == SLOTS
    modifies s
    ensures s[..] == seq(SLOTS, _ => EMPTY_SLOT)
  {
    for i := 0 to SLOTS
      invariant forall j :: 0 <= j < i ==> s[j] == EMPTY_SLOT
    {
      s[i] := EMPTY_SLOT;
    }
  }

  method ClearPoint(s: array<Slot>, id: u32)
    modifies s
    ensures s[..] == Clear(old(s[..]), id)
  {
    for i := 0 to s.Length
      invariant s[..] == old(s[..]) && FindFrom(s[..], id, 0) == FindFrom(s[..], id, i)
    {
      if s[i].id == id {
        s[i] := s[i].(id := 0, valid := false);
        return;
      }
    }
  }

  /** The slot search of rbe_decide. */
  method Locate(s: array<Slot>, id: u32) returns (at: Option<nat>)
    ensures at == LocateFrom(s[..], id, 0, None)
  {
    at := None;
    for i := 0 to s.Length
      invariant at.Some? ==> at.value < s.Length
      invariant LocateFrom(s[..], id, i, at) == LocateFrom(s[..], id, 0, None)
    {
      if s[i].id == id {
        return Some(i);
      }
      if at.None? && s[i].id == 0 && !s[i].valid {
        at := Some(i);
      }
    }
  }

  method DecideInPlace(s: array<Slot>, id: u32, v: real, meta: Option<Meta>) returns (report: bool)
    modifies s
    ensures (s[..], report) == Decide(old(s[..]), id, v, meta)
  {
    var at := Locate(s, id);
    if at.None? {
      return true;
    }
    if !s[at.value].valid {
      s[at.value] := Slot(id, v, true);
      return true;
    }
    if Exceeds(meta, s[at.value].last, v) {
      s[at.value] := s[at.value].(last := v);
      return true;
    }
    report := false;
  }
}
