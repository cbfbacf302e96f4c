/** Creating, deleting and renaming points while value writers keep the lock
 *  (src/api/indurtdb.c:572-727, src/core/irt_index.c:223-279).
 *
 * A locked section, or the duplicate check, can give up as BUSY.  Which do is an
 * oracle; nobody else changes the registry meanwhile, and value writes do not
 * touch it.
 */
module Contention {
  import opened Common
  import opened Layout
  import opened NameIndex
  import opened Registry

  /** What meets a busy lock in one call: all attempts of the duplicate check,
   *  all of the first locked section, the index insertion of create, which is
   *  tried once, and all attempts of its roll-back. */
  datatype Busy = Busy(lookup: bool, section: bool, insertion: bool, rollback: bool)

  const QUIET := Busy(false, false, false, false)

  /** The duplicate check.  BUSY is not 0, so it counts as "no such name". */
  function Existing(hf: Hash, st: Seg, key: Key, b: Busy): Option<u32>
    requires |st.slots| > 0
  {
    if b.lookup then None else Lookup(hf, st, key).0
  }

  function CreateUnder(hf: Hash, st: Seg, key: Key, id: u32, ptype: int, access: int, b: Busy): (r: (Seg, Code))
    requires |st.slots| > 0
    ensures |r.0.slots| == |st.slots| && |r.0.pts| == |st.pts|
  {
    if !CreateArgsOk(st, key, id, ptype, access) then (st, ERR_ARG)
    else
      var exist := Existing(hf, st, key, b);
      if exist.Some? && exist.value != id then (st, ERR_ARG)
      else if b.section then (st, ERR_BUSY)
      else if Named(st.pts[id]) then (st, ERR_FULL)
      else
        var st1 := st.(pts := st.pts[id := Registered(st.pts[id], key, ptype, access)]);
        var (st2, rc) := if b.insertion then (st1, ERR_BUSY) else Insert(hf, st1, key, id);
        if rc == OK then (st2, OK)
        else if b.rollback then (st2, rc)
        else (st2.(pts := st2.pts[id := st2.pts[id].(name := [])]), rc)
  }

  function DeleteUnder(hf: Hash, st: Seg, partition: u32, id: u32, b: Busy): (Seg, Code)
    requires |st.slots| > 0
  {
    if id >= |st.pts| then (st, ERR_ARG)
    else if b.section then (st, ERR_BUSY)
    else Delete(hf, st, partition, id)
  }

  function RenameUnder(hf: Hash, st: Seg, key: Key, id: u32, b: Busy): (r: (Seg, Code))
    requires |st.slots| > 0
  {
    if key.name == [] || id >= |st.pts| then (st, ERR_ARG)
    else
      var exist := Existing(hf, st, key, b);
      if exist.Some? && exist.value != id then (st, ERR_ARG)
      else if b.section then (st, ERR_BUSY)
      else if !Named(st.pts[id]) || st.pts[id].partition != key.partition then (st, ERR_NOT_FOUND)
      else if st.pts[id].name == key.name then (st, OK)
      else
        var (st1, rc) := Insert(hf, st, key, id);
        if rc != OK then (st1, ERR_FULL)
        else
          var st2 := Remove(hf, st1, Key(key.partition, st1.pts[id].name)).0;
          (st2.(pts := st2.pts[id := st2.pts[id].(name := Stored(key.name))]), OK)
  }

  lemma QuietIsPlain(hf: Hash, st: Seg, key: Key, id: u32, ptype: int, access: int)
    requires |st.slots| > 0
    ensures CreateUnder(hf, st, key, id, ptype, access, QUIET) == Create(hf, st, key, id, ptype, access)
    ensures DeleteUnder(hf, st, key.partition, id, QUIET) == Delete(hf, st, key.partition, id)
    ensures RenameUnder(hf, st, key, id, QUIET) == Rename(hf, st, key, id)
  {
  }

  ghost predicate TakenByOther(st: Seg, key: Key, id: u32)
    requires |st.pts| <= U32_RANGE
  {
    exists x: u32 :: x != id && Carries(Abs(st.pts), x, key)
  }

  /** The call gets as far as writing the point. */
  ghost predicate Writes(hf: Hash, st: Seg, key: Key, id: u32, ptype: int, access: int, b: Busy)
    requires |st.pts| <= U32_RANGE
  {
    CreateArgsOk(st, key, id, ptype, access) && !b.section && !Named(st.pts[id])
    && (TakenByOther(st, key, id) ==> b.lookup)
  }

  /** Exactly when create under contention leaves a good registry: unless it
   *  wrote the point and then either could neither index it nor take it back,
   *  or indexed it though the name was taken, which a BUSY check hides. */
  lemma CreateUnderKeepsInvIff(hf: Hash, st: Seg, key: Key, id: u32, ptype: int, access: int, b: Busy)
    requires Inv(hf, st) && NameFits(key)
    ensures Inv(hf, CreateUnder(hf, st, key, id, ptype, access, b).0)
            <==> !(Writes(hf, st, key, id, ptype, access, b)
                   && if b.insertion then b.rollback else TakenByOther(st, key, id))
  {
    if key.name != [] {
      LookupRefines(hf, st, key);
    }
    InvIsInjective(hf, st);
    ConflictIsFound(Abs(st.pts), key, id);
    if Writes(hf, st, key, id, ptype, access, b) {
      if b.insertion && b.rollback {
        OrphanBreaks(hf, st, id, Registered(st.pts[id], key, ptype, access));
      } else if b.insertion {
        LoadOverwritesUnnamed(hf, st, id, Registered(st.pts[id], key, ptype, access).(name := []));
        assert CreateUnder(hf, st, key, id, ptype, access, b).0.pts
            == st.pts[id := Registered(st.pts[id], key, ptype, access).(name := [])];
      } else if TakenByOther(st, key, id) {
        TwinBreaks(hf, st, key, id, ptype, access, b);
      } else {
        CreateRefines(hf, st, key, id, ptype, access);
      }
    }
  }

  /** A named point without a slot. */
  lemma OrphanBreaks(hf: Hash, st: Seg, id: u32, p: Point)
    requires Inv(hf, st) && id < |st.pts| && !Named(st.pts[id]) && Named(p)
    ensures !Inv(hf, st.(pts := st.pts[id := p]))
  {
    forall i: nat | i < |st.slots| && Live(st.slots[i])
      ensures st.slots[i].pid != id
    {
      assert SlotOk(hf, st.slots[i], st.pts);
    }
    assert !HasSlot(st.slots, id);
  }

  /** Two points with one key. */
  lemma TwinBreaks(hf: Hash, st: Seg, key: Key, id: u32, ptype: int, access: int, b: Busy)
    requires Inv(hf, st) && NameFits(key) && Writes(hf, st, key, id, ptype, access, b) && !b.insertion
    requires TakenByOther(st, key, id)
    ensures CreateUnder(hf, st, key, id, ptype, access, b).1 == OK
    ensures !Inv(hf, CreateUnder(hf, st, key, id, ptype, access, b).0)
  {
    var x: u32 :| x != id && Carries(Abs(st.pts), x, key);
    var pts' := st.pts[id := Registered(st.pts[id], key, ptype, access)];
    assert pts'[id := pts'[id].(partition := key.partition)] == pts';
    NeverFull(hf, st.slots, st.pts, {}, key, pts');
    assert KeyOf(pts'[x]) == KeyOf(pts'[id]) && Named(pts'[x]) && Named(pts'[id]);
  }

  /** Exactly when rename under contention leaves a good registry: unless a BUSY
   *  check hid that the name was taken. */
  lemma RenameUnderKeepsInvIff(hf: Hash, st: Seg, key: Key, id: u32, b: Busy)
    requires Inv(hf, st) && NameFits(key)
    ensures Inv(hf, RenameUnder(hf, st, key, id, b).0)
            <==> !(RenameApplies(st, key, id) && !b.section && b.lookup && TakenByOther(st, key, id))
  {
    if key.name != [] {
      LookupRefines(hf, st, key);
    }
    InvIsInjective(hf, st);
    ConflictIsFound(Abs(st.pts), key, id);
    RenameKeepsInv(hf, st, key, id);
    if RenameApplies(st, key, id) && !b.section && b.lookup && TakenByOther(st, key, id) {
      RenamedTwinBreaks(hf, st, key, id, b);
    }
  }

  lemma RenamedTwinBreaks(hf: Hash, st: Seg, key: Key, id: u32, b: Busy)
    requires Inv(hf, st) && NameFits(key) && RenameApplies(st, key, id) && !b.section && b.lookup
    requires TakenByOther(st, key, id)
    ensures RenameUnder(hf, st, key, id, b).1 == OK && !Inv(hf, RenameUnder(hf, st, key, id, b).0)
  {
    var x: u32 :| x != id && Carries(Abs(st.pts), x, key);
    assert st.pts[id := st.pts[id].(partition := key.partition)] == st.pts;
    NeverFull(hf, st.slots, st.pts, {}, key, st.pts);
    assert KeyOf(st.pts[x]) == key && st.pts[id].name != key.name;
    var pts' := RenameUnder(hf, st, key, id, b).0.pts;
    assert pts' == st.pts[id := st.pts[id].(name := key.name)];
    assert KeyOf(pts'[x]) == KeyOf(pts'[id]);
  }

  lemma DeleteUnderKeepsInv(hf: Hash, st: Seg, partition: u32, id: u32, b: Busy)
    requires Inv(hf, st)
    ensures Inv(hf, DeleteUnder(hf, st, partition, id, b).0)
    ensures DeleteUnder(hf, st, partition, id, b).1 != OK ==> DeleteUnder(hf, st, partition, id, b).0 == st
  {
    DeleteKeepsInv(hf, st, partition, id);
  }

  // ---- What the calls answer ----

  /** The code of create. */
  lemma CreateUnderAnswers(hf: Hash, st: Seg, key: Key, id: u32, ptype: int, access: int, b: Busy)
    requires Inv(hf, st) && NameFits(key)
    ensures CreateUnder(hf, st, key, id, ptype, access, b).1
            == if key.name == [] || !(0 <= ptype <= 6) || !(access == 1 || access == 3) || id >= |st.pts| then ERR_ARG
               else if TakenByOther(st, key, id) && !b.lookup then ERR_ARG
               else if b.section then ERR_BUSY
               else if st.pts[id].name != [] then ERR_FULL
               else if b.insertion then ERR_BUSY
               else OK
  {
    if CreateArgsOk(st, key, id, ptype, access) {
      LookupRefines(hf, st, key);
      InvIsInjective(hf, st);
      ConflictIsFound(Abs(st.pts), key, id);
      NeverFull(hf, st.slots, st.pts, {}, key, Rewritten(st, key, id, ptype, access));
    }
  }

  /** The points while create inserts the name. */
  function Rewritten(st: Seg, key: Key, id: u32, ptype: int, access: int): (pts: seq<Point>)
    requires CreateArgsOk(st, key, id, ptype, access)
    ensures |pts| == |st.pts| && pts[id := pts[id].(partition := key.partition)] == pts
  {
    st.pts[id := Registered(st.pts[id], key, ptype, access)]
  }

  /** What create leaves of the points: the new one on success, otherwise no new
   *  name, except that a point that could not be indexed stays when the
   *  roll-back finds no lock. */
  lemma CreateUnderLeaves(hf: Hash, st: Seg, key: Key, id: u32, ptype: int, access: int, b: Busy)
    requires Inv(hf, st)
    ensures var (st', rc) := CreateUnder(hf, st, key, id, ptype, access, b);
            && (forall x: nat :: x < |st.pts| && x != id ==> st'.pts[x] == st.pts[x])
            && (rc == OK ==> id < |st.pts| && IsNew(st'.pts[id], key, ptype, access))
            && (rc != OK ==>
                  || st' == st
                  || (&& rc == ERR_BUSY && b.insertion && !b.section && id < |st.pts|
                      && st'.slots == st.slots && st'.count == st.count
                      && if b.rollback then IsNew(st'.pts[id], key, ptype, access) else st'.pts[id].name == []))
  {
    if CreateArgsOk(st, key, id, ptype, access) {
      NeverFull(hf, st.slots, st.pts, {}, key, Rewritten(st, key, id, ptype, access));
    }
  }

  /** The code of rename, and that it changes the name of its point or nothing. */
  lemma RenameUnderAnswers(hf: Hash, st: Seg, key: Key, id: u32, b: Busy)
    requires Inv(hf, st) && NameFits(key)
    ensures var (st', rc) := RenameUnder(hf, st, key, id, b);
            && rc == (if key.name == [] || id >= |st.pts| then ERR_ARG
                      else if TakenByOther(st, key, id) && !b.lookup then ERR_ARG
                      else if b.section then ERR_BUSY
                      else if st.pts[id].name == [] || st.pts[id].partition != key.partition then ERR_NOT_FOUND
                      else OK)
            && (rc != OK ==> st' == st)
            && (rc == OK ==> st'.pts == st.pts[id := st.pts[id].(name := key.name)])
  {
    if key.name != [] && id < |st.pts| {
      LookupRefines(hf, st, key);
      InvIsInjective(hf, st);
      ConflictIsFound(Abs(st.pts), key, id);
      if RenameApplies(st, key, id) {
        assert st.pts[id := st.pts[id].(partition := key.partition)] == st.pts;
        NeverFull(hf, st.slots, st.pts, {}, key, st.pts);
        assert st.pts[id := st.pts[id].(name := st.pts[id].name)] == st.pts;
      }
    }
  }

  /** The code of delete. */
  lemma DeleteUnderAnswers(hf: Hash, st: Seg, partition: u32, id: u32, b: Busy)
    requires Inv(hf, st)
    ensures var (st', rc) := DeleteUnder(hf, st, partition, id, b);
            && rc == (if id >= |st.pts| then ERR_ARG
                      else if b.section then ERR_BUSY
                      else if st.pts[id].name == [] || st.pts[id].partition != partition then ERR_NOT_FOUND
                      else OK)
            && st'.pts == if rc == OK then st.pts[id := st.pts[id].(name := [])] else st.pts
  {
    DeleteKeepsInv(hf, st, partition, id);
  }

  // ---- The operation on the segment in memory ----

  const MAX_RETRY := 3

  /** The retry loop around write_begin: `busy` tells how often it gives up. */
  method TakeLock(busy: nat) returns (taken: bool)
    ensures taken <==> busy < 3
  {
    var attempt := 0;
    while attempt < MAX_RETRY
      invariant attempt <= MAX_RETRY && attempt <= busy
    {
      if attempt == busy {
        return true;
      }
      attempt := attempt + 1;
    }
    taken := false;
  }

  /** indurtdb_h_create_point_in with its two locked sections and the roll-back;
   *  the numbers tell how often write_begin gives up before each. */
  method CreatePointUnder(s: Segment, key: Key, id: u32, ptype: int, access: int,
                          lookupBusy: bool, sectionBusy: nat, insertionBusy: bool, rollbackBusy: nat)
    returns (rc: Code)
    requires s.Valid()
    modifies s`count, s.slots, s.pts
    ensures s.Valid()
    ensures (s.View(), rc) == CreateUnder(s.hf, old(s.View()), key, id, ptype, access,
                                          Busy(lookupBusy, sectionBusy >= 3, insertionBusy, rollbackBusy >= 3))
  {
    if key.name == [] || !(0 <= ptype <= TYPE_FLOAT) || (access != READ_ONLY && access != READ_WRITE)
       || id >= s.pts.Length
    {
      return ERR_ARG;
    }
    if !lookupBusy {
      var exist, _ := s.IndexLookup(key);
      if exist.Some? && exist.value != id {
        return ERR_ARG;
      }
    }
    var taken := TakeLock(sectionBusy);
    if !taken {
      return ERR_BUSY;
    }
    if s.pts[id].name != [] {
      return ERR_FULL;
    }
    s.pts[id] := Registered(s.pts[id], key, ptype, access);
    rc := ERR_BUSY;
    if !insertionBusy {
      rc := s.InsertLocked(key, id);
    }
    if rc != OK {
      taken := TakeLock(rollbackBusy);
      if taken {
        s.pts[id] := s.pts[id].(name := []);
      }
    }
  }
}
