/** The log of runtime registry changes and its replay (src/core/irt_delta.c,
 *  src/api/indurtdb.c:520-544 and 736-778).
 *
 * The log is a file of 80-byte records.  After a restart the base registry is
 * loaded again and the log replayed on top of it.
 */
module DeltaLog {
  import opened Common
  import opened Layout
  import opened NameIndex
  import opened Registry

  const RECORD_SIZE := 80
  const NAME_FIELD := 64

  const DELTA_MAGIC: nat := 0x444C_5441
  const DELTA_VERSION: nat := 1

  const OP_CREATE: nat := 1
  const OP_DELETE: nat := 2
  const OP_RENAME: nat := 3

  datatype Record = Record(magic: nat, version: nat, op: nat, id: nat, ptype: byte, access: byte, name: Name)

  // ---- Records as bytes ----

  function LittleEndian(x: nat, n: nat): (b: seq<byte>)
    ensures |b| == n
  {
    if n == 0 then [] else [x % 256] + LittleEndian(x / 256, n - 1)
  }

  function Value(b: seq<byte>): nat {
    if b == [] then 0 else b[0] + 256 * Value(b[1..])
  }

  function Pow256(n: nat): nat {
    if n == 0 then 1 else 256 * Pow256(n - 1)
  }

  lemma {:induction false} ValueOfLittleEndian(x: nat, n: nat)
    requires x < Pow256(n)
    ensures Value(LittleEndian(x, n)) == x
    decreases n
  {
    if n > 0 {
      ValueOfLittleEndian(x / 256, n - 1);
      assert LittleEndian(x, n)[1..] == LittleEndian(x / 256, n - 1);
    }
  }

  function Zeros(n: nat): (z: seq<byte>)
    ensures |z| == n
  {
    seq(n, _ => 0)
  }

  /** The C string that starts at the beginning of the buffer. */
  function CString(b: seq<byte>): Name {
    if b == [] || b[0] == 0 then [] else [b[0]] + CString(b[1..])
  }

  lemma {:induction false} CStringOfPadded(name: Name, pad: seq<byte>)
    requires pad != [] ==> pad[0] == 0
    ensures CString(name + pad) == name
  {
    if name != [] {
      assert (name + pad)[1..] == name[1..] + pad;
      CStringOfPadded(name[1..], pad);
      assert name == [name[0]] + name[1..];
    }
  }

  function Encode(r: Record): (b: seq<byte>)
    requires |r.name| <= NAME_MAX
    ensures |b| == RECORD_SIZE
  {
    LittleEndian(r.magic, 4) + LittleEndian(r.version, 2) + LittleEndian(r.op, 2)
    + LittleEndian(r.id, 4) + [r.ptype, r.access, 0, 0]
    + r.name + Zeros(NAME_FIELD - |r.name|)
  }

  function Decode(b: seq<byte>): Record
    requires |b| == RECORD_SIZE
  {
    Record(Value(b[0..4]), Value(b[4..6]), Value(b[6..8]), Value(b[8..12]), b[12], b[13], CString(b[16..80]))
  }

  predicate Encodable(r: Record) {
    && r.magic < Pow256(4) && r.version < Pow256(2) && r.op < Pow256(2) && r.id < Pow256(4)
    && |r.name| <= NAME_MAX
  }

  /** The fields of a record in its bytes. */
  lemma Fields(r: Record)
    requires |r.name| <= NAME_MAX
    ensures var b := Encode(r);
            && b[0..4] == LittleEndian(r.magic, 4) && b[4..6] == LittleEndian(r.version, 2)
            && b[6..8] == LittleEndian(r.op, 2) && b[8..12] == LittleEndian(r.id, 4)
            && b[12..16] == [r.ptype, r.access, 0, 0] && b[16..80] == r.name + Zeros(NAME_FIELD - |r.name|)
  {
  }

  /** Every record survives the file format. */
  lemma DecodeOfEncode(r: Record)
    requires Encodable(r)
    ensures Decode(Encode(r)) == r
  {
    Fields(r);
    assert Encode(r)[12..16][0] == r.ptype && Encode(r)[12..16][1] == r.access;
    ValueOfLittleEndian(r.magic, 4);
    ValueOfLittleEndian(r.version, 2);
    ValueOfLittleEndian(r.op, 2);
    ValueOfLittleEndian(r.id, 4);
    CStringOfPadded(r.name, Zeros(NAME_FIELD - |r.name|));
  }

  /** The check irt_delta_replay makes before it applies a record. */
  predicate Acceptable(r: Record) {
    && r.magic == DELTA_MAGIC && r.version == DELTA_VERSION
    && (r.op == OP_CREATE || r.op == OP_DELETE || r.op == OP_RENAME)
  }

  // ---- Logging ----

  /** An open instance: its registry, its log file, and whether the log is on. */
  datatype Handle = Handle(seg: Seg, log: seq<byte>, enabled: bool)

  function Rec(op: nat, id: u32, ptype: byte, access: byte, name: Name): Record {
    Record(DELTA_MAGIC, DELTA_VERSION, op, id, ptype, access, Stored(name))
  }

  /** The record a command leaves in the log: one for each create, delete and
   *  rename that changed something. */
  function LogRecord(hf: Hash, st: Seg, c: Command): (r: Option<Record>)
    requires |st.slots| > 0
    ensures r.Some? ==> Acceptable(r.value) && Encodable(r.value)
  {
    assert Pow256(1) == 256 && Pow256(2) == 0x1_0000 && Pow256(3) == 0x100_0000 && Pow256(4) == 0x1_0000_0000;
    var (st', reply) := Step(hf, st, c);
    if reply.code != OK then None
    else
      match c
      case CreateCmd(key, id, ptype, access) =>
        if 0 <= ptype < 256 && 0 <= access < 256 then Some(Rec(OP_CREATE, id, ptype, access, key.name)) else None
      case DeleteCmd(_, id) => Some(Rec(OP_DELETE, id, 0, 0, []))
      case RenameCmd(key, id) =>
        if id < |st.pts| && st.pts[id].name != key.name
        then Some(Rec(OP_RENAME, id, st'.pts[id].ptype, st'.pts[id].access, key.name)) else None
      case FindCmd(_) => None
      case WriteCmd(_, _, _, _) => None
  }

  function BytesOf(r: Option<Record>): seq<byte>
    requires r.Some? ==> |r.value.name| <= NAME_MAX
  {
    if r.Some? then Encode(r.value) else []
  }

  function LoggedStep(hf: Hash, h: Handle, c: Command): (h': Handle)
    requires |h.seg.slots| > 0
    ensures |h'.seg.slots| == |h.seg.slots|
  {
    var bytes := if h.enabled then BytesOf(LogRecord(hf, h.seg, c)) else [];
    h.(seg := Step(hf, h.seg, c).0, log := h.log + bytes)
  }

  function LoggedRun(hf: Hash, h: Handle, cmds: seq<Command>): (h': Handle)
    requires |h.seg.slots| > 0
    decreases |cmds|
  {
    if cmds == [] then h else LoggedRun(hf, LoggedStep(hf, h, cmds[0]), cmds[1..])
  }

  /** The record on disk, byte by byte: "ATLD", version 1, the operation, the id,
   *  all little-endian, type, access, two zeros, and the name padded with
   *  zeros. */
  lemma RecordBytes(r: Record, k: nat)
    requires Acceptable(r) && |r.name| <= NAME_MAX && k < 64
    ensures var b := Encode(r);
            && b[0] == 0x41 && b[1] == 0x54 && b[2] == 0x4C && b[3] == 0x44
            && b[4] == 1 && b[5] == 0 && b[6] == r.op && b[7] == 0
            && b[8] == r.id % 0x100 && b[9] == r.id / 0x100 % 0x100
            && b[10] == r.id / 0x1_0000 % 0x100 && b[11] == r.id / 0x100_0000 % 0x100
            && b[12] == r.ptype && b[13] == r.access && b[14] == 0 && b[15] == 0
            && b[16 + k] == if k < |r.name| then r.name[k] else 0
  {
    var b := Encode(r);
    HeaderBytes(r);
    Fields(r);
    FourDigits(r.id);
    assert b[8..12][0] == b[8] && b[8..12][1] == b[9] && b[8..12][2] == b[10] && b[8..12][3] == b[11];
    assert b[12..16][0] == b[12] && b[12..16][1] == b[13] && b[12..16][2] == b[14] && b[12..16][3] == b[15];
    assert b[16..80][k] == b[16 + k];
  }

  lemma FourDigits(x: nat)
    ensures LittleEndian(x, 4) == [x % 0x100, x / 0x100 % 0x100, x / 0x1_0000 % 0x100, x / 0x100_0000 % 0x100]
  {
    assert LittleEndian(x, 4) == [x % 256] + LittleEndian(x / 256, 3);
    assert LittleEndian(x / 256, 3) == [x / 256 % 256] + LittleEndian(x / 256 / 256, 2);
    assert LittleEndian(x / 256 / 256, 2) == [x / 256 / 256 % 256, x / 256 / 256 / 256 % 256];
  }

  lemma HeaderBytes(r: Record)
    requires Acceptable(r) && |r.name| <= NAME_MAX
    ensures var b := Encode(r);
            && b[0] == 0x41 && b[1] == 0x54 && b[2] == 0x4C && b[3] == 0x44
            && b[4] == 1 && b[5] == 0 && b[6] == r.op && b[7] == 0
  {
    var b := Encode(r);
    Fields(r);
    assert LittleEndian(DELTA_MAGIC, 4) == [0x41, 0x54, 0x4C, 0x44];
    assert LittleEndian(1, 2) == [1, 0];
    assert LittleEndian(r.op, 2) == [r.op % 256, r.op / 256 % 256];
    assert b[0..4][0] == b[0] && b[0..4][1] == b[1] && b[0..4][2] == b[2] && b[0..4][3] == b[3];
    assert b[4..6][0] == b[4] && b[4..6][1] == b[5] && b[6..8][0] == b[6] && b[6..8][1] == b[7];
  }

  // ---- Replay ----

  /** delta_apply: the record as a partition-0 command. */
  function AsCommand(r: Record): Command
    requires Acceptable(r) && r.id < U32_RANGE
  {
    if r.op == OP_CREATE then CreateCmd(Key(0, r.name), r.id, r.ptype, r.access)
    else if r.op == OP_DELETE then DeleteCmd(0, r.id)
    else RenameCmd(Key(0, r.name), r.id)
  }

  lemma {:induction false} ValueBound(b: seq<byte>)
    ensures Value(b) < Pow256(|b|)
    decreases |b|
  {
    if b != [] {
      ValueBound(b[1..]);
    }
  }

  lemma DecodedIdFits(b: seq<byte>)
    requires |b| == RECORD_SIZE
    ensures Decode(b).id < U32_RANGE
  {
    ValueBound(b[8..12]);
    assert Pow256(1) == 256 && Pow256(2) == 0x1_0000 && Pow256(3) == 0x100_0000 && Pow256(4) == 0x1_0000_0000;
  }

  /** The loop of irt_delta_replay on what is left of the file: the handle after
   *  it and the number of records applied.  It ends at the end of the file, at
   *  a fragment, and at the first record it does not accept. */
  function ReplayFrom(hf: Hash, h: Handle, file: seq<byte>): (r: (Handle, nat))
    requires |h.seg.slots| > 0
    ensures |r.0.seg.slots| == |h.seg.slots|
    decreases |file|
  {
    if |file| < RECORD_SIZE then (h, 0)
    else
      var rec := Decode(file[..RECORD_SIZE]);
      if !Acceptable(rec) then (h, 0)
      else
        DecodedIdFits(file[..RECORD_SIZE]);
        var (h', n) := ReplayFrom(hf, LoggedStep(hf, h, AsCommand(rec)), file[RECORD_SIZE..]);
        (h', n + 1)
  }

  /** A replay that started at `start` has reached pos with `now` after applying
   *  that many records. */
  ghost predicate Replaying(hf: Hash, start: Handle, file: seq<byte>, now: Handle, pos: nat, applied: nat)
    requires |start.seg.slots| > 0 && |now.seg.slots| > 0 && pos <= |file|
  {
    var whole, rest := ReplayFrom(hf, start, file), ReplayFrom(hf, now, file[pos..]);
    whole.0 == rest.0 && whole.1 == applied + rest.1
  }

  lemma FirstRecordAt(file: seq<byte>, pos: nat)
    requires pos + RECORD_SIZE <= |file|
    ensures file[pos..][..RECORD_SIZE] == file[pos..pos + RECORD_SIZE]
    ensures file[pos..][RECORD_SIZE..] == file[pos + RECORD_SIZE..]
  {
  }

  lemma FirstRecordOf(a: seq<byte>, b: seq<byte>)
    requires |a| >= RECORD_SIZE
    ensures (a + b)[..RECORD_SIZE] == a[..RECORD_SIZE] && (a + b)[RECORD_SIZE..] == a[RECORD_SIZE..] + b
  {
  }

  lemma ReplayingStep(hf: Hash, start: Handle, file: seq<byte>, now: Handle, pos: nat, applied: nat)
    requires |start.seg.slots| > 0 && |now.seg.slots| > 0 && pos + RECORD_SIZE <= |file|
    requires Replaying(hf, start, file, now, pos, applied)
    ensures var r := Decode(file[pos..pos + RECORD_SIZE]);
            if Acceptable(r) then
              r.id < U32_RANGE
              && Replaying(hf, start, file, LoggedStep(hf, now, AsCommand(r)), pos + RECORD_SIZE, applied + 1)
            else ReplayFrom(hf, start, file) == (now, applied)
  {
    FirstRecordAt(file, pos);
    DecodedIdFits(file[pos..pos + RECORD_SIZE]);
  }

  /** indurtdb_h_delta_replay: logging is off while the file is replayed. */
  function Replay(hf: Hash, h: Handle, file: seq<byte>): (r: (Handle, nat))
    requires |h.seg.slots| > 0
    ensures |r.0.seg.slots| == |h.seg.slots|
  {
    var (h', n) := ReplayFrom(hf, h.(enabled := false), file);
    (h'.(enabled := h.enabled), n)
  }

  lemma {:induction false} ReplayFromLogsNothing(hf: Hash, h: Handle, file: seq<byte>)
    requires |h.seg.slots| > 0 && !h.enabled
    ensures var h' := ReplayFrom(hf, h, file).0; h'.log == h.log && !h'.enabled
    decreases |file|
  {
    if |file| >= RECORD_SIZE {
      var rec := Decode(file[..RECORD_SIZE]);
      if Acceptable(rec) {
        DecodedIdFits(file[..RECORD_SIZE]);
        ReplayFromLogsNothing(hf, LoggedStep(hf, h, AsCommand(rec)), file[RECORD_SIZE..]);
      }
    }
  }

  /** Replay adds no record to the log, whatever the file holds. */
  lemma ReplayLogsNothing(hf: Hash, h: Handle, file: seq<byte>)
    requires |h.seg.slots| > 0
    ensures var h' := Replay(hf, h, file).0; h'.log == h.log && h'.enabled == h.enabled
  {
    ReplayFromLogsNothing(hf, h.(enabled := false), file);
  }

  /** A fragment shorter than a record, at the end of the file, changes nothing
   *  when the rest of the file is whole records. */
  lemma {:induction false} FragmentIgnored(hf: Hash, h: Handle, file: seq<byte>, fragment: seq<byte>)
    requires |h.seg.slots| > 0 && |file| % RECORD_SIZE == 0 && |fragment| < RECORD_SIZE
    ensures ReplayFrom(hf, h, file + fragment) == ReplayFrom(hf, h, file)
    decreases |file|
  {
    if |file| >= RECORD_SIZE {
      var head, tail := file[..RECORD_SIZE], file[RECORD_SIZE..];
      FirstRecordOf(file, fragment);
      DecodedIdFits(head);
      if Acceptable(Decode(head)) {
        var next := LoggedStep(hf, h, AsCommand(Decode(head)));
        FragmentIgnored(hf, next, tail, fragment);
        assert ReplayFrom(hf, h, file).0 == ReplayFrom(hf, next, tail).0;
        assert ReplayFrom(hf, h, file + fragment).0 == ReplayFrom(hf, next, tail + fragment).0;
      }
    }
  }

  // ---- Replay rebuilds the registry ----

  /** What the log is meant to preserve: each point's partition, name and access.
   *  The type is left out, because value writes change it and are not logged. */
  datatype Identity = Identity(key: Key, access: byte)

  ghost function Identities(m: Map): map<u32, Identity> {
    map id: u32 | id in m :: Identity(m[id].key, m[id].access)
  }

  lemma SameCarriers(m: Map, k: Map)
    requires Identities(m) == Identities(k)
    ensures forall id: u32, key: Key :: Carries(m, id, key) <==> Carries(k, id, key)
    ensures m.Keys == k.Keys
  {
    forall id: u32
      ensures id in m <==> id in k
      ensures id in m && id in k ==> m[id].key == k[id].key && m[id].access == k[id].access
    {
      assert id in m <==> id in Identities(m);
      assert id in k <==> id in Identities(k);
      if id in m {
        assert Identities(m)[id] == Identities(k)[id];
      }
    }
  }

  lemma SameIdentitiesSameFind(m: Map, k: Map, key: Key)
    requires Identities(m) == Identities(k) && Injective(m) && Injective(k)
    ensures Find(m, key) == Find(k, key)
  {
    SameCarriers(m, k);
    var a, b := Find(m, key), Find(k, key);
    if a.Some? {
      assert Carries(k, a.value, key);
    }
  }

  /** Creates, deletes and renames of partition 0, finds, and value writes. */
  predicate PartitionZero(c: Command) {
    match c
    case CreateCmd(key, _, _, _) => key.partition == 0
    case DeleteCmd(partition, _) => partition == 0
    case RenameCmd(key, _) => key.partition == 0
    case FindCmd(_) => true
    case WriteCmd(_, _, _, _) => true
  }

  lemma IdentitiesUpdated(m: Map, id: u32, e: Entry)
    ensures Identities(m[id := e]) == Identities(m)[id := Identity(e.key, e.access)]
    ensures Identities(m - {id}) == Identities(m) - {id}
  {
  }

  /** A create, delete or rename acts alike on two maps with the same identities. */
  lemma SpecStepOnIdentities(m: Map, k: Map, max: nat, c: Command)
    requires Identities(m) == Identities(k) && !c.FindCmd? && !c.WriteCmd?
    ensures SpecStep(m, max, c).1 == SpecStep(k, max, c).1
    ensures Identities(SpecStep(m, max, c).0) == Identities(SpecStep(k, max, c).0)
  {
    SameCarriers(m, k);
    var id := c.id;
    if id in m {
      assert Identities(m)[id] == Identities(k)[id];
    }
    match c {
      case CreateCmd(key, _, ptype, access) =>
        IdentitiesUpdated(m, id, if 0 <= ptype < 256 && 0 <= access < 256 then Entry(key, ptype, access) else Entry(key, 0, 0));
        IdentitiesUpdated(k, id, if 0 <= ptype < 256 && 0 <= access < 256 then Entry(key, ptype, access) else Entry(key, 0, 0));
      case DeleteCmd(partition, _) =>
        IdentitiesUpdated(m, id, Entry(Key(0, []), 0, 0));
        IdentitiesUpdated(k, id, Entry(Key(0, []), 0, 0));
      case RenameCmd(key, _) =>
        if id in m {
          IdentitiesUpdated(m, id, m[id].(key := key));
          IdentitiesUpdated(k, id, k[id].(key := key));
        }
    }
  }

  /** A command is logged iff it succeeded and is a create, a delete, or a rename
   *  to another name, in whatever partition; its record stands for the same
   *  command in partition 0, since it has no place for the partition. */
  lemma RecordLosesPartition(hf: Hash, st: Seg, c: Command)
    requires |st.slots| > 0 && NamesFit(c)
    ensures LogRecord(hf, st, c).Some? <==> IsLogged(hf, st, c)
    ensures IsLogged(hf, st, c) ==>
              var r := LogRecord(hf, st, c).value;
              Acceptable(r) && r.id < U32_RANGE && AsCommand(r) == InPartitionZero(c)
  {
  }

  predicate IsLogged(hf: Hash, st: Seg, c: Command)
    requires |st.slots| > 0
  {
    && Step(hf, st, c).1.code == OK
    && (c.CreateCmd? || c.DeleteCmd? || (c.RenameCmd? && c.id < |st.pts| && st.pts[c.id].name != c.key.name))
  }

  function InPartitionZero(c: Command): Command {
    match c
    case CreateCmd(key, id, ptype, access) => CreateCmd(Key(0, key.name), id, ptype, access)
    case DeleteCmd(_, id) => DeleteCmd(0, id)
    case RenameCmd(key, id) => RenameCmd(Key(0, key.name), id)
    case _ => c
  }

  /** A logged record stands for the very command that was logged. */
  lemma RecordIsCommand(hf: Hash, st: Seg, c: Command)
    requires |st.slots| > 0 && NamesFit(c) && PartitionZero(c) && LogRecord(hf, st, c).Some?
    ensures var r := LogRecord(hf, st, c).value;
            Acceptable(r) && r.id < U32_RANGE && AsCommand(r) == c
  {
  }

  lemma SpecKeepsIdentities(m: Map, max: nat, c: Command)
    requires || c.FindCmd? || c.WriteCmd? || SpecStep(m, max, c).1.code != OK
             || (c.RenameCmd? && c.id in m && m[c.id].key == c.key)
    ensures Identities(SpecStep(m, max, c).0) == Identities(m)
  {
    if c.WriteCmd? && c.id in m {
      IdentitiesUpdated(m, c.id, m[c.id].(ptype := c.valueType));
    } else if c.RenameCmd? && c.id in m {
      IdentitiesUpdated(m, c.id, m[c.id].(key := c.key));
    }
  }

  /** A command without a record leaves all identities alone. */
  lemma UnloggedKeepsIdentities(hf: Hash, st: Seg, c: Command)
    requires Inv(hf, st) && NamesFit(c) && LogRecord(hf, st, c).None?
    ensures Identities(Abs(Step(hf, st, c).0.pts)) == Identities(Abs(st.pts))
  {
    StepRefines(hf, st, c);
    UnloggedIsSpecIdle(hf, st, c);
    SpecKeepsIdentities(Abs(st.pts), |st.pts|, c);
  }

  lemma UnloggedIsSpecIdle(hf: Hash, st: Seg, c: Command)
    requires Inv(hf, st) && NamesFit(c) && LogRecord(hf, st, c).None?
    ensures var m := Abs(st.pts);
            || c.FindCmd? || c.WriteCmd? || Step(hf, st, c).1.code != OK
            || (c.RenameCmd? && c.id in m && m[c.id].key == c.key)
  {
  }

  /** The bytes a run of commands appends to an enabled log. */
  function Appended(hf: Hash, st: Seg, cmds: seq<Command>): seq<byte>
    requires |st.slots| > 0
    decreases |cmds|
  {
    if cmds == [] then []
    else
      BytesOf(LogRecord(hf, st, cmds[0])) + Appended(hf, Step(hf, st, cmds[0]).0, cmds[1..])
  }

  lemma {:induction false} LoggedRunRuns(hf: Hash, h: Handle, cmds: seq<Command>)
    requires |h.seg.slots| > 0
    ensures LoggedRun(hf, h, cmds).seg == Run(hf, h.seg, cmds).0
    decreases |cmds|
  {
    if cmds != [] {
      LoggedRunRuns(hf, LoggedStep(hf, h, cmds[0]), cmds[1..]);
    }
  }

  lemma ConcatAssociates(a: seq<byte>, b: seq<byte>, c: seq<byte>)
    ensures (a + b) + c == a + (b + c)
  {
  }

  lemma {:induction false} LoggedRunAppends(hf: Hash, h: Handle, cmds: seq<Command>)
    requires |h.seg.slots| > 0 && h.enabled
    ensures LoggedRun(hf, h, cmds).log == h.log + Appended(hf, h.seg, cmds)
    decreases |cmds|
  {
    if cmds != [] {
      var h1 := LoggedStep(hf, h, cmds[0]);
      LoggedRunAppends(hf, h1, cmds[1..]);
      var bytes, rest := BytesOf(LogRecord(hf, h.seg, cmds[0])), Appended(hf, h1.seg, cmds[1..]);
      ConcatAssociates(h.log, bytes, rest);
    }
  }

  /** Replaying what a run appended, on a registry with the identities the run
   *  started from, leads to the identities the run ended with. */
  lemma {:induction false} ReplayFollowsRun(hf: Hash, st: Seg, b: Handle, cmds: seq<Command>)
    requires Inv(hf, st) && Inv(hf, b.seg) && |st.pts| == |b.seg.pts| && !b.enabled
    requires Identities(Abs(st.pts)) == Identities(Abs(b.seg.pts))
    requires forall k :: 0 <= k < |cmds| ==> NamesFit(cmds[k]) && PartitionZero(cmds[k])
    ensures var (b', n) := ReplayFrom(hf, b, Appended(hf, st, cmds));
            && Inv(hf, b'.seg) && Inv(hf, Run(hf, st, cmds).0)
            && Identities(Abs(Run(hf, st, cmds).0.pts)) == Identities(Abs(b'.seg.pts))
            && RECORD_SIZE * n == |Appended(hf, st, cmds)|
    decreases |cmds|
  {
    if cmds != [] {
      var c := cmds[0];
      var st1 := Step(hf, st, c).0;
      StepRefines(hf, st, c);
      if LogRecord(hf, st, c).None? {
        UnloggedKeepsIdentities(hf, st, c);
        assert Appended(hf, st, cmds) == Appended(hf, st1, cmds[1..]);
        ReplayFollowsRun(hf, st1, b, cmds[1..]);
      } else {
        ReplayOneRecord(hf, st, b, c, Appended(hf, st1, cmds[1..]));
        ReplayFollowsRun(hf, st1, LoggedStep(hf, b, c), cmds[1..]);
      }
    }
  }

  /** How many commands of a run are logged. */
  function LoggedCount(hf: Hash, st: Seg, cmds: seq<Command>): nat
    requires |st.slots| > 0
    decreases |cmds|
  {
    if cmds == [] then 0
    else (if IsLogged(hf, st, cmds[0]) then 1 else 0) + LoggedCount(hf, Step(hf, st, cmds[0]).0, cmds[1..])
  }

  lemma {:induction false} AppendedSize(hf: Hash, st: Seg, cmds: seq<Command>)
    requires |st.slots| > 0 && forall k :: 0 <= k < |cmds| ==> NamesFit(cmds[k])
    ensures |Appended(hf, st, cmds)| == 80 * LoggedCount(hf, st, cmds)
    decreases |cmds|
  {
    if cmds != [] {
      RecordLosesPartition(hf, st, cmds[0]);
      AppendedSize(hf, Step(hf, st, cmds[0]).0, cmds[1..]);
    }
  }

  /** Replaying what a run appended applies one record for each command of the
   *  run that was logged. */
  lemma ReplayCountsCommands(hf: Hash, st: Seg, b: Handle, cmds: seq<Command>)
    requires SameButTypes(hf, b.seg, st) && !b.enabled && Loggable(cmds)
    ensures ReplayFrom(hf, b, Appended(hf, st, cmds)).1 == LoggedCount(hf, st, cmds)
  {
    ReplayFollowsRun(hf, st, b, cmds);
    AppendedSize(hf, st, cmds);
  }

  lemma CutOff(head: seq<byte>, rest: seq<byte>)
    requires |head| == RECORD_SIZE
    ensures (head + rest)[..RECORD_SIZE] == head && (head + rest)[RECORD_SIZE..] == rest
  {
  }

  lemma ReplayReadsRecord(hf: Hash, b: Handle, r: Record, c: Command, rest: seq<byte>)
    requires |b.seg.slots| > 0 && Encodable(r) && Acceptable(r) && r.id < U32_RANGE && AsCommand(r) == c
    ensures var b1 := LoggedStep(hf, b, c);
            ReplayFrom(hf, b, Encode(r) + rest) == (ReplayFrom(hf, b1, rest).0, ReplayFrom(hf, b1, rest).1 + 1)
  {
    DecodeOfEncode(r);
    CutOff(Encode(r), rest);
  }

  lemma ReplayOneRecord(hf: Hash, st: Seg, b: Handle, c: Command, rest: seq<byte>)
    requires Inv(hf, st) && Inv(hf, b.seg) && |st.pts| == |b.seg.pts| && !b.enabled
    requires Identities(Abs(st.pts)) == Identities(Abs(b.seg.pts))
    requires NamesFit(c) && PartitionZero(c) && LogRecord(hf, st, c).Some?
    ensures var b1 := LoggedStep(hf, b, c);
            && Inv(hf, b1.seg) && |b1.seg.pts| == |st.pts| && !b1.enabled
            && Identities(Abs(Step(hf, st, c).0.pts)) == Identities(Abs(b1.seg.pts))
            && ReplayFrom(hf, b, BytesOf(LogRecord(hf, st, c)) + rest)
               == (ReplayFrom(hf, b1, rest).0, ReplayFrom(hf, b1, rest).1 + 1)
  {
    RecordIsCommand(hf, st, c);
    ReplayReadsRecord(hf, b, LogRecord(hf, st, c).value, c, rest);
    StepRefines(hf, st, c);
    StepRefines(hf, b.seg, c);
    SpecStepOnIdentities(Abs(st.pts), Abs(b.seg.pts), |st.pts|, c);
  }

  lemma {:induction false} ReplayUnfolds(hf: Hash, h: Handle, file: seq<byte>)
    requires |h.seg.slots| > 0 && |file| >= RECORD_SIZE && Acceptable(Decode(file[..RECORD_SIZE]))
    ensures Decode(file[..RECORD_SIZE]).id < U32_RANGE
    ensures var rest := ReplayFrom(hf, LoggedStep(hf, h, AsCommand(Decode(file[..RECORD_SIZE]))), file[RECORD_SIZE..]);
            ReplayFrom(hf, h, file) == (rest.0, rest.1 + 1)
  {
    DecodedIdFits(file[..RECORD_SIZE]);
  }

  /** Replaying a log that is consumed whole, and then more, is replaying the
   *  rest on what the first part gave. */
  lemma {:induction false} ReplaySplits(hf: Hash, h: Handle, a: seq<byte>, b: seq<byte>)
    requires |h.seg.slots| > 0 && RECORD_SIZE * ReplayFrom(hf, h, a).1 == |a|
    ensures var (h1, m) := ReplayFrom(hf, h, a);
            var (h2, n) := ReplayFrom(hf, h1, b);
            ReplayFrom(hf, h, a + b) == (h2, m + n)
    decreases |a|
  {
    if a == [] {
      assert a + b == b;
    } else {
      FirstRecordOf(a, b);
      ReplayUnfolds(hf, h, a);
      ReplayUnfolds(hf, h, a + b);
      ReplaySplits(hf, LoggedStep(hf, h, AsCommand(Decode(a[..RECORD_SIZE]))), a[RECORD_SIZE..], b);
    }
  }

  /** Replaying the handle's log on the restarted registry uses up the whole log
   *  and gives the handle's registry, types aside. */
  ghost predicate Restores(hf: Hash, restart: Handle, h: Handle)
    requires |restart.seg.slots| > 0
  {
    var (back, n) := Replay(hf, restart, h.log);
    SameButTypes(hf, back.seg, h.seg) && RECORD_SIZE * n == |h.log|
  }

  predicate Loggable(cmds: seq<Command>) {
    forall k :: 0 <= k < |cmds| ==> NamesFit(cmds[k]) && PartitionZero(cmds[k])
  }

  /** Good registries of one size that agree on everything but point types. */
  ghost predicate SameButTypes(hf: Hash, a: Seg, b: Seg) {
    && Inv(hf, a) && Inv(hf, b) && |a.pts| == |b.pts|
    && Identities(Abs(a.pts)) == Identities(Abs(b.pts))
  }

  lemma AppendedFollows(hf: Hash, st: Seg, b: Handle, cmds: seq<Command>)
    requires SameButTypes(hf, b.seg, st) && !b.enabled && Loggable(cmds)
    ensures var (b', n) := ReplayFrom(hf, b, Appended(hf, st, cmds));
            SameButTypes(hf, b'.seg, Run(hf, st, cmds).0) && RECORD_SIZE * n == |Appended(hf, st, cmds)|
  {
    ReplayFollowsRun(hf, st, b, cmds);
    RunKeepsSize(hf, st, cmds);
    ReplayKeepsSize(hf, b, Appended(hf, st, cmds));
  }

  /** A run with the log on keeps the log restoring. */
  lemma RunRestores(hf: Hash, restart: Handle, h: Handle, cmds: seq<Command>)
    requires |restart.seg.slots| > 0 && Restores(hf, restart, h) && h.enabled && Loggable(cmds)
    ensures Restores(hf, restart, LoggedRun(hf, h, cmds)) && LoggedRun(hf, h, cmds).enabled
  {
    var quiet := restart.(enabled := false);
    var bytes := Appended(hf, h.seg, cmds);
    LoggedRunRuns(hf, h, cmds);
    LoggedRunAppends(hf, h, cmds);
    LoggedRunEnabled(hf, h, cmds);
    ReplayFromLogsNothing(hf, quiet, h.log);
    AppendedFollows(hf, h.seg, ReplayFrom(hf, quiet, h.log).0, cmds);
    ReplaySplits(hf, quiet, h.log, bytes);
  }

  lemma {:induction false} LoggedRunEnabled(hf: Hash, h: Handle, cmds: seq<Command>)
    requires |h.seg.slots| > 0
    ensures LoggedRun(hf, h, cmds).enabled == h.enabled
    decreases |cmds|
  {
    if cmds != [] {
      LoggedRunEnabled(hf, LoggedStep(hf, h, cmds[0]), cmds[1..]);
    }
  }

  lemma {:induction false} RunKeepsSize(hf: Hash, st: Seg, cmds: seq<Command>)
    requires |st.slots| > 0
    ensures |Run(hf, st, cmds).0.pts| == |st.pts|
    decreases |cmds|
  {
    if cmds != [] {
      RunKeepsSize(hf, Step(hf, st, cmds[0]).0, cmds[1..]);
    }
  }

  lemma {:induction false} ReplayKeepsSize(hf: Hash, h: Handle, file: seq<byte>)
    requires |h.seg.slots| > 0
    ensures |ReplayFrom(hf, h, file).0.seg.pts| == |h.seg.pts|
    decreases |file|
  {
    if |file| >= RECORD_SIZE && Acceptable(Decode(file[..RECORD_SIZE])) {
      DecodedIdFits(file[..RECORD_SIZE]);
      ReplayKeepsSize(hf, LoggedStep(hf, h, AsCommand(Decode(file[..RECORD_SIZE]))), file[RECORD_SIZE..]);
    }
  }

  /** After any run of partition-0 commands with the log on, whatever the log
   *  already held as long as it restored the registry the run began with,
   *  reloading the base and replaying the log, even with a torn last record,
   *  gives a registry with the same ids, names and access and the same answer to
   *  every search. */
  lemma ReplayRebuilds(hf: Hash, restart: Handle, h: Handle, cmds: seq<Command>, fragment: seq<byte>, key: Key)
    requires |restart.seg.slots| > 0 && Restores(hf, restart, h) && h.enabled && Loggable(cmds)
    requires |fragment| < RECORD_SIZE && NameFits(key)
    ensures var live := LoggedRun(hf, h, cmds);
            var (back, n) := Replay(hf, restart, live.log + fragment);
            && |live.seg.slots| > 0 && Inv(hf, live.seg) && Inv(hf, back.seg)
            && Identities(Abs(back.seg.pts)) == Identities(Abs(live.seg.pts))
            && Lookup(hf, back.seg, key) == Lookup(hf, live.seg, key)
            && back.log == restart.log && RECORD_SIZE * n == |live.log|
  {
    RunRestores(hf, restart, h, cmds);
    var live, quiet := LoggedRun(hf, h, cmds), restart.(enabled := false);
    RestoredFinds(hf, restart, live, key);
    Multiple(|live.log|, RECORD_SIZE, ReplayFrom(hf, quiet, live.log).1);
    FragmentIgnored(hf, quiet, live.log, fragment);
    ReplayFromLogsNothing(hf, quiet, live.log + fragment);
  }

  lemma RestoredFinds(hf: Hash, restart: Handle, h: Handle, key: Key)
    requires |restart.seg.slots| > 0 && Restores(hf, restart, h) && NameFits(key)
    ensures |h.seg.slots| > 0 && Lookup(hf, Replay(hf, restart, h.log).0.seg, key) == Lookup(hf, h.seg, key)
  {
    var back := Replay(hf, restart, h.log).0;
    LookupRefines(hf, h.seg, key);
    LookupRefines(hf, back.seg, key);
    InvIsInjective(hf, h.seg);
    InvIsInjective(hf, back.seg);
    SameIdentitiesSameFind(Abs(back.seg.pts), Abs(h.seg.pts), key);
  }

  /** The daemon's start on a registry loaded from the base: replay the log, then
   *  open the same file for appending. */
  function Started(hf: Hash, base: Seg, log: seq<byte>): (h: Handle)
    requires |base.slots| > 0
    ensures |h.seg.slots| == |base.slots|
  {
    Replay(hf, Handle(base, log, false), log).0.(enabled := true)
  }

  /** One life of the daemon after the other, on one log file. */
  function AfterLives(hf: Hash, base: Seg, lives: seq<seq<Command>>): (h: Handle)
    requires |base.slots| > 0
    decreases |lives|
  {
    if lives == [] then Started(hf, base, [])
    else
      LoggedRun(hf, Started(hf, base, AfterLives(hf, base, lives[..|lives| - 1]).log), lives[|lives| - 1])
  }

  /** Any number of restarts: every start finds the registry the life before
   *  ended with, types aside, and answers every search as that one did. */
  lemma {:induction false} EveryStartRebuilds(hf: Hash, base: Seg, lives: seq<seq<Command>>, key: Key)
    requires Inv(hf, base) && NameFits(key) && forall i :: 0 <= i < |lives| ==> Loggable(lives[i])
    ensures var h := AfterLives(hf, base, lives);
            var next := Started(hf, base, h.log);
            && Inv(hf, h.seg) && Inv(hf, next.seg) && next.log == h.log
            && Identities(Abs(next.seg.pts)) == Identities(Abs(h.seg.pts))
            && Lookup(hf, next.seg, key) == Lookup(hf, h.seg, key)
    decreases |lives|
  {
    LivesRestore(hf, base, lives);
    var h := AfterLives(hf, base, lives);
    StartRestores(hf, base, h);
    RestoredFinds(hf, Handle(base, h.log, false), h, key);
  }

  lemma {:induction false} LivesRestore(hf: Hash, base: Seg, lives: seq<seq<Command>>)
    requires Inv(hf, base) && forall i :: 0 <= i < |lives| ==> Loggable(lives[i])
    ensures var h := AfterLives(hf, base, lives);
            h.enabled && Restores(hf, Handle(base, h.log, false), h)
    decreases |lives|
  {
    if lives != [] {
      var n := |lives| - 1;
      LivesRestore(hf, base, lives[..n]);
      var h := AfterLives(hf, base, lives[..n]);
      StartRestores(hf, base, h);
      var next := Started(hf, base, h.log);
      RunRestores(hf, Handle(base, h.log, false), next, lives[n]);
      var live := LoggedRun(hf, next, lives[n]);
      LogOfRestartIgnored(hf, base, h.log, live.log, live.log);
    }
  }

  /** Starting on a restoring log gives a handle that the log restores. */
  lemma StartRestores(hf: Hash, base: Seg, h: Handle)
    requires |base.slots| > 0 && Restores(hf, Handle(base, h.log, false), h)
    ensures var next := Started(hf, base, h.log);
            && next.log == h.log && next.enabled
            && Restores(hf, Handle(base, h.log, false), next)
            && Identities(Abs(next.seg.pts)) == Identities(Abs(h.seg.pts))
  {
    ReplayLogsNothing(hf, Handle(base, h.log, false), h.log);
  }

  /** What a replay makes of the registry does not depend on the restarted
   *  handle's own log. */
  lemma {:induction false} LogOfRestartIgnored(hf: Hash, base: Seg, l1: seq<byte>, l2: seq<byte>, file: seq<byte>)
    requires |base.slots| > 0
    ensures var r1, r2 := ReplayFrom(hf, Handle(base, l1, false), file), ReplayFrom(hf, Handle(base, l2, false), file);
            r1.0.seg == r2.0.seg && r1.1 == r2.1
    decreases |file|
  {
    if |file| >= RECORD_SIZE && Acceptable(Decode(file[..RECORD_SIZE])) {
      var head, tail := file[..RECORD_SIZE], file[RECORD_SIZE..];
      DecodedIdFits(head);
      var c := AsCommand(Decode(head));
      assert LoggedStep(hf, Handle(base, l1, false), c) == Handle(Step(hf, base, c).0, l1, false);
      assert LoggedStep(hf, Handle(base, l2, false), c) == Handle(Step(hf, base, c).0, l2, false);
      LogOfRestartIgnored(hf, Step(hf, base, c).0, l1, l2, tail);
    }
  }

  // ---- A short write in the middle of the log ----

  lemma TwoBytes(b: seq<byte>)
    requires |b| == 2
    ensures Value(b) == (b[0] as nat) + 256 * (b[1] as nat)
  {
    assert Value(b[1..]) == (b[1] as nat) + 256 * Value(b[1..][1..]);
  }

  lemma FourBytes(b: seq<byte>)
    requires |b| == 4
    ensures Value(b) == (b[0] as nat) + 256 * (b[1] as nat) + 0x1_0000 * (b[2] as nat) + 0x100_0000 * (b[3] as nat)
  {
    assert b[2..] == b[1..][1..];
    TwoBytes(b[2..]);
    assert Value(b[1..]) == (b[1] as nat) + 256 * Value(b[2..]);
  }

  lemma AcceptableBytes(b: seq<byte>)
    requires |b| == RECORD_SIZE
    ensures Acceptable(Decode(b)) <==>
              && b[0] == 0x41 && b[1] == 0x54 && b[2] == 0x4C && b[3] == 0x44
              && b[4] == 1 && b[5] == 0 && 1 <= b[6] <= 3 && b[7] == 0
  {
    FourBytes(b[0..4]);
    TwoBytes(b[4..6]);
    TwoBytes(b[6..8]);
  }

  /** The first 80 bytes behind a short write: the torn record continued by the
   *  head of the next one. */
  function Forged(torn: Record, next: Record, k: nat): (b: seq<byte>)
    requires k < RECORD_SIZE && |torn.name| <= NAME_MAX && |next.name| <= NAME_MAX
    ensures |b| == RECORD_SIZE
  {
    Encode(torn)[..k] + Encode(next)[..RECORD_SIZE - k]
  }

  function ForgedByte(torn: Record, next: Record, k: nat, i: nat): byte
    requires k < RECORD_SIZE && i < 8 && |torn.name| <= NAME_MAX && |next.name| <= NAME_MAX
  {
    if i < k then Encode(torn)[i] else Encode(next)[i - k]
  }

  lemma ForgedAcceptedIff(torn: Record, next: Record, k: nat)
    requires 0 < k < RECORD_SIZE && Acceptable(torn) && Encodable(torn) && Acceptable(next) && Encodable(next)
    ensures Acceptable(Decode(Forged(torn, next, k))) <==> k >= 8
    ensures k >= 8 ==> Decode(Forged(torn, next, k)).op == torn.op
  {
    HeaderBytes(torn);
    HeaderBytes(next);
    var b := Forged(torn, next, k);
    assert forall i :: 0 <= i < 8 ==> b[i] == ForgedByte(torn, next, k, i);
    AcceptableBytes(b);
    TwoBytes(b[6..8]);
  }

  /** A record of which only k bytes reached the file, followed by a whole one:
   *  replay stops there only when k is below 8.  From 8 bytes on it takes the
   *  torn record together with the head of the next one for a record, and
   *  applies it. */
  lemma ShortWriteForgesRecord(hf: Hash, h: Handle, torn: Record, next: Record, k: nat, rest: seq<byte>)
    requires |h.seg.slots| > 0 && 0 < k < RECORD_SIZE
    requires Acceptable(torn) && Encodable(torn) && Acceptable(next) && Encodable(next)
    ensures var file := Encode(torn)[..k] + Encode(next) + rest;
            && (ReplayFrom(hf, h, file).1 == 0 <==> k < 8)
            && (k < 8 ==> ReplayFrom(hf, h, file).0 == h)
            && (k >= 8 ==> Decode(file[..RECORD_SIZE]).op == torn.op)
  {
    ForgedAcceptedIff(torn, next, k);
    var file := Encode(torn)[..k] + Encode(next) + rest;
    assert file[..RECORD_SIZE] == Forged(torn, next, k);
    DecodedIdFits(file[..RECORD_SIZE]);
  }

  // ---- The instance in memory ----

  class Instance {
    const seg: Segment
    var log: seq<byte>
    var enabled: bool

    ghost predicate Valid()
      reads this, seg
    {
      seg.Valid()
    }

    ghost function View(): Handle
      reads this, seg, seg.slots, seg.pts
    {
      Handle(seg.View(), log, enabled)
    }

    constructor (seg: Segment)
      requires seg.Valid()
      ensures Valid() && this.seg == seg && View() == Handle(seg.View(), [], false)
    {
      this.seg := seg;
      log := [];
      enabled := false;
    }

    /** delta_log: one write of a record when the log is on, of which `wrote`
     *  bytes reach the file, and an fsync.  Anything but a whole record on disk
     *  is reported as an error, and what was written stays. */
    method Append(r: Record, wrote: nat, synced: bool) returns (ok: bool)
      requires |r.name| <= NAME_MAX && wrote <= RECORD_SIZE
      modifies this`log
      ensures log == old(log) + if enabled then Encode(r)[..wrote] else []
      ensures ok <==> !enabled || (wrote == RECORD_SIZE && synced)
    {
      ok := true;
      if enabled {
        log := log + Encode(r)[..wrote];
        ok := wrote == RECORD_SIZE && synced;
      }
    }

    method AppendWhole(r: Record)
      requires |r.name| <= NAME_MAX
      modifies this`log
      ensures log == old(log) + if enabled then Encode(r) else []
    {
      assert Encode(r)[..RECORD_SIZE] == Encode(r);
      var _ := Append(r, RECORD_SIZE, true);
    }

    method Create(partition: u32, id: u32, name: Name, ptype: int, access: int) returns (rc: Code)
      requires Valid()
      modifies this`log, seg`count, seg.slots, seg.pts
      ensures var c := CreateCmd(Key(partition, name), id, ptype, access);
              Valid() && View() == LoggedStep(seg.hf, old(View()), c) && rc == Step(seg.hf, old(View().seg), c).1.code
    {
      rc := CreatePointIn(seg, partition, id, name, ptype, access);
      if rc == OK {
        AppendWhole(Rec(OP_CREATE, id, ptype, access, name));
      }
    }

    method Delete(partition: u32, id: u32) returns (rc: Code)
      requires Valid()
      modifies this`log, seg`count, seg.slots, seg.pts
      ensures var c := DeleteCmd(partition, id);
              Valid() && View() == LoggedStep(seg.hf, old(View()), c) && rc == Step(seg.hf, old(View().seg), c).1.code
    {
      rc := DeletePointIn(seg, partition, id);
      if rc == OK {
        AppendWhole(Rec(OP_DELETE, id, 0, 0, []));
      }
    }

    method Rename(partition: u32, id: u32, name: Name) returns (rc: Code)
      requires Valid()
      modifies this`log, seg`count, seg.slots, seg.pts
      ensures var c := RenameCmd(Key(partition, name), id);
              Valid() && View() == LoggedStep(seg.hf, old(View()), c) && rc == Step(seg.hf, old(View().seg), c).1.code
    {
      var same := id < seg.pts.Length && seg.pts[id].name == name;
      rc := RenamePointIn(seg, partition, id, name);
      if rc == OK && !same {
        AppendWhole(Rec(OP_RENAME, id, seg.pts[id].ptype, seg.pts[id].access, name));
      }
    }

    /** delta_apply */
    method Apply(r: Record)
      requires Valid() && Acceptable(r) && r.id < U32_RANGE
      modifies this`log, seg`count, seg.slots, seg.pts
      ensures Valid() && View() == LoggedStep(seg.hf, old(View()), AsCommand(r))
    {
      if r.op == OP_CREATE {
        var _ := Create(0, r.id, r.name, r.ptype, r.access);
      } else if r.op == OP_DELETE {
        var _ := Delete(0, r.id);
      } else {
        var _ := Rename(0, r.id, r.name);
      }
    }

    /** Reading up to one record, with `left` bytes to the end of the file of
     *  which the first `readable` can be read: each read gives any positive
     *  number of the bytes asked for; at the end of the file it gives none, and
     *  past the readable bytes it fails. */
    static method ReadRecord(left: nat, readable: nat) returns (got: nat, failed: bool)
      requires readable <= left
      ensures failed <==> readable < left && readable < RECORD_SIZE
      ensures !failed ==> got == if left < RECORD_SIZE then left else RECORD_SIZE
    {
      got, failed := 0, false;
      while got < RECORD_SIZE && got < left && !failed
        invariant got <= RECORD_SIZE && got <= readable
        invariant failed ==> readable < left && readable < RECORD_SIZE
        decreases !failed, RECORD_SIZE - got
      {
        if got == readable {
          failed := true;
        } else {
          var k :| 1 <= k <= RECORD_SIZE - got && k <= readable - got;
          got := got + k;
        }
      }
    }

    /** indurtdb_h_delta_replay on a file of which the first `readable` bytes can
     *  be read.  Returns the number of records applied, or -1 when reading the
     *  next one runs into the unreadable part of the file. */
    method DeltaReplay(file: seq<byte>, readable: nat) returns (applied: int)
      requires Valid() && readable <= |file|
      modifies this, seg`count, seg.slots, seg.pts
      ensures var (h, n) := Replay(seg.hf, old(View()), file[..readable]);
              Valid() && View() == h && applied == if readable < |file| && readable < RECORD_SIZE * (n + 1) then -1 else n
    {
      var saved := enabled;
      enabled := false;
      applied := ReplayRecords(file, readable);
      enabled := saved;
    }

    /** The loop of irt_delta_replay. */
    method ReplayRecords(file: seq<byte>, readable: nat) returns (applied: int)
      requires Valid() && readable <= |file|
      modifies this`log, seg`count, seg.slots, seg.pts
      ensures var (h, n) := ReplayFrom(seg.hf, old(View()), file[..readable]);
              Valid() && View() == h && applied == if readable < |file| && readable < RECORD_SIZE * (n + 1) then -1 else n
    {
      ghost var start, text := View(), file[..readable];
      var n := 0;
      var pos := 0;
      while true
        invariant Valid() && pos <= readable && pos == RECORD_SIZE * n
        invariant Replaying(seg.hf, start, text, View(), pos, n)
        decreases |file| - pos
      {
        var got, failed := ReadRecord(|file| - pos, readable - pos);
        if failed || got != RECORD_SIZE {
          assert ReplayFrom(seg.hf, View(), text[pos..]) == (View(), 0);
          return if failed then -1 else n;
        }
        assert text[pos..pos + RECORD_SIZE] == file[pos..pos + RECORD_SIZE];
        ReplayingStep(seg.hf, start, text, View(), pos, n);
        var r := Decode(file[pos..pos + RECORD_SIZE]);
        if !Acceptable(r) {
          return n;
        }
        Apply(r);
        n := n + 1;
        pos := pos + RECORD_SIZE;
      }
    }
  }
}
