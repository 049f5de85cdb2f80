/** Resource records: the layout of section 4.1.3 of RFC 1035 and the cursor the program moves over it. */
module Records {
  import opened CStrings
  import opened NameCodec
  import opened NameReader
  import opened NameWalk
  import opened Options

  // ----- Reference: the standard's layout -----

  /** A resource record; `dataAt` and `end` are offsets in the message. */
  datatype Record = Record(owner: Name, rtype: nat, rclass: nat, dataAt: nat, dataLen: nat)
  {
    function End(): nat {
      dataAt + dataLen
    }
  }

  function ByteAt(buf: seq<Byte>, i: nat): int {
    if i < |buf| then buf[i] else 0
  }

  /** A 16-bit field in network order. */
  function Be16(buf: seq<Byte>, i: nat): int {
    ByteAt(buf, i) * 256 + ByteAt(buf, i + 1)
  }

  function ParseRecord(buf: seq<Byte>, off: nat): Option<Record> {
    match ReadLabels(buf, off, off) {
      case None => None
      case Some(n) =>
        var r := Record(n, Be16(buf, n.end), Be16(buf, n.end + 2), n.end + 10, Be16(buf, n.end + 8));
        if r.End() > |buf| then None else Some(r)
    }
  }

  function SectionEnd(off: nat, rs: seq<Record>): nat {
    if rs == [] then off else rs[|rs| - 1].End()
  }

  // ----- What the program reads -----

  /** A 16-bit load on the program's little-endian host. */
  function Le16(buf: seq<Byte>, i: nat): int {
    ByteAt(buf, i) + ByteAt(buf, i + 1) * 256
  }

  /** The fields the decoders extract with the cursor at `k`. */
  datatype View = View(nameAt: nat, rtype: int, rclass: int, dataLen: int, dataAt: nat)

  function CodeView(buf: seq<Byte>, k: nat): View {
    var nameAt := if ByteAt(buf, k) == 0 then k + 1 else k;
    var t := ScanEnd(buf, nameAt) + 1;
    View(nameAt, Le16(buf, t), Le16(buf, t + 2), ByteAt(buf, t + 8), t + 9)
  }

  /** Where an answer or additional record leaves the cursor. */
  function CursorAfter(buf: seq<Byte>, k: nat): nat {
    CodeView(buf, k).dataAt + CodeView(buf, k).dataLen
  }

  /** Where an authority record leaves it: behind the name in its data. */
  function AuthorityCursor(buf: seq<Byte>, k: nat): nat {
    ScanEnd(buf, CodeView(buf, k).dataAt)
  }

  // ----- Agreement of the two, with exact conditions -----

  /** The cursor is at `off`, or one short of it on a zero byte that the next decode skips. */
  predicate InStep(buf: seq<Byte>, k: nat, off: nat) {
    k == off || (k + 1 == off && k < |buf| && buf[k] == 0)
  }

  /**
    * An owner name that the program walks as RFC 1035 does; a pointer may lead anywhere. The owner
    * may be the root, for the record types below 256.
    */
  predicate OwnerWalked(buf: seq<Byte>, off: nat) {
    && ReadLabels(buf, off, off).Some? && CleanRun(buf, off, off)
    && (buf[off] == 0 ==> ByteAt(buf, off + 1) == 0)
  }

  /**
    * Whether the program reads the fixed fields one byte too far: after a pointer, and after the
    * zero byte of a root owner that it skips, when its cursor is not behind.
    */
  predicate Late(exact: bool, owner: Name) {
    owner.compressed || (owner.labels == [] && exact)
  }

  predicate KeepsStep(late: bool, r: Record) {
    if late then r.dataLen < 256 else r.dataLen == 0
  }

  predicate TypeSurvives(late: bool, r: Record) {
    if late then r.rtype / 256 == r.rclass / 256 else r.rtype / 256 == r.rtype % 256
  }

  /** Where the program reads the fixed fields of the record at `off`. */
  function FieldsAt(exact: bool, owner: Name): nat {
    if Late(exact, owner) then owner.end + 1 else owner.end
  }

  lemma OwnerEnd(buf: seq<Byte>, off: nat)
    requires OwnerWalked(buf, off)
    ensures var n := ReadLabels(buf, off, off).value;
            && off < |buf| && ScanEnd(buf, off) == (if n.compressed then n.end else n.end - 1)
            && n.end <= |buf| && (n.labels == [] && !n.compressed <==> buf[off] == 0) && (buf[off] == 0 ==> n.end == off + 1)
  {
    hide ScanEnd;
    ScanEndIsRfc(buf, off, off);
    NameEnd(buf, off, off);
  }

  lemma {:induction false} NameEnd(buf: seq<Byte>, start: nat, off: nat)
    requires ReadLabels(buf, start, off).Some?
    ensures var n := ReadLabels(buf, start, off).value;
            && off < |buf| && off < n.end <= |buf| && (buf[off] == 0 ==> n.end == off + 1)
            && (n.labels == [] && !n.compressed <==> buf[off] == 0)
    decreases |buf| - off
  {
    var b: int := buf[off];
    if 0 < b < 192 {
      NameEnd(buf, start, off + 1 + b);
    }
  }

  lemma ScanEndZero(buf: seq<Byte>, off: nat)
    requires off < |buf| && buf[off] == 0
    ensures ScanEnd(buf, off) == off
  {
  }

  lemma ViewFields(buf: seq<Byte>, k: nat, off: nat)
    requires InStep(buf, k, off) && OwnerWalked(buf, off) && ParseRecord(buf, off).Some?
    ensures var n, v := ReadLabels(buf, off, off).value, CodeView(buf, k);
            var t := FieldsAt(k == off, n);
            && v.rtype == Le16(buf, t) && v.rclass == Le16(buf, t + 2) && v.dataLen == ByteAt(buf, t + 8)
            && v.dataAt == t + 9 <= |buf|
            && v.nameAt == (if buf[off] == 0 && k == off then off + 1 else off)
  {
    hide ScanEnd, CleanRun, ReadLabels;
    OwnerEnd(buf, off);
    var n := ReadLabels(buf, off, off).value;
    if buf[off] == 0 && k == off {
      ScanEndZero(buf, off + 1);
    }
  }

  lemma SwappedBytes(th: int, tl: int, ch: int)
    requires 0 <= th < 256 && 0 <= tl < 256
    ensures tl + ch * 256 == th * 256 + tl <==> th == ch
    ensures th + tl * 256 == th * 256 + tl <==> th == tl
    ensures (th * 256 + tl) / 256 == th && (th * 256 + tl) % 256 == tl
  {
  }

  /** The type, length and data position the program extracts are the true ones exactly when stated. */
  lemma FieldsExact(buf: seq<Byte>, k: nat, off: nat)
    requires InStep(buf, k, off) && OwnerWalked(buf, off) && ParseRecord(buf, off).Some?
    ensures var r, v := ParseRecord(buf, off).value, CodeView(buf, k);
            var late := Late(k == off, r.owner);
            && (v.rtype == r.rtype <==> TypeSurvives(late, r))
            && (v.dataLen == r.dataLen <==> KeepsStep(late, r))
            && (v.dataAt == r.dataAt <==> late)
            && v.dataAt == (if late then r.dataAt else r.dataAt - 1)
  {
    hide ScanEnd, CleanRun, ReadLabels, CodeView, ByteAt, InStep, OwnerWalked;
    ViewFields(buf, k, off);
    var e := ReadLabels(buf, off, off).value.end;
    ByteRange(buf, e);
    SwappedBytes(ByteAt(buf, e), ByteAt(buf, e + 1), ByteAt(buf, e + 2));
    SwappedBytes(ByteAt(buf, e + 2), ByteAt(buf, e + 3), 0);
  }

  lemma ByteRange(buf: seq<Byte>, e: nat)
    ensures forall i :: e <= i < e + 10 ==> 0 <= ByteAt(buf, i) < 256
  {
  }

  /**
    * One answer or additional record: the cursor stays in step if and only if the record keeps it
    * so, and then it is exactly at the end if and only if the fields were read late.
    */
  lemma StepExact(buf: seq<Byte>, k: nat, off: nat)
    requires InStep(buf, k, off) && OwnerWalked(buf, off) && ParseRecord(buf, off).Some?
    ensures var r := ParseRecord(buf, off).value;
            var late := Late(k == off, r.owner);
            && (InStep(buf, CursorAfter(buf, k), r.End()) <==> KeepsStep(late, r))
            && (KeepsStep(late, r) ==> (CursorAfter(buf, k) == r.End() <==> late))
  {
    hide ScanEnd, CleanRun, ReadLabels, CodeView, OwnerWalked;
    ViewFields(buf, k, off);
  }

  /** A name of one label of one byte, spelled out. */
  lemma OneByteName(buf: seq<Byte>, off: nat, c: Byte)
    requires off + 3 <= |buf| && buf[off] == 1 && buf[off + 1] == c && buf[off + 2] == 0 && 0 < c < 192
    ensures ReadLabels(buf, off, off) == Some(Name([[c]], off + 3, false))
    ensures Readable(buf, off, off) && CleanRun(buf, off, off)
  {
    hide CleanRun;
    assert buf[off + 1..off + 2] == [c] && [[c]] + [] == [[c]];
    ReadEnd(buf, off, off + 2);
    ReadLabelStep(buf, off, off, [c], Name([], off + 3, false));
    ReadableRun(buf, off, off);
  }

  /** An address record owned by "a", spelled out: the decoder ends inside its data, out of step. */
  lemma SpelledOutMisread(buf: seq<Byte>)
    requires buf == [1, 97, 0, 0, 1, 0, 1, 0, 0, 0, 0, 0, 4, 1, 2, 3, 4]
    ensures ParseRecord(buf, 0) == Some(Record(Name([[97]], 3, false), 1, 1, 13, 4))
            && !InStep(buf, CursorAfter(buf, 0), 17)
  {
    hide ReadLabels, Readable, CleanRun, ScanEnd, CodeView, CursorAfter;
    OneByteName(buf, 0, 97);
    assert ParseRecord(buf, 0) == Some(Record(Name([[97]], 3, false), 1, 1, 13, 4));
    StepExact(buf, 0, 0);
  }

  // ----- Authorities -----

  /** The data of `r` begins with a name, as in NS and SOA records, walked as RFC 1035 does. */
  predicate ServerWalked(buf: seq<Byte>, r: Record) {
    && ReadLabels(buf, r.dataAt, r.dataAt).Some? && CleanRun(buf, r.dataAt, r.dataAt)
    && ReadLabels(buf, r.dataAt, r.dataAt).value.end <= r.End()
  }

  function ServerName(buf: seq<Byte>, r: Record): Name
    requires ServerWalked(buf, r)
  {
    ReadLabels(buf, r.dataAt, r.dataAt).value
  }

  /** The name is all the data there is, except perhaps for a zero byte behind a pointer. */
  predicate NameEnds(buf: seq<Byte>, n: Name, end: nat) {
    n.end == end || (n.compressed && n.end + 1 == end && ByteAt(buf, n.end) == 0)
  }

  /** If the fields are not read late, the low byte of the data length is read as part of the name. */
  predicate AuthorityKeeps(buf: seq<Byte>, late: bool, r: Record)
    requires ServerWalked(buf, r)
  {
    (late || 0 < r.dataLen % 256 < 192) && NameEnds(buf, ServerName(buf, r), r.End())
  }

  /** The byte before the data is the low byte of the data length. */
  lemma LengthLow(buf: seq<Byte>, off: nat)
    requires ParseRecord(buf, off).Some?
    ensures var r := ParseRecord(buf, off).value;
            1 <= r.dataAt <= |buf| && buf[r.dataAt - 1] as int == r.dataLen % 256
  {
    hide ReadLabels;
    var e := ReadLabels(buf, off, off).value.end;
    SwappedBytes(ByteAt(buf, e + 8), ByteAt(buf, e + 9), 0);
  }

  lemma ScanEndCases(buf: seq<Byte>, off: nat)
    requires off < |buf|
    ensures ScanEnd(buf, off) ==
      if buf[off] == 0 then off else if buf[off] < 192 then ScanEnd(buf, off + 1)
      else if off + 1 < |buf| then off + 2 else off
  {
  }

  /** One authority record: the cursor stays in step, and exactly at the end, exactly when stated. */
  lemma AuthorityStepExact(buf: seq<Byte>, k: nat, off: nat)
    requires InStep(buf, k, off) && OwnerWalked(buf, off) && ParseRecord(buf, off).Some?
    requires ServerWalked(buf, ParseRecord(buf, off).value)
    ensures var r := ParseRecord(buf, off).value;
            var late := Late(k == off, r.owner);
            && (InStep(buf, AuthorityCursor(buf, k), r.End()) <==> AuthorityKeeps(buf, late, r))
            && (AuthorityKeeps(buf, late, r) ==>
                  (AuthorityCursor(buf, k) == r.End() <==> AuthorityEndsExact(buf, r)))
  {
    hide ScanEnd, CleanRun, ReadLabels, CodeView, OwnerWalked, ParseRecord, Late;
    var r := ParseRecord(buf, off).value;
    LengthLow(buf, off);
    FieldsExact(buf, k, off);
    ScanEndIsRfc(buf, r.dataAt, r.dataAt);
    ScanEndCases(buf, r.dataAt - 1);
    EndInBuffer(buf, off);
  }

  lemma EndInBuffer(buf: seq<Byte>, off: nat)
    requires ParseRecord(buf, off).Some?
    ensures ParseRecord(buf, off).value.End() <= |buf|
  {
  }

  predicate AuthorityEndsExact(buf: seq<Byte>, r: Record)
    requires ServerWalked(buf, r)
  {
    ServerName(buf, r).compressed && ServerName(buf, r).end == r.End()
  }

  /**
    * The program is in step after an authority record whose data is one name, and has read the
    * true name server, if and only if it read the fields late. If it is only in step, the server's name begins with the
    * low byte of the data length.
    */
  lemma ServerExact(buf: seq<Byte>, k: nat, off: nat, jumps: nat)
    requires InStep(buf, k, off) && OwnerWalked(buf, off) && ParseRecord(buf, off).Some?
    requires var r := ParseRecord(buf, off).value;
             ServerWalked(buf, r) && Readable(buf, r.dataAt, r.dataAt) && ServerName(buf, r).end == r.End() && jumps >= r.dataAt
    ensures var r := ParseRecord(buf, off).value;
            var late, server := Late(k == off, r.owner), Wire(ServerName(buf, r).labels);
            var read := Scan(buf, jumps, CodeView(buf, k).dataAt);
            && (InStep(buf, AuthorityCursor(buf, k), r.End()) && read == Some(server) <==> late)
            && (InStep(buf, AuthorityCursor(buf, k), r.End()) && !late ==> read == Some([LengthByte(r.dataLen)] + server))
  {
    hide ScanEnd, CleanRun, ReadLabels, CodeView, OwnerWalked, ParseRecord, Late, Scan, Wire;
    var r := ParseRecord(buf, off).value;
    AuthorityStepExact(buf, k, off);
    LengthLow(buf, off);
    FieldsExact(buf, k, off);
    ScanIsRfc(buf, r.dataAt, r.dataAt, jumps);
    ScanCopy(buf, jumps, r.dataAt - 1);
  }

  lemma ScanCopy(buf: seq<Byte>, jumps: nat, off: nat)
    requires off < |buf| && Scan(buf, jumps, off + 1).Some?
    ensures 0 < buf[off] < 192 ==> Scan(buf, jumps, off) == Some([buf[off]] + Scan(buf, jumps, off + 1).value)
  {
  }

  /** A name server record owned by "a", spelled out: in step, but the server "b" is read with a byte too many. */
  lemma SpelledOutServer(buf: seq<Byte>)
    requires buf == [1, 97, 0, 0, 2, 0, 1, 0, 0, 0, 0, 0, 3, 1, 98, 0]
    ensures ParseRecord(buf, 0) == Some(Record(Name([[97]], 3, false), 2, 1, 13, 3))
            && InStep(buf, AuthorityCursor(buf, 0), 16)
            && Scan(buf, 13, CodeView(buf, 0).dataAt) == Some([3, 1, 98])
  {
    hide ReadLabels, Readable, CleanRun, ScanEnd, CodeView, Scan, AuthorityCursor;
    OneByteName(buf, 0, 97);
    OneByteName(buf, 13, 98);
    assert ParseRecord(buf, 0) == Some(Record(Name([[97]], 3, false), 2, 1, 13, 3));
    AuthorityStepExact(buf, 0, 0);
    ServerExact(buf, 0, 0, 13);
    WireCons([98], []);
    assert Wire([[98]]) == [1, 98] && [3] + [1, 98] == [3, 1, 98];
  }

  /** With near pointers, the owner, which is the zone of an authority, is read truly if and only if it is readable. */
  lemma OwnerExact(buf: seq<Byte>, k: nat, off: nat, jumps: nat)
    requires InStep(buf, k, off) && OwnerWalked(buf, off) && ParseRecord(buf, off).Some?
    requires NearPointers(buf, off, off) && jumps >= off
    ensures Scan(buf, jumps, CodeView(buf, k).nameAt) == Some(Wire(ReadLabels(buf, off, off).value.labels))
            <==> Readable(buf, off, off)
  {
    hide ScanEnd, CleanRun, ReadLabels, CodeView, ParseRecord, Scan, Wire, Readable, NearPointers;
    ViewFields(buf, k, off);
    ScanExact(buf, off, off, jumps);
    OwnerEnd(buf, off);
    if buf[off] == 0 {
      RootReadable(buf, off);
      ScanZero(buf, jumps, off);
      if k == off {
        ScanZero(buf, jumps, off + 1);
      }
    }
  }

  lemma RootReadable(buf: seq<Byte>, off: nat)
    requires off < |buf| && buf[off] == 0
    ensures ReadLabels(buf, off, off).Some? && Readable(buf, off, off)
  {
  }

  lemma ScanZero(buf: seq<Byte>, jumps: nat, off: nat)
    requires off < |buf| && buf[off] == 0
    ensures Scan(buf, jumps, off) == Some([])
  {
  }

  // ----- Any number of records, in any sections -----

  /** A record of a message, with the decoder its section calls for. */
  datatype Item = Item(record: Record, authority: bool)

  /** The records of `items` are laid out one after the other from `off`. */
  predicate Consecutive(buf: seq<Byte>, off: nat, items: seq<Item>)
    decreases |items|
  {
    items == [] ||
    (ParseRecord(buf, off) == Some(items[0].record) && Consecutive(buf, items[0].record.End(), items[1..]))
  }

  function StartOf(off: nat, items: seq<Item>, i: nat): nat
    requires i <= |items|
  {
    if i == 0 then off else items[i - 1].record.End()
  }

  /** The cursor after one record, and after each of several. */
  function NextCursor(buf: seq<Byte>, k: nat, authority: bool): nat {
    if authority then AuthorityCursor(buf, k) else CursorAfter(buf, k)
  }

  function Cursors(buf: seq<Byte>, k: nat, items: seq<Item>): (ks: seq<nat>)
    ensures |ks| == |items|
    decreases |items|
  {
    if items == [] then []
    else
      var k' := NextCursor(buf, k, items[0].authority);
      [k'] + Cursors(buf, k', items[1..])
  }

  predicate Walked(buf: seq<Byte>, off: nat, item: Item) {
    OwnerWalked(buf, off) && (item.authority ==> ServerWalked(buf, item.record))
  }

  /** Whether a record keeps the cursor in step, and whether exactly at the end of the record. */
  predicate Keeps(buf: seq<Byte>, late: bool, item: Item) {
    if item.authority then ServerWalked(buf, item.record) && AuthorityKeeps(buf, late, item.record)
    else KeepsStep(late, item.record)
  }

  predicate EndsExact(buf: seq<Byte>, late: bool, item: Item) {
    if item.authority then ServerWalked(buf, item.record) && AuthorityEndsExact(buf, item.record) else late
  }

  /** Every record keeps the cursor in step, if it starts exactly at the first or one short of it. */
  predicate AllKeep(buf: seq<Byte>, exact: bool, items: seq<Item>)
    decreases |items|
  {
    items == [] ||
    var late := Late(exact, items[0].record.owner);
    Keeps(buf, late, items[0]) && AllKeep(buf, EndsExact(buf, late, items[0]), items[1..])
  }

  lemma ItemExact(buf: seq<Byte>, k: nat, off: nat, item: Item)
    requires InStep(buf, k, off) && ParseRecord(buf, off) == Some(item.record) && Walked(buf, off, item)
    ensures var late := Late(k == off, item.record.owner);
            && (InStep(buf, NextCursor(buf, k, item.authority), item.record.End()) <==> Keeps(buf, late, item))
            && (Keeps(buf, late, item) ==>
                  (NextCursor(buf, k, item.authority) == item.record.End() <==> EndsExact(buf, late, item)))
  {
    hide InStep, OwnerWalked, KeepsStep, AuthorityKeeps, AuthorityEndsExact, CursorAfter, AuthorityCursor, ParseRecord, Late, ReadLabels, CleanRun;
    if item.authority {
      AuthorityStepExact(buf, k, off);
    } else {
      StepExact(buf, k, off);
    }
  }

  /** Any run of records: every decode ends in step if and only if every record keeps it so. */
  lemma {:induction false} MessageExact(buf: seq<Byte>, k: nat, off: nat, items: seq<Item>)
    requires InStep(buf, k, off) && Consecutive(buf, off, items)
    requires forall i :: 0 <= i < |items| ==> Walked(buf, StartOf(off, items, i), items[i])
    ensures (forall i :: 0 <= i < |items| ==> InStep(buf, Cursors(buf, k, items)[i], items[i].record.End()))
       <==> AllKeep(buf, k == off, items)
    decreases |items|
  {
    hide InStep, Walked, Keeps, NextCursor, EndsExact, ParseRecord, Late;
    if items != [] {
      var item, rest, k' := items[0], items[1..], NextCursor(buf, k, items[0].authority);
      assert Walked(buf, StartOf(off, items, 0), item);
      ItemExact(buf, k, off, item);
      assert Cursors(buf, k, items)[0] == k';
      if Keeps(buf, Late(k == off, item.record.owner), item) {
        forall i | 0 <= i < |rest| ensures Walked(buf, StartOf(item.record.End(), rest, i), rest[i]) {
          assert StartOf(off, items, i + 1) == StartOf(item.record.End(), rest, i);
        }
        MessageExact(buf, k', item.record.End(), rest);
        assert forall i :: 1 <= i < |items| ==> Cursors(buf, k, items)[i] == Cursors(buf, k', rest)[i - 1];
      }
    }
  }
}
