/** The three record decoders and the caches they fill. */
module Decoders {
  import opened CStrings
  import opened NameCodec
  import opened NameDecoder
  import opened NameReader
  import opened NameWalk
  import opened Options
  import opened Records
  import opened Multimap
  import opened Caches

  const IPV4_T := 1

  /** Size of the decoders' name buffer. */
  const NAME_SIZE := 256

  // ----- Addresses as text -----

  function Decimal(n: nat): (s: seq<Byte>)
    ensures 1 <= |s| && (n < 10 ==> |s| == 1) && (n < 100 ==> |s| <= 2) && (n < 1000 ==> |s| <= 3)
    ensures forall i :: 0 <= i < |s| ==> 48 <= s[i] <= 57
  {
    if n < 10 then [48 + n] else Decimal(n / 10) + [48 + n % 10]
  }

  /** The first `n` of the four address bytes at `at`, each but the fourth followed by a dot. */
  function AddressPrefix(buf: seq<Byte>, at: nat, n: nat): (s: seq<Byte>)
    requires n <= 4 && at + n <= |buf|
    ensures |s| <= 4 * n && 0 !in s && (n > 0 ==> s != [])
  {
    if n == 0 then [] else AddressPrefix(buf, at, n - 1) + Decimal(buf[at + n - 1]) + (if n == 4 then [] else [DOT])
  }

  function AddressText(buf: seq<Byte>, at: nat): (s: seq<Byte>)
    requires at + 4 <= |buf|
    ensures s != [] && 0 !in s
  {
    AddressPrefix(buf, at, 4)
  }

  /** The value of a decimal text. */
  function DecimalValue(s: seq<Byte>): int {
    if s == [] then 0 else DecimalValue(s[..|s| - 1]) * 10 + (s[|s| - 1] as int - 48)
  }

  lemma {:induction false} DecimalRoundTrip(n: nat)
    ensures DecimalValue(Decimal(n)) == n
  {
    if n >= 10 {
      DecimalRoundTrip(n / 10);
      assert Decimal(n)[..|Decimal(n)| - 1] == Decimal(n / 10);
    }
  }

  lemma AddressParts(buf: seq<Byte>, at: nat)
    requires at + 4 <= |buf|
    ensures AddressText(buf, at) ==
      Decimal(buf[at]) + [DOT] + (Decimal(buf[at + 1]) + [DOT] + (Decimal(buf[at + 2]) + [DOT] + Decimal(buf[at + 3])))
  {
    hide Decimal;
    var a, b, c, d := Decimal(buf[at]), Decimal(buf[at + 1]), Decimal(buf[at + 2]), Decimal(buf[at + 3]);
    assert AddressPrefix(buf, at, 1) == a + [DOT] by {
      assert [] + a + [DOT] == a + [DOT];
    }
    assert AddressPrefix(buf, at, 2) == a + [DOT] + b + [DOT];
    assert AddressPrefix(buf, at, 3) == a + [DOT] + b + [DOT] + c + [DOT];
    assert a + [DOT] + b + [DOT] + c + [DOT] + d + [] == a + [DOT] + (b + [DOT] + (c + [DOT] + d));
  }

  lemma DecimalDotFree(n: nat)
    ensures DOT !in Decimal(n)
  {
    hide Decimal;
  }

  lemma DecimalLaws()
    ensures forall n: nat :: DOT !in Decimal(n) && DecimalValue(Decimal(n)) == n
  {
    hide Decimal, DecimalValue;
    forall n: nat ensures DOT !in Decimal(n) && DecimalValue(Decimal(n)) == n {
      DecimalDotFree(n);
      DecimalRoundTrip(n);
    }
  }

  /** The text of an address determines its four bytes. */
  lemma AddressTextInjective(buf: seq<Byte>, at: nat, buf': seq<Byte>, at': nat)
    requires at + 4 <= |buf| && at' + 4 <= |buf'|
    requires AddressText(buf, at) == AddressText(buf', at')
    ensures buf[at..at + 4] == buf'[at'..at' + 4]
  {
    hide Decimal, DecimalValue, AddressText;
    AddressParts(buf, at);
    AddressParts(buf', at');
    DecimalLaws();
    FourParts(Decimal(buf[at]), Decimal(buf[at + 1]), Decimal(buf[at + 2]), Decimal(buf[at + 3]),
              Decimal(buf'[at']), Decimal(buf'[at' + 1]), Decimal(buf'[at' + 2]), Decimal(buf'[at' + 3]));
    assert buf[at] == buf'[at'] && buf[at + 1] == buf'[at' + 1];
    assert buf[at + 2] == buf'[at' + 2] && buf[at + 3] == buf'[at' + 3];
  }

  lemma FourParts(a: seq<Byte>, b: seq<Byte>, c: seq<Byte>, d: seq<Byte>,
                  a': seq<Byte>, b': seq<Byte>, c': seq<Byte>, d': seq<Byte>)
    requires DOT !in a && DOT !in b && DOT !in c && DOT !in a' && DOT !in b' && DOT !in c'
    requires a + [DOT] + (b + [DOT] + (c + [DOT] + d)) == a' + [DOT] + (b' + [DOT] + (c' + [DOT] + d'))
    ensures a == a' && b == b' && c == c' && d == d'
  {
    CutAt(a, a', DOT, b + [DOT] + (c + [DOT] + d), b' + [DOT] + (c' + [DOT] + d'));
    CutAt(b, b', DOT, c + [DOT] + d, c' + [DOT] + d');
    CutAt(c, c', DOT, d, d');
  }

  method ReadAddress(buf: seq<Byte>, offset: nat, name: array<Byte>)
    requires offset + 4 <= |buf| && CStr(name[..]) == [] && name.Length == NAME_SIZE
    modifies name
    ensures CStr(name[..]) == AddressText(buf, offset)
  {
    hide CStr, Decimal;
    for i := 0 to 4
      invariant CStr(name[..]) == AddressPrefix(buf, offset, i)
    {
      var val := buf[offset + i];
      var convertedInt := Decimal(val);
      StrCat(name, convertedInt);
      if i + 1 != 4 {
        StrCat(name, [DOT]);
      }
      assert AddressPrefix(buf, offset, i) + convertedInt + [] == AddressPrefix(buf, offset, i) + convertedInt;
    }
  }

  // ----- Parts the three decoders share -----

  /** A cleared name buffer after `bytes` were copied into it. */
  function Filled(bytes: seq<Byte>): (r: seq<Byte>)
    requires |bytes| < NAME_SIZE
    ensures |r| == NAME_SIZE
  {
    bytes + seq(NAME_SIZE - |bytes|, i => 0)
  }

  /** The dotted text the decoders make of the bytes of a name; `None` if they leave the buffer. */
  function TextOf(bytes: seq<Byte>): Option<seq<Byte>>
    requires |bytes| < NAME_SIZE
  {
    match DecodeFrom(Filled(bytes), 0)
    case None => None
    case Some(r) => Some(CStr(r))
  }

  lemma WireText(ls: seq<Label>)
    requires ls != [] && Decodable(ls) && |Wire(ls)| < NAME_SIZE
    ensures TextOf(Wire(ls)) == Some(Join(ls))
  {
    hide Wire, Join, CStr, DecodeFrom;
    WireDecodes(ls, seq(NAME_SIZE - |Wire(ls)|, i => 0));
  }

  /** The copy of a name at `at` stops inside the message, and fits the name buffer with a terminator. */
  predicate NameFits(buf: seq<Byte>, jumps: nat, at: nat) {
    Scan(buf, jumps, at).Some? && |Scan(buf, jumps, at).value| < NAME_SIZE
  }

  /** The bytes of the owner, read with the cursor at `k`. */
  function OwnerBytes(buf: seq<Byte>, jumps: nat, k: nat): (bytes: seq<Byte>)
    requires NameFits(buf, jumps, CodeView(buf, k).nameAt)
    ensures |bytes| < NAME_SIZE
  {
    Scan(buf, jumps, CodeView(buf, k).nameAt).value
  }

  /** Everything the decoders read for a record with the cursor at `k` is inside the message. */
  predicate RecordFits(buf: seq<Byte>, jumps: nat, k: nat) {
    && NameFits(buf, jumps, CodeView(buf, k).nameAt)
    && CodeView(buf, k).dataAt <= |buf|
    && (CodeView(buf, k).rtype == IPV4_T ==> CodeView(buf, k).dataAt + 4 <= |buf|)
  }

  lemma CopiedFills(name: seq<Byte>, before: seq<Byte>, bytes: seq<Byte>)
    requires Copied(name, before, 0, bytes) && Zeros(before) && |before| == NAME_SIZE && |bytes| < NAME_SIZE
    ensures name == Filled(bytes)
  {
  }

  method NewName() returns (name: array<Byte>)
    ensures fresh(name) && name.Length == NAME_SIZE == 256 && Zeros(name[..])
  {
    name := new Byte[NAME_SIZE];
    MemSetZero(name, NAME_SIZE);
    assert name[..NAME_SIZE] == name[..];
  }

  /** The opening of each decoder: skips a left-over zero and reads the owner into a new buffer. */
  method ReadOwner(buf: seq<Byte>, k: nat, ghost jumps: nat) returns (name: array<Byte>, k': nat)
    requires NameFits(buf, jumps, CodeView(buf, k).nameAt)
    ensures fresh(name) && name.Length == NAME_SIZE
    ensures name[..] == Filled(OwnerBytes(buf, jumps, k))
    ensures k' == ScanEnd(buf, CodeView(buf, k).nameAt)
  {
    hide Scan, ScanEnd, Copied, Filled;
    ScanStep(buf, jumps, CodeView(buf, k).nameAt);
    k' := k;
    name := NewName();
    if buf[k'] == 0 {
      k' := k' + 1;
    }
    ghost var before := name[..];
    k' := ReadName(buf, k', name, 255, jumps);
    CopiedFills(name[..], before, OwnerBytes(buf, jumps, k));
  }

  /** The fixed fields after the owner; the TTL is skipped. */
  method ReadFields(buf: seq<Byte>, k: nat) returns (rType: int, rDataLen: int, k': nat)
    requires k + 9 < |buf|
    ensures rType == Le16(buf, k + 1) && rDataLen == ByteAt(buf, k + 9) && k' == k + 10
  {
    k' := k;
    k' := k' + 1;
    rType := Le16(buf, k');
    k' := k' + 2;
    k' := k' + 2;
    k' := k' + 4;
    rDataLen := buf[k'];
    k' := k' + 1;
  }

  lemma CodeViewAt(buf: seq<Byte>, k: nat)
    ensures var v := CodeView(buf, k);
            var e := ScanEnd(buf, v.nameAt);
            v.rtype == Le16(buf, e + 1) && v.dataLen == ByteAt(buf, e + 9) && v.dataAt == e + 10
  {
    hide ScanEnd;
  }

  /** Clears a name buffer (the code clears all but its last cell). */
  method ClearName(name: array<Byte>)
    requires name.Length == NAME_SIZE
    modifies name
    ensures CStr(name[..]) == []
    ensures old(name[NAME_SIZE - 1]) == 0 ==> Zeros(name[..])
  {
    hide CStr;
    ghost var last := name[255];
    MemSetZero(name, 255);
    assert name[255..][0] == last;
    assert forall i :: 0 <= i < 255 ==> name[i] == name[..255][i];
    CStrUnique(name[..], 0);
  }

  // ----- Answers -----

  /** What an answer record adds to the resolved names: its address, if the program sees type A. */
  function AnswerEffect(buf: seq<Byte>, v: View, owner: seq<Byte>, m: map<seq<Byte>, seq<Byte>>): map<seq<Byte>, seq<Byte>>
    requires v.rtype == IPV4_T ==> v.dataAt + 4 <= |buf|
  {
    if v.rtype == IPV4_T then m[owner := AddressText(buf, v.dataAt)] else m
  }

  method DecodeAnswerRecord(buf: seq<Byte>, k: nat, resolved: LockedMap, ghost jumps: nat) returns (ok: bool, k': nat)
    requires RecordFits(buf, jumps, k)
    modifies resolved
    ensures ok <==> TextOf(OwnerBytes(buf, jumps, k)).Some?
    ensures ok ==> k' == CursorAfter(buf, k)
    ensures resolved.entries ==
      if ok then AnswerEffect(buf, CodeView(buf, k), TextOf(OwnerBytes(buf, jumps, k)).value, old(resolved.entries))
      else old(resolved.entries)
  {
    hide Scan, ScanEnd, OwnerBytes, Filled, DecodeFrom, CodeView, CStr;
    var name: array<Byte>;
    name, k' := ReadOwner(buf, k, jumps);
    ok := ConvertToDottedFormat(name);
    if !ok {
      return;
    }
    var rName := CStr(name[..]);
    CodeViewAt(buf, k);
    var rType, rDataLen;
    rType, rDataLen, k' := ReadFields(buf, k');
    if rType == IPV4_T {
      ClearName(name);
      ReadAddress(buf, k', name);
      var rData := CStr(name[..]);
      resolved.Add(rName, rData);
    }
    k' := k' + rDataLen;
  }

  // ----- Authorities -----

  /** `unordered_map::insert`: an existing key keeps its value. */
  function InsertNew(m: map<seq<Byte>, seq<Byte>>, key: seq<Byte>, value: seq<Byte>): map<seq<Byte>, seq<Byte>> {
    if key in m then m else m[key := value]
  }

  /** The bytes read where the program takes the data of an authority record to begin. */
  function ServerBytes(buf: seq<Byte>, jumps: nat, k: nat): (bytes: seq<Byte>)
    requires NameFits(buf, jumps, CodeView(buf, k).dataAt)
    ensures |bytes| < NAME_SIZE
  {
    Scan(buf, jumps, CodeView(buf, k).dataAt).value
  }

  lemma FilledCStr(bytes: seq<Byte>)
    requires |bytes| < NAME_SIZE && 0 !in bytes
    ensures CStr(Filled(bytes)) == bytes && Filled(bytes)[NAME_SIZE - 1] == 0
  {
    hide CStr;
    CStrUnique(Filled(bytes), |bytes|);
    assert Filled(bytes)[..|bytes|] == bytes;
  }

  method DecodeAuthoritativeRecord(buf: seq<Byte>, k: nat, foundNs: map<seq<Byte>, seq<Byte>>, ghost jumps: nat)
    returns (ok: bool, k': nat, foundNs': map<seq<Byte>, seq<Byte>>)
    requires NameFits(buf, jumps, CodeView(buf, k).nameAt) && NameFits(buf, jumps, CodeView(buf, k).dataAt)
    ensures ok <==> TextOf(ServerBytes(buf, jumps, k)).Some?
    ensures ok ==> k' == AuthorityCursor(buf, k)
    ensures foundNs' ==
      if ok then InsertNew(foundNs, TextOf(ServerBytes(buf, jumps, k)).value, OwnerBytes(buf, jumps, k)) else foundNs
  {
    hide Scan, ScanEnd, OwnerBytes, ServerBytes, Filled, DecodeFrom, CodeView, CStr, Copied, NameFits;
    foundNs' := foundNs;
    var name: array<Byte>;
    name, k' := ReadOwner(buf, k, jumps);
    OwnerCopyable(buf, jumps, k);
    FilledCStr(OwnerBytes(buf, jumps, k));
    var rName := CStr(name[..]);
    CodeViewAt(buf, k);
    ServerInside(buf, jumps, k);
    var rType, rDataLen;
    rType, rDataLen, k' := ReadFields(buf, k');
    ClearName(name);
    ghost var zeros := name[..];
    k' := ReadName(buf, k', name, rDataLen, jumps);
    ServerFills(name[..], zeros, buf, jumps, k);
    ok := ConvertToDottedFormat(name);
    if !ok {
      return;
    }
    var rData := CStr(name[..]);
    foundNs' := if rData in foundNs then foundNs else foundNs[rData := rName];
  }

  lemma OwnerCopyable(buf: seq<Byte>, jumps: nat, k: nat)
    requires NameFits(buf, jumps, CodeView(buf, k).nameAt)
    ensures 0 !in OwnerBytes(buf, jumps, k)
  {
    hide Scan, CodeView;
    ScanCopyable(buf, jumps, CodeView(buf, k).nameAt);
  }

  lemma ServerInside(buf: seq<Byte>, jumps: nat, k: nat)
    requires NameFits(buf, jumps, CodeView(buf, k).dataAt)
    ensures CodeView(buf, k).dataAt < |buf|
    ensures Scan(buf, jumps, CodeView(buf, k).dataAt) == Some(ServerBytes(buf, jumps, k))
  {
    hide Scan, CodeView;
    ScanStep(buf, jumps, CodeView(buf, k).dataAt);
  }

  lemma ServerFills(name: seq<Byte>, zeros: seq<Byte>, buf: seq<Byte>, jumps: nat, k: nat)
    requires NameFits(buf, jumps, CodeView(buf, k).dataAt) && Zeros(zeros) && |zeros| == NAME_SIZE
    requires Copied(name, zeros, 0, ServerBytes(buf, jumps, k))
    ensures name == Filled(ServerBytes(buf, jumps, k))
  {
    hide Scan, CodeView, Copied, Filled;
    CopiedFills(name, zeros, ServerBytes(buf, jumps, k));
  }

  // ----- Additionals -----

  /** What an additional record adds to the name server cache: the address of a server just named. */
  function AdditionalEffect(buf: seq<Byte>, v: View, owner: seq<Byte>, foundNs: map<seq<Byte>, seq<Byte>>): seq<Entry>
    requires v.rtype == IPV4_T ==> v.dataAt + 4 <= |buf|
  {
    if v.rtype == IPV4_T && owner in foundNs then
      [Entry(foundNs[owner], Server(owner, AddressText(buf, v.dataAt)))]
    else []
  }

  method DecodeAdditionalRecord(buf: seq<Byte>, k: nat, foundNs: map<seq<Byte>, seq<Byte>>, nsCache: LockedMulti, ghost jumps: nat)
    returns (ok: bool, k': nat)
    requires RecordFits(buf, jumps, k) && nsCache.Valid()
    modifies nsCache
    ensures nsCache.Valid()
    ensures ok <==> TextOf(OwnerBytes(buf, jumps, k)).Some?
    ensures ok ==> k' == CursorAfter(buf, k)
    ensures nsCache.entries == EmplaceAll(old(nsCache.entries),
      if ok then AdditionalEffect(buf, CodeView(buf, k), TextOf(OwnerBytes(buf, jumps, k)).value, foundNs) else [])
  {
    hide Scan, ScanEnd, OwnerBytes, Filled, DecodeFrom, CodeView, CStr, Inserted;
    var name: array<Byte>;
    name, k' := ReadOwner(buf, k, jumps);
    ok := ConvertToDottedFormat(name);
    if !ok {
      return;
    }
    var rName := CStr(name[..]);
    CodeViewAt(buf, k);
    var rType, rDataLen;
    rType, rDataLen, k' := ReadFields(buf, k');
    if rType == IPV4_T {
      ClearName(name);
      ReadAddress(buf, k', name);
      var rData := CStr(name[..]);
      if rName in foundNs {
        var key := foundNs[rName];
        nsCache.Emplace(key, Server(rName, rData));
        assert [Entry(key, Server(rName, rData))][1..] == [];
      }
    }
    k' := k' + rDataLen;
  }
}
