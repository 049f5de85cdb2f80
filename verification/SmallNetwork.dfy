/** A network that refers and meets what the resolver's theorems ask of networks. */
module SmallNetwork {
  import opened CStrings
  import opened NameCodec
  import opened NameReader
  import opened Options
  import opened Records
  import opened Multimap
  import opened Decoders
  import opened Queries
  import opened Responses
  import opened Resolver

  // ----- A referral the program reads as RFC 1035 does -----

  /** A response to a query for "a": servers "b" and "c" for that zone, and the address 203.0.113.7 of "c". */
  function SmallReferral(): (buf: seq<Byte>)
    ensures |buf| == 65
  {
    [0, 1, 128, 0, 0, 1, 0, 0, 0, 2, 0, 1] + [1, 97, 0, 0, 1, 0, 1]
    + [192, 12, 0, 2, 0, 1, 0, 0, 0, 0, 0, 3, 1, 98, 0]
    + [192, 12, 0, 2, 0, 1, 0, 0, 0, 0, 0, 3, 1, 99, 0]
    + [192, 46, 0, 1, 0, 1, 0, 0, 0, 0, 0, 4, 203, 0, 113, 7]
  }

  /** "203.0.113.7" */
  const SMALL_TEXT: seq<Byte> := [50, 48, 51, 46, 48, 46, 49, 49, 51, 46, 55]

  /** A pointer back to a name of one label of one byte. */
  lemma PointerName(buf: seq<Byte>, off: nat, target: nat, c: Byte)
    requires off + 2 <= |buf| && target + 3 <= |buf| && target < off
    requires buf[off] == 192 && buf[off + 1] == target
    requires buf[target] == 1 && buf[target + 1] == c && buf[target + 2] == 0 && 0 < c < 192
    ensures ReadLabels(buf, off, off) == Some(Name([[c]], off + 2, true)) && Readable(buf, off, off)
  {
    OneByteName(buf, target, c);
  }

  lemma SmallWire(c: Byte)
    ensures Wire([[c]]) == [1, c] && Join([[c]]) == [c]
  {
    WireCons([c], []);
    WireNone();
    assert [[c]] + [] == [[c]];
  }

  lemma SmallCounts(buf: seq<Byte>)
    requires buf == SmallReferral()
    ensures Count(buf, 0) == 0 && Count(buf, 1) == 2 && Count(buf, 2) == 1
  {
  }

  /** A name server record at `off`: the server `c` for the name at offset 12. */
  predicate ServerRecord(buf: seq<Byte>, off: nat, c: Byte) {
    && off + 15 <= |buf|
    && buf[off..off + 15] == [192, 12, 0, 2, 0, 1, 0, 0, 0, 0, 0, 3, 1, c, 0]
  }

  lemma SmallServerRecords(buf: seq<Byte>)
    requires buf == SmallReferral()
    ensures ServerRecord(buf, 19, 98) && ServerRecord(buf, 34, 99) && buf[12] == 1 && buf[13] == 97 && buf[14] == 0
  {
  }

  lemma ServerRecordBytes(buf: seq<Byte>, off: nat, c: Byte)
    requires ServerRecord(buf, off, c)
    ensures off + 15 <= |buf| && buf[off] == 192 && buf[off + 1] == 12 && buf[off + 12] == 1 && buf[off + 13] == c && buf[off + 14] == 0
    ensures Be16(buf, off + 2) == 2 && Be16(buf, off + 4) == 1 && Be16(buf, off + 10) == 3
  {
    var r := buf[off..off + 15];
    assert buf[off + 1] == r[1] && buf[off + 2] == r[2] && buf[off + 3] == r[3] && buf[off + 4] == r[4] && buf[off + 5] == r[5];
    assert buf[off] == r[0] && buf[off + 10] == r[10] && buf[off + 11] == r[11];
    assert buf[off + 12] == r[12] && buf[off + 13] == r[13] && buf[off + 14] == r[14];
  }

  /** Such a record is a good authority of the zone "a". */
  lemma SmallAuthority(buf: seq<Byte>, off: nat, c: Byte, exact: bool)
    requires ServerRecord(buf, off, c) && 14 < off && 0 < c < 192
    requires buf[12] == 1 && buf[13] == 97 && buf[14] == 0
    ensures var r := Record(Name([[97]], off + 2, true), 2, 1, off + 12, 3);
            && ParseRecord(buf, off) == Some(r) && GoodAuthority(buf, exact, off, r)
            && ReadLabels(buf, off + 12, off + 12) == Some(Name([[c]], off + 15, false))
  {
    hide ReadLabels, Readable, CleanRun, Wire, Be16, ServerRecord;
    ServerRecordBytes(buf, off, c);
    PointerName(buf, off, 12, 97);
    OneByteName(buf, off + 12, c);
    ReadableRun(buf, off, off);
    SmallWire(97);
    SmallWire(c);
  }

  lemma SmallAddress(buf: seq<Byte>)
    requires buf == SmallReferral()
    ensures var r := Record(Name([[99]], 51, true), 1, 1, 61, 4);
            ParseRecord(buf, 49) == Some(r) && GoodRecord(buf, 49, r)
  {
    hide ReadLabels, Readable, Wire;
    PointerName(buf, 49, 46, 99);
    SmallWire(99);
  }

  lemma SmallText(buf: seq<Byte>)
    requires buf == SmallReferral()
    ensures AddressText(buf, 61) == SMALL_TEXT
  {
    hide Decimal, AddressText;
    SmallDecimals();
    AddressParts(buf, 61);
  }

  lemma SmallDecimals()
    ensures Decimal(203) == [50, 48, 51] && Decimal(0) == [48] && Decimal(113) == [49, 49, 51] && Decimal(7) == [55]
  {
    assert Decimal(2) == [50] && Decimal(20) == [50, 48];
    assert Decimal(1) == [49] && Decimal(11) == [49, 49];
  }

  lemma TwoRecords(buf: seq<Byte>, off: nat, r: Record, r': Record)
    requires ParseRecord(buf, off) == Some(r) && ParseRecord(buf, r.End()) == Some(r')
    ensures RecordsFrom(buf, off, 2) == [r, r'] && RecordsFrom(buf, off, 1) == [r] && RecordsFrom(buf, off, 0) == []
  {
    hide ParseRecord;
    assert RecordsFrom(buf, r'.End(), 0) == [];
    assert RecordsFrom(buf, r.End(), 1) == [r'] + [];
    assert [r] + [r'] == [r, r'] && [r] + [] == [r];
  }

  lemma OneRecord(buf: seq<Byte>, off: nat, r: Record)
    requires ParseRecord(buf, off) == Some(r)
    ensures RecordsFrom(buf, off, 1) == [r]
  {
    hide ParseRecord;
    assert RecordsFrom(buf, r.End(), 0) == [];
    assert [r] + [] == [r];
  }

  /** It is a good message, and tells the resolver the one server whose address it gives. */
  lemma SmallReferralGood()
    ensures var buf := SmallReferral();
            && GoodMessage(buf, 19, [97])
            && Parse(buf, 19) == Response([], true, [Entry([1, 97], Server([99], SMALL_TEXT))])
  {
    hide ParseRecord, ReadLabels, SmallReferral, Count, GoodRecord, GoodAuthority, ServerRecord, Wire, Join, AddressText;
    var buf := SmallReferral();
    var r1, r2 := Record(Name([[97]], 21, true), 2, 1, 31, 3), Record(Name([[97]], 36, true), 2, 1, 46, 3);
    var r3 := Record(Name([[99]], 51, true), 1, 1, 61, 4);
    SmallCounts(buf);
    SmallServerRecords(buf);
    SmallAuthority(buf, 19, 98, true);
    SmallAuthority(buf, 34, 99, false);
    SmallAddress(buf);
    SmallText(buf);
    TwoRecords(buf, 19, r1, r2);
    OneRecord(buf, 49, r3);
    SmallWire(97);
    SmallWire(98);
    SmallWire(99);
    SectionsFollow(buf, 19, 0);
    SectionsFollow(buf, 19, 1);
    assert Section(buf, 19, 0) == [] && Section(buf, 19, 1) == [r1, r2] && Section(buf, 19, 2) == [r3];
    SmallSections(buf, r1, r2, r3);
  }

  lemma SmallSections(buf: seq<Byte>, r1: Record, r2: Record, r3: Record)
    requires r1 == Record(Name([[97]], 21, true), 2, 1, 31, 3) && r2 == Record(Name([[97]], 36, true), 2, 1, 46, 3)
    requires r3 == Record(Name([[99]], 51, true), 1, 1, 61, 4) && 65 <= |buf|
    requires GoodAuthority(buf, true, 19, r1) && GoodAuthority(buf, false, 34, r2) && GoodRecord(buf, 49, r3)
    requires ReadLabels(buf, 31, 31) == Some(Name([[98]], 34, false)) && ReadLabels(buf, 46, 46) == Some(Name([[99]], 49, false))
    ensures GoodAuthorities(buf, true, 19, [r1, r2]) && GoodRecords(buf, 49, [r3])
    ensures NestedJoin(AnswersOf(buf, [r3]), ZonesOf(buf, [r1, r2])) == [Entry([1, 97], Server([99], AddressText(buf, 61)))]
  {
    hide ParseRecord, ReadLabels, GoodRecord, GoodAuthority, Wire, Join, AddressText;
    SmallWire(97);
    SmallWire(98);
    SmallWire(99);
    assert [r1, r2][1..] == [r2] && [r2][1..] == [] && [r3][1..] == [];
    assert !ServerCompressed(buf, r1) && GoodAuthorities(buf, false, 34, [r2]);
    assert AnswersOf(buf, [r3]) == [Pair([99], AddressText(buf, 61))];
    assert ZonesOf(buf, [r2]) == [Pair([99], [1, 97])];
    var zones := ZonesOf(buf, [r1, r2]);
    assert zones == [Pair([98], [1, 97]), Pair([99], [1, 97])];
    assert zones[1..] == [Pair([99], [1, 97])];
    assert FirstZone(zones, [99]) == Some([1, 97]);
  }

  // ----- A network of one such response -----

  /** Good networks exist that refer: this one knows the server "c" for the name "a", and nothing else. */
  function SmallNet(header: seq<Byte>): Network {
    (n: nat, server: seq<Byte>, query: seq<Byte>) =>
      if query == Query(header, [97]) then SmallReferral() else seq(12, i => 0)
  }

  lemma SmallNetGood(header: seq<Byte>)
    requires |header| == 12
    ensures GoodNet(header, SmallNet(header), {[99]})
    ensures forall n, server :: Parse(SmallNet(header)(n, server, Query(header, [97])), RecordStart([97])).servers ==
              [Entry([1, 97], Server([99], SMALL_TEXT))]
  {
    hide GoodReply, Query, Parse, SmallReferral;
    SmallReplyGood();
    forall n, server, name | 0 !in name
      ensures GoodReply(SmallNet(header)(n, server, Query(header, name)), name, {[99]})
    {
      if Query(header, name) == Query(header, [97]) {
        QueryForA(header, name);
      } else {
        SilentReply(seq(12, i => 0), name, {[99]});
      }
    }
  }

  lemma SmallReplyGood()
    ensures GoodReply(SmallReferral(), [97], {[99]})
    ensures Parse(SmallReferral(), RecordStart([97])).servers == [Entry([1, 97], Server([99], SMALL_TEXT))]
  {
    hide SmallReferral, GoodMessage, Parse;
    SmallReferralGood();
  }

  lemma SilentReply(buf: seq<Byte>, name: seq<Byte>, universe: set<seq<Byte>>)
    requires |buf| == 12 && forall i :: 0 <= i < 12 ==> buf[i] == 0
    ensures GoodReply(buf, name, universe)
  {
  }

  /** Only the name "a" has the query for "a". */
  lemma QueryForA(header: seq<Byte>, name: seq<Byte>)
    requires |header| == 12
    ensures Query(header, name) == Query(header, [97]) ==> name == [97]
  {
    hide Wire, Split, FirstDot;
    var a: seq<Byte> := [97];
    WireLengthAll(name);
    WireLengthAll(a);
    if Query(header, name) == Query(header, a) {
      assert Query(header, name)[12..12 + |name| + 1] == Wire(Split(name));
      assert Query(header, a)[12..14] == Wire(Split(a));
      WireOfOne(name);
      WireOfOne(a);
    }
  }

  lemma WireOfOne(name: seq<Byte>)
    requires |name| == 1
    ensures Wire(Split(name)) == if name[0] == DOT then [0, 0] else [1, name[0]]
  {
    hide Wire, Split, FirstDot;
    WireNone();
    if name[0] == DOT {
      FirstDotUnique(name, 0);
      FirstDotUnique([], 0);
      SplitUnfold(name);
      SplitUnfold([]);
      assert name[..0] == [] && name[1..] == [];
      var none: Label := [];
      WireCons(none, [none]);
      WireCons(none, []);
      assert [none] + [] == [none];
    } else {
      FirstDotUnique(name, 1);
      SplitUnfold(name);
      WireCons(name, []);
      assert [name] + [] == [name];
    }
  }
}
