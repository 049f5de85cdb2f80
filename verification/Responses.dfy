/** Decoding whole responses: three sections of records, read with one cursor. */
module Responses {
  import opened CStrings
  import opened NameCodec
  import opened NameReader
  import opened NameWalk
  import opened Options
  import opened Headers
  import opened Records
  import opened Multimap
  import opened Caches
  import opened Decoders
  import opened Sections

  /** A name with what a record says of it: an address, or the zone it serves. */
  datatype Pair = Pair(name: seq<Byte>, value: seq<Byte>)

  // ----- The records the decoders read as RFC 1035 does -----

  /** The name at `at` is readable and fits the decoders' buffer. */
  predicate GoodName(buf: seq<Byte>, at: nat) {
    && ReadLabels(buf, at, at).Some? && Readable(buf, at, at)
    && |Wire(ReadLabels(buf, at, at).value.labels)| < NAME_SIZE
  }

  predicate GoodRecord(buf: seq<Byte>, off: nat, r: Record) {
    && GoodName(buf, off) && ParseRecord(buf, off) == Some(r)
    && r.owner.compressed && r.owner.labels != []
    && KeepsStep(true, r) && TypeSurvives(true, r)
    && (r.rtype == IPV4_T ==> r.dataLen == 4)
  }

  /** The data of `r` is exactly one name, of at least one label. */
  predicate NamesServer(buf: seq<Byte>, r: Record) {
    && ReadLabels(buf, r.dataAt, r.dataAt).Some?
    && ReadLabels(buf, r.dataAt, r.dataAt).value.labels != []
    && ReadLabels(buf, r.dataAt, r.dataAt).value.end == r.End()
  }

  /** An authority read with the cursor exactly at it, or one short. */
  predicate GoodAuthority(buf: seq<Byte>, exact: bool, off: nat, r: Record) {
    && GoodName(buf, off) && OwnerWalked(buf, off) && ParseRecord(buf, off) == Some(r) && Late(exact, r.owner)
    && GoodName(buf, r.dataAt) && NamesServer(buf, r)
  }

  predicate GoodRecords(buf: seq<Byte>, off: nat, rs: seq<Record>)
    decreases |rs|
  {
    rs == [] || (GoodRecord(buf, off, rs[0]) && GoodRecords(buf, rs[0].End(), rs[1..]))
  }

  predicate GoodAuthorities(buf: seq<Byte>, exact: bool, off: nat, rs: seq<Record>)
    decreases |rs|
  {
    rs == [] ||
    (GoodAuthority(buf, exact, off, rs[0]) && GoodAuthorities(buf, ServerCompressed(buf, rs[0]), rs[0].End(), rs[1..]))
  }

  predicate ServerCompressed(buf: seq<Byte>, r: Record) {
    ReadLabels(buf, r.dataAt, r.dataAt).Some? && ReadLabels(buf, r.dataAt, r.dataAt).value.compressed
  }

  // ----- What the records of a section mean -----

  function AnswersOf(buf: seq<Byte>, rs: seq<Record>): seq<Pair>
    decreases |rs|
  {
    if rs == [] then []
    else (if rs[0].rtype == IPV4_T && rs[0].owner.labels != [] && rs[0].dataAt + 4 <= |buf|
          then [Pair(Join(rs[0].owner.labels), AddressText(buf, rs[0].dataAt))] else [])
         + AnswersOf(buf, rs[1..])
  }

  /** Only the address records (type 1) of a section count, each with its own owner and address. */
  lemma {:induction false} AnswersExact(buf: seq<Byte>, rs: seq<Record>, p: Pair)
    ensures p in AnswersOf(buf, rs) <==>
      exists r :: r in rs && r.rtype == 1 && r.owner.labels != [] && r.dataAt + 4 <= |buf|
                  && p == Pair(Join(r.owner.labels), AddressText(buf, r.dataAt))
    decreases |rs|
  {
    hide Join, AddressText;
    if rs != [] {
      AnswersExact(buf, rs[1..], p);
      assert rs == [rs[0]] + rs[1..];
    }
  }

  /** The name servers an authority section lists, each with the zone it serves. */
  function ZonesOf(buf: seq<Byte>, rs: seq<Record>): seq<Pair>
    decreases |rs|
  {
    if rs == [] then []
    else (if NamesServer(buf, rs[0])
          then [Pair(Join(ReadLabels(buf, rs[0].dataAt, rs[0].dataAt).value.labels), Wire(rs[0].owner.labels))] else [])
         + ZonesOf(buf, rs[1..])
  }

  function AddAll(m: map<seq<Byte>, seq<Byte>>, ps: seq<Pair>): map<seq<Byte>, seq<Byte>>
    decreases |ps|
  {
    if ps == [] then m else AddAll(m[ps[0].name := ps[0].value], ps[1..])
  }

  function InsertAll(m: map<seq<Byte>, seq<Byte>>, ps: seq<Pair>): map<seq<Byte>, seq<Byte>>
    decreases |ps|
  {
    if ps == [] then m else InsertAll(InsertNew(m, ps[0].name, ps[0].value), ps[1..])
  }

  /** One cache entry per address whose name is a listed server, under that server's first zone. */
  function Glue(addresses: seq<Pair>, foundNs: map<seq<Byte>, seq<Byte>>): seq<Entry> {
    if addresses == [] then []
    else (if addresses[0].name in foundNs
          then [Entry(foundNs[addresses[0].name], Server(addresses[0].name, addresses[0].value))] else [])
         + Glue(addresses[1..], foundNs)
  }

  // ----- The section loops on good records -----

  /** A readable owner is read truly, wherever the cursor stands. */
  lemma OwnerRead(buf: seq<Byte>, k: nat, off: nat)
    requires InStep(buf, k, off) && OwnerWalked(buf, off) && ParseRecord(buf, off).Some? && GoodName(buf, off)
    ensures NameFits(buf, |buf|, CodeView(buf, k).nameAt)
    ensures OwnerBytes(buf, |buf|, k) == Wire(ReadLabels(buf, off, off).value.labels)
  {
    hide ScanEnd, Readable, ReadLabels, CodeView, InStep, OwnerWalked, Wire, Scan, NearPointers;
    ReadableNear(buf, off, off);
    NameInside(buf, off, off);
    OwnerExact(buf, k, off, |buf|);
  }

  lemma GoodRecordView(buf: seq<Byte>, k: nat, off: nat, r: Record)
    requires GoodRecord(buf, off, r) && InStep(buf, k, off)
    ensures RecordFits(buf, |buf|, k) && r.owner.labels != []
    ensures TextOf(OwnerBytes(buf, |buf|, k)) == Some(Join(r.owner.labels))
    ensures CodeView(buf, k).rtype == r.rtype && CodeView(buf, k).dataAt == r.dataAt
    ensures CursorAfter(buf, k) == r.End()
    ensures r.rtype == IPV4_T ==> r.dataAt + 4 <= |buf|
  {
    hide ScanEnd, Readable, CleanRun, ReadLabels, CodeView, InStep, Wire, Scan, Join, TextOf, OwnerBytes, NameFits;
    GoodRecordWalked(buf, off, r);
    FieldsExact(buf, k, off);
    StepExact(buf, k, off);
    OwnerRead(buf, k, off);
    RfcDecodable(buf, off, off);
    WireText(r.owner.labels);
  }

  lemma GoodRecordWalked(buf: seq<Byte>, off: nat, r: Record)
    requires GoodRecord(buf, off, r)
    ensures OwnerWalked(buf, off) && ReadLabels(buf, off, off) == Some(r.owner) && r.End() <= |buf|
  {
    hide Wire;
    ReadableRun(buf, off, off);
  }

  /** A section of good answers: the loop reads their addresses in order and ends in step. */
  lemma {:induction false} GoodAnswersRead(buf: seq<Byte>, k: nat, off: nat, rs: seq<Record>, m: map<seq<Byte>, seq<Byte>>)
    requires InStep(buf, k, off) && GoodRecords(buf, off, rs)
    ensures var k' := if rs == [] then k else SectionEnd(off, rs);
            AnswersRead(buf, |buf|, k, |rs|, m) == Some(Read(k', AddAll(m, AnswersOf(buf, rs))))
    decreases |rs|
  {
    hide Readable, ReadLabels, CodeView, InStep, Wire, Join, GoodRecord, RecordFits, CursorAfter, TextOf, OwnerBytes, AddAll, AnswersOf;
    if rs == [] {
      NoAnswers(buf, m);
    } else {
      GoodRecordView(buf, k, off, rs[0]);
      AnswerStep(m, buf, rs);
      AtStart(buf, rs[0].End());
      GoodAnswersRead(buf, rs[0].End(), rs[0].End(), rs[1..],
                      AnswerEffect(buf, CodeView(buf, k), Join(rs[0].owner.labels), m));
    }
  }

  lemma NoAnswers(buf: seq<Byte>, m: map<seq<Byte>, seq<Byte>>)
    ensures AddAll(m, AnswersOf(buf, [])) == m
  {
  }

  lemma AtStart(buf: seq<Byte>, start: nat)
    ensures InStep(buf, start, start)
  {
  }

  lemma AnswerStep(m: map<seq<Byte>, seq<Byte>>, buf: seq<Byte>, rs: seq<Record>)
    requires rs != [] && rs[0].owner.labels != [] && (rs[0].rtype == IPV4_T ==> rs[0].dataAt + 4 <= |buf|)
    ensures AddAll(m, AnswersOf(buf, rs))
         == AddAll(if rs[0].rtype == IPV4_T then m[Join(rs[0].owner.labels) := AddressText(buf, rs[0].dataAt)] else m,
                   AnswersOf(buf, rs[1..]))
  {
    hide Join, AddressText;
    if rs[0].rtype == IPV4_T {
      assert AnswersOf(buf, rs)[1..] == AnswersOf(buf, rs[1..]);
    } else {
      assert [] + AnswersOf(buf, rs[1..]) == AnswersOf(buf, rs[1..]);
    }
  }

  lemma GoodAuthorityView(buf: seq<Byte>, k: nat, off: nat, r: Record)
    requires GoodAuthority(buf, k == off, off, r) && InStep(buf, k, off)
    ensures NameFits(buf, |buf|, CodeView(buf, k).nameAt) && NameFits(buf, |buf|, CodeView(buf, k).dataAt)
    ensures OwnerBytes(buf, |buf|, k) == Wire(r.owner.labels)
    ensures TextOf(ServerBytes(buf, |buf|, k)) == Some(Join(ReadLabels(buf, r.dataAt, r.dataAt).value.labels))
    ensures InStep(buf, AuthorityCursor(buf, k), r.End())
    ensures AuthorityCursor(buf, k) == r.End() <==> ServerCompressed(buf, r)
    ensures NamesServer(buf, r)
  {
    hide ScanEnd, Readable, CleanRun, ReadLabels, CodeView, InStep, Wire, Scan, Join, TextOf, OwnerBytes, OwnerWalked, ParseRecord,
         AuthorityCursor;
    GoodAuthorityWalked(buf, k == off, off, r);
    AuthorityStepExact(buf, k, off);
    ServerExact(buf, k, off, |buf|);
    OwnerRead(buf, k, off);
    RfcDecodable(buf, r.dataAt, r.dataAt);
    WireText(ServerName(buf, r).labels);
  }

  lemma GoodAuthorityWalked(buf: seq<Byte>, exact: bool, off: nat, r: Record)
    requires GoodAuthority(buf, exact, off, r)
    ensures ReadLabels(buf, off, off) == Some(r.owner) && r.dataAt < |buf|
    ensures ServerWalked(buf, r) && ServerName(buf, r).end == r.End()
  {
    hide Wire;
    ReadableRun(buf, r.dataAt, r.dataAt);
  }

  /** A section of good authorities: the loop maps the servers to their zones and ends in step. */
  lemma {:induction false} GoodAuthoritiesRead(buf: seq<Byte>, k: nat, off: nat, rs: seq<Record>, m: map<seq<Byte>, seq<Byte>>)
    returns (k': nat)
    requires InStep(buf, k, off) && GoodAuthorities(buf, k == off, off, rs)
    ensures InStep(buf, k', SectionEnd(off, rs))
    ensures AuthoritiesRead(buf, |buf|, k, |rs|, m) == Some(Read(k', InsertAll(m, ZonesOf(buf, rs))))
    decreases |rs|
  {
    hide Readable, ReadLabels, CodeView, InStep, Wire, Join, GoodAuthority, NameFits, AuthorityCursor, TextOf, OwnerBytes, ServerBytes,
         InsertNew, NamesServer, ServerCompressed, InsertAll, ZonesOf;
    if rs == [] {
      NoZones(buf, m);
      k' := k;
    } else {
      GoodAuthorityView(buf, k, off, rs[0]);
      ZoneStep(m, buf, rs);
      k' := GoodAuthoritiesRead(buf, AuthorityCursor(buf, k), rs[0].End(), rs[1..],
                                InsertNew(m, TextOf(ServerBytes(buf, |buf|, k)).value, OwnerBytes(buf, |buf|, k)));
    }
  }

  lemma NoZones(buf: seq<Byte>, m: map<seq<Byte>, seq<Byte>>)
    ensures InsertAll(m, ZonesOf(buf, [])) == m
  {
  }

  lemma ZoneStep(m: map<seq<Byte>, seq<Byte>>, buf: seq<Byte>, rs: seq<Record>)
    requires rs != [] && NamesServer(buf, rs[0])
    ensures InsertAll(m, ZonesOf(buf, rs))
         == InsertAll(InsertNew(m, Join(ReadLabels(buf, rs[0].dataAt, rs[0].dataAt).value.labels), Wire(rs[0].owner.labels)),
                      ZonesOf(buf, rs[1..]))
  {
    hide Join, Wire, ReadLabels, InsertNew;
    assert ZonesOf(buf, rs)[1..] == ZonesOf(buf, rs[1..]);
  }

  /** A section of good additionals: one entry for each address of a listed server, in order. */
  lemma {:induction false} GoodAdditionalsRead(buf: seq<Byte>, k: nat, off: nat, rs: seq<Record>,
                                               foundNs: map<seq<Byte>, seq<Byte>>, es: seq<Entry>)
    requires InStep(buf, k, off) && GoodRecords(buf, off, rs)
    ensures var k' := if rs == [] then k else SectionEnd(off, rs);
            AdditionalsRead(buf, |buf|, k, |rs|, foundNs, es)
            == Some(Read(k', EmplaceAll(es, Glue(AnswersOf(buf, rs), foundNs))))
    decreases |rs|
  {
    hide Readable, ReadLabels, CodeView, InStep, Wire, Join, GoodRecord, RecordFits, CursorAfter, TextOf, OwnerBytes, Inserted,
         EmplaceAll, Glue, AnswersOf;
    if rs == [] {
      NoGlue(buf, foundNs, es);
    } else {
      GoodRecordView(buf, k, off, rs[0]);
      GlueStep(es, buf, rs, foundNs);
      AtStart(buf, rs[0].End());
      var owner := Join(rs[0].owner.labels);
      GoodAdditionalsRead(buf, rs[0].End(), rs[0].End(), rs[1..], foundNs,
                          EmplaceAll(es, AdditionalEffect(buf, CodeView(buf, k), owner, foundNs)));
    }
  }

  lemma NoGlue(buf: seq<Byte>, foundNs: map<seq<Byte>, seq<Byte>>, es: seq<Entry>)
    ensures EmplaceAll(es, Glue(AnswersOf(buf, []), foundNs)) == es
  {
  }

  lemma GlueStep(es: seq<Entry>, buf: seq<Byte>, rs: seq<Record>, foundNs: map<seq<Byte>, seq<Byte>>)
    requires rs != [] && rs[0].owner.labels != [] && (rs[0].rtype == IPV4_T ==> rs[0].dataAt + 4 <= |buf|)
    ensures var owner := Join(rs[0].owner.labels);
            var one := if rs[0].rtype == IPV4_T && owner in foundNs
                       then [Entry(foundNs[owner], Server(owner, AddressText(buf, rs[0].dataAt)))] else [];
            EmplaceAll(es, Glue(AnswersOf(buf, rs), foundNs)) == EmplaceAll(EmplaceAll(es, one), Glue(AnswersOf(buf, rs[1..]), foundNs))
  {
    hide Join, AddressText, Inserted, EmplaceAll;
    var owner := Join(rs[0].owner.labels);
    var tail := AnswersOf(buf, rs[1..]);
    if rs[0].rtype == IPV4_T {
      assert AnswersOf(buf, rs)[1..] == tail;
      var one := if owner in foundNs then [Entry(foundNs[owner], Server(owner, AddressText(buf, rs[0].dataAt)))] else [];
      EmplaceAllConcat(es, one, Glue(tail, foundNs));
    } else {
      assert [] + tail == tail;
      EmplaceAllConcat(es, [], Glue(tail, foundNs));
      assert [] + Glue(tail, foundNs) == Glue(tail, foundNs);
    }
  }

  // ----- The two passes are a join -----

  /** The first zone listed for server `ns`. */
  function FirstZone(zones: seq<Pair>, ns: seq<Byte>): Option<seq<Byte>> {
    if zones == [] then None
    else if zones[0].name == ns then Some(zones[0].value)
    else FirstZone(zones[1..], ns)
  }

  /** For each address, a scan of the listed servers: the join the two passes compute. */
  function NestedJoin(addresses: seq<Pair>, zones: seq<Pair>): seq<Entry> {
    if addresses == [] then []
    else (match FirstZone(zones, addresses[0].name)
          case None => []
          case Some(z) => [Entry(z, Server(addresses[0].name, addresses[0].value))])
         + NestedJoin(addresses[1..], zones)
  }

  lemma {:induction false} InsertAllIsFirst(m: map<seq<Byte>, seq<Byte>>, zones: seq<Pair>, ns: seq<Byte>)
    ensures var r := InsertAll(m, zones);
            if ns in m then ns in r && r[ns] == m[ns]
            else match FirstZone(zones, ns)
                 case None => ns !in r
                 case Some(z) => ns in r && r[ns] == z
    decreases |zones|
  {
    if zones != [] {
      InsertAllIsFirst(InsertNew(m, zones[0].name, zones[0].value), zones[1..], ns);
    }
  }

  /** Decoding the authorities into a map and then looking servers up in it is the nested-loop join. */
  lemma {:induction false} GlueIsJoin(addresses: seq<Pair>, zones: seq<Pair>)
    ensures Glue(addresses, InsertAll(map[], zones)) == NestedJoin(addresses, zones)
  {
    if addresses != [] {
      InsertAllIsFirst(map[], zones, addresses[0].name);
      GlueIsJoin(addresses[1..], zones);
    }
  }

  /** The last value given for `name`. */
  function LastValue(ps: seq<Pair>, name: seq<Byte>): Option<seq<Byte>> {
    if ps == [] then None
    else if ps[|ps| - 1].name == name then Some(ps[|ps| - 1].value)
    else LastValue(ps[..|ps| - 1], name)
  }

  /** Answers overwrite: a name ends up with the address of its last answer, other names keep theirs. */
  lemma {:induction false} AddAllIsLast(m: map<seq<Byte>, seq<Byte>>, ps: seq<Pair>, name: seq<Byte>)
    ensures var r := AddAll(m, ps);
            match LastValue(ps, name)
            case Some(v) => name in r && r[name] == v
            case None => (name in r <==> name in m) && (name in m ==> r[name] == m[name])
    decreases |ps|
  {
    if ps != [] {
      AddAllIsLast(m[ps[0].name := ps[0].value], ps[1..], name);
      LastOfRest(ps, name);
    }
  }

  lemma {:induction false} LastOfRest(ps: seq<Pair>, name: seq<Byte>)
    requires ps != []
    ensures LastValue(ps, name) ==
      if LastValue(ps[1..], name).Some? then LastValue(ps[1..], name)
      else if ps[0].name == name then Some(ps[0].value) else None
  {
    if |ps| > 1 {
      LastOfRest(ps[..|ps| - 1], name);
      assert ps[..|ps| - 1][1..] == ps[1..][..|ps| - 2];
    }
  }

  // ----- Whole messages -----

  /** The records of a section of `n` records at `off`, up to the first that does not parse. */
  function RecordsFrom(buf: seq<Byte>, off: nat, n: nat): seq<Record>
    decreases n
  {
    if n == 0 then []
    else match ParseRecord(buf, off)
      case None => []
      case Some(r) => [r] + RecordsFrom(buf, r.End(), n - 1)
  }

  /** What a response tells the resolver. */
  datatype Response = Response(answers: seq<Pair>, referral: bool, servers: seq<Entry>)

  function Count(buf: seq<Byte>, section: nat): nat {
    Be16(buf, 6 + 2 * section)
  }

  function Section(buf: seq<Byte>, start: nat, section: nat): seq<Record> {
    RecordsFrom(buf, SectionStart(buf, start, section), Count(buf, section))
  }

  function SectionStart(buf: seq<Byte>, start: nat, section: nat): nat
    decreases section, 0
  {
    if section == 0 then start
    else SectionEnd(SectionStart(buf, start, section - 1),
                    RecordsFrom(buf, SectionStart(buf, start, section - 1), Count(buf, section - 1)))
  }

  predicate IsReferral(buf: seq<Byte>) {
    Count(buf, 1) >= 1 && Count(buf, 2) >= 1
  }

  /** The counts are the last three fields of the header, and a referral has authorities and additionals. */
  lemma CountsExact(h: Header, rest: seq<Byte>)
    ensures var buf := HeaderBytes(h) + rest;
            && Count(buf, 0) == h.answers && Count(buf, 1) == h.authorities && Count(buf, 2) == h.additionals
            && (IsReferral(buf) <==> h.authorities >= 1 && h.additionals >= 1)
  {
    hide HeaderBytes, Be16;
    HeaderFields(h, rest);
  }

  /** The response in `buf`, whose records begin at `start`, as RFC 1035 reads it. */
  function Parse(buf: seq<Byte>, start: nat): Response {
    Response(AnswersOf(buf, Section(buf, start, 0)),
             IsReferral(buf),
             if IsReferral(buf)
             then NestedJoin(AnswersOf(buf, Section(buf, start, 2)), ZonesOf(buf, Section(buf, start, 1)))
             else [])
  }

  /** All announced answers are there and the program reads them as RFC 1035 does. */
  predicate GoodAnswers(buf: seq<Byte>, start: nat) {
    && |buf| >= 12 && |Section(buf, start, 0)| == Count(buf, 0)
    && GoodRecords(buf, start, Section(buf, start, 0))
  }

  /** So are all announced authorities and additionals. */
  predicate GoodReferral(buf: seq<Byte>, start: nat) {
    && |Section(buf, start, 1)| == Count(buf, 1) && |Section(buf, start, 2)| == Count(buf, 2)
    && GoodAuthorities(buf, true, SectionStart(buf, start, 1), Section(buf, start, 1))
    && GoodRecords(buf, SectionStart(buf, start, 2), Section(buf, start, 2))
  }

  /**
    * A response to a query for `name` that the program reads as RFC 1035 does, as far as it reads
    * it: the authorities and additionals only if both are there and no answer is for the name.
    */
  predicate GoodMessage(buf: seq<Byte>, start: nat, name: seq<Byte>) {
    && GoodAnswers(buf, start)
    && (IsReferral(buf) && LastValue(Parse(buf, start).answers, name).None? ==> GoodReferral(buf, start))
  }

  /** The answers of a good message, from where its records begin to where its authorities do. */
  lemma GoodMessageAnswers(buf: seq<Byte>, start: nat, m: map<seq<Byte>, seq<Byte>>)
    requires GoodAnswers(buf, start)
    ensures AnswersRead(buf, |buf|, start, Count(buf, 0), m)
         == Some(Read(SectionStart(buf, start, 1), AddAll(m, Parse(buf, start).answers)))
  {
    hide GoodRecords, AnswersOf, InStep, AddAll, AnswersRead, RecordsFrom, NestedJoin, ZonesOf;
    AtStart(buf, start);
    SectionsFollow(buf, start, 0);
    GoodAnswersRead(buf, start, start, Section(buf, start, 0), m);
  }

  /** What the name server cache holds after both sections of a referral were read. */
  function ReferralRead(buf: seq<Byte>, jumps: nat, k: nat, es: seq<Entry>): Option<seq<Entry>> {
    match AuthoritiesRead(buf, jumps, k, Count(buf, 1), map[])
    case None => None
    case Some(found) =>
      match AdditionalsRead(buf, jumps, found.cursor, Count(buf, 2), found.result, es)
      case None => None
      case Some(read) => Some(read.result)
  }

  method DecodeReferral(buf: seq<Byte>, k: nat, nsCache: LockedMulti, ghost jumps: nat)
    requires nsCache.Valid() && ReferralRead(buf, jumps, k, nsCache.entries).Some?
    modifies nsCache
    ensures nsCache.Valid()
    ensures ReferralRead(buf, jumps, k, old(nsCache.entries)) == Some(nsCache.entries)
  {
    hide AuthoritiesRead, AdditionalsRead, Sorted;
    var k', foundNs := DecodeAuthorities(buf, k, Count(buf, 1), jumps);
    k' := DecodeAdditionals(buf, k', Count(buf, 2), foundNs, nsCache, jumps);
  }

  /** Both sections of a good referral: the cache gains the join of its addresses with its zones. */
  lemma GoodReferralRead(buf: seq<Byte>, k: nat, auth: seq<Record>, addl: seq<Record>, es: seq<Entry>)
    requires |auth| == Count(buf, 1) && |addl| == Count(buf, 2)
    requires GoodAuthorities(buf, true, k, auth) && GoodRecords(buf, SectionEnd(k, auth), addl)
    ensures ReferralRead(buf, |buf|, k, es) == Some(EmplaceAll(es, NestedJoin(AnswersOf(buf, addl), ZonesOf(buf, auth))))
  {
    hide GoodRecords, GoodAuthorities, AnswersOf, InStep, EmplaceAll, ZonesOf, Glue, NestedJoin, InsertAll, AuthoritiesRead,
         AdditionalsRead;
    AtStart(buf, k);
    var k' := GoodAuthoritiesRead(buf, k, k, auth, map[]);
    GlueIsJoin(AnswersOf(buf, addl), ZonesOf(buf, auth));
    GoodAdditionalsRead(buf, k', SectionEnd(k, auth), addl, InsertAll(map[], ZonesOf(buf, auth)), es);
  }

  // ----- What good messages guarantee of the names and addresses in them -----

  lemma {:induction false} AnswersNamed(buf: seq<Byte>, off: nat, rs: seq<Record>)
    requires GoodRecords(buf, off, rs)
    ensures forall p :: p in AnswersOf(buf, rs) ==> p.name != [] && p.value != []
    decreases |rs|
  {
    hide ReadLabels, Readable, Wire, InStep, AddressText, Join;
    if rs != [] {
      AnswersNamed(buf, rs[0].End(), rs[1..]);
      RfcDecodable(buf, off, off);
      JoinNonempty(rs[0].owner.labels);
    }
  }

  lemma JoinNonempty(ls: seq<Label>)
    requires ls != [] && Decodable(ls)
    ensures Join(ls) != []
  {
    assert ls[0] in ls;
  }

  lemma {:induction false} JoinNamesServers(addresses: seq<Pair>, zones: seq<Pair>)
    requires forall p :: p in addresses ==> p.name != []
    ensures forall e :: e in NestedJoin(addresses, zones) ==> e.server.name != []
  {
    if addresses != [] {
      assert addresses[0] in addresses;
      JoinNamesServers(addresses[1..], zones);
    }
  }

  lemma AddressesGiven(buf: seq<Byte>, start: nat)
    requires GoodAnswers(buf, start)
    ensures forall p :: p in Parse(buf, start).answers ==> p.value != []
  {
    hide GoodRecords, Section, SectionStart, ZonesOf, NestedJoin;
    AnswersNamed(buf, start, Section(buf, start, 0));
  }

  lemma ServersNamed(buf: seq<Byte>, start: nat)
    requires IsReferral(buf) && GoodReferral(buf, start)
    ensures forall e :: e in Parse(buf, start).servers ==> e.server.name != []
  {
    hide GoodRecords, GoodAuthorities, Section, SectionStart, ZonesOf, NestedJoin;
    AnswersNamed(buf, SectionStart(buf, start, 2), Section(buf, start, 2));
    JoinNamesServers(AnswersOf(buf, Section(buf, start, 2)), ZonesOf(buf, Section(buf, start, 1)));
  }

  lemma {:induction false} LastValueGiven(ps: seq<Pair>, name: seq<Byte>)
    requires forall p :: p in ps ==> p.value != []
    ensures LastValue(ps, name).Some? ==> LastValue(ps, name).value != []
  {
    if ps != [] {
      assert ps[|ps| - 1] in ps;
      LastValueGiven(ps[..|ps| - 1], name);
    }
  }

  lemma {:induction false} AddAllKeys(m: map<seq<Byte>, seq<Byte>>, ps: seq<Pair>)
    requires forall k :: k in m ==> m[k] != []
    requires forall p :: p in ps ==> p.value != []
    ensures m.Keys <= AddAll(m, ps).Keys
    ensures forall k :: k in AddAll(m, ps) ==> AddAll(m, ps)[k] != []
    decreases |ps|
  {
    if ps != [] {
      assert ps[0] in ps;
      AddAllKeys(m[ps[0].name := ps[0].value], ps[1..]);
    }
  }

  /** Sections follow one another. */
  lemma SectionsFollow(buf: seq<Byte>, start: nat, section: nat)
    ensures SectionStart(buf, start, 0) == start
    ensures SectionStart(buf, start, section + 1) == SectionEnd(SectionStart(buf, start, section), Section(buf, start, section))
  {
    hide SectionEnd, RecordsFrom;
  }
}
