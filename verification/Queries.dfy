/** The queries of the resolver, as RFC 1035 reads them. */
module Queries {
  import opened CStrings
  import opened NameCodec
  import opened NameReader
  import opened Options
  import opened Records
  import opened Headers

  // ----- Reference: a query as section 4.1 of RFC 1035 lays it out -----

  datatype Question = Question(labels: seq<Label>, qtype: int, qclass: int)

  /** A standard query: flags zero, one question and nothing else. */
  function ParseQuery(buf: seq<Byte>): Option<Question> {
    if |buf| < 12 || Be16(buf, 2) != 0 || Be16(buf, 4) != 1 || Be16(buf, 6) != 0 || Be16(buf, 8) != 0 || Be16(buf, 10) != 0 then None
    else match ReadLabels(buf, 12, 12) {
      case None => None
      case Some(n) =>
        if n.end + 4 != |buf| then None else Some(Question(n.labels, Be16(buf, n.end), Be16(buf, n.end + 2)))
    }
  }

  // ----- What the resolver sends -----

  /** The header of a query: an identifier, no flags, one question. */
  function QueryHeader(id: UInt16): (header: seq<Byte>)
    ensures |header| == 12
  {
    HeaderBytes(Header(id, 0, 1, 0, 0, 0))
  }

  /** The query the resolver sends for an address record of class IN. */
  function Query(header: seq<Byte>, name: seq<Byte>): seq<Byte> {
    header + (Wire(Split(name)) + [0]) + [0, 1] + [0, 1]
  }

  /** Where the records of a response to a query for `name` begin. */
  function RecordStart(name: seq<Byte>): nat {
    |name| + 18
  }

  /** For every name: where its query ends, and the type and class it asks for, an address of class IN. */
  lemma QueryFields(header: seq<Byte>, name: seq<Byte>)
    requires |header| == 12
    ensures var q := Query(header, name);
            && |q| == RecordStart(name) && q[..12] == header
            && Be16(q, RecordStart(name) - 4) == 1 && Be16(q, RecordStart(name) - 2) == 1
  {
    hide Wire, Split;
    WireLengthAll(name);
    var q, n := Query(header, name), RecordStart(name);
    assert q[n - 4] == 0 && q[n - 3] == 1 && q[n - 2] == 0 && q[n - 1] == 1;
  }

  /**
    * RFC 1035 reads the name in a query as the labels of the text if and only if those labels
    * have lengths it allows; type and class follow it, and then a response's records.
    */
  lemma QueryExact(header: seq<Byte>, name: seq<Byte>)
    requires |header| == 12
    ensures ReadLabels(Query(header, name), 12, 12) == Some(Name(Split(name), RecordStart(name) - 4, false))
            <==> RfcLengths(Split(name))
  {
    hide Wire, Split, ReadLabels, RfcLengths;
    var q := Query(header, name);
    WireLengthAll(name);
    if RfcLengths(Split(name)) {
      ReadWire(header, Split(name), [0, 1] + [0, 1], 12);
      assert q == header + Wire(Split(name)) + [0] + ([0, 1] + [0, 1]);
    }
    if ReadLabels(q, 12, 12).Some? {
      ReadLabelsLengths(q, 12, 12);
    }
  }

  /**
    * The whole query: it is a standard query with the one question for an address (type 1) of
    * class IN (1) of the name if and only if the labels of the name have lengths RFC 1035 allows.
    */
  lemma QuestionExact(id: UInt16, name: seq<Byte>)
    ensures ParseQuery(Query(QueryHeader(id), name)) == Some(Question(Split(name), 1, 1)) <==> RfcLengths(Split(name))
  {
    hide Split, ReadLabels, RfcLengths, Query, Be16, HeaderBytes;
    var q := Query(QueryHeader(id), name);
    QueryExact(QueryHeader(id), name);
    QueryFields(QueryHeader(id), name);
    HeaderFields(Header(id, 0, 1, 0, 0, 0), q[12..]);
    assert q == QueryHeader(id) + q[12..];
    if ReadLabels(q, 12, 12).Some? {
      ReadLabelsLengths(q, 12, 12);
    }
  }

  /** A name of 64 bytes without a dot makes a query that RFC 1035 cannot read at all. */
  lemma LongLabelQuery(header: seq<Byte>, name: seq<Byte>)
    requires |header| == 12 && |name| == 64 && DOT !in name
    ensures ReadLabels(Query(header, name), 12, 12).None?
  {
    hide Wire, Split;
    FirstDotUnique(name, 64);
    SplitUnfold(name);
    WireCons(name, []);
    assert [name] + [] == [name];
    assert Query(header, name)[12] == 64;
  }
}
