/** The header of a message (section 4.1.1 of RFC 1035). */
module Headers {
  import opened CStrings
  import opened Records

  datatype Header = Header(id: UInt16, flags: UInt16, questions: UInt16, answers: UInt16, authorities: UInt16, additionals: UInt16)

  /** A 16-bit field in network order. */
  function Word(n: UInt16): (w: seq<Byte>)
    ensures |w| == 2
  {
    [n / 256, n % 256]
  }

  function HeaderBytes(h: Header): (bytes: seq<Byte>)
    ensures |bytes| == 12
  {
    Word(h.id) + Word(h.flags) + Word(h.questions) + Word(h.answers) + Word(h.authorities) + Word(h.additionals)
  }

  lemma WordAt(before: seq<Byte>, n: UInt16, after: seq<Byte>)
    ensures Be16(before + Word(n) + after, |before|) == n
  {
    var buf := before + Word(n) + after;
    assert buf[|before|] == n / 256 && buf[|before| + 1] == n % 256;
  }

  /** The six fields of a message, whatever follows them. */
  lemma HeaderFields(h: Header, rest: seq<Byte>)
    ensures var buf := HeaderBytes(h) + rest;
            && Be16(buf, 0) == h.id && Be16(buf, 2) == h.flags && Be16(buf, 4) == h.questions
            && Be16(buf, 6) == h.answers && Be16(buf, 8) == h.authorities && Be16(buf, 10) == h.additionals
  {
    hide Word, Be16;
    var a, b, c, d, e, f := Word(h.id), Word(h.flags), Word(h.questions), Word(h.answers), Word(h.authorities), Word(h.additionals);
    var buf := HeaderBytes(h) + rest;
    WordAt([], h.id, b + c + d + e + f + rest);
    assert buf == [] + a + (b + c + d + e + f + rest);
    WordAt(a, h.flags, c + d + e + f + rest);
    assert buf == a + b + (c + d + e + f + rest);
    WordAt(a + b, h.questions, d + e + f + rest);
    assert buf == (a + b) + c + (d + e + f + rest);
    WordAt(a + b + c, h.answers, e + f + rest);
    assert buf == (a + b + c) + d + (e + f + rest);
    WordAt(a + b + c + d, h.authorities, f + rest);
    assert buf == (a + b + c + d) + e + (f + rest);
    WordAt(a + b + c + d + e, h.additionals, rest);
  }
}
