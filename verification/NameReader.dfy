/** Reading possibly compressed names out of a message (section 4.1.4 of RFC 1035). */
module NameReader {
  import opened CStrings
  import opened NameCodec
  import opened Options

  // ----- Reference: names as RFC 1035 defines them -----

  /** A name, the offset just after it in the message, and whether it ends in a pointer. */
  datatype Name = Name(labels: seq<Label>, end: nat, compressed: bool)

  /**
    * The name at `off`, in a run of labels that began at `start`. A pointer names a prior
    * occurrence of a name, so its target lies before the run that holds it.
    */
  function ReadLabels(buf: seq<Byte>, start: nat, off: nat): Option<Name>
    decreases start, |buf| - off
  {
    if off >= |buf| then None
    else
      var b: int := buf[off];
      if b == 0 then Some(Name([], off + 1, false))
      else if b >= 192 then
        if off + 1 >= |buf| then None
        else
          var target := (b - 192) * 256 + buf[off + 1];
          if target >= start then None
          else match ReadLabels(buf, target, target) {
            case None => None
            case Some(n) => Some(Name(n.labels, off + 2, true))
          }
      else if b > 63 || off + 1 + b > |buf| then None
      else match ReadLabels(buf, start, off + 1 + b) {
        case None => None
        case Some(n) => Some(Name([buf[off + 1..off + 1 + b]] + n.labels, n.end, n.compressed))
      }
  }

  // ----- What the program does, byte by byte -----

  function Pow2(n: nat): (p: nat)
    ensures p > 0
  {
    if n == 0 then 1 else 2 * Pow2(n - 1)
  }

  /** `(1 << n) & num`. */
  function IsBitSet(n: nat, num: Byte): int {
    if num / Pow2(n) % 2 == 1 then Pow2(n) else 0
  }

  lemma PointerBits(b: Byte)
    ensures IsBitSet(6, b) > 0 && IsBitSet(7, b) > 0 <==> b >= 192
  {
    assert Pow2(6) == 64 && Pow2(7) == 128 by {
      assert Pow2(1) == 2 && Pow2(2) == 4 && Pow2(3) == 8 && Pow2(4) == 16 && Pow2(5) == 32;
    }
  }

  /** What the program does at a byte of a name; its loops test nothing else. */
  datatype Step = Stop | Copy | Jump(target: nat) | Outside

  function CodeStep(buf: seq<Byte>, off: nat): Step {
    if off >= |buf| then Outside
    else if buf[off] == 0 then Stop
    else if buf[off] < 192 then Copy
    else if off + 1 < |buf| then Jump(buf[off + 1])
    else Outside
  }

  /** The bytes the program copies, if it stops inside the message after at most `jumps` jumps. */
  function Scan(buf: seq<Byte>, jumps: nat, off: nat): Option<seq<Byte>>
    decreases jumps, |buf| - off
  {
    match CodeStep(buf, off)
    case Outside => None
    case Stop => Some([])
    case Jump(target) => if jumps == 0 then None else Scan(buf, jumps - 1, target)
    case Copy =>
      match Scan(buf, jumps, off + 1) {
        case None => None
        case Some(s) => Some([buf[off]] + s)
      }
  }

  /** Where the cursor stops: on the terminating zero, or just after the first pointer. */
  function ScanEnd(buf: seq<Byte>, off: nat): nat
    decreases |buf| - off
  {
    match CodeStep(buf, off)
    case Outside => off
    case Stop => off
    case Jump(_) => off + 2
    case Copy => ScanEnd(buf, off + 1)
  }

  /** A scan that stops does not depend on the jumps it was allowed. */
  lemma {:induction false} ScanMore(buf: seq<Byte>, jumps: nat, more: nat, off: nat)
    requires jumps <= more && Scan(buf, jumps, off).Some?
    ensures Scan(buf, more, off) == Scan(buf, jumps, off)
    decreases jumps, |buf| - off
  {
    match CodeStep(buf, off)
    case Jump(target) =>
      ScanMore(buf, jumps - 1, more - 1, target);
    case Copy =>
      ScanMore(buf, jumps, more, off + 1);
    case _ =>
  }

  lemma ScanStep(buf: seq<Byte>, jumps: nat, off: nat)
    requires Scan(buf, jumps, off).Some?
    ensures off < |buf|
    ensures buf[off] == 0 ==> Scan(buf, jumps, off) == Some([]) && ScanEnd(buf, off) == off
    ensures buf[off] >= 192 ==>
              && off + 1 < |buf| && jumps > 0 && ScanEnd(buf, off) == off + 2
              && Scan(buf, jumps, off) == Scan(buf, jumps - 1, buf[off + 1])
    ensures 0 < buf[off] < 192 ==>
              && Scan(buf, jumps, off + 1).Some? && ScanEnd(buf, off) == ScanEnd(buf, off + 1)
              && Scan(buf, jumps, off).value == [buf[off]] + Scan(buf, jumps, off + 1).value
  {
  }

  /** The state of a name buffer while `s` is copied to index `at`: `done` has been written. */
  ghost predicate Copied(name: seq<Byte>, before: seq<Byte>, at: nat, done: seq<Byte>) {
    && at + |done| <= |before|
    && name == before[..at] + done + before[at + |done|..]
  }

  lemma CopiedStep(name: seq<Byte>, before: seq<Byte>, at: nat, done: seq<Byte>, b: Byte)
    requires Copied(name, before, at, done) && at + |done| < |before|
    ensures Copied(name[at + |done| := b], before, at, done + [b])
  {
  }

  lemma CopiedTrans(before: seq<Byte>, at: nat, done: seq<Byte>, mid: seq<Byte>, rest: seq<Byte>, name: seq<Byte>)
    requires Copied(mid, before, at, done) && Copied(name, mid, at + |done|, rest)
    ensures Copied(name, before, at, done + rest)
  {
  }

  method ReadPtrName(buf: seq<Byte>, offset: nat, name: array<Byte>, nameIndex: nat, stop: bool, ghost jumps: nat)
    returns (nameIndex': nat, stop': bool)
    requires !stop
    requires var s := Scan(buf, jumps, offset); s.Some? && nameIndex + |s.value| <= name.Length
    modifies name
    ensures Copied(name[..], old(name[..]), nameIndex, Scan(buf, jumps, offset).value)
    ensures nameIndex' == nameIndex + |Scan(buf, jumps, offset).value|
    ensures stop'
    decreases jumps
  {
    hide Scan, ScanEnd, CodeStep, IsBitSet, Pow2, Copied;
    nameIndex', stop' := nameIndex, stop;
    var k := 0;
    var i := nameIndex;
    ghost var before := name[..];
    ghost var total := Scan(buf, jumps, offset).value;
    ghost var done: seq<Byte> := [];
    CopiedNothing(before, nameIndex);
    ScanStep(buf, jumps, offset);
    while buf[offset + k] != 0
      invariant offset + k < |buf|
      invariant stop' ==> buf[offset + k] >= 192
      invariant stop' ==> nameIndex' == nameIndex + |total| && Copied(name[..], before, nameIndex, total)
      invariant !stop' ==> i == nameIndex' == nameIndex + |done| && Copied(name[..], before, nameIndex, done)
      invariant !stop' ==> Scan(buf, jumps, offset + k).Some? && total == done + Scan(buf, jumps, offset + k).value
      decreases |buf| - k, !stop'
    {
      PointerBits(buf[offset + k]);
      if !stop' {
        ScanStep(buf, jumps, offset + k);
      }
      if IsBitSet(6, buf[offset + k]) > 0 && IsBitSet(7, buf[offset + k]) > 0 {
        if stop' {
          break;
        }
        var nextOffset := buf[offset + k + 1];
        ghost var mid := name[..];
        nameIndex', stop' := ReadPtrName(buf, nextOffset, name, nameIndex', stop', jumps - 1);
        CopiedTrans(before, nameIndex, done, mid, Scan(buf, jumps - 1, nextOffset).value, name[..]);
      } else {
        ghost var mid := name[..];
        ghost var b := buf[offset + k];
        CopiedStep(mid, before, nameIndex, done, b);
        AppendHead(done, b, Scan(buf, jumps, offset + k + 1).value);
        Put(name, i, buf[offset + k]);
        done := done + [b];
        nameIndex' := nameIndex' + 1;
        k := k + 1;
        ScanStep(buf, jumps, offset + k);
      }
      i := i + 1;
    }
    if !stop' {
      ScanStep(buf, jumps, offset + k);
      assert done + [] == done;
    }
    stop' := true;
  }

  lemma CopiedNothing(before: seq<Byte>, at: nat)
    requires at <= |before|
    ensures Copied(before, before, at, [])
  {
  }

  lemma AppendHead(done: seq<Byte>, b: Byte, rest: seq<Byte>)
    ensures done + ([b] + rest) == done + [b] + rest
  {
  }

  method ReadName(buf: seq<Byte>, index: nat, name: array<Byte>, dataLen: nat, ghost jumps: nat) returns (index': nat)
    requires var s := Scan(buf, jumps, index); s.Some? && |s.value| <= name.Length
    modifies name
    ensures Copied(name[..], old(name[..]), 0, Scan(buf, jumps, index).value)
    ensures index' == ScanEnd(buf, index)
  {
    hide Scan, ScanEnd, CodeStep, IsBitSet, Pow2, Copied;
    index' := index;
    var stop := false;
    var i := 0;
    ghost var before := name[..];
    ghost var total := Scan(buf, jumps, index).value;
    ghost var done: seq<Byte> := [];
    CopiedNothing(before, 0);
    ScanStep(buf, jumps, index);
    while buf[index'] != 0
      invariant index <= index' < |buf|
      invariant i == |done| && Copied(name[..], before, 0, done)
      invariant Scan(buf, jumps, index').Some? && total == done + Scan(buf, jumps, index').value
      invariant ScanEnd(buf, index') == ScanEnd(buf, index)
      decreases |buf| - index'
    {
      PointerBits(buf[index']);
      ScanStep(buf, jumps, index');
      ghost var mid := name[..];
      if IsBitSet(6, buf[index']) > 0 && IsBitSet(7, buf[index']) > 0 {
        index' := index' + 1;
        var offset := buf[index'];
        i, stop := ReadPtrName(buf, offset, name, i, stop, jumps - 1);
        CopiedTrans(before, 0, done, mid, Scan(buf, jumps - 1, offset).value, name[..]);
        index' := index' + 1;
        if stop {
          return;
        }
        if index' == index + dataLen {
          return;
        }
      } else {
        ghost var b := buf[index'];
        CopiedStep(mid, before, 0, done, b);
        AppendHead(done, b, Scan(buf, jumps, index' + 1).value);
        Put(name, i, buf[index']);
        done := done + [b];
        index' := index' + 1;
        ScanStep(buf, jumps, index');
      }
      i := i + 1;
    }
    ScanStep(buf, jumps, index');
    assert done + [] == done;
  }

  // ----- The program's reading against the standard's -----

  /**
    * The bytes of the name that the program interprets as RFC 1035 does: pointers whose target
    * fits their second byte, and label contents with no byte that is zero or has both top bits set.
    */
  predicate Readable(buf: seq<Byte>, start: nat, off: nat)
    requires ReadLabels(buf, start, off).Some?
    decreases start, |buf| - off
  {
    var b: int := buf[off];
    if b == 0 then true
    else if b >= 192 then
      b == 192 && Readable(buf, buf[off + 1], buf[off + 1])
    else
      (forall i :: off < i <= off + b ==> 0 < buf[i] < 192) && Readable(buf, start, off + 1 + b)
  }

  lemma {:induction false} ScanRun(buf: seq<Byte>, jumps: nat, off: nat, n: nat)
    requires off + n <= |buf| && forall i :: off <= i < off + n ==> 0 < buf[i] < 192
    requires Scan(buf, jumps, off + n).Some?
    ensures Scan(buf, jumps, off) == Some(buf[off..off + n] + Scan(buf, jumps, off + n).value)
    decreases n
  {
    if n == 0 {
      assert buf[off..off] + Scan(buf, jumps, off).value == Scan(buf, jumps, off).value;
    } else {
      ScanRun(buf, jumps, off + 1, n - 1);
      assert [buf[off]] + (buf[off + 1..off + n] + Scan(buf, jumps, off + n).value)
          == [buf[off]] + buf[off + 1..off + n] + Scan(buf, jumps, off + n).value;
      assert buf[off..off + n] == [buf[off]] + buf[off + 1..off + 1 + (n - 1)];
    }
  }

  lemma ScanLabel(buf: seq<Byte>, jumps: nat, off: nat, ls: seq<Label>)
    requires off < |buf| && 0 < buf[off] < 64 && off + 1 + buf[off] <= |buf|
    requires forall i :: off < i <= off + buf[off] ==> 0 < buf[i] < 192
    requires Scan(buf, jumps, off + 1 + buf[off]) == Some(Wire(ls))
    ensures Scan(buf, jumps, off) == Some(Wire([buf[off + 1..off + 1 + buf[off]]] + ls))
  {
    hide Scan, Wire;
    var b: int := buf[off];
    ScanRun(buf, jumps, off, b + 1);
    WireCons(buf[off + 1..off + 1 + b], ls);
    assert buf[off..off + 1 + b] == [buf[off]] + buf[off + 1..off + 1 + b];
  }

  /** On readable names the byte scan yields the wire form of the name of section 4.1.4. */
  lemma {:induction false} ScanIsRfc(buf: seq<Byte>, start: nat, off: nat, jumps: nat)
    requires ReadLabels(buf, start, off).Some? && Readable(buf, start, off) && jumps >= start
    ensures Scan(buf, jumps, off) == Some(Wire(ReadLabels(buf, start, off).value.labels))
    decreases start, |buf| - off
  {
    var b: int := buf[off];
    if b >= 192 {
      ScanIsRfc(buf, buf[off + 1], buf[off + 1], jumps - 1);
    } else if b > 0 {
      ScanIsRfc(buf, start, off + 1 + b, jumps);
      ScanLabel(buf, jumps, off, ReadLabels(buf, start, off + 1 + b).value.labels);
    }
  }

  // ----- Where the cursor goes -----

  /**
    * The part of a name before its pointer, if any, as the program walks it: no byte of a label
    * is zero or has both top bits set. Where a pointer leads does not matter.
    */
  predicate CleanRun(buf: seq<Byte>, start: nat, off: nat)
    requires ReadLabels(buf, start, off).Some?
    decreases |buf| - off
  {
    var b: int := buf[off];
    0 < b < 192 ==>
      (forall i :: off < i <= off + b ==> 0 < buf[i] < 192) && CleanRun(buf, start, off + 1 + b)
  }

  lemma {:induction false} ReadableRun(buf: seq<Byte>, start: nat, off: nat)
    requires ReadLabels(buf, start, off).Some? && Readable(buf, start, off)
    ensures CleanRun(buf, start, off)
    decreases |buf| - off
  {
    var b: int := buf[off];
    if 0 < b < 192 {
      ReadableRun(buf, start, off + 1 + b);
    }
  }

  lemma {:induction false} ScanEndRun(buf: seq<Byte>, off: nat, n: nat)
    requires off + n <= |buf| && forall i :: off <= i < off + n ==> 0 < buf[i] < 192
    ensures ScanEnd(buf, off) == ScanEnd(buf, off + n)
    decreases n
  {
    if n > 0 {
      ScanEndRun(buf, off + 1, n - 1);
    }
  }

  /** The cursor ends just behind a pointer, and on the zero byte of a name that is spelled out. */
  lemma {:induction false} ScanEndIsRfc(buf: seq<Byte>, start: nat, off: nat)
    requires ReadLabels(buf, start, off).Some? && CleanRun(buf, start, off)
    ensures var n := ReadLabels(buf, start, off).value;
            && ScanEnd(buf, off) == (if n.compressed then n.end else n.end - 1)
            && off < n.end <= |buf| && (!n.compressed ==> buf[n.end - 1] == 0)
    decreases |buf| - off
  {
    var b: int := buf[off];
    if 0 < b < 192 {
      ScanEndIsRfc(buf, start, off + 1 + b);
      ScanEndRun(buf, off, b + 1);
    }
  }

  // ----- Lengths, and names the encoder wrote -----

  /** The labels RFC 1035 allows: 1 to 63 bytes, so the in-place decoder can measure them. */
  lemma {:induction false} RfcDecodable(buf: seq<Byte>, start: nat, off: nat)
    requires ReadLabels(buf, start, off).Some? && Readable(buf, start, off)
    ensures Decodable(ReadLabels(buf, start, off).value.labels)
    decreases start, |buf| - off
  {
    hide Decodable;
    DecodableNone();
    var b: int := buf[off];
    if b >= 192 {
      RfcDecodable(buf, buf[off + 1], buf[off + 1]);
    } else if b > 0 {
      RfcDecodable(buf, start, off + 1 + b);
      DecodableCons(buf[off + 1..off + 1 + b], ReadLabels(buf, start, off + 1 + b).value.labels);
    }
  }

  lemma DecodableNone()
    ensures Decodable([])
  {
  }

  lemma DecodableCons(l: Label, ls: seq<Label>)
    requires 1 <= |l| <= 127 && 0 !in l && Decodable(ls)
    ensures Decodable([l] + ls)
  {
  }

  /** Labels of the lengths section 2.3.4 of RFC 1035 allows. */
  ghost predicate RfcLengths(ls: seq<Label>) {
    forall l :: l in ls ==> 1 <= |l| <= 63
  }

  lemma {:induction false} ReadLabelsLengths(buf: seq<Byte>, start: nat, off: nat)
    requires ReadLabels(buf, start, off).Some?
    ensures RfcLengths(ReadLabels(buf, start, off).value.labels)
    decreases start, |buf| - off
  {
    var b: int := buf[off];
    if b >= 192 {
      var target := (b - 192) * 256 + buf[off + 1];
      ReadLabelsLengths(buf, target, target);
    } else if b > 0 {
      ReadLabelsLengths(buf, start, off + 1 + b);
    }
  }

  /** The standard reads a wire form back as its labels. */
  lemma {:induction false} ReadWire(before: seq<Byte>, ls: seq<Label>, after: seq<Byte>, start: nat)
    requires RfcLengths(ls)
    ensures ReadLabels(before + Wire(ls) + [0] + after, start, |before|) == Some(Name(ls, |before| + |Wire(ls)| + 1, false))
    decreases |ls|
  {
    hide Wire, ReadLabels;
    var buf := before + Wire(ls) + [0] + after;
    if ls == [] {
      WireNone();
      ReadEnd(buf, start, |before|);
    } else {
      var l, rest := ls[0], ls[1..];
      assert l in ls && ls == [l] + rest;
      WireCons(l, rest);
      var head := before + ([LengthByte(|l|)] + l);
      ReadWire(head, rest, after, start);
      Regroup(before, [LengthByte(|l|)] + l, Wire(rest), after);
      HeadLabel(before, l, Wire(rest) + [0] + after);
      ReadLabelStep(buf, start, |before|, l, Name(rest, |head| + |Wire(rest)| + 1, false));
    }
  }

  lemma Regroup(before: seq<Byte>, head: seq<Byte>, rest: seq<Byte>, after: seq<Byte>)
    ensures before + (head + rest) + [0] + after == before + head + rest + [0] + after == before + head + (rest + [0] + after)
  {
  }

  lemma ReadEnd(buf: seq<Byte>, start: nat, off: nat)
    requires off < |buf| && buf[off] == 0
    ensures ReadLabels(buf, start, off) == Some(Name([], off + 1, false))
  {
  }

  lemma HeadLabel(before: seq<Byte>, l: Label, after: seq<Byte>)
    requires 1 <= |l| <= 63
    ensures var buf := before + ([LengthByte(|l|)] + l) + after;
            buf[|before|] == |l| && buf[|before| + 1..|before| + 1 + |l|] == l
  {
  }

  lemma ReadLabelStep(buf: seq<Byte>, start: nat, off: nat, l: Label, n: Name)
    requires off + 1 + |l| <= |buf| && 1 <= |l| <= 63 && buf[off] == |l| && buf[off + 1..off + 1 + |l|] == l
    requires ReadLabels(buf, start, off + 1 + |l|) == Some(n)
    ensures ReadLabels(buf, start, off) == Some(Name([l] + n.labels, n.end, n.compressed))
  {
  }
}
