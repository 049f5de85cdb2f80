/** Exactly when the program reads a name as RFC 1035 does: the bytes it copies and the steps it takes. */
module NameWalk {
  import opened CStrings
  import opened NameCodec
  import opened NameReader
  import opened Options

  // ----- Exactly when the bytes are right -----

  /** Bytes a scan can yield. */
  ghost predicate Copyable(s: seq<Byte>) {
    forall i :: 0 <= i < |s| ==> 0 < s[i] < 192
  }

  lemma {:induction false} ScanCopyable(buf: seq<Byte>, jumps: nat, off: nat)
    requires Scan(buf, jumps, off).Some?
    ensures Copyable(Scan(buf, jumps, off).value)
    decreases jumps, |buf| - off
  {
    match CodeStep(buf, off)
    case Jump(target) =>
      ScanCopyable(buf, jumps - 1, target);
    case Copy =>
      ScanCopyable(buf, jumps, off + 1);
    case _ =>
  }

  /** Every pointer on the way through the name has a target that fits its second byte. */
  predicate NearPointers(buf: seq<Byte>, start: nat, off: nat)
    requires ReadLabels(buf, start, off).Some?
    decreases start, |buf| - off
  {
    var b: int := buf[off];
    if b == 0 then true
    else if b >= 192 then b == 192 && NearPointers(buf, buf[off + 1], buf[off + 1])
    else NearPointers(buf, start, off + 1 + b)
  }

  lemma {:induction false} ReadableNear(buf: seq<Byte>, start: nat, off: nat)
    requires ReadLabels(buf, start, off).Some? && Readable(buf, start, off)
    ensures NearPointers(buf, start, off)
    decreases start, |buf| - off
  {
    var b: int := buf[off];
    if b >= 192 {
      ReadableNear(buf, buf[off + 1], buf[off + 1]);
    } else if b > 0 {
      ReadableNear(buf, start, off + 1 + b);
    }
  }

  /** With near pointers, a name is readable if and only if a scan could yield its wire form. */
  lemma {:induction false} ReadableIffCopyable(buf: seq<Byte>, start: nat, off: nat)
    requires ReadLabels(buf, start, off).Some? && NearPointers(buf, start, off)
    ensures Readable(buf, start, off) <==> Copyable(Wire(ReadLabels(buf, start, off).value.labels))
    decreases start, |buf| - off
  {
    hide Wire, Copyable;
    var b: int := buf[off];
    if b == 0 {
      WireNone();
      CopyableNone();
    } else if b >= 192 {
      ReadableIffCopyable(buf, buf[off + 1], buf[off + 1]);
    } else {
      ReadableIffCopyable(buf, start, off + 1 + b);
      CopyableLabel(buf, off, ReadLabels(buf, start, off + 1 + b).value.labels);
    }
  }

  lemma CopyableNone()
    ensures Copyable([])
  {
  }

  lemma CopyableLabel(buf: seq<Byte>, off: nat, ls: seq<Label>)
    requires off < |buf| && 0 < buf[off] < 64 && off + 1 + buf[off] <= |buf|
    ensures Copyable(Wire([buf[off + 1..off + 1 + buf[off]]] + ls)) <==>
              (forall i :: off < i <= off + buf[off] ==> 0 < buf[i] < 192) && Copyable(Wire(ls))
  {
    hide Wire;
    var b: int := buf[off];
    WireCons(buf[off + 1..off + 1 + b], ls);
    assert LengthByte(b) == b;
    CopyableConcat([LengthByte(b)] + buf[off + 1..off + 1 + b], Wire(ls));
    CopyableSlice(buf, off + 1, b);
  }

  lemma CopyableSlice(buf: seq<Byte>, at: nat, n: nat)
    requires at + n <= |buf| && 0 < n < 192
    ensures Copyable([LengthByte(n)] + buf[at..at + n]) <==> forall i :: at <= i < at + n ==> 0 < buf[i] < 192
  {
    var s := [LengthByte(n)] + buf[at..at + n];
    assert forall i :: at <= i < at + n ==> s[i - at + 1] == buf[i];
  }

  lemma CopyableConcat(a: seq<Byte>, b: seq<Byte>)
    ensures Copyable(a + b) <==> Copyable(a) && Copyable(b)
  {
    assert forall i :: 0 <= i < |b| ==> (a + b)[|a| + i] == b[i];
    assert forall i :: 0 <= i < |a| ==> (a + b)[i] == a[i];
  }

  /** With near pointers, the program copies the name of section 4.1.4 if and only if it is readable. */
  lemma ScanExact(buf: seq<Byte>, start: nat, off: nat, jumps: nat)
    requires ReadLabels(buf, start, off).Some? && NearPointers(buf, start, off) && jumps >= start
    ensures Scan(buf, jumps, off) == Some(Wire(ReadLabels(buf, start, off).value.labels)) <==> Readable(buf, start, off)
  {
    hide Scan, Wire, ReadLabels, Readable, NearPointers, Copyable;
    ReadableIffCopyable(buf, start, off);
    if Readable(buf, start, off) {
      ScanIsRfc(buf, start, off, jumps);
    } else if Scan(buf, jumps, off).Some? {
      ScanCopyable(buf, jumps, off);
    }
  }

  // ----- Exactly when the two readings take the same steps -----

  datatype Visit = Visit(offset: nat, step: Step)

  /** The bytes of a name in reading order, with what RFC 1035 does at each. */
  function RfcVisits(buf: seq<Byte>, start: nat, off: nat): seq<Visit>
    requires ReadLabels(buf, start, off).Some?
    decreases start, |buf| - off
  {
    var b: int := buf[off];
    if b == 0 then [Visit(off, Stop)]
    else if b >= 192 then
      var target := (b - 192) * 256 + buf[off + 1];
      [Visit(off, Jump(target))] + RfcVisits(buf, target, target)
    else CopyVisits(off, b + 1) + RfcVisits(buf, start, off + 1 + b)
  }

  function CopyVisits(off: nat, n: nat): seq<Visit> {
    seq(n, i requires 0 <= i < n => Visit(off + i, Copy))
  }

  ghost predicate TakesSteps(buf: seq<Byte>, visits: seq<Visit>) {
    forall v :: v in visits ==> CodeStep(buf, v.offset) == v.step
  }

  // The three forms a name can begin with.

  lemma RootCase(buf: seq<Byte>, start: nat, off: nat)
    requires off < |buf| && buf[off] == 0
    ensures ReadLabels(buf, start, off).Some?
    ensures RfcVisits(buf, start, off) == [Visit(off, Stop)] && Readable(buf, start, off)
  {
  }

  lemma LabelCase(buf: seq<Byte>, start: nat, off: nat)
    requires ReadLabels(buf, start, off).Some? && off < |buf| && 0 < buf[off] < 192
    ensures var next := off + 1 + buf[off];
            && next <= |buf| && ReadLabels(buf, start, next).Some?
            && RfcVisits(buf, start, off) == CopyVisits(off, buf[off] as int + 1) + RfcVisits(buf, start, next)
            && (Readable(buf, start, off) <==>
                  (forall i :: off < i < next ==> 0 < buf[i] < 192) && Readable(buf, start, next))
  {
  }

  lemma PointerCase(buf: seq<Byte>, start: nat, off: nat)
    requires ReadLabels(buf, start, off).Some? && off < |buf| && buf[off] >= 192
    ensures var b: int := buf[off];
            && off + 1 < |buf|
            && var target := (b - 192) * 256 + buf[off + 1];
            && target < start && ReadLabels(buf, target, target).Some?
            && RfcVisits(buf, start, off) == [Visit(off, Jump(target))] + RfcVisits(buf, target, target)
            && (Readable(buf, start, off) <==> b == 192 && Readable(buf, target, target))
  {
  }

  lemma NameInside(buf: seq<Byte>, start: nat, off: nat)
    requires ReadLabels(buf, start, off).Some?
    ensures off < |buf|
  {
  }

  /** The program takes every step that RFC 1035 prescribes if and only if the name is readable. */
  lemma {:induction false} SameStepsIffReadable(buf: seq<Byte>, start: nat, off: nat)
    requires ReadLabels(buf, start, off).Some?
    ensures TakesSteps(buf, RfcVisits(buf, start, off)) <==> Readable(buf, start, off)
    decreases start, |buf| - off
  {
    hide TakesSteps, CodeStep, ReadLabels, RfcVisits, Readable;
    NameInside(buf, start, off);
    var b: int := buf[off];
    if b == 0 {
      RootCase(buf, start, off);
      OneStep(buf, Visit(off, Stop));
    } else if b >= 192 {
      PointerCase(buf, start, off);
      var target := (b - 192) * 256 + buf[off + 1];
      OneStep(buf, Visit(off, Jump(target)));
      SameStepsIffReadable(buf, target, target);
      VisitsConcat(buf, [Visit(off, Jump(target))], RfcVisits(buf, target, target));
    } else {
      LabelCase(buf, start, off);
      SameStepsIffReadable(buf, start, off + 1 + b);
      VisitsConcat(buf, CopyVisits(off, b + 1), RfcVisits(buf, start, off + 1 + b));
      CopySteps(buf, off, b + 1);
    }
  }

  lemma OneStep(buf: seq<Byte>, v: Visit)
    requires v.offset < |buf|
    ensures TakesSteps(buf, [v]) <==> CodeStep(buf, v.offset) == v.step
    ensures CodeStep(buf, v.offset) ==
      if buf[v.offset] == 0 then Stop
      else if buf[v.offset] < 192 then Copy
      else if v.offset + 1 < |buf| then Jump(buf[v.offset + 1])
      else Outside
  {
    assert v in [v];
  }

  lemma CopySteps(buf: seq<Byte>, off: nat, n: nat)
    requires off + n <= |buf|
    ensures TakesSteps(buf, CopyVisits(off, n)) <==> forall i :: off <= i < off + n ==> 0 < buf[i] < 192
  {
    var run := CopyVisits(off, n);
    if TakesSteps(buf, run) {
      forall i | off <= i < off + n ensures 0 < buf[i] < 192 {
        assert run[i - off] in run;
      }
    }
  }

  lemma VisitsConcat(buf: seq<Byte>, a: seq<Visit>, b: seq<Visit>)
    ensures TakesSteps(buf, a + b) <==> TakesSteps(buf, a) && TakesSteps(buf, b)
  {
    assert forall v :: v in a ==> v in a + b;
    assert forall v :: v in b ==> v in a + b;
  }

  /** The walk of the program, as `Scan` takes it. */
  function CodeVisits(buf: seq<Byte>, jumps: nat, off: nat): (vs: seq<Visit>)
    ensures vs != []
    decreases jumps, |buf| - off
  {
    [Visit(off, CodeStep(buf, off))] +
    match CodeStep(buf, off)
    case Copy => CodeVisits(buf, jumps, off + 1)
    case Jump(target) => if jumps == 0 then [] else CodeVisits(buf, jumps - 1, target)
    case _ => []
  }

  function BytesCopied(buf: seq<Byte>, visits: seq<Visit>): seq<Byte> {
    if visits == [] then []
    else
      (if visits[0].step == Copy && visits[0].offset < |buf| then [buf[visits[0].offset]] else [])
      + BytesCopied(buf, visits[1..])
  }

  /** A scan yields the bytes at which the walk copies. */
  lemma {:induction false} ScanIsWalk(buf: seq<Byte>, jumps: nat, off: nat)
    requires Scan(buf, jumps, off).Some?
    ensures Scan(buf, jumps, off).value == BytesCopied(buf, CodeVisits(buf, jumps, off))
    decreases jumps, |buf| - off
  {
    var vs := CodeVisits(buf, jumps, off);
    match CodeStep(buf, off)
    case Copy =>
      ScanIsWalk(buf, jumps, off + 1);
      assert vs[1..] == CodeVisits(buf, jumps, off + 1);
    case Jump(target) =>
      ScanIsWalk(buf, jumps - 1, target);
      assert vs[1..] == CodeVisits(buf, jumps - 1, target);
    case Stop =>
      assert vs[1..] == [];
    case Outside =>
  }

  lemma {:induction false} CodeTakesSteps(buf: seq<Byte>, jumps: nat, off: nat)
    ensures TakesSteps(buf, CodeVisits(buf, jumps, off))
    decreases jumps, |buf| - off
  {
    match CodeStep(buf, off)
    case Copy =>
      CodeTakesSteps(buf, jumps, off + 1);
    case Jump(target) =>
      if jumps > 0 {
        CodeTakesSteps(buf, jumps - 1, target);
      }
    case _ =>
  }

  lemma {:induction false} CodeCopies(buf: seq<Byte>, jumps: nat, off: nat, n: nat)
    requires off + n <= |buf| && forall i :: off <= i < off + n ==> 0 < buf[i] < 192
    ensures CodeVisits(buf, jumps, off) == CopyVisits(off, n) + CodeVisits(buf, jumps, off + n)
    decreases n
  {
    hide CodeVisits, CopyVisits;
    if n == 0 {
      NoCopies(off, CodeVisits(buf, jumps, off));
    } else {
      CodeCopies(buf, jumps, off + 1, n - 1);
      CodeCopy(buf, jumps, off);
      FirstCopy(off, n, CodeVisits(buf, jumps, off + n));
    }
  }

  lemma CodeCopy(buf: seq<Byte>, jumps: nat, off: nat)
    requires off < |buf| && 0 < buf[off] < 192
    ensures CodeVisits(buf, jumps, off) == [Visit(off, Copy)] + CodeVisits(buf, jumps, off + 1)
  {
  }

  lemma CodeStop(buf: seq<Byte>, jumps: nat, off: nat)
    requires off < |buf| && buf[off] == 0
    ensures CodeVisits(buf, jumps, off) == [Visit(off, Stop)]
  {
  }

  lemma CodeJump(buf: seq<Byte>, jumps: nat, off: nat)
    requires off + 1 < |buf| && buf[off] >= 192 && jumps > 0
    ensures CodeVisits(buf, jumps, off) == [Visit(off, Jump(buf[off + 1]))] + CodeVisits(buf, jumps - 1, buf[off + 1])
  {
  }

  lemma NoCopies(off: nat, rest: seq<Visit>)
    ensures CopyVisits(off, 0) + rest == rest
  {
  }

  lemma FirstCopy(off: nat, n: nat, rest: seq<Visit>)
    requires n > 0
    ensures CopyVisits(off, n) + rest == [Visit(off, Copy)] + (CopyVisits(off + 1, n - 1) + rest)
  {
  }

  lemma {:induction false} ReadableWalk(buf: seq<Byte>, start: nat, off: nat, jumps: nat)
    requires ReadLabels(buf, start, off).Some? && Readable(buf, start, off) && jumps >= start
    ensures CodeVisits(buf, jumps, off) == RfcVisits(buf, start, off)
    decreases start, |buf| - off
  {
    hide ReadLabels, RfcVisits, Readable, CopyVisits, CodeVisits;
    NameInside(buf, start, off);
    var b: int := buf[off];
    if b == 0 {
      RootCase(buf, start, off);
      CodeStop(buf, jumps, off);
    } else if b >= 192 {
      PointerCase(buf, start, off);
      CodeJump(buf, jumps, off);
      ReadableWalk(buf, buf[off + 1], buf[off + 1], jumps - 1);
    } else {
      LabelCase(buf, start, off);
      ReadableWalk(buf, start, off + 1 + b, jumps);
      CodeCopies(buf, jumps, off, b + 1);
    }
  }

  /** The program walks a name byte by byte as RFC 1035 does if and only if the name is readable. */
  lemma WalkExact(buf: seq<Byte>, start: nat, off: nat, jumps: nat)
    requires ReadLabels(buf, start, off).Some? && jumps >= start
    ensures CodeVisits(buf, jumps, off) == RfcVisits(buf, start, off) <==> Readable(buf, start, off)
  {
    hide ReadLabels, RfcVisits, Readable, CodeVisits, TakesSteps;
    SameStepsIffReadable(buf, start, off);
    CodeTakesSteps(buf, jumps, off);
    if Readable(buf, start, off) {
      ReadableWalk(buf, start, off, jumps);
    }
  }

  /** A pointer whose target needs more than one byte is followed to the wrong place. */
  lemma FarPointerMisread()
    ensures exists buf: seq<Byte>, off: nat ::
      && ReadLabels(buf, off, off).Some? && Scan(buf, 1, off).Some?
      && Scan(buf, 1, off).value != Wire(ReadLabels(buf, off, off).value.labels)
  {
    var zeros: seq<Byte> := seq(256, i => 0);
    var buf: seq<Byte> := zeros + [1, 97, 0, 193, 0];
    assert buf[256] == 1 && buf[257] == 97 && buf[258] == 0 && buf[259] == 193 && buf[260] == 0 && buf[0] == 0;
    assert ReadLabels(buf, 256, 258) == Some(Name([], 259, false));
    assert [buf[257..258]] + [] == [buf[257..258]];
    assert ReadLabels(buf, 256, 256) == Some(Name([buf[257..258]], 259, false));
    assert ReadLabels(buf, 259, 259) == Some(Name([buf[257..258]], 261, true));
    assert Scan(buf, 0, 0) == Some([]);
    assert Scan(buf, 1, 259) == Some([]);
    assert |Wire([buf[257..258]])| == 2;
  }
}
