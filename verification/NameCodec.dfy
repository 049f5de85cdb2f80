/** The two encoders of domain names, the in-place decoder and the label trimmer of the resolver. */
module NameCodec {
  import opened CStrings

  type Label = seq<Byte>

  const DOT: Byte := 46

  // ----- Reference definitions: text and wire forms of a list of labels -----

  function FirstDot(s: seq<Byte>): (d: nat)
    ensures d <= |s| && (d < |s| ==> s[d] == DOT)
    ensures forall i :: 0 <= i < d ==> s[i] != DOT
  {
    if s == [] || s[0] == DOT then 0 else 1 + FirstDot(s[1..])
  }

  /** The labels of a dotted text. */
  function Split(s: seq<Byte>): (ls: seq<Label>)
    ensures |ls| >= 1
    decreases |s|
  {
    var d := FirstDot(s);
    if d == |s| then [s] else [s[..d]] + Split(s[d + 1..])
  }

  /** The dotted text of a list of labels. */
  function Join(ls: seq<Label>): seq<Byte>
    requires |ls| >= 1
  {
    if |ls| == 1 then ls[0] else ls[0] + [DOT] + Join(ls[1..])
  }

  /** A length stored in an `unsigned char`. */
  function LengthByte(n: nat): Byte {
    n % 256
  }

  lemma NoLength()
    ensures LengthByte(0) == 0
  {
  }

  /** Lengths are stored modulo 256. */
  lemma LengthByteExact(n: nat)
    ensures n < 256 ==> LengthByte(n) == n
    ensures LengthByte(n + 256) == LengthByte(n)
  {
  }

  /** Counting in an `unsigned char`. */
  lemma NextLength(n: nat)
    ensures LengthByte(LengthByte(n) + 1) == LengthByte(n + 1)
  {
  }

  /** Length-prefixed labels of section 3.1 of RFC 1035, without the terminating zero. */
  function Wire(ls: seq<Label>): seq<Byte> {
    if ls == [] then [] else [LengthByte(|ls[0]|)] + ls[0] + Wire(ls[1..])
  }

  ghost predicate NoZeros(ls: seq<Label>) {
    forall l :: l in ls ==> 0 !in l
  }

  /** Lengths the in-place decoder can measure: it reads a length byte as a signed `char`. */
  ghost predicate MeasurableLengths(ls: seq<Label>) {
    forall l :: l in ls ==> 1 <= |l| <= 127
  }

  ghost predicate Decodable(ls: seq<Label>) {
    MeasurableLengths(ls) && NoZeros(ls)
  }

  ghost predicate DotFree(ls: seq<Label>) {
    forall l :: l in ls ==> DOT !in l
  }

  // ----- Texts and labels determine each other -----

  lemma FirstDotUnique(s: seq<Byte>, d: nat)
    requires d <= |s| && (d < |s| ==> s[d] == DOT) && forall i :: 0 <= i < d ==> s[i] != DOT
    ensures FirstDot(s) == d
  {
    assert FirstDot(s) <= d;
  }

  lemma SplitUnfold(s: seq<Byte>)
    ensures var d := FirstDot(s);
            Split(s) == if d == |s| then [s] else [s[..d]] + Split(s[d + 1..])
  {
    hide FirstDot;
  }

  lemma SplitStep(s: seq<Byte>)
    ensures var d := FirstDot(s);
            Split(s) == [s[..d]] + (if d == |s| then [] else Split(s[d + 1..]))
  {
    hide Split;
    SplitUnfold(s);
    var d := FirstDot(s);
    if d == |s| {
      assert s[..d] == s;
    }
  }

  lemma JoinOne(l: Label)
    ensures Join([l]) == l
  {
  }

  lemma JoinCons(l: Label, ls: seq<Label>)
    requires |ls| >= 1
    ensures Join([l] + ls) == l + [DOT] + Join(ls)
  {
    assert ([l] + ls)[1..] == ls;
  }

  lemma WireCons(l: Label, ls: seq<Label>)
    ensures Wire([l] + ls) == [LengthByte(|l|)] + l + Wire(ls)
  {
    assert ([l] + ls)[1..] == ls;
  }

  lemma {:induction false} JoinSplit(s: seq<Byte>)
    ensures Join(Split(s)) == s
    decreases |s|
  {
    hide Split, Join;
    var d := FirstDot(s);
    SplitStep(s);
    if d < |s| {
      JoinSplit(s[d + 1..]);
      JoinCons(s[..d], Split(s[d + 1..]));
      assert s == s[..d] + [DOT] + s[d + 1..];
    } else {
      assert s[..d] == s && [s] + [] == [s];
      JoinOne(s);
    }
  }

  lemma {:induction false} SplitLabels(s: seq<Byte>)
    ensures DotFree(Split(s))
    ensures 0 !in s ==> NoZeros(Split(s))
    decreases |s|
  {
    var d := FirstDot(s);
    SplitStep(s);
    if d < |s| {
      SplitLabels(s[d + 1..]);
    }
  }

  lemma {:induction false} SplitJoin(ls: seq<Label>)
    requires |ls| >= 1 && DotFree(ls)
    ensures Split(Join(ls)) == ls
  {
    hide Split, Join, FirstDot;
    var l, rest := ls[0], ls[1..];
    assert l in ls && ls == [l] + rest;
    if |ls| == 1 {
      assert ls == [l];
      JoinOne(l);
      FirstDotUnique(l, |l|);
      SplitUnfold(l);
    } else {
      SplitJoin(rest);
      JoinCons(l, rest);
      var s := Join(ls);
      FirstDotUnique(s, |l|);
      SplitUnfold(s);
      assert s[..|l|] == l && s[|l| + 1..] == Join(rest);
    }
  }

  /** The wire form of "a.bc". */
  lemma SmallName()
    ensures Wire(Split([97, 46, 98, 99])) == [1, 97, 2, 98, 99]
  {
    hide Split, Wire, FirstDot;
    var s: seq<Byte> := [97, 46, 98, 99];
    FirstDotUnique(s, 1);
    SplitUnfold(s);
    var t: seq<Byte> := [98, 99];
    assert s[..1] == [97] && s[2..] == t;
    FirstDotUnique(t, 2);
    SplitUnfold(t);
    WireCons([97], [t]);
    WireCons(t, []);
    WireNone();
    assert [t] + [] == [t];
  }

  // ----- Positions inside a text, as the scanners see them -----

  /** End of the label of `name` that starts at `p`. */
  function LabelEnd(name: seq<Byte>, p: nat): (e: nat)
    requires p <= |name|
    ensures p <= e <= |name| && (e < |name| ==> name[e] == DOT)
    ensures forall i :: p <= i < e ==> name[i] != DOT
  {
    var e := p + FirstDot(name[p..]);
    assert forall i :: p <= i < e ==> name[i] == name[p..][i - p];
    e
  }

  function WireFrom(name: seq<Byte>, p: nat): seq<Byte>
    requires p <= |name|
  {
    Wire(Split(name[p..]))
  }

  function WireAfter(name: seq<Byte>, e: nat): seq<Byte>
    requires e <= |name|
  {
    if e == |name| then [] else WireFrom(name, e + 1)
  }

  lemma WireNone()
    ensures Wire([]) == []
  {
  }

  /** What the wire form holds for the label that starts at `p`. */
  lemma WireFromStep(name: seq<Byte>, p: nat)
    requires p <= |name|
    ensures var e := LabelEnd(name, p);
            WireFrom(name, p) == [LengthByte(e - p)] + name[p..e] + WireAfter(name, e)
  {
    hide Split, Wire, FirstDot;
    WireNone();
    var s, d := name[p..], FirstDot(name[p..]);
    assert s[..d] == name[p..p + d];
    SplitStep(s);
    if d < |s| {
      assert s[d + 1..] == name[p + d + 1..];
      WireCons(s[..d], Split(s[d + 1..]));
    } else {
      WireCons(s[..d], []);
    }
  }

  lemma {:induction false} WireLength(name: seq<Byte>, p: nat)
    requires p <= |name|
    ensures |WireFrom(name, p)| == |name| - p + 1
    decreases |name| - p
  {
    hide FirstDot, Split, Wire, WireFrom, LabelEnd;
    WireFromStep(name, p);
    var e := LabelEnd(name, p);
    if e < |name| {
      WireLength(name, e + 1);
    }
  }

  lemma WireLengthAll(name: seq<Byte>)
    ensures |Wire(Split(name))| == |name| + 1
  {
    hide Split, Wire;
    WireLength(name, 0);
    assert name[0..] == name;
  }

  lemma Terminated(os: seq<Byte>, header: seq<Byte>, wire: seq<Byte>)
    requires os == header + wire
    ensures os + [0] == header + (wire + [0])
  {
  }

  // ----- The two encoders -----

  /** Scan mode at label start `p`: what is still to be written is the wire form from `p`. */
  ghost predicate ToScan(out: seq<Byte>, name: seq<Byte>, p: nat, total: seq<Byte>) {
    p <= |name| && out + WireFrom(name, p) == total
  }

  /** Copy mode at `i` inside a label that ends at `e`. */
  ghost predicate ToCopy(out: seq<Byte>, name: seq<Byte>, i: nat, e: nat, total: seq<Byte>) {
    i <= e <= |name| && out + (name[i..e] + WireAfter(name, e)) == total
  }

  lemma ScanToCopy(out: seq<Byte>, name: seq<Byte>, p: nat, total: seq<Byte>)
    requires ToScan(out, name, p, total)
    ensures var e := LabelEnd(name, p); ToCopy(out + [LengthByte(e - p)], name, p, e, total)
  {
    hide Split, Wire, WireFrom, WireAfter, LabelEnd;
    WireFromStep(name, p);
    var e := LabelEnd(name, p);
    assert out + ([LengthByte(e - p)] + name[p..e] + WireAfter(name, e))
        == out + [LengthByte(e - p)] + (name[p..e] + WireAfter(name, e));
  }

  lemma CopyStep(out: seq<Byte>, name: seq<Byte>, i: nat, e: nat, total: seq<Byte>)
    requires ToCopy(out, name, i, e, total) && i < e
    ensures ToCopy(out + [name[i]], name, i + 1, e, total)
  {
    hide WireFrom, Wire, Split;
    assert name[i..e] + WireAfter(name, e) == [name[i]] + (name[i + 1..e] + WireAfter(name, e));
  }

  lemma CopyEnd(out: seq<Byte>, name: seq<Byte>, e: nat, total: seq<Byte>)
    requires ToCopy(out, name, e, e, total)
    ensures if e == |name| then out == total else ToScan(out, name, e + 1, total)
  {
    assert name[e..e] + WireAfter(name, e) == WireAfter(name, e);
    assert out + [] == out;
  }

  lemma ScanStart(out: seq<Byte>, name: seq<Byte>)
    ensures ToScan(out, name, 0, out + Wire(Split(name)))
  {
    hide Split, Wire;
    assert name[0..] == name;
  }

  method ConvertToDnsFormat(name: seq<Byte>) returns (converted: seq<Byte>)
    requires 0 !in name
    ensures converted == Wire(Split(name)) + [0]
  {
    hide Split, Wire, FirstDot, LabelEnd, ToScan, ToCopy, WireFrom, WireAfter, LengthByte;
    NoLength();
    converted := [];
    var beforeDotCount: Byte := 0;
    var prevIndex, indexCounter := 0, 0;
    var scanning, done := true, false;
    var i := 0;
    ghost var total := Wire(Split(name));
    ScanStart([], name);
    assert [] + total == total;
    while !done
      invariant 0 <= prevIndex <= |name|
      invariant !done ==> prevIndex <= i <= LabelEnd(name, prevIndex)
      invariant !done && scanning ==> indexCounter == i - prevIndex && beforeDotCount == LengthByte(indexCounter)
      invariant !done && scanning ==> ToScan(converted, name, prevIndex, total)
      invariant !done && !scanning ==> indexCounter == LabelEnd(name, prevIndex) - prevIndex + 1 && beforeDotCount == 0
      invariant !done && !scanning ==> ToCopy(converted, name, i, LabelEnd(name, prevIndex), total)
      invariant done ==> converted == total
      decreases !done, |name| - prevIndex, scanning, |name| - i
    {
      if scanning {
        if At(name, i) == DOT || At(name, i) == 0 {
          ScanToCopy(converted, name, prevIndex, total);
          scanning := false;
          converted := converted + [beforeDotCount];
          beforeDotCount := 0;
          i := prevIndex - 1;
          indexCounter := indexCounter + 1;
        } else {
          NextLength(indexCounter);
          beforeDotCount := LengthByte(beforeDotCount + 1);
          indexCounter := indexCounter + 1;
        }
      } else {
        if At(name, i) != DOT && At(name, i) != 0 {
          CopyStep(converted, name, i, LabelEnd(name, prevIndex), total);
          converted := converted + [name[i]];
        } else {
          CopyEnd(converted, name, i, total);
          if At(name, i) == 0 {
            done := true;
          } else {
            prevIndex := prevIndex + indexCounter;
            indexCounter := 0;
            scanning := true;
          }
        }
      }
      i := i + 1;
    }
    converted := converted + [0];
  }

  /** The query of `_dns_header_t::serialize`: the header, the name, then its type and class. */
  method Serialize(header: seq<Byte>, name: seq<Byte>, qType: seq<Byte>, qClass: seq<Byte>) returns (os: seq<Byte>)
    requires |header| == 12 && |qType| == 2 && |qClass| == 2 && 0 !in name
    ensures os == header + (Wire(Split(name)) + [0]) + qType + qClass
    ensures |os| == |name| + 18
  {
    hide Split, Wire, FirstDot, LabelEnd, ToScan, ToCopy, WireFrom, WireAfter, LengthByte;
    NoLength();
    os := header;
    var beforeDotCount: Byte := 0;
    var prevIndex, indexCounter := 0, 0;
    var scanning, done := true, false;
    var i := 0;
    ghost var total := header + Wire(Split(name));
    ScanStart(header, name);
    while !done
      invariant 0 <= prevIndex <= |name|
      invariant !done ==> prevIndex <= i <= LabelEnd(name, prevIndex)
      invariant !done && scanning ==> indexCounter == i - prevIndex && beforeDotCount == LengthByte(indexCounter)
      invariant !done && scanning ==> ToScan(os, name, prevIndex, total)
      invariant !done && !scanning ==> indexCounter == LabelEnd(name, prevIndex) - prevIndex + 1 && beforeDotCount == 0
      invariant !done && !scanning ==> ToCopy(os, name, i, LabelEnd(name, prevIndex), total)
      invariant done ==> os == total
      decreases !done, |name| - prevIndex, scanning, |name| - i
    {
      if scanning {
        if At(name, i) == DOT || At(name, i) == 0 {
          ScanToCopy(os, name, prevIndex, total);
          scanning := false;
          os := os + [beforeDotCount];
          beforeDotCount := 0;
          i := prevIndex - 1;
          indexCounter := indexCounter + 1;
        } else {
          NextLength(indexCounter);
          beforeDotCount := LengthByte(beforeDotCount + 1);
          indexCounter := indexCounter + 1;
        }
      } else {
        if At(name, i) != DOT && At(name, i) != 0 {
          CopyStep(os, name, i, LabelEnd(name, prevIndex), total);
          os := os + [name[i]];
        } else {
          CopyEnd(os, name, i, total);
          if At(name, i) == 0 {
            done := true;
          } else {
            prevIndex := prevIndex + indexCounter;
            indexCounter := 0;
            scanning := true;
          }
        }
      }
      i := i + 1;
    }
    Terminated(os, header, Wire(Split(name)));
    WireLengthAll(name);
    os := os + [0];
    os := os + qType;
    os := os + qClass;
  }

  lemma {:induction false} WireNoZeros(ls: seq<Label>)
    requires Decodable(ls)
    ensures 0 !in Wire(ls)
  {
    if ls != [] {
      assert ls[0] in ls;
      WireNoZeros(ls[1..]);
    }
  }

  // ----- What a buffer holds after `strcpy` of an encoded name -----

  /** `strcpy` stops at the first zero length byte, so a cache key keeps only these labels. */
  function Usable(ls: seq<Label>): (us: seq<Label>)
    ensures us <= ls
    ensures forall l :: l in us ==> LengthByte(|l|) != 0
    ensures us == ls <==> forall i :: 0 <= i < |ls| ==> LengthByte(|ls[i]|) != 0
  {
    if ls == [] || LengthByte(|ls[0]|) == 0 then []
    else
      var us := Usable(ls[1..]);
      assert us == ls[1..] ==> forall i :: 1 <= i < |ls| ==> LengthByte(|ls[i]|) != 0 by {
        if us == ls[1..] {
          forall i | 1 <= i < |ls| ensures LengthByte(|ls[i]|) != 0 {
            assert ls[1..][i - 1] == ls[i];
          }
        }
      }
      [ls[0]] + us
  }

  lemma AllUsable(ls: seq<Label>)
    requires MeasurableLengths(ls)
    ensures Usable(ls) == ls
  {
  }

  lemma {:induction false} EncodedCStr(ls: seq<Label>)
    requires NoZeros(ls)
    ensures CStr(Wire(ls) + [0]) == Wire(Usable(ls))
  {
    UsableWire(ls);
    UsableNoZeros(ls);
    var w := Wire(ls) + [0];
    var n := |Wire(Usable(ls))|;
    forall i | 0 <= i < n ensures w[i] != 0 {
      assert w[i] == Wire(Usable(ls))[i];
    }
    CStrUnique(w, n);
  }

  lemma {:induction false} UsableWire(ls: seq<Label>)
    ensures var w, u := Wire(ls) + [0], Wire(Usable(ls));
            |u| < |w| && u == w[..|u|] && w[|u|] == 0
  {
    if ls != [] && LengthByte(|ls[0]|) != 0 {
      hide Wire, LengthByte;
      UsableWire(ls[1..]);
      var head := [LengthByte(|ls[0]|)] + ls[0];
      assert ls == [ls[0]] + ls[1..];
      WireCons(ls[0], ls[1..]);
      WireCons(ls[0], Usable(ls[1..]));
      PrefixShift(head, Wire(ls[1..]) + [0], Wire(Usable(ls[1..])));
      Associative(head, Wire(ls[1..]), [0]);
    }
  }

  lemma PrefixShift(h: seq<Byte>, w: seq<Byte>, u: seq<Byte>)
    requires |u| < |w| && u == w[..|u|] && w[|u|] == 0
    ensures (h + u) == (h + w)[..|h + u|] && (h + w)[|h + u|] == 0
  {
  }

  lemma {:induction false} UsableNoZeros(ls: seq<Label>)
    requires NoZeros(ls)
    ensures 0 !in Wire(Usable(ls))
  {
    if ls != [] && LengthByte(|ls[0]|) != 0 {
      assert ls[0] in ls;
      UsableNoZeros(ls[1..]);
      WireCons(ls[0], Usable(ls[1..]));
    }
  }

  lemma LoadKey(name: seq<Byte>)
    requires 0 !in name
    ensures CStr(Wire(Split(name)) + [0]) == Wire(Usable(Split(name)))
    ensures |Wire(Usable(Split(name)))| <= |name| + 1
  {
    SplitLabels(name);
    EncodedCStr(Split(name));
    UsableWire(Split(name));
    WireLengthAll(name);
  }

  // ----- The label trimmer -----

  /** Drops the first label of a dotted name. */
  method TrimName(name: seq<Byte>) returns (trimmed: seq<Byte>)
    requires 0 !in name && DOT in name
    ensures trimmed == name[FirstDot(name) + 1..]
    ensures Split(trimmed) == Split(name)[1..]
  {
    hide Split;
    var trimmedSubStrLen := 0;
    var i := 0;
    while At(name, i) != DOT
      invariant i <= FirstDot(name) < |name|
      invariant trimmedSubStrLen == if i == FirstDot(name) then i else 0
      decreases |name| - i
    {
      if At(name, i + 1) == DOT {
        trimmedSubStrLen := i + 1;
      }
      i := i + 1;
    }
    SplitStep(name);
    trimmed := [];
    i := trimmedSubStrLen + 1;
    while At(name, i) != 0
      invariant FirstDot(name) + 1 <= i <= |name|
      invariant trimmed == name[FirstDot(name) + 1..i]
      decreases |name| - i
    {
      assert name[FirstDot(name) + 1..i + 1] == name[FirstDot(name) + 1..i] + [name[i]];
      trimmed := trimmed + [name[i]];
      i := i + 1;
    }
    assert name[FirstDot(name) + 1..i] == name[FirstDot(name) + 1..];
  }
}
