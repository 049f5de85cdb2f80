/** The in-place decoder of wire forms, on every buffer, and the round trips with the encoders. */
module NameDecoder {
  import opened CStrings
  import opened NameCodec
  import opened Options

  // ----- What the decoder makes of a buffer -----

  /** How many bytes a length byte makes the decoder move; it is read as a signed `char`. */
  function Moves(b: Byte): nat {
    if SignedChar(b) > 0 then SignedChar(b) else 0
  }

  /** Buffer `b` after `n` bytes behind cell `i` were moved one cell down and a dot stored behind them. */
  function Shifted(b: seq<Byte>, i: nat, n: nat): (r: seq<Byte>)
    requires i + n < |b|
    ensures |r| == |b|
  {
    b[..i] + b[i + 1..i + n + 1] + [DOT] + b[i + n + 1..]
  }

  /** The buffer the decoder leaves when its index stands at `i`; `None` if it reads or writes outside. */
  function DecodeFrom(b: seq<Byte>, i: nat): Option<seq<Byte>>
    decreases |b| - i
  {
    if 0 !in b then None
    else if i >= |CStr(b)| then (if 1 <= i <= |b| then Some(b[i - 1 := 0]) else None)
    else if i + Moves(b[i]) >= |b| then None
    else DecodeFrom(Shifted(b, i, Moves(b[i])), i + Moves(b[i]) + 1)
  }

  /** The inner loop: moves the bytes counted at `i` one cell down, as long as that stays inside. */
  method ShiftLabel(name: array<Byte>, i: nat) returns (ok: bool, i': nat)
    requires i < name.Length
    modifies name
    ensures ok <==> i + Moves(old(name[i])) < name.Length
    ensures ok ==> i' == i + Moves(old(name[i]))
    ensures ok ==> name[..] == old(name[..i]) + old(name[i + 1..i' + 1]) + old(name[i'..])
  {
    var p := SignedChar(name[i]);
    i' := i;
    ghost var b := name[..];
    var j := 0;
    while j < p
      invariant 0 <= j <= Moves(b[i]) && i' == i + j < name.Length
      invariant name[..] == b[..i] + b[i + 1..i' + 1] + b[i'..]
    {
      if i' + 1 >= name.Length {
        return false, i';
      }
      MoveOne(b, i, i');
      name[i'] := name[i' + 1];
      i' := i' + 1;
      j := j + 1;
    }
    return true, i';
  }

  lemma MoveOne(b: seq<Byte>, i: nat, k: nat)
    requires i <= k < |b| - 1
    ensures var c := b[..i] + b[i + 1..k + 1] + b[k..];
            |c| == |b| && c[k := c[k + 1]] == b[..i] + b[i + 1..k + 2] + b[k + 1..]
  {
  }

  lemma ShiftedIs(b: seq<Byte>, i: nat, n: nat, c: seq<Byte>)
    requires i + n < |b| && c == b[..i] + b[i + 1..i + n + 1] + b[i + n..]
    ensures |c| == |b| && c[i + n := DOT] == Shifted(b, i, n)
  {
  }

  lemma DecodeStep(b: seq<Byte>, i: nat)
    requires 0 in b && i < |CStr(b)|
    ensures i + Moves(b[i]) >= |b| ==> DecodeFrom(b, i).None?
    ensures i + Moves(b[i]) < |b| ==> DecodeFrom(b, i) == DecodeFrom(Shifted(b, i, Moves(b[i])), i + Moves(b[i]) + 1)
  {
    hide Moves, Shifted, CStr;
  }

  lemma DecodeEnd(b: seq<Byte>, i: nat)
    requires 0 in b && |CStr(b)| <= i <= |b|
    ensures DecodeFrom(b, i) == if i == 0 then None else Some(b[i - 1 := 0])
  {
    hide CStr;
  }

  lemma DecodeUnterminated(b: seq<Byte>, i: nat)
    requires 0 !in b
    ensures DecodeFrom(b, i).None?
  {
  }

  /** One pass of the outer loop: the inner loop, then the dot. */
  method DecodeLabel(name: array<Byte>, i: nat) returns (ok: bool, i': nat)
    requires i < name.Length
    modifies name
    ensures ok <==> i + Moves(old(name[i])) < name.Length
    ensures ok ==> i' == i + Moves(old(name[i])) + 1 && name[..] == Shifted(old(name[..]), i, Moves(old(name[i])))
  {
    hide Moves, Shifted;
    ghost var b := name[..];
    ok, i' := ShiftLabel(name, i);
    if ok {
      ShiftedIs(b, i, i' - i, name[..]);
      Put(name, i', DOT);
      i' := i' + 1;
    }
  }

  /** Turns the wire form in `name` into dotted text, in place; answers whether it stayed inside the buffer. */
  method ConvertToDottedFormat(name: array<Byte>) returns (ok: bool)
    modifies name
    ensures ok <==> DecodeFrom(old(name[..]), 0).Some?
    ensures ok ==> name[..] == DecodeFrom(old(name[..]), 0).value
  {
    hide CStr, Moves, DecodeFrom, Shifted;
    var i := 0;
    while true
      invariant 0 <= i <= name.Length && DecodeFrom(name[..], i) == DecodeFrom(old(name[..]), 0)
      decreases name.Length - i
    {
      if 0 !in name[..] {
        DecodeUnterminated(name[..], i);
        return false;
      }
      if i >= |CStr(name[..])| {
        break;
      }
      DecodeStep(name[..], i);
      var moved;
      moved, i := DecodeLabel(name, i);
      if !moved {
        return false;
      }
    }
    DecodeEnd(name[..], i);
    if i == 0 {
      return false;
    }
    Put(name, i - 1, 0);
    return true;
  }

  // ----- Wire forms -----

  /** Every label followed by a dot: the decoder's buffer just before it cuts off the last dot. */
  function Dotted(ls: seq<Label>): seq<Byte> {
    if ls == [] then [] else ls[0] + [DOT] + Dotted(ls[1..])
  }

  lemma {:induction false} DottedJoin(ls: seq<Label>)
    requires |ls| >= 1
    ensures Dotted(ls) == Join(ls) + [DOT]
  {
    if |ls| == 1 {
      assert Dotted(ls[1..]) == [];
    } else {
      DottedJoin(ls[1..]);
    }
  }

  lemma {:induction false} DottedLength(ls: seq<Label>)
    ensures |Dotted(ls)| == |Wire(ls)|
  {
    if ls != [] {
      DottedLength(ls[1..]);
    }
  }

  lemma {:induction false} DottedNoZeros(ls: seq<Label>)
    requires NoZeros(ls)
    ensures 0 !in Dotted(ls)
  {
    if ls != [] {
      DottedNoZeros(ls[1..]);
    }
  }

  lemma NothingLeft()
    ensures Dotted([]) == [] && Wire([]) == []
  {
  }

  lemma DottedCons(l: Label, ls: seq<Label>)
    ensures Dotted([l] + ls) == l + [DOT] + Dotted(ls)
  {
    assert ([l] + ls)[1..] == ls;
  }

  lemma JoinNoZeros(ls: seq<Label>)
    requires |ls| >= 1 && NoZeros(ls)
    ensures 0 !in Join(ls)
  {
    DottedJoin(ls);
    DottedNoZeros(ls);
  }

  /** One label that is moved whole. */
  lemma DecodeOne(text: seq<Byte>, l: Label, after: seq<Byte>)
    requires 0 !in text && 1 <= |l| <= 127 && 0 in after
    ensures DecodeFrom(text + [LengthByte(|l|)] + l + after, |text|)
         == DecodeFrom(text + (l + [DOT]) + after, |text| + |l| + 1)
  {
    hide CStr, Shifted, DecodeFrom, Moves, LengthByte;
    var n := LengthByte(|l|);
    MovesOf(|l|);
    LastIn(text + [n] + l, after);
    LongerString(text, n, l + after);
    Associative(text + [n], l, after);
    DecodeStep(text + [n] + l + after, |text|);
    ShiftedLabel(text, l, after);
  }

  lemma MovesOf(n: nat)
    requires 1 <= n <= 127
    ensures LengthByte(n) == n && Moves(LengthByte(n)) == n
  {
  }

  lemma LastIn(a: seq<Byte>, b: seq<Byte>)
    requires 0 in b
    ensures 0 in a + b
  {
    var i :| 0 <= i < |b| && b[i] == 0;
    assert (a + b)[|a| + i] == 0;
  }

  /** The string goes on beyond a prefix without zeros. */
  lemma LongerString(text: seq<Byte>, n: Byte, after: seq<Byte>)
    requires 0 !in text && n != 0
    ensures |text| < |CStr(text + [n] + after)| && (text + [n] + after)[|text|] == n
  {
    var b := text + [n] + after;
    assert forall k :: 0 <= k < |text| ==> b[k] == text[k] && text[k] in text;
  }

  lemma ShiftedLabel(text: seq<Byte>, l: Label, after: seq<Byte>)
    requires after != [] && |l| < 256
    ensures var b := text + [LengthByte(|l|)] + l + after;
            |text| + |l| < |b| && Shifted(b, |text|, |l|) == text + (l + [DOT]) + after
  {
  }

  /** Any number of such labels. */
  lemma {:induction false} DecodeLabels(text: seq<Byte>, ls: seq<Label>, after: seq<Byte>)
    requires 0 !in text && Decodable(ls) && 0 in after
    ensures DecodeFrom(text + Wire(ls) + after, |text|) == DecodeFrom(text + Dotted(ls) + after, |text| + |Wire(ls)|)
    decreases |ls|
  {
    hide DecodeFrom, Wire, Dotted;
    NothingLeft();
    if ls != [] {
      var l, rest := ls[0], ls[1..];
      assert l in ls && ls == [l] + rest;
      WireCons(l, rest);
      DottedCons(l, rest);
      LastIn(Wire(rest), after);
      DecodeOne(text, l, Wire(rest) + after);
      DecodeLabels(text + (l + [DOT]), rest, after);
      Regroup(text, [LengthByte(|l|)], l, Wire(rest), after);
      RegroupText(text, l + [DOT], Wire(rest), Dotted(rest), after);
    }
  }

  lemma Regroup(text: seq<Byte>, n: seq<Byte>, l: seq<Byte>, w: seq<Byte>, after: seq<Byte>)
    ensures text + [] == text
    ensures text + (n + l + w) + after == text + n + l + (w + after)
  {
  }

  lemma RegroupText(text: seq<Byte>, l: seq<Byte>, w: seq<Byte>, d: seq<Byte>, after: seq<Byte>)
    ensures text + l + (w + after) == text + l + w + after
    ensures text + (l + d) + after == text + l + d + after
  {
  }

  /** On a wire form the decoder leaves the dotted text, a terminator, and the rest as it was. */
  lemma WireDecodes(ls: seq<Label>, tail: seq<Byte>)
    requires |ls| >= 1 && Decodable(ls) && tail != [] && tail[0] == 0
    ensures DecodeFrom(Wire(ls) + tail, 0) == Some(Join(ls) + [0] + tail)
    ensures CStr(Join(ls) + [0] + tail) == Join(ls)
  {
    hide DecodeFrom, Wire, Dotted, Join, CStr;
    DecodeLabels([], ls, tail);
    NoneBefore([], Wire(ls));
    NoneBefore([], Dotted(ls));
    DottedLength(ls);
    DottedJoin(ls);
    JoinNoZeros(ls);
    DottedDecodes(Join(ls), tail);
    CStrOfTerminated(Join(ls), tail);
  }

  /** The decoder's last step: the index is behind the last dot. */
  lemma DottedDecodes(t: seq<Byte>, tail: seq<Byte>)
    requires 0 !in t && tail != [] && tail[0] == 0
    ensures DecodeFrom(t + [DOT] + tail, |t| + 1) == Some(t + [0] + tail)
  {
    hide DecodeFrom, CStr;
    var b := t + [DOT] + tail;
    assert b == (t + [DOT]) + [0] + tail[1..];
    CStrOfTerminated(t + [DOT], tail[1..]);
    assert b[|t| + 1] == 0;
    DecodeEnd(b, |t| + 1);
    CutLastDot(b, t, tail);
  }

  lemma CutLastDot(b: seq<Byte>, t: seq<Byte>, tail: seq<Byte>)
    requires b == t + [DOT] + tail
    ensures b[|t| := 0] == t + [0] + tail
  {
  }

  // ----- Round trips -----

  /** Before its index the decoder changes nothing, except that it may end the string just before it. */
  lemma {:induction false} DecodeFrame(b: seq<Byte>, i: nat)
    requires 1 <= i <= |b|
    ensures DecodeFrom(b, i).Some? ==>
            var r := DecodeFrom(b, i).value;
            |r| == |b| && r[..i - 1] == b[..i - 1] && (r[i - 1] == b[i - 1] || r[i - 1] == 0)
    decreases |b| - i
  {
    hide CStr, Moves, Shifted, DecodeFrom;
    if 0 !in b {
      DecodeUnterminated(b, i);
    } else if i >= |CStr(b)| {
      DecodeEnd(b, i);
    } else {
      DecodeStep(b, i);
      if DecodeFrom(b, i).Some? {
        var c, k := Shifted(b, i, Moves(b[i])), i + Moves(b[i]) + 1;
        DecodeFrame(c, k);
        ShiftedFrame(b, i, Moves(b[i]));
        FramePrefix(b, c, DecodeFrom(c, k).value, i, k - 1);
      }
    }
  }

  lemma ShiftedFrame(b: seq<Byte>, i: nat, n: nat)
    requires i + n < |b|
    ensures Shifted(b, i, n)[..i] == b[..i] && Shifted(b, i, n)[i + n] == DOT
  {
  }

  lemma FramePrefix(b: seq<Byte>, c: seq<Byte>, r: seq<Byte>, i: nat, k: nat)
    requires 1 <= i <= k <= |b| == |c| == |r| && c[..i] == b[..i] && r[..k] == c[..k]
    ensures r[..i - 1] == b[..i - 1] && r[i - 1] == b[i - 1]
  {
    assert r[..i] == r[..k][..i] == c[..k][..i] == b[..i];
  }

  lemma {:induction false} JoinPrefixShorter(us: seq<Label>, ls: seq<Label>)
    requires 1 <= |us| < |ls| && us == ls[..|us|]
    ensures |Join(us)| < |Join(ls)|
  {
    if |us| > 1 {
      assert us[1..] == ls[1..][..|us| - 1];
      JoinPrefixShorter(us[1..], ls[1..]);
    }
  }

  lemma {:induction false} FirstUnmeasurable(ls: seq<Label>) returns (m: nat)
    requires !MeasurableLengths(ls)
    ensures m < |ls| && MeasurableLengths(ls[..m]) && !(1 <= |ls[m]| <= 127)
  {
    if 1 <= |ls[0]| <= 127 {
      assert ls == [ls[0]] + ls[1..];
      m := FirstUnmeasurable(ls[1..]);
      m := m + 1;
      assert ls[..m] == [ls[0]] + ls[1..][..m - 1];
    } else {
      m := 0;
    }
  }

  /** What `strcpy` keeps up to and including the first label that is not measurable. */
  lemma {:induction false} UsableSplit(ls: seq<Label>, m: nat)
    requires m < |ls| && MeasurableLengths(ls[..m])
    ensures LengthByte(|ls[m]|) == 0 ==> Usable(ls) == ls[..m]
    ensures LengthByte(|ls[m]|) != 0 ==> Usable(ls) == ls[..m] + ([ls[m]] + Usable(ls[m + 1..]))
  {
    hide Usable, LengthByte, MeasurableLengths;
    UsableStep(ls);
    if m == 0 {
      NoneBefore(ls[..0], [ls[0]] + Usable(ls[1..]));
    } else {
      HeadAndTail(ls, m);
      MeasurableTail(ls, m);
      UsableSplit(ls[1..], m - 1);
      Associative([ls[0]], ls[1..][..m - 1], [ls[m]] + Usable(ls[m + 1..]));
    }
  }

  lemma NoneBefore<T>(none: seq<T>, s: seq<T>)
    requires |none| == 0
    ensures none == [] && none + s == s
  {
  }

  lemma HeadAndTail<T>(s: seq<T>, m: nat)
    requires 0 < m < |s|
    ensures s[..m] == [s[0]] + s[1..][..m - 1] && s[1..][m - 1] == s[m] && s[1..][m..] == s[m + 1..]
  {
  }

  lemma MeasurableTail(ls: seq<Label>, m: nat)
    requires 0 < m < |ls| && MeasurableLengths(ls[..m])
    ensures LengthByte(|ls[0]|) == |ls[0]| != 0
    ensures MeasurableLengths(ls[1..][..m - 1])
  {
    assert ls[..m][0] == ls[0];
    assert ls[1..][..m - 1] == ls[..m][1..];
  }

  lemma UsableStep(ls: seq<Label>)
    requires ls != []
    ensures Usable(ls) == if LengthByte(|ls[0]|) == 0 then [] else [ls[0]] + Usable(ls[1..])
  {
  }

  lemma {:induction false} WireConcat(a: seq<Label>, b: seq<Label>)
    ensures Wire(a + b) == Wire(a) + Wire(b)
  {
    if a == [] {
      assert a + b == b;
    } else {
      WireConcat(a[1..], b);
      assert (a + b)[1..] == a[1..] + b;
    }
  }

  /** A label sits in the text where the dotted form of the labels before it ends. */
  lemma {:induction false} JoinAt(ls: seq<Label>, m: nat, q: nat)
    requires m < |ls| && q < |ls[m]|
    ensures |Dotted(ls[..m])| + q < |Join(ls)| && Join(ls)[|Dotted(ls[..m])| + q] == ls[m][q]
  {
    if m > 0 {
      JoinAt(ls[1..], m - 1, q);
      assert ls[..m][1..] == ls[1..][..m - 1];
    }
  }

  /** A label the decoder does not measure: it leaves a dot or the end of the text inside it. */
  lemma DecodeLong(good: seq<Label>, n: Byte, after: seq<Byte>)
    requires Decodable(good) && n != 0 && 0 in after
    ensures var r, at := DecodeFrom(Wire(good) + ([n] + after), 0), |Dotted(good)| + Moves(n);
            r.Some? ==> at < |r.value| && (r.value[at] == DOT || r.value[at] == 0)
  {
    hide DecodeFrom, Wire, Dotted, Moves, CStr, Shifted;
    var i, c := |Dotted(good)|, Dotted(good) + [n] + after;
    LastIn([n], after);
    DecodeLabels([], good, [n] + after);
    NoneBefore([], Wire(good));
    NoneBefore([], Dotted(good));
    Associative(Dotted(good), [n], after);
    DottedLength(good);
    DottedNoZeros(good);
    LongerString(Dotted(good), n, after);
    LastIn(Dotted(good) + [n], after);
    DecodeStep(c, i);
    if i + Moves(n) < |c| && DecodeFrom(c, i).Some? {
      DecodeFrame(Shifted(c, i, Moves(n)), i + Moves(n) + 1);
      ShiftedFrame(c, i, Moves(n));
    }
  }

  lemma MovesTooFew(n: nat)
    requires n > 127
    ensures Moves(LengthByte(n)) < n
  {
  }

  /** What the label buffers hold once an encoded name has been copied into them. */
  function KeyBuffer(name: seq<Byte>, tail: seq<Byte>): seq<Byte> {
    Wire(Usable(Split(name))) + [0] + tail
  }

  lemma MeasurableKey(name: seq<Byte>, tail: seq<Byte>)
    requires 0 !in name && MeasurableLengths(Split(name))
    ensures var r := DecodeFrom(KeyBuffer(name, tail), 0);
            r.Some? && CStr(r.value) == name
  {
    hide DecodeFrom, Wire, Split, Join, CStr, Usable;
    var ls := Split(name);
    SplitLabels(name);
    JoinSplit(name);
    AllUsable(ls);
    WireDecodes(ls, [0] + tail);
    Associative(Wire(ls), [0], tail);
  }

  /** The first label that cannot be measured has a length that looks like zero: the text ends there. */
  lemma CutKey(name: seq<Byte>, tail: seq<Byte>, m: nat)
    requires 0 !in name && m < |Split(name)| && MeasurableLengths(Split(name)[..m]) && LengthByte(|Split(name)[m]|) == 0
    ensures var r := DecodeFrom(KeyBuffer(name, tail), 0);
            if m == 0 then r.None? else r.Some? && |CStr(r.value)| < |name|
  {
    hide DecodeFrom, Wire, Split, Join, CStr, Usable, LengthByte;
    var ls := Split(name);
    SplitLabels(name);
    JoinSplit(name);
    UsableSplit(ls, m);
    if m == 0 {
      EmptyKey(tail);
    } else {
      JoinPrefixShorter(ls[..m], ls);
      WireDecodes(ls[..m], [0] + tail);
      Associative(Wire(ls[..m]), [0], tail);
    }
  }

  lemma EmptyKey(tail: seq<Byte>)
    ensures DecodeFrom(Wire([]) + [0] + tail, 0).None?
  {
    hide DecodeFrom;
    WireNone();
    CStrOfTerminated([], tail);
    NoneBefore([], [0]);
    assert ([0] + tail)[0] == 0;
    DecodeEnd([0] + tail, 0);
  }

  lemma KeyForm(good: seq<Label>, l: Label, us: seq<Label>, tail: seq<Byte>)
    ensures Wire(good + ([l] + us)) + [0] + tail == Wire(good) + ([LengthByte(|l|)] + (l + (Wire(us) + [0] + tail)))
  {
    hide Wire, LengthByte;
    WireConcat(good, [l] + us);
    WireCons(l, us);
  }

  lemma LongKeyByte(good: seq<Label>, l: Label, us: seq<Label>, tail: seq<Byte>)
    requires Decodable(good) && LengthByte(|l|) != 0
    ensures var r, at := DecodeFrom(Wire(good + ([l] + us)) + [0] + tail, 0), |Dotted(good)| + Moves(LengthByte(|l|));
            r.Some? ==> at < |r.value| && (r.value[at] == DOT || r.value[at] == 0)
  {
    hide DecodeFrom, Wire, LengthByte, Moves, Dotted, Decodable;
    KeyForm(good, l, us, tail);
    LastIn(Wire(us), [0] + tail);
    Associative(Wire(us), [0], tail);
    LastIn(l, Wire(us) + [0] + tail);
    DecodeLong(good, LengthByte(|l|), l + (Wire(us) + [0] + tail));
  }

  lemma ByteLost(name: seq<Byte>, at: nat, r: seq<Byte>)
    requires at < |name| && at < |r| && name[at] != r[at]
    ensures CStr(r) != name
  {
    hide CStr;
  }

  /** It has another length: a byte inside the label is lost. */
  lemma LongKey(name: seq<Byte>, tail: seq<Byte>, m: nat)
    requires 0 !in name && m < |Split(name)| && MeasurableLengths(Split(name)[..m])
    requires LengthByte(|Split(name)[m]|) != 0 && |Split(name)[m]| > 127
    ensures var r := DecodeFrom(KeyBuffer(name, tail), 0);
            r.Some? ==> CStr(r.value) != name
  {
    hide DecodeFrom, Wire, Split, Join, CStr, Usable, LengthByte, Moves, Dotted;
    var ls := Split(name);
    var l, good, us := ls[m], ls[..m], Usable(ls[m + 1..]);
    SplitLabels(name);
    JoinSplit(name);
    UsableSplit(ls, m);
    LongKeyByte(good, l, us, tail);
    MovesTooFew(|l|);
    var q, r := Moves(LengthByte(|l|)), DecodeFrom(KeyBuffer(name, tail), 0);
    JoinAt(ls, m, q);
    assert l in ls && l[q] in l;
    if r.Some? {
      ByteLost(name, |Dotted(good)| + q, r.value);
    }
  }

  /**
    * For every name, whatever lies behind its key: the decoder stays inside the buffer and gives
    * the name back if and only if every label has 1 to 127 bytes.
    */
  lemma TextRoundTrip(name: seq<Byte>, tail: seq<Byte>)
    requires 0 !in name
    ensures var r := DecodeFrom(KeyBuffer(name, tail), 0);
            r.Some? && CStr(r.value) == name <==> MeasurableLengths(Split(name))
  {
    hide DecodeFrom, Split, CStr, KeyBuffer, LengthByte;
    if MeasurableLengths(Split(name)) {
      MeasurableKey(name, tail);
    } else {
      var m := FirstUnmeasurable(Split(name));
      ZeroLength(|Split(name)[m]|);
      if LengthByte(|Split(name)[m]|) == 0 {
        CutKey(name, tail, m);
      } else {
        LongKey(name, tail, m);
      }
    }
  }

  lemma ZeroLength(n: nat)
    ensures n == 0 ==> LengthByte(n) == 0
  {
  }

  ghost predicate Run(b: seq<Byte>, from: nat, to: nat, v: Byte) {
    to <= |b| && forall j :: from <= j < to ==> b[j] == v
  }

  /** A name whose one label has 130 bytes comes back with dots in it, from inside its 255-byte buffer. */
  lemma LongLabelMisread()
    ensures var name: seq<Byte> := seq(130, i => 97);
            var r := DecodeFrom(KeyBuffer(name, seq(123, i => 0)), 0);
            r.Some? && |r.value| == 255 && |CStr(r.value)| == 130 && CStr(r.value)[0] == DOT && CStr(r.value) != name
  {
    hide DecodeFrom, CStr, Shifted, KeyBuffer;
    var name: seq<Byte> := seq(130, i => 97);
    var b := KeyBuffer(name, seq(123, i => 0));
    LongLabelKey(name, seq(123, i => 0));
    CStrUnique(b, 131);
    DecodeStep(b, 0);
    var b1 := Shifted(b, 0, 0);
    ShiftedCells(b, 0, 0);
    CStrUnique(b1, 131);
    DecodeStep(b1, 1);
    var b2 := Shifted(b1, 1, 97);
    ShiftedCells(b1, 1, 97);
    CStrUnique(b2, 131);
    DecodeStep(b2, 99);
    var b3 := Shifted(b2, 99, 97);
    ShiftedCells(b2, 99, 97);
    CStrUnique(b3, 130);
    DecodeEnd(b3, 197);
    CStrUnique(b3[196 := 0], 130);
  }

  lemma LongLabelKey(name: seq<Byte>, tail: seq<Byte>)
    requires |name| == 130 && Run(name, 0, 130, 97) && |tail| == 123 && Run(tail, 0, 123, 0)
    ensures var b := KeyBuffer(name, tail);
            |b| == 255 && b[0] == 130 && Run(b, 1, 131, 97) && Run(b, 131, 255, 0)
  {
    hide FirstDot, Split;
    FirstDotUnique(name, 130);
    SplitUnfold(name);
    UsableStep([name]);
    WireCons(name, []);
    WireNone();
    assert [name] + [] == [name];
    assert Usable([name]) == [name];
  }

  lemma ShiftedCells(b: seq<Byte>, i: nat, n: nat)
    requires i + n < |b|
    ensures var r := Shifted(b, i, n);
            && |r| == |b| && r[i + n] == DOT
            && (forall j :: 0 <= j < i || i + n < j < |b| ==> r[j] == b[j])
            && (forall j :: i <= j < i + n ==> r[j] == b[j + 1])
  {
  }

  // ----- Encoder and decoder together -----

  /** `strcpy` of an encoded name into a buffer, then the in-place decoder. */
  method EncodeThenDecode(name: seq<Byte>, buffer: array<Byte>) returns (ok: bool)
    requires 0 !in name && |name| + 1 < buffer.Length
    modifies buffer
    ensures ok && CStr(buffer[..]) == name <==> MeasurableLengths(Split(name))
  {
    hide Wire, Split, CStr, Usable, DecodeFrom, MeasurableLengths;
    var wire := ConvertToDnsFormat(name);
    LoadKey(name);
    StrCpy(buffer, wire);
    ghost var tail := old(buffer[|CStr(wire)| + 1..]);
    TextRoundTrip(name, tail);
    ok := ConvertToDottedFormat(buffer);
  }

  /** The in-place decoder on a buffer that holds a wire form, then the encoder on its text. */
  method DecodeThenEncode(buffer: array<Byte>, ghost ls: seq<Label>) returns (ok: bool, wire: seq<Byte>)
    requires |ls| >= 1 && Decodable(ls) && DotFree(ls)
    requires |Wire(ls)| < buffer.Length && buffer[..|Wire(ls)|] == Wire(ls) && buffer[|Wire(ls)|] == 0
    modifies buffer
    ensures ok && wire == Wire(ls) + [0]
  {
    hide Wire, Split, Join, CStr, DecodeFrom;
    ghost var tail := buffer[|Wire(ls)|..];
    assert buffer[..] == Wire(ls) + tail;
    WireDecodes(ls, tail);
    ok := ConvertToDottedFormat(buffer);
    SplitJoin(ls);
    wire := ConvertToDnsFormat(CStr(buffer[..]));
  }
}
