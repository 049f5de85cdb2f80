/** The fixed-size buffers in which the resolver walks the suffixes of a name. */
module LabelBuffers {
  import opened CStrings
  import opened NameCodec
  import opened NameDecoder

  /** Size of the label buffers. */
  const LABEL_SIZE := 255

  /** A label buffer that holds the cache key of the suffix `ls`. */
  ghost predicate HoldsKey(buffer: seq<Byte>, ls: seq<Label>) {
    && |Wire(ls)| < |buffer|
    && buffer[..|Wire(ls)|] == Wire(ls)
    && buffer[|Wire(ls)|] == 0
  }

  /** Suffixes of a name that the label loops can hold and trim. */
  ghost predicate Trimmable(ls: seq<Label>) {
    ls != [] && Decodable(ls) && DotFree(ls)
  }

  lemma KeyCStr(buffer: seq<Byte>, ls: seq<Label>)
    requires HoldsKey(buffer, ls) && Decodable(ls)
    ensures CStr(buffer) == Wire(ls)
  {
    hide Wire, CStr;
    WireNoZeros(ls);
    var n := |Wire(ls)|;
    forall i | 0 <= i < n ensures buffer[i] != 0 {
      assert buffer[i] == Wire(ls)[i];
    }
    CStrUnique(buffer, n);
  }

  lemma CStrHoldsKey(buffer: seq<Byte>, ls: seq<Label>, tail: seq<Byte>)
    requires buffer == Wire(ls) + [0] + tail
    ensures HoldsKey(buffer, ls)
  {
    hide Wire;
  }

  lemma DotInJoin(ls: seq<Label>)
    requires ls != [] && DotFree(ls)
    ensures DOT in Join(ls) <==> |ls| > 1
  {
    hide Join, Split, FirstDot;
    SplitJoin(ls);
    SplitStep(Join(ls));
    assert ls[0] in ls;
    SingleJoin(ls);
  }

  lemma SingleJoin(ls: seq<Label>)
    ensures |ls| == 1 ==> Join(ls) == ls[0]
  {
  }

  lemma KeyOfText(text: seq<Byte>, ls: seq<Label>)
    requires Split(text) == ls && Decodable(ls)
    ensures CStr(Wire(Split(text)) + [0]) == Wire(ls)
  {
    hide Wire, Split, CStr;
    WireNoZeros(ls);
    CStrOfTerminated(Wire(ls), []);
    assert Wire(ls) + [0] + [] == Wire(ls) + [0];
  }

  /** Loads a buffer with the cache key of a name. */
  method LoadLabel(name: seq<Byte>, buffer: array<Byte>)
    requires 0 !in name && |name| + 1 < buffer.Length
    modifies buffer
    ensures HoldsKey(buffer[..], Usable(Split(name)))
  {
    hide Wire, Split, CStr, Usable, HoldsKey;
    var key := ConvertToDnsFormat(name);
    LoadKey(name);
    StrCpy(buffer, key);
    ghost var us := Usable(Split(name));
    CStrHoldsKey(buffer[..], us, old(buffer[|Wire(us)| + 1..]));
  }

  /** Replaces the key of a suffix by the key of the suffix without its first label, if one is left. */
  method TrimLabel(buffer: array<Byte>, ghost ls: seq<Label>) returns (trimmable: bool)
    requires HoldsKey(buffer[..], ls) && Trimmable(ls)
    modifies buffer
    ensures trimmable <==> |ls| > 1
    ensures trimmable ==> HoldsKey(buffer[..], ls[1..]) && Trimmable(ls[1..])
  {
    hide Wire, Split, CStr, Join, Usable, FirstDot, DecodeFrom;
    ghost var tail := buffer[|Wire(ls)|..];
    assert buffer[..] == Wire(ls) + tail;
    WireDecodes(ls, tail);
    var _ := ConvertToDottedFormat(buffer);
    DottedLength(ls);
    DottedJoin(ls);
    var text := CStr(buffer[..]);
    DotInJoin(ls);
    trimmable := false;
    var i := 0;
    while At(text, i) != 0
      invariant i <= |text| && (trimmable <==> DOT in text[..i])
      decreases |text| - i
    {
      if text[i] == DOT {
        trimmable := true;
      }
      i := i + 1;
    }
    assert text[..i] == text;
    if trimmable {
      SplitJoin(ls);
      var trimmed := TrimName(text);
      StoreKey(buffer, trimmed, ls[1..]);
    }
  }

  /** Two copies into the buffer: the trimmed text, then its key. */
  method StoreKey(buffer: array<Byte>, text: seq<Byte>, ghost ls: seq<Label>)
    requires 0 !in text && Split(text) == ls && Decodable(ls)
    requires |text| + 1 < buffer.Length
    modifies buffer
    ensures HoldsKey(buffer[..], ls)
  {
    hide Wire, Split, HoldsKey, CStr;
    CStrOfTerminated(text, []);
    CStrNoZero(text);
    StrCpy(buffer, text);
    var key := ConvertToDnsFormat(CStr(buffer[..]));
    KeyOfText(text, ls);
    WireLengthAll(text);
    ghost var before := buffer[..];
    StrCpy(buffer, key);
    assert buffer[..] == Wire(ls) + [0] + before[|Wire(ls)| + 1..];
    CStrHoldsKey(buffer[..], ls, before[|Wire(ls)| + 1..]);
  }

  lemma CStrNoZero(s: seq<Byte>)
    requires 0 !in s
    ensures CStr(s) == s
  {
    assert forall i :: 0 <= i < |s| ==> s[i] in s;
  }
}
