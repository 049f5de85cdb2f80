/** Name service requests as fixed-size packets, encoded and decoded in place. */
module Requests {
  import opened CStrings

  const NAME_BYTES := 50
  const MAX_SERVICE_NAME_LEN := 49

  const DEFINE_PORT := 1
  const LOOKUP_PORT := 2
  const KEEP_ALIVE := 3
  const CLOSE_PORT := 4
  const RESPONSE := 5
  const STOP := 6

  const SUCCESS := 0
  const SERVICE_IN_USE := 1
  const SERVICE_NOT_FOUND := 2
  const ALL_PORTS_BUSY := 3
  const INVALID_ARG := 4
  const UNDEFINED_ERROR := 5

  type Int8 = b: int | -128 <= b < 128

  /** The contents of a request. */
  datatype Packet = Packet(port: UInt16, msgType: Int8, status: Int8, name: seq<Byte>)

  class Request {
    var port: UInt16
    var msgType: Int8
    var status: Int8
    const serviceName: array<Byte>

    ghost predicate Valid() {
      serviceName.Length == NAME_BYTES
    }

    ghost function Value(): Packet
      reads this, serviceName
    {
      Packet(port, msgType, status, serviceName[..])
    }

    /** A request with every field zero. */
    constructor ()
      ensures Valid() && fresh(serviceName)
      ensures port == 0 && msgType == 0 && status == 0 && Zeros(serviceName[..])
    {
      port, msgType, status := 0, 0, 0;
      serviceName := new Byte[NAME_BYTES](i => 0);
    }
  }

  // ----- The packets the encoder and the validity check define -----

  /** `htons` and `ntohs` on a little-endian host. */
  function Swap16(p: UInt16): UInt16 {
    p % 256 * 256 + p / 256
  }

  predicate ValidCodes(p: Packet) {
    DEFINE_PORT <= p.msgType <= STOP && SUCCESS <= p.status <= UNDEFINED_ERROR
  }

  /** Every byte after the first zero byte is zero. */
  ghost predicate ZeroFilled(name: seq<Byte>) {
    forall i, j :: 0 <= i < j < |name| && name[i] == 0 ==> name[j] == 0
  }

  ghost function Encoded(p: Packet): Packet
    requires |p.name| == NAME_BYTES
  {
    p.(port := Swap16(p.port), name := Padded(p.name, MAX_SERVICE_NAME_LEN) + p.name[MAX_SERVICE_NAME_LEN..])
  }

  ghost predicate Acceptable(p: Packet) {
    ValidCodes(p) && ZeroFilled(p.name)
  }

  lemma CodesExact(p: Packet)
    ensures ValidCodes(p) <==> p.msgType in {1, 2, 3, 4, 5, 6} && p.status in {0, 1, 2, 3, 4, 5}
  {
  }

  /** The two byte orders of a port, without a conversion. */
  lemma SwapExact(p: UInt16)
    ensures Swap16(p) % 256 * 256 + Swap16(p) / 256 == p
    ensures Swap16(p) == p % 256 * 256 + p / 256
  {
  }

  /**
    * Byte order: the port of an encoded packet, as the host stores it with its low byte first and
    * the network reads it with its high byte first, is the port of the request.
    */
  lemma PortOrder(p: Packet)
    requires |p.name| == NAME_BYTES
    ensures var e := Encoded(p).port; e % 256 * 256 + e / 256 == p.port
  {
  }

  lemma SwapTwice(p: UInt16)
    ensures Swap16(Swap16(p)) == p
  {
  }

  /** What the server's decoder makes of an encoded packet, and exactly when it accepts it. */
  lemma RoundTrip(p: Packet)
    requires |p.name| == 50
    ensures var e := Encoded(p);
            && e.(port := Swap16(e.port)) == p.(name := e.name)
            && (Acceptable(e) <==> ValidCodes(p) && (0 in p.name[..49] ==> p.name[49] == 0))
            && (Acceptable(e) ==> CStr(e.name) == CStr(p.name))
  {
    SwapTwice(p.port);
    PaddedZeroFilled(p.name);
    PaddedSameString(p.name);
  }

  /** A packet with codes in range that is refused once it is encoded: its last name byte stays. */
  lemma LastByteRefused()
    ensures exists p: Packet :: |p.name| == NAME_BYTES && ValidCodes(p) && !Acceptable(Encoded(p))
  {
    var name: seq<Byte> := seq(MAX_SERVICE_NAME_LEN, i => 0) + [1];
    var p := Packet(0, DEFINE_PORT, SUCCESS, name);
    assert name[..MAX_SERVICE_NAME_LEN][0] == 0;
    RoundTrip(p);
    assert ValidCodes(p) && !Acceptable(Encoded(p));
  }

  lemma PaddedZeroFilled(name: seq<Byte>)
    requires |name| == NAME_BYTES
    ensures ZeroFilled(Padded(name, MAX_SERVICE_NAME_LEN) + name[MAX_SERVICE_NAME_LEN..]) <==>
            (0 in name[..MAX_SERVICE_NAME_LEN] ==> name[MAX_SERVICE_NAME_LEN] == 0)
  {
    hide CStr;
    var n := MAX_SERVICE_NAME_LEN;
    var s := CStr(name[..n]);
    var q := Padded(name, n) + name[n..];
    PaddedCStr(name, n, name[n..]);
    if 0 in name[..n] {
      assert |s| < n by {
        var i :| 0 <= i < n && name[..n][i] == 0;
      }
      assert q[|s|] == 0 && q[n] == name[n];
      assert forall i :: |s| <= i < n ==> q[i] == 0;
      assert forall i :: 0 <= i < |s| ==> q[i] == s[i] != 0;
    } else {
      assert q == name;
      assert forall i :: 0 <= i < n ==> name[i] in name[..n];
    }
  }

  lemma PaddedSameString(name: seq<Byte>)
    requires |name| == NAME_BYTES
    ensures CStr(Padded(name, MAX_SERVICE_NAME_LEN) + name[MAX_SERVICE_NAME_LEN..]) == CStr(name)
  {
    hide CStr;
    PaddedCStr(name, MAX_SERVICE_NAME_LEN, name[MAX_SERVICE_NAME_LEN..]);
    assert name == name[..MAX_SERVICE_NAME_LEN] + name[MAX_SERVICE_NAME_LEN..];
  }

  // ----- Encoding, checking and decoding -----

  /** The first loop of the encoder: the position of the first zero byte, or 0 if there is none. */
  method NullPosition(name: array<Byte>) returns (nullPos: nat)
    requires name.Length == NAME_BYTES
    ensures nullPos == (if 0 in name[..] then |CStr(name[..])| else 0)
  {
    hide CStr;
    nullPos := 0;
    var i := 0;
    while i < NAME_BYTES
      invariant i <= NAME_BYTES + 1
      invariant i <= NAME_BYTES ==> nullPos == 0 && forall k :: 0 <= k < i ==> name[k] != 0
      invariant i == NAME_BYTES + 1 ==> 0 in name[..] && nullPos == |CStr(name[..])|
    {
      if name[i] == 0 {
        CStrUnique(name[..], i);
        nullPos := i;
        i := NAME_BYTES;
      }
      i := i + 1;
    }
  }

  /** Encodes `request` into `buff`, which may be the same object; null if a code is out of range. */
  method Encode(request: Request, buff: Request) returns (r: Request?)
    requires request.Valid() && buff.Valid() && (buff == request || buff.serviceName != request.serviceName)
    modifies buff, buff.serviceName
    ensures buff.Value() == Encoded(old(request.Value())).(
      name := Padded(old(request.serviceName[..]), MAX_SERVICE_NAME_LEN) + old(buff.serviceName[MAX_SERVICE_NAME_LEN..]))
    ensures buff == request ==> buff.Value() == Encoded(old(request.Value()))
    ensures r == if ValidCodes(old(request.Value())) then buff else null
  {
    hide Padded, CStr, Swap16;
    if buff != request {
      buff.msgType := request.msgType;
      buff.status := request.status;
      buff.port := request.port;
    }
    buff.port := Swap16(buff.port);
    ghost var name := request.serviceName[..];
    var nullPos := NullPosition(request.serviceName);
    var nullFilled := new Byte[MAX_SERVICE_NAME_LEN];
    StrNCpy(nullFilled, request.serviceName[..], MAX_SERVICE_NAME_LEN);
    assert nullFilled[..] == nullFilled[..MAX_SERVICE_NAME_LEN];
    if nullPos != 0 {
      PaddingIsZero(name, nullPos);
      forall i | nullPos <= i < MAX_SERVICE_NAME_LEN {
        nullFilled[i] := 0;
      }
      assert nullFilled[..] == Padded(name, MAX_SERVICE_NAME_LEN);
    }
    ghost var last := buff.serviceName[MAX_SERVICE_NAME_LEN..];
    forall i | 0 <= i < MAX_SERVICE_NAME_LEN {
      buff.serviceName[i] := nullFilled[i];
    }
    assert buff.serviceName[..] == Padded(name, MAX_SERVICE_NAME_LEN) + last;
    if buff.msgType < DEFINE_PORT || buff.msgType > STOP {
      return null;
    }
    if buff.status < SUCCESS || buff.status > UNDEFINED_ERROR {
      return null;
    }
    return buff;
  }

  lemma PaddingIsZero(name: seq<Byte>, n: nat)
    requires |name| == NAME_BYTES && 0 in name && n == |CStr(name)|
    ensures forall i :: n <= i < MAX_SERVICE_NAME_LEN ==> Padded(name, MAX_SERVICE_NAME_LEN)[i] == 0
  {
    hide CStr;
    if n < MAX_SERVICE_NAME_LEN {
      CStrUnique(name[..MAX_SERVICE_NAME_LEN], n);
    }
  }

  /** 0 for a request with valid codes whose name is zero-filled after its first zero byte, else 1. */
  method IsInvalid(request: Request) returns (error: int)
    requires request.Valid()
    ensures error == if Acceptable(request.Value()) then 0 else 1
  {
    hide CStr;
    if request.msgType < DEFINE_PORT || request.msgType > STOP {
      return 1;
    }
    if request.status < SUCCESS || request.status > UNDEFINED_ERROR {
      return 1;
    }
    ghost var name := request.serviceName[..];
    var ptrOffset := |CStr(request.serviceName[..])|;
    if ptrOffset < NAME_BYTES {
      var i := ptrOffset;
      while i < NAME_BYTES
        invariant ptrOffset <= i <= NAME_BYTES
        invariant forall k :: ptrOffset <= k < i ==> name[k] == 0
      {
        if request.serviceName[i] != 0 {
          assert name[ptrOffset] == 0 && name[i] != 0;
          return 1;
        }
        i := i + 1;
      }
    }
    return 0;
  }

  /**
    * Decodes `buff`; null if it is not acceptable. Given two different requests it first overwrites
    * `buff` with `decoded`, the reverse of what its documentation says; the server passes one request twice.
    */
  method Decode(buff: Request, decoded: Request) returns (r: Request?)
    requires buff.Valid() && decoded.Valid() && (buff == decoded || buff.serviceName != decoded.serviceName)
    modifies buff, buff.serviceName
    ensures buff.Value() == old(decoded.Value()).(port := Swap16(old(decoded.port)), name := buff.serviceName[..])
    ensures buff.port == old(decoded.port) % 256 * 256 + old(decoded.port) / 256
    ensures buff.serviceName[..] ==
      if buff == decoded then old(buff.serviceName[..])
      else Padded(old(decoded.serviceName[..]), MAX_SERVICE_NAME_LEN) + old(buff.serviceName[MAX_SERVICE_NAME_LEN..])
    ensures r == if Acceptable(buff.Value()) then buff else null
  {
    hide Padded, CStr, Swap16, Acceptable;
    SwapExact(decoded.port);
    if buff != decoded {
      buff.msgType := decoded.msgType;
      buff.status := decoded.status;
      buff.port := decoded.port;
      ghost var last := buff.serviceName[MAX_SERVICE_NAME_LEN..];
      StrNCpy(buff.serviceName, decoded.serviceName[..], MAX_SERVICE_NAME_LEN);
      assert buff.serviceName[..] == buff.serviceName[..MAX_SERVICE_NAME_LEN] + last;
    }
    buff.port := Swap16(buff.port);
    var valid := IsInvalid(buff);
    if valid > 0 {
      return null;
    }
    return buff;
  }
}
