/** Ordered multimaps of name servers, as `std::multimap` keeps them. */
module Multimap {
  import opened CStrings

  /** A name server and its address, as text. */
  datatype Server = Server(name: seq<Byte>, addr: seq<Byte>)
  datatype Entry = Entry(key: seq<Byte>, server: Server)

  // ----- The order of std::string keys -----

  predicate Less(a: seq<Byte>, b: seq<Byte>) {
    if b == [] then false
    else if a == [] then true
    else a[0] < b[0] || (a[0] == b[0] && Less(a[1..], b[1..]))
  }

  lemma {:induction false} LessTotal(a: seq<Byte>, b: seq<Byte>)
    ensures Less(a, b) || a == b || Less(b, a)
    ensures !(Less(a, b) && Less(b, a)) && !Less(a, a)
  {
    if a != [] && b != [] && a[0] == b[0] {
      LessTotal(a[1..], b[1..]);
      assert a == [a[0]] + a[1..] && b == [b[0]] + b[1..];
    }
    if a != [] {
      LessTotal(a[1..], a[1..]);
    }
  }

  /** The order of the first byte that differs; a prefix comes first. */
  lemma {:induction false} LessByFirstDifference(a: seq<Byte>, b: seq<Byte>, i: nat)
    requires i <= |a| && i <= |b| && a[..i] == b[..i]
    ensures i < |a| && i < |b| && a[i] != b[i] ==> (Less(a, b) <==> a[i] < b[i])
    ensures i == |a| ==> (Less(a, b) <==> |a| < |b|)
  {
    if i > 0 {
      assert a[0] == a[..i][0] == b[..i][0] == b[0];
      assert a[1..][..i - 1] == a[..i][1..] == b[..i][1..] == b[1..][..i - 1];
      LessByFirstDifference(a[1..], b[1..], i - 1);
    }
  }

  lemma {:induction false} LessTransitive(a: seq<Byte>, b: seq<Byte>, c: seq<Byte>)
    requires !Less(b, a) && !Less(c, b)
    ensures !Less(c, a)
  {
    if a != [] && b != [] && c != [] && a[0] == b[0] == c[0] {
      LessTransitive(a[1..], b[1..], c[1..]);
    }
  }

  lemma LessStrict(a: seq<Byte>, b: seq<Byte>, c: seq<Byte>)
    requires Less(a, b) && !Less(c, b)
    ensures Less(a, c)
  {
    if !Less(a, c) {
      LessTransitive(b, c, a);
    }
  }

  ghost predicate Sorted(es: seq<Entry>) {
    forall i, j :: 0 <= i < j < |es| ==> !Less(es[j].key, es[i].key)
  }

  // ----- Positions in an ordered multimap -----

  /** The first position whose key is greater than `key`. */
  function UpperBound(es: seq<Entry>, key: seq<Byte>): (p: nat)
    ensures p <= |es| && (p < |es| ==> Less(key, es[p].key))
    ensures forall i :: 0 <= i < p ==> !Less(key, es[i].key)
  {
    if es == [] || Less(key, es[0].key) then 0 else 1 + UpperBound(es[1..], key)
  }

  /** The first position whose key is not less than `key`. */
  function LowerBound(es: seq<Entry>, key: seq<Byte>): (p: nat)
    ensures p <= |es| && (p < |es| ==> !Less(es[p].key, key))
    ensures forall i :: 0 <= i < p ==> Less(es[i].key, key)
  {
    if es == [] || !Less(es[0].key, key) then 0 else 1 + LowerBound(es[1..], key)
  }

  /** The servers stored under `key`, oldest first: what the cache means to its callers. */
  function ServersOf(es: seq<Entry>, key: seq<Byte>): seq<Server> {
    if es == [] then []
    else (if es[0].key == key then [es[0].server] else []) + ServersOf(es[1..], key)
  }

  lemma {:induction false} ServersOfConcat(a: seq<Entry>, b: seq<Entry>, key: seq<Byte>)
    ensures ServersOf(a + b, key) == ServersOf(a, key) + ServersOf(b, key)
  {
    hide ServersOf;
    ServersOfNone([], key);
    if a == [] {
      assert a + b == b;
    } else {
      ServersOfConcat(a[1..], b, key);
      ServersOfStep(a, key);
      ServersOfStep(a + b, key);
      assert (a + b)[1..] == a[1..] + b;
    }
  }

  lemma ServersOfStep(es: seq<Entry>, key: seq<Byte>)
    requires es != []
    ensures ServersOf(es, key) == (if es[0].key == key then [es[0].server] else []) + ServersOf(es[1..], key)
  {
  }

  lemma {:induction false} ServersOfNone(es: seq<Entry>, key: seq<Byte>)
    requires forall i :: 0 <= i < |es| ==> es[i].key != key
    ensures ServersOf(es, key) == []
  {
    if es != [] {
      ServersOfNone(es[1..], key);
    }
  }

  lemma {:induction false} ServersOfAll(es: seq<Entry>, key: seq<Byte>)
    requires forall i :: 0 <= i < |es| ==> es[i].key == key
    ensures |ServersOf(es, key)| == |es|
    ensures forall i :: 0 <= i < |es| ==> ServersOf(es, key)[i] == es[i].server
  {
    if es != [] {
      ServersOfAll(es[1..], key);
    }
  }

  lemma {:induction false} ServersOfIn(es: seq<Entry>, key: seq<Byte>, s: Server)
    ensures s in ServersOf(es, key) <==> Entry(key, s) in es
  {
    if es != [] {
      ServersOfIn(es[1..], key, s);
      assert es == [es[0]] + es[1..];
    }
  }

  /** `equal_range`: the keys equal to `key` lie exactly between the two bounds. */
  lemma BoundsOrder(es: seq<Entry>, key: seq<Byte>)
    requires Sorted(es)
    ensures LowerBound(es, key) <= UpperBound(es, key)
    ensures forall i :: 0 <= i < |es| ==>
      (es[i].key == key <==> LowerBound(es, key) <= i < UpperBound(es, key))
    ensures forall i :: UpperBound(es, key) <= i < |es| ==> Less(key, es[i].key)
  {
    var l, u := LowerBound(es, key), UpperBound(es, key);
    if u < l {
      LessTotal(es[u].key, key);
    }
    forall i | 0 <= i < |es|
      ensures es[i].key == key <==> l <= i < u
      ensures u <= i ==> Less(key, es[i].key)
    {
      LessTotal(es[i].key, key);
      if l < i {
        LessTransitive(key, es[l].key, es[i].key);
      }
      if u < i {
        LessStrict(key, es[u].key, es[i].key);
      }
    }
  }

  lemma RangeIsServersOf(es: seq<Entry>, key: seq<Byte>)
    requires Sorted(es)
    ensures var l, u := LowerBound(es, key), UpperBound(es, key);
            && l <= u && |ServersOf(es, key)| == u - l
            && forall i :: l <= i < u ==> ServersOf(es, key)[i - l] == es[i].server
  {
    hide LowerBound, UpperBound;
    BoundsOrder(es, key);
    ServersOfMiddle(es, LowerBound(es, key), UpperBound(es, key), key);
  }

  lemma ServersOfMiddle(es: seq<Entry>, l: nat, u: nat, key: seq<Byte>)
    requires l <= u <= |es| && forall i :: 0 <= i < |es| ==> (es[i].key == key <==> l <= i < u)
    ensures |ServersOf(es, key)| == u - l
    ensures forall i :: l <= i < u ==> ServersOf(es, key)[i - l] == es[i].server
  {
    hide ServersOf;
    var x, y, z := es[..l], es[l..u], es[u..];
    ThreeParts(es, l, u);
    ServersOfConcat(x, y + z, key);
    ServersOfConcat(y, z, key);
    ServersOfNone(x, key);
    ServersOfNone(z, key);
    ServersOfAll(y, key);
    assert ServersOf(es, key) == ServersOf(y, key);
  }

  lemma ThreeParts<T>(s: seq<T>, l: nat, u: nat)
    requires l <= u <= |s|
    ensures s == s[..l] + (s[l..u] + s[u..])
    ensures forall i :: l <= i < u ==> s[l..u][i - l] == s[i]
  {
  }

  /** The multimap after `emplace`: the new entry follows the equal ones. */
  function Inserted(es: seq<Entry>, e: Entry): seq<Entry> {
    var p := UpperBound(es, e.key);
    es[..p] + [e] + es[p..]
  }

  lemma InsertedSorted(es: seq<Entry>, e: Entry)
    requires Sorted(es)
    ensures Sorted(Inserted(es, e))
  {
    hide UpperBound, LowerBound;
    BoundsOrder(es, e.key);
    var p, r := UpperBound(es, e.key), Inserted(es, e);
    LessTotal(e.key, e.key);
    forall i, j | 0 <= i < j < |r|
      ensures !Less(r[j].key, r[i].key)
    {
      LessTotal(r[i].key, r[j].key);
    }
  }

  lemma InsertedServers(es: seq<Entry>, e: Entry, key: seq<Byte>)
    requires Sorted(es)
    ensures ServersOf(Inserted(es, e), key) == ServersOf(es, key) + (if key == e.key then [e.server] else [])
  {
    hide UpperBound, LowerBound, ServersOf, Sorted;
    BoundsOrder(es, e.key);
    var p := UpperBound(es, e.key);
    assert es == es[..p] + es[p..];
    ServersOfConcat(es[..p], es[p..], key);
    ServersOfConcat(es[..p] + [e], es[p..], key);
    ServersOfConcat(es[..p], [e], key);
    ServersOfOne(e, key);
    if key == e.key {
      ServersOfNone(es[p..], key);
    }
  }

  lemma ServersOfOne(e: Entry, key: seq<Byte>)
    ensures ServersOf([e], key) == if key == e.key then [e.server] else []
  {
    assert [e][1..] == [];
  }

  lemma InsertedContents(es: seq<Entry>, e: Entry)
    ensures multiset(Inserted(es, e)) == multiset(es) + multiset{e}
  {
    var p := UpperBound(es, e.key);
    assert es == es[..p] + es[p..];
  }

  /** Entries put into a multimap one after the other. */
  function EmplaceAll(es: seq<Entry>, xs: seq<Entry>): seq<Entry>
    decreases |xs|
  {
    if xs == [] then es else EmplaceAll(Inserted(es, xs[0]), xs[1..])
  }

  /** Every new entry is gained once, behind the older entries of its key. */
  lemma {:induction false} EmplaceAllServers(es: seq<Entry>, xs: seq<Entry>, key: seq<Byte>)
    requires Sorted(es)
    ensures Sorted(EmplaceAll(es, xs))
    ensures ServersOf(EmplaceAll(es, xs), key) == ServersOf(es, key) + ServersOf(xs, key)
    ensures multiset(EmplaceAll(es, xs)) == multiset(es) + multiset(xs)
    decreases |xs|
  {
    hide Inserted, Sorted, ServersOf;
    if xs == [] {
      ServersOfNone(xs, key);
    } else {
      InsertedSorted(es, xs[0]);
      InsertedServers(es, xs[0], key);
      InsertedContents(es, xs[0]);
      EmplaceAllServers(Inserted(es, xs[0]), xs[1..], key);
      assert xs == [xs[0]] + xs[1..];
      ServersOfConcat([xs[0]], xs[1..], key);
      ServersOfOne(xs[0], key);
    }
  }

  lemma {:induction false} EmplaceAllConcat(es: seq<Entry>, xs: seq<Entry>, ys: seq<Entry>)
    ensures EmplaceAll(es, xs + ys) == EmplaceAll(EmplaceAll(es, xs), ys)
    decreases |xs|
  {
    if xs == [] {
      assert xs + ys == ys;
    } else {
      assert (xs + ys)[1..] == xs[1..] + ys;
      EmplaceAllConcat(Inserted(es, xs[0]), xs[1..], ys);
    }
  }
}
