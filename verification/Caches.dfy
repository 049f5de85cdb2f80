/** The resolver's two shared caches: name servers by zone, and addresses by resolved name. */
module Caches {
  import opened CStrings
  import opened Multimap
  import opened CacheDump

  // ----- Locked_Multi -----

  class LockedMulti {
    var entries: seq<Entry>

    ghost predicate Valid()
      reads this
    {
      Sorted(entries)
    }

    ghost function Servers(key: seq<Byte>): seq<Server>
      reads this
    {
      ServersOf(entries, key)
    }

    constructor ()
      ensures Valid() && entries == []
    {
      entries := [];
    }

    /** The range of iterators over the entries stored under `key`. */
    method GetNS(key: seq<Byte>) returns (first: nat, last: nat)
      requires Valid()
      ensures first <= last <= |entries|
      ensures |Servers(key)| == last - first
      ensures forall i :: first <= i < last ==> Servers(key)[i - first] == entries[i].server
    {
      RangeIsServersOf(entries, key);
      first, last := LowerBound(entries, key), UpperBound(entries, key);
    }

    method Emplace(key: seq<Byte>, server: Server)
      requires Valid()
      modifies this
      ensures Valid()
      ensures entries == Inserted(old(entries), Entry(key, server))
      ensures forall k :: Servers(k) == old(Servers(k)) + (if k == key then [server] else [])
      ensures multiset(entries) == multiset(old(entries)) + multiset{Entry(key, server)}
    {
      ghost var e := Entry(key, server);
      InsertedSorted(entries, e);
      InsertedContents(entries, e);
      forall k ensures ServersOf(Inserted(entries, e), k) == ServersOf(entries, k) + (if k == key then [server] else []) {
        InsertedServers(entries, e, k);
      }
      var p := UpperBound(entries, key);
      entries := entries[..p] + [Entry(key, server)] + entries[p..];
    }

    /** The distinct keys, found by jumping from each key to its upper bound. */
    method GetKeys() returns (allKeys: seq<seq<Byte>>)
      requires Valid()
      ensures allKeys == GroupKeys(Groups(entries))
    {
      hide UpperBound, LowerBound, Sorted, Less, Groups, GroupKeys;
      allKeys := [];
      var it := 0;
      assert entries[0..] == entries;
      while it != |entries|
        invariant 0 <= it <= |entries|
        invariant allKeys + GroupKeys(Groups(entries[it..])) == GroupKeys(Groups(entries))
        decreases |entries| - it
      {
        KeyStep(entries, it);
        allKeys := allKeys + [entries[it].key];
        it := UpperBound(entries, entries[it].key);
      }
      NoKeys();
      assert entries[it..] == [];
    }

    /** `{zone:{server:address},...}` for each zone. */
    method Serialize() returns (text: seq<Byte>)
      requires Valid()
      ensures text == RenderGroups(Groups(entries))
    {
      hide Sorted, Groups, GroupKeys, RenderGroups, RenderServers, ServersOf;
      var allKeys := GetKeys();
      text := [];
      ghost var rest := Groups(entries);
      GroupsExact(entries);
      for i := 0 to |allKeys|
        invariant allKeys[i..] == GroupKeys(rest)
        invariant text + RenderGroups(rest) == RenderGroups(Groups(entries))
        invariant forall g :: g in rest ==> g.servers != [] && g.servers == ServersOf(entries, g.key)
      {
        GroupStep(text, rest, allKeys[i..]);
        assert rest[0] in rest;
        text := text + [OPEN];
        text := text + allKeys[i];
        text := text + [COLON];
        var list := SerializeServers(allKeys[i]);
        text := text + list;
        text := text + [CLOSE];
        rest := rest[1..];
      }
      NoKeys();
      GroupKeysNone(rest);
      assert allKeys[|allKeys|..] == [];
      assert text + [] == text;
    }

    /** The loop over the servers of one zone. */
    method SerializeServers(key: seq<Byte>) returns (list: seq<Byte>)
      requires Valid()
      ensures list == RenderServers(Servers(key))
    {
      hide Sorted, ServersOf, RenderServers, RenderServer;
      var first, last := GetNS(key);
      ghost var start, ss := first, Servers(key);
      list := [];
      NoServers();
      assert ss[0..] == ss;
      while first != last
        invariant start <= first <= last <= |entries|
        invariant list + RenderServers(ss[first - start..]) == RenderServers(ss)
        decreases last - first
      {
        ghost var s := entries[first].server;
        RenderStep(list, ss, first - start);
        list := list + RenderServer(entries[first].server);
        first := first + 1;
        if first != last {
          list := list + [COMMA];
        }
      }
      assert ss[first - start..] == [];
      assert list + [] == list;
    }
  }

  // ----- Steps of the dump loops -----

  lemma KeyStep(es: seq<Entry>, i: nat)
    requires Sorted(es) && i < |es|
    ensures var u := UpperBound(es, es[i].key);
            i < u <= |es| && GroupKeys(Groups(es[i..])) == [es[i].key] + GroupKeys(Groups(es[u..]))
  {
    hide Sorted, Less, UpperBound, LowerBound;
    UpperBoundSuffix(es, i);
    var u := UpperBound(es, es[i].key);
    assert es[i..][u - i..] == es[u..];
    GroupsUnfold(es[i..]);
    GroupKeysCons(Group(es[i].key, ServerList(es[i..][..u - i])), Groups(es[u..]));
  }

  lemma GroupKeysCons(g: Group, gs: seq<Group>)
    ensures GroupKeys([g] + gs) == [g.key] + GroupKeys(gs)
  {
    assert ([g] + gs)[1..] == gs;
  }

  lemma UpperBoundSuffix(es: seq<Entry>, i: nat)
    requires Sorted(es) && i < |es|
    ensures i < UpperBound(es, es[i].key) <= |es|
    ensures UpperBound(es[i..], es[i].key) == UpperBound(es, es[i].key) - i
  {
    hide UpperBound, LowerBound, Less;
    var key := es[i].key;
    LessIrreflexive(key);
    var u := UpperBound(es, key);
    BoundsOrder(es, key);
    assert i < u;
    UpperBoundUnique(es[i..], key, u - i);
  }

  lemma UpperBoundUnique(es: seq<Entry>, key: seq<Byte>, p: nat)
    requires p <= |es| && (p < |es| ==> Less(key, es[p].key))
    requires forall i :: 0 <= i < p ==> !Less(key, es[i].key)
    ensures UpperBound(es, key) == p
  {
    hide UpperBound, Less;
    assert UpperBound(es, key) <= p;
  }

  lemma NoKeys()
    ensures Groups([]) == [] && GroupKeys([]) == [] && RenderGroups([]) == []
  {
  }

  lemma NoServers()
    ensures RenderServers([]) == []
  {
  }

  lemma GroupKeysNone(gs: seq<Group>)
    ensures GroupKeys(gs) == [] <==> gs == []
  {
  }

  lemma GroupStep(text: seq<Byte>, gs: seq<Group>, keys: seq<seq<Byte>>)
    requires keys == GroupKeys(gs) && keys != []
    ensures gs != [] && keys[0] == gs[0].key && keys[1..] == GroupKeys(gs[1..])
    ensures text + [OPEN] + keys[0] + [COLON] + RenderServers(gs[0].servers) + [CLOSE] + RenderGroups(gs[1..]) == text + RenderGroups(gs)
  {
    hide RenderServers;
    var k, r, z := gs[0].key, RenderServers(gs[0].servers), RenderGroups(gs[1..]);
    assert RenderGroups(gs) == [OPEN] + k + [COLON] + r + [CLOSE] + z;
    assert text + [OPEN] + k + [COLON] + r + [CLOSE] + z == text + ([OPEN] + k + [COLON] + r + [CLOSE] + z);
  }

  lemma RenderStep(list: seq<Byte>, ss: seq<Server>, i: nat)
    requires i < |ss|
    ensures list + RenderServer(ss[i]) + (if i + 1 < |ss| then [COMMA] else []) + RenderServers(ss[i + 1..]) == list + RenderServers(ss[i..])
  {
    hide RenderServer;
    assert ss[i..][1..] == ss[i + 1..];
    var a, b := RenderServer(ss[i]), RenderServers(ss[i + 1..]);
    if i + 1 < |ss| {
      assert list + a + [COMMA] + b == list + (a + ([COMMA] + b));
    } else {
      assert list + a + [] + b == list + (a + []);
    }
  }

  // ----- Locked_Map -----

  /** What `Find` answers: the empty string stands for "not there". */
  function Lookup(m: map<seq<Byte>, seq<Byte>>, key: seq<Byte>): seq<Byte> {
    if key in m then m[key] else []
  }

  class LockedMap {
    var entries: map<seq<Byte>, seq<Byte>>

    constructor ()
      ensures entries == map[]
    {
      entries := map[];
    }

    method Find(key: seq<Byte>) returns (value: seq<Byte>)
      ensures value == Lookup(entries, key)
    {
      value := [];
      if key in entries {
        value := entries[key];
      }
    }

    method Add(key: seq<Byte>, value: seq<Byte>)
      modifies this
      ensures entries == old(entries)[key := value]
    {
      entries := entries[key := value];
    }
  }
}
