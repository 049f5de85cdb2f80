/** The text dump of the name server cache, and what it preserves. */
module CacheDump {
  import opened CStrings
  import opened Multimap

  const OPEN: Byte := 123
  const CLOSE: Byte := 125
  const COLON: Byte := 58
  const COMMA: Byte := 44

  /** A key with all the servers stored under it. */
  datatype Group = Group(key: seq<Byte>, servers: seq<Server>)

  function ServerList(es: seq<Entry>): seq<Server> {
    if es == [] then [] else [es[0].server] + ServerList(es[1..])
  }

  function EntryList(key: seq<Byte>, ss: seq<Server>): seq<Entry> {
    if ss == [] then [] else [Entry(key, ss[0])] + EntryList(key, ss[1..])
  }

  /** The runs of equal keys, found with `upper_bound`. */
  function Groups(es: seq<Entry>): seq<Group>
    decreases |es|
  {
    if es == [] then []
    else
      LessIrreflexive(es[0].key);
      var u := UpperBound(es, es[0].key);
      [Group(es[0].key, ServerList(es[..u]))] + Groups(es[u..])
  }

  function Ungroup(gs: seq<Group>): seq<Entry> {
    if gs == [] then [] else EntryList(gs[0].key, gs[0].servers) + Ungroup(gs[1..])
  }

  function GroupKeys(gs: seq<Group>): seq<seq<Byte>> {
    if gs == [] then [] else [gs[0].key] + GroupKeys(gs[1..])
  }

  function RenderServer(s: Server): seq<Byte> {
    [OPEN] + s.name + [COLON] + s.addr + [CLOSE]
  }

  function RenderServers(ss: seq<Server>): seq<Byte> {
    if ss == [] then []
    else RenderServer(ss[0]) + (if |ss| == 1 then [] else [COMMA] + RenderServers(ss[1..]))
  }

  function RenderGroups(gs: seq<Group>): seq<Byte> {
    if gs == [] then []
    else [OPEN] + gs[0].key + [COLON] + RenderServers(gs[0].servers) + [CLOSE] + RenderGroups(gs[1..])
  }

  lemma LessIrreflexive(a: seq<Byte>)
    ensures !Less(a, a)
  {
    LessTotal(a, a);
  }

  lemma SortedSuffix(es: seq<Entry>, i: nat)
    requires Sorted(es) && i <= |es|
    ensures Sorted(es[i..])
  {
    hide Less;
  }

  /** In a sorted multimap the first run holds exactly the entries of the first key. */
  lemma FirstRun(es: seq<Entry>)
    requires Sorted(es) && es != []
    ensures var u := UpperBound(es, es[0].key);
            && 0 < u <= |es|
            && (forall i :: 0 <= i < u ==> es[i].key == es[0].key)
            && (forall i :: u <= i < |es| ==> Less(es[0].key, es[i].key))
  {
    hide UpperBound, LowerBound;
    LessIrreflexive(es[0].key);
    BoundsOrder(es, es[0].key);
  }

  lemma {:induction false} EntriesOfRun(es: seq<Entry>, key: seq<Byte>)
    requires forall i :: 0 <= i < |es| ==> es[i].key == key
    ensures EntryList(key, ServerList(es)) == es
    ensures ServersOf(es, key) == ServerList(es)
  {
    if es != [] {
      EntriesOfRun(es[1..], key);
      assert ServerList(es)[1..] == ServerList(es[1..]);
    }
  }

  lemma GroupsUnfold(es: seq<Entry>)
    requires es != []
    ensures UpperBound(es, es[0].key) <= |es|
    ensures Groups(es) == [Group(es[0].key, ServerList(es[..UpperBound(es, es[0].key)]))] + Groups(es[UpperBound(es, es[0].key)..])
  {
    hide UpperBound;
  }

  lemma SmallBounds(es: seq<Entry>)
    requires |es| == 3 && es[0].key == es[1].key == [97] && es[2].key == [100]
    ensures Sorted(es) && UpperBound(es, [97]) == 2 && UpperBound([es[2]], [100]) == 1
  {
    assert UpperBound(es, [97]) == 2 by {
      assert es[1..][0] == es[1] && es[1..][1..][0] == es[2];
    }
    assert UpperBound([es[2]], [100]) == 1 by {
      assert [es[2]][1..] == [];
    }
  }

  lemma SmallServers(es: seq<Entry>)
    requires |es| == 3
    ensures ServerList([es[0], es[1]]) == [es[0].server, es[1].server] && ServerList([es[2]]) == [es[2].server]
  {
    assert [es[0], es[1]][1..] == [es[1]] && [es[1]][1..] == [] && [es[2]][1..] == [];
    assert ServerList([es[1]]) == [es[1].server];
  }

  lemma SmallRender(g: Group, h: Group)
    requires |g.servers| == 2 && |h.servers| == 1
    ensures RenderGroups([g, h]) ==
      [123] + g.key + [58] + ([123] + g.servers[0].name + [58] + g.servers[0].addr + [125] + [44]
                              + ([123] + g.servers[1].name + [58] + g.servers[1].addr + [125])) + [125]
      + ([123] + h.key + [58] + ([123] + h.servers[0].name + [58] + h.servers[0].addr + [125]) + [125])
  {
    var a, b, c := RenderServer(g.servers[0]), RenderServer(g.servers[1]), RenderServer(h.servers[0]);
    OneServer(g.servers[1]);
    OneServer(h.servers[0]);
    assert g.servers[1..] == [g.servers[1]] && h.servers == [h.servers[0]];
    assert RenderServers(g.servers) == a + ([44] + b);
    assert a + ([44] + b) == a + [44] + b;
    assert [g, h][1..] == [h] && [h][1..] == [];
    assert RenderGroups([h]) == [123] + h.key + [58] + c + [125] + [];
  }

  lemma OneServer(s: Server)
    ensures RenderServers([s]) == RenderServer(s)
  {
    hide RenderServer;
    assert RenderServer(s) + [] == RenderServer(s);
  }

  lemma SmallGroups(es: seq<Entry>)
    requires |es| == 3 && es[0].key == es[1].key == [97] && es[2].key == [100]
    ensures Groups(es) == [Group([97], [es[0].server, es[1].server]), Group([100], [es[2].server])]
  {
    hide Groups, UpperBound, ServerList;
    SmallBounds(es);
    SmallServers(es);
    GroupsUnfold(es);
    assert es[..2] == [es[0], es[1]] && es[2..] == [es[2]];
    GroupsUnfold([es[2]]);
    assert [es[2]][..1] == [es[2]] && [es[2]][1..] == [];
    NoGroups();
  }

  /** The dump of a small cache: "{a:{b:1},{c:2}}{d:{e:3}}". */
  lemma SmallDump(es: seq<Entry>)
    requires es == [Entry([97], Server([98], [49])), Entry([97], Server([99], [50])), Entry([100], Server([101], [51]))]
    ensures Sorted(es)
    ensures RenderGroups(Groups(es)) == [123, 97, 58, 123, 98, 58, 49, 125, 44, 123, 99, 58, 50, 125, 125,
                                         123, 100, 58, 123, 101, 58, 51, 125, 125]
  {
    hide Groups, RenderGroups, UpperBound, Sorted;
    SmallBounds(es);
    SmallGroups(es);
    SmallRender(Group([97], [es[0].server, es[1].server]), Group([100], [es[2].server]));
    SmallTexts();
  }

  lemma SmallTexts()
    ensures var a: seq<Byte>, b: seq<Byte>, c: seq<Byte> := [123, 98, 58, 49, 125], [123, 99, 58, 50, 125], [123, 101, 58, 51, 125];
            && [123] + [98] + [58] + [49] + [125] == a && [123] + [99] + [58] + [50] + [125] == b
            && [123] + [101] + [58] + [51] + [125] == c
            && [123] + [97] + [58] + (a + [44] + b) + [125] + ([123] + [100] + [58] + c + [125])
            == [123, 97, 58, 123, 98, 58, 49, 125, 44, 123, 99, 58, 50, 125, 125, 123, 100, 58, 123, 101, 58, 51, 125, 125]
  {
  }

  lemma UngroupCons(g: Group, gs: seq<Group>)
    ensures Ungroup([g] + gs) == EntryList(g.key, g.servers) + Ungroup(gs)
  {
    assert ([g] + gs)[1..] == gs;
  }

  lemma NoGroups()
    ensures Groups([]) == [] && Ungroup([]) == []
  {
  }

  lemma ServerListLength(es: seq<Entry>)
    ensures |ServerList(es)| == |es|
  {
  }

  /** Every entry appears once, under its key, in multimap order. */
  lemma {:induction false} UngroupGroups(es: seq<Entry>)
    requires Sorted(es)
    ensures Ungroup(Groups(es)) == es
    decreases |es|
  {
    hide UpperBound, Sorted, Ungroup, EntryList, ServerList;
    NoGroups();
    if es != [] {
      FirstRun(es);
      var u := UpperBound(es, es[0].key);
      EntriesOfRun(es[..u], es[0].key);
      SortedSuffix(es, u);
      UngroupGroups(es[u..]);
      UngroupCons(Group(es[0].key, ServerList(es[..u])), Groups(es[u..]));
      assert es == es[..u] + es[u..];
    }
  }

  /** The walk visits each key once, in increasing order, with all its servers. */
  lemma {:induction false} GroupsExact(es: seq<Entry>)
    requires Sorted(es)
    ensures forall i, j :: 0 <= i < j < |Groups(es)| ==> Less(Groups(es)[i].key, Groups(es)[j].key)
    ensures forall g :: g in Groups(es) ==> g.servers != [] && g.servers == ServersOf(es, g.key)
    ensures forall k :: ServersOf(es, k) != [] ==> exists g :: g in Groups(es) && g.key == k
    decreases |es|
  {
    hide UpperBound, LowerBound, Sorted, ServersOf, Less, Groups, ServerList;
    NoGroups();
    if es == [] {
      forall k ensures ServersOf(es, k) == [] {
        ServersOfNone(es, k);
      }
    } else {
      FirstRun(es);
      var k0, u := es[0].key, UpperBound(es, es[0].key);
      var rest := Groups(es[u..]);
      SortedSuffix(es, u);
      GroupsExact(es[u..]);
      GroupsKeysIn(es[u..]);
      GroupsUnfold(es);
      assert Groups(es) == [Group(k0, ServerList(es[..u]))] + rest;
      assert forall g :: g in rest ==> Less(k0, g.key);
      LessIrreflexive(k0);
      forall k ensures ServersOf(es, k) == if k == k0 then ServerList(es[..u]) else ServersOf(es[u..], k) {
        SplitRun(es, u, k0, k);
      }
      ServerListLength(es[..u]);
      forall k | ServersOf(es, k) != [] ensures exists g :: g in Groups(es) && g.key == k {
        if k == k0 {
          assert Groups(es)[0].key == k;
        } else {
          var g :| g in rest && g.key == k;
          assert g in Groups(es);
        }
      }
    }
  }

  lemma {:induction false} GroupsKeysIn(es: seq<Entry>)
    requires Sorted(es)
    ensures forall g :: g in Groups(es) ==> exists i :: 0 <= i < |es| && es[i].key == g.key
    decreases |es|
  {
    hide UpperBound, Sorted;
    if es != [] {
      FirstRun(es);
      var u := UpperBound(es, es[0].key);
      SortedSuffix(es, u);
      GroupsKeysIn(es[u..]);
      forall g | g in Groups(es) ensures exists i :: 0 <= i < |es| && es[i].key == g.key {
        if g in Groups(es[u..]) {
          var i :| 0 <= i < |es[u..]| && es[u..][i].key == g.key;
          assert es[u + i].key == g.key;
        } else {
          assert es[0].key == g.key;
        }
      }
    }
  }

  lemma SplitRun(es: seq<Entry>, u: nat, k0: seq<Byte>, k: seq<Byte>)
    requires u <= |es| && !Less(k0, k0)
    requires forall i :: 0 <= i < u ==> es[i].key == k0
    requires forall i :: u <= i < |es| ==> Less(k0, es[i].key)
    ensures ServersOf(es, k) == if k == k0 then ServerList(es[..u]) else ServersOf(es[u..], k)
  {
    hide ServersOf, ServerList, Less;
    assert es == es[..u] + es[u..];
    ServersOfConcat(es[..u], es[u..], k);
    if k == k0 {
      EntriesOfRun(es[..u], k0);
      ServersOfNone(es[u..], k);
    } else {
      ServersOfNone(es[..u], k);
    }
  }

  // ----- The text determines the cache -----

  /** Fields that cannot be confused with the delimiters that end them. */
  ghost predicate Delimited(g: Group) {
    COLON !in g.key && g.servers != [] && forall s :: s in g.servers ==> COLON !in s.name && CLOSE !in s.addr
  }

  lemma ServerCut(s: Server, t: Server, x: seq<Byte>, y: seq<Byte>)
    requires COLON !in s.name && CLOSE !in s.addr && COLON !in t.name && CLOSE !in t.addr
    requires RenderServer(s) + x == RenderServer(t) + y
    ensures s == t && x == y
  {
    assert (RenderServer(s) + x)[1..] == s.name + [COLON] + (s.addr + [CLOSE] + x);
    assert (RenderServer(t) + y)[1..] == t.name + [COLON] + (t.addr + [CLOSE] + y);
    CutAt(s.name, t.name, COLON, s.addr + [CLOSE] + x, t.addr + [CLOSE] + y);
    CutAt(s.addr, t.addr, CLOSE, x, y);
  }

  /** What follows the first server of a rendered list. */
  function ServersTail(ss: seq<Server>, x: seq<Byte>): seq<Byte>
    requires ss != []
  {
    if |ss| == 1 then [CLOSE] + x else [COMMA] + (RenderServers(ss[1..]) + [CLOSE] + x)
  }

  lemma RenderServersStep(ss: seq<Server>, x: seq<Byte>)
    requires ss != []
    ensures RenderServers(ss) + [CLOSE] + x == RenderServer(ss[0]) + ServersTail(ss, x)
  {
    hide RenderServer;
    if |ss| == 1 {
      assert RenderServer(ss[0]) + [] + [CLOSE] + x == RenderServer(ss[0]) + ([CLOSE] + x);
    } else {
      var r := RenderServers(ss[1..]);
      assert RenderServers(ss) == RenderServer(ss[0]) + ([COMMA] + r);
      assert RenderServer(ss[0]) + ([COMMA] + r) + [CLOSE] + x == RenderServer(ss[0]) + ([COMMA] + (r + [CLOSE] + x));
    }
  }

  lemma {:induction false} ServersCut(ss: seq<Server>, ts: seq<Server>, x: seq<Byte>, y: seq<Byte>)
    requires ss != [] && ts != []
    requires forall s :: s in ss ==> COLON !in s.name && CLOSE !in s.addr
    requires forall t :: t in ts ==> COLON !in t.name && CLOSE !in t.addr
    ensures RenderServers(ss) + [CLOSE] + x == RenderServers(ts) + [CLOSE] + y ==> ss == ts && x == y
  {
    hide RenderServers, RenderServer;
    if RenderServers(ss) + [CLOSE] + x == RenderServers(ts) + [CLOSE] + y {
      RenderServersStep(ss, x);
      RenderServersStep(ts, y);
      assert ss[0] in ss && ts[0] in ts;
      var p, q := ServersTail(ss, x), ServersTail(ts, y);
      ServerCut(ss[0], ts[0], p, q);
      assert p[0] == q[0];
      assert p[1..] == q[1..];
      if |ss| == 1 {
        assert p[1..] == x && q[1..] == y;
        assert ss == [ss[0]] && ts == [ts[0]];
      } else {
        assert p[1..] == RenderServers(ss[1..]) + [CLOSE] + x;
        assert q[1..] == RenderServers(ts[1..]) + [CLOSE] + y;
        ServersCut(ss[1..], ts[1..], x, y);
        assert ss == [ss[0]] + ss[1..] && ts == [ts[0]] + ts[1..];
      }
    }
  }

  lemma RenderGroupsStep(gs: seq<Group>)
    requires gs != []
    ensures RenderGroups(gs)[1..] == gs[0].key + [COLON] + (RenderServers(gs[0].servers) + [CLOSE] + RenderGroups(gs[1..]))
  {
    hide RenderServers;
    var k, r, z := gs[0].key, RenderServers(gs[0].servers), RenderGroups(gs[1..]);
    assert RenderGroups(gs) == [OPEN] + (k + [COLON] + (r + [CLOSE] + z));
  }

  /** Two groupings with the same text are the same. */
  lemma {:induction false} RenderGroupsInjective(gs: seq<Group>, hs: seq<Group>)
    requires forall g :: g in gs ==> Delimited(g)
    requires forall h :: h in hs ==> Delimited(h)
    requires RenderGroups(gs) == RenderGroups(hs)
    ensures gs == hs
  {
    hide RenderServers;
    if gs != [] && hs != [] {
      RenderGroupsStep(gs);
      RenderGroupsStep(hs);
      GroupsCut(gs, hs);
      RenderGroupsInjective(gs[1..], hs[1..]);
      assert gs == [gs[0]] + gs[1..] && hs == [hs[0]] + hs[1..];
    }
  }

  lemma GroupsCut(gs: seq<Group>, hs: seq<Group>)
    requires gs != [] && hs != [] && Delimited(gs[0]) && Delimited(hs[0])
    requires gs[0].key + [COLON] + (RenderServers(gs[0].servers) + [CLOSE] + RenderGroups(gs[1..]))
          == hs[0].key + [COLON] + (RenderServers(hs[0].servers) + [CLOSE] + RenderGroups(hs[1..]))
    ensures gs[0] == hs[0] && RenderGroups(gs[1..]) == RenderGroups(hs[1..])
  {
    hide RenderServers, RenderGroups;
    var g, h := gs[0], hs[0];
    CutAt(g.key, h.key, COLON, RenderServers(g.servers) + [CLOSE] + RenderGroups(gs[1..]),
          RenderServers(h.servers) + [CLOSE] + RenderGroups(hs[1..]));
    ServersCut(g.servers, h.servers, RenderGroups(gs[1..]), RenderGroups(hs[1..]));
  }

  /** Zones without colons, server names without colons and addresses without closing braces. */
  ghost predicate DelimiterFree(es: seq<Entry>) {
    forall e :: e in es ==> COLON !in e.key && COLON !in e.server.name && CLOSE !in e.server.addr
  }

  /** The dump of a delimiter-free cache determines the cache. */
  lemma DumpDeterminesCache(es: seq<Entry>, fs: seq<Entry>)
    requires Sorted(es) && Sorted(fs) && DelimiterFree(es) && DelimiterFree(fs)
    requires RenderGroups(Groups(es)) == RenderGroups(Groups(fs))
    ensures es == fs
  {
    hide Sorted, Groups, RenderGroups, DelimiterFree, Delimited;
    GroupsDelimited(es);
    GroupsDelimited(fs);
    RenderGroupsInjective(Groups(es), Groups(fs));
    UngroupGroups(es);
    UngroupGroups(fs);
  }

  lemma GroupsDelimited(es: seq<Entry>)
    requires Sorted(es) && DelimiterFree(es)
    ensures forall g :: g in Groups(es) ==> Delimited(g)
  {
    hide Sorted, Groups, ServersOf;
    GroupsExact(es);
    forall g | g in Groups(es) ensures Delimited(g) {
      forall s | s in g.servers ensures COLON !in g.key && COLON !in s.name && CLOSE !in s.addr {
        ServersOfIn(es, g.key, s);
      }
      assert g.servers[0] in g.servers;
    }
  }
}
