/** The iterative resolver: where to start, whom to ask next, and when to give up. */
module Resolver {
  import opened CStrings
  import opened NameCodec
  import opened NameReader
  import opened Options
  import opened Multimap
  import opened Caches
  import opened LabelBuffers
  import opened Queries
  import opened Records
  import opened Responses
  import opened Sections

  // ----- Contacted servers -----

  ghost function Names(path: seq<Server>): set<seq<Byte>> {
    set s | s in path :: s.name
  }

  function Addresses(path: seq<Server>): seq<seq<Byte>> {
    if path == [] then [] else [path[0].addr] + Addresses(path[1..])
  }

  /** No server name is contacted twice. */
  ghost predicate Distinct(path: seq<Server>) {
    forall i, j :: 0 <= i < j < |path| ==> path[i].name != path[j].name
  }

  /** How many servers of a finite universe are still to be contacted. */
  ghost function Uncontacted(universe: set<seq<Byte>>, path: seq<Server>): nat {
    |universe - Names(path)|
  }

  ghost predicate Contacted(path: seq<Server>, ss: seq<Server>) {
    forall s :: s in ss ==> s.name in Names(path)
  }

  /** The first of `ss` whose name is not yet contacted. */
  ghost function FirstFresh(ss: seq<Server>, path: seq<Server>): (r: Option<Server>)
    ensures r.None? <==> Contacted(path, ss)
    ensures r.Some? ==> r.value in ss && r.value.name !in Names(path)
  {
    if ss == [] then None
    else if ss[0].name !in Names(path) then Some(ss[0])
    else FirstFresh(ss[1..], path)
  }

  /** Every server before it is contacted. */
  lemma {:induction false} FirstFreshIsFirst(ss: seq<Server>, path: seq<Server>) returns (i: nat)
    requires FirstFresh(ss, path).Some?
    ensures i < |ss| && FirstFresh(ss, path) == Some(ss[i]) && Contacted(path, ss[..i])
  {
    if ss[0].name !in Names(path) {
      i := 0;
    } else {
      i := FirstFreshIsFirst(ss[1..], path);
      i := i + 1;
      assert ss[..i] == [ss[0]] + ss[1..][..i - 1];
    }
  }

  lemma FirstFreshStep(ss: seq<Server>, i: nat, path: seq<Server>)
    requires i < |ss|
    ensures FirstFresh(ss[i..], path) == if ss[i].name !in Names(path) then Some(ss[i]) else FirstFresh(ss[i + 1..], path)
  {
    assert ss[i..][1..] == ss[i + 1..];
  }

  method IsContacted(path: seq<Server>, name: seq<Byte>) returns (found: bool)
    ensures found <==> name in Names(path)
  {
    found := false;
    for i := 0 to |path|
      invariant found <==> exists j :: 0 <= j < i && path[j].name == name
    {
      if path[i].name == name {
        found := true;
      }
    }
  }

  /** A vector of servers passed by reference. */
  class ContactPath {
    var path: seq<Server>

    constructor (path: seq<Server>)
      ensures this.path == path
    {
      this.path := path;
    }
  }

  // ----- Servers for the suffixes of a name -----

  /** The first uncontacted server of the longest suffix of `ls` that has one. */
  ghost function Best(es: seq<Entry>, ls: seq<Label>, path: seq<Server>): Option<Server> {
    if ls == [] then None
    else if FirstFresh(ServersOf(es, Wire(ls)), path).Some? then FirstFresh(ServersOf(es, Wire(ls)), path)
    else Best(es, ls[1..], path)
  }

  /** `Best` as longest-suffix match, and `None` as "no suffix has an uncontacted server". */
  lemma {:induction false} BestIsLongestSuffix(es: seq<Entry>, ls: seq<Label>, path: seq<Server>) returns (i: nat)
    ensures i <= |ls|
    ensures forall j :: 0 <= j < i ==> Contacted(path, ServersOf(es, Wire(ls[j..])))
    ensures Best(es, ls, path).None? <==> i == |ls|
    ensures i < |ls| ==> Best(es, ls, path) == FirstFresh(ServersOf(es, Wire(ls[i..])), path)
  {
    hide Wire, ServersOf, FirstFresh, Contacted;
    if ls == [] {
      i := 0;
    } else if FirstFresh(ServersOf(es, Wire(ls)), path).Some? {
      i := 0;
      assert ls[0..] == ls;
    } else {
      i := BestIsLongestSuffix(es, ls[1..], path);
      i := i + 1;
      assert ls[0..] == ls;
      forall j | 0 <= j < i ensures Contacted(path, ServersOf(es, Wire(ls[j..]))) {
        if j > 0 {
          assert ls[j..] == ls[1..][j - 1..];
        }
      }
      if i < |ls| {
        assert ls[i..] == ls[1..][i - 1..];
      }
    }
  }

  // ----- Facts about runs of the referral search -----

  /** Every key keeps its servers, in order, and may gain more behind them. */
  ghost predicate Grows(es: seq<Entry>, es': seq<Entry>) {
    forall k :: ServersOf(es, k) <= ServersOf(es', k)
  }

  /** Every server cached under one of the first `n` suffixes of `ls` is contacted. */
  ghost predicate Exhausted(es: seq<Entry>, ls: seq<Label>, path: seq<Server>, n: nat) {
    forall i :: 0 <= i < n <= |ls| ==> Contacted(path, ServersOf(es, Wire(ls[i..])))
  }

  ghost predicate CachedUnder(es: seq<Entry>, ls: seq<Label>, s: Server) {
    exists i :: 0 <= i < |ls| && s in ServersOf(es, Wire(ls[i..]))
  }

  /** Every server contacted since `path` had `n` elements is cached under a suffix of `ls`. */
  ghost predicate FromCache(es: seq<Entry>, ls: seq<Label>, path: seq<Server>, n: nat) {
    forall i :: n <= i < |path| ==> CachedUnder(es, ls, path[i])
  }

  /** The queries sent for one request: one to `server`, then one to each newly contacted server. */
  ghost predicate Accounted(asked: seq<seq<Byte>>, path: seq<Server>, server: seq<Byte>, asked': seq<seq<Byte>>, path': seq<Server>) {
    && path <= path'
    && asked' == asked + [server] + Addresses(path'[|path|..])
    && (Distinct(path) ==> Distinct(path'))
  }

  lemma AddressesConcat(a: seq<Server>, b: seq<Server>)
    ensures Addresses(a + b) == Addresses(a) + Addresses(b)
  {
    if a == [] {
      assert a + b == b;
    } else {
      assert (a + b)[1..] == a[1..] + b;
      AddressesConcat(a[1..], b);
    }
  }

  lemma FreshDistinct(path: seq<Server>, s: Server)
    requires Distinct(path) && s.name !in Names(path)
    ensures Distinct(path + [s])
  {
    forall i | 0 <= i < |path| ensures path[i].name != s.name {
      assert path[i] in path;
    }
  }

  /** A nested request accounts for the server just added to the path. */
  lemma AccountedNested(asked: seq<seq<Byte>>, path: seq<Server>, server: seq<Byte>,
                        asked1: seq<seq<Byte>>, path1: seq<Server>, s: Server,
                        asked2: seq<seq<Byte>>, path2: seq<Server>)
    requires Accounted(asked, path, server, asked1, path1) && s.name !in Names(path1)
    requires Accounted(asked1, path1 + [s], s.addr, asked2, path2)
    ensures Accounted(asked, path, server, asked2, path2)
  {
    hide Addresses, Distinct;
    if Distinct(path1) {
      FreshDistinct(path1, s);
    }
    var tail := path2[|path1| + 1..];
    assert path2[|path|..] == path1[|path|..] + ([s] + tail);
    AddressesConcat(path1[|path|..], [s] + tail);
    AddressesConcat([s], tail);
    AddressesOne(s);
    assert asked2 == asked + [server] + (Addresses(path1[|path|..]) + ([s.addr] + Addresses(tail)));
  }

  lemma AddressesOne(s: Server)
    ensures Addresses([s]) == [s.addr]
  {
    assert [s][1..] == [];
  }

  lemma ContactedMono(path: seq<Server>, path': seq<Server>, ss: seq<Server>)
    requires path <= path' && Contacted(path, ss)
    ensures Contacted(path', ss)
  {
    forall s | s in ss ensures s.name in Names(path') {
      var c :| c in path && c.name == s.name;
      assert c in path';
    }
  }

  lemma ExhaustedMono(es: seq<Entry>, ls: seq<Label>, path: seq<Server>, path': seq<Server>, n: nat)
    requires path <= path' && Exhausted(es, ls, path, n)
    ensures Exhausted(es, ls, path', n)
  {
    hide Wire, ServersOf, Contacted;
    forall i | 0 <= i < n <= |ls| ensures Contacted(path', ServersOf(es, Wire(ls[i..]))) {
      ContactedMono(path, path', ServersOf(es, Wire(ls[i..])));
    }
  }

  lemma CachedUnderMono(es: seq<Entry>, es': seq<Entry>, ls: seq<Label>, s: Server)
    requires Grows(es, es') && CachedUnder(es, ls, s)
    ensures CachedUnder(es', ls, s)
  {
    hide Wire, ServersOf;
    var i :| 0 <= i < |ls| && s in ServersOf(es, Wire(ls[i..]));
    assert ServersOf(es, Wire(ls[i..])) <= ServersOf(es', Wire(ls[i..]));
  }

  /** The path gained `s`, cached under suffix `j`, and then what a nested request added. */
  lemma FromCacheNested(es: seq<Entry>, es': seq<Entry>, ls: seq<Label>, path: seq<Server>, s: Server, j: nat, path': seq<Server>, n: nat)
    requires Grows(es, es') && FromCache(es, ls, path, n) && n <= |path|
    requires j < |ls| && s in ServersOf(es, Wire(ls[j..]))
    requires path + [s] <= path' && FromCache(es', ls, path', |path| + 1)
    ensures FromCache(es', ls, path', n)
  {
    hide Wire, ServersOf, CachedUnder, Grows;
    forall i | n <= i < |path'| ensures CachedUnder(es', ls, path'[i]) {
      if i < |path| {
        assert path'[i] == path[i];
        CachedUnderMono(es, es', ls, path[i]);
      } else if i == |path| {
        assert path'[i] == s;
        CachedUnderWitness(es, ls, s, j);
        CachedUnderMono(es, es', ls, s);
      }
    }
  }

  lemma CachedUnderWitness(es: seq<Entry>, ls: seq<Label>, s: Server, j: nat)
    requires j < |ls| && s in ServersOf(es, Wire(ls[j..]))
    ensures CachedUnder(es, ls, s)
  {
    hide Wire, ServersOf;
  }

  lemma GrowsTransitive(a: seq<Entry>, b: seq<Entry>, c: seq<Entry>)
    requires Grows(a, b) && Grows(b, c)
    ensures Grows(a, c)
  {
    hide ServersOf;
    forall k ensures ServersOf(a, k) <= ServersOf(c, k) {
      assert ServersOf(a, k) <= ServersOf(b, k) <= ServersOf(c, k);
    }
  }

  lemma EmplaceAllGrows(es: seq<Entry>, xs: seq<Entry>)
    requires Sorted(es)
    ensures Grows(es, EmplaceAll(es, xs))
  {
    hide ServersOf, EmplaceAll, Sorted;
    forall k ensures ServersOf(es, k) <= ServersOf(EmplaceAll(es, xs), k) {
      EmplaceAllServers(es, xs, k);
    }
  }

  /** Contacting a fresh server of a finite universe leaves fewer to contact. */
  lemma FewerLeft(universe: set<seq<Byte>>, path: seq<Server>, s: Server, path': seq<Server>)
    requires s.name in universe && s.name !in Names(path) && path + [s] <= path'
    ensures Uncontacted(universe, path') < Uncontacted(universe, path)
  {
    var a, b := universe - Names(path), universe - Names(path');
    assert path'[|path|] == s && s in path';
    forall c | c in path ensures c in path' {
      var i :| 0 <= i < |path| && path[i] == c;
      assert path'[i] == c;
    }
    assert b <= a - {s.name};
    SubsetSmaller(b, a - {s.name});
  }

  lemma SubsetSmaller<T>(a: set<T>, b: set<T>)
    requires a <= b
    ensures |a| <= |b|
  {
    assert b == a + (b - a);
  }

  // ----- The state of one referral loop -----

  /**
    * One referral loop, started with cache `es1` and path `path0` after asking `server`, has
    * dealt with the first `j` suffixes of `ls`.
    */
  ghost predicate Searching(es1: seq<Entry>, ls: seq<Label>, asked0: seq<seq<Byte>>, path0: seq<Server>, server: seq<Byte>,
                            es: seq<Entry>, asked: seq<seq<Byte>>, path: seq<Server>, j: nat) {
    && j <= |ls|
    && Accounted(asked0, path0, server, asked, path)
    && Grows(es1, es)
    && FromCache(es, ls, path, |path0|)
    && (if path == path0 then es == es1 && Best(es1, ls[j..], path0) == Best(es1, ls, path0)
        else |path0| < |path| && Best(es1, ls, path0) == Some(path[|path0|]))
  }

  lemma SearchStart(es1: seq<Entry>, ls: seq<Label>, asked0: seq<seq<Byte>>, path0: seq<Server>, server: seq<Byte>)
    ensures Searching(es1, ls, asked0, path0, server, es1, asked0 + [server], path0, 0)
    ensures Exhausted(es1, ls, path0, 0)
    ensures Accounted(asked0, path0, server, asked0 + [server], path0) && Grows(es1, es1) && FromCache(es1, ls, path0, |path0|)
  {
    hide Best, ServersOf, Wire;
    assert ls[0..] == ls;
    assert path0[|path0|..] == [];
    assert asked0 + [server] + [] == asked0 + [server];
  }

  lemma SearchTrim(es1: seq<Entry>, ls: seq<Label>, asked0: seq<seq<Byte>>, path0: seq<Server>, server: seq<Byte>,
                   es: seq<Entry>, asked: seq<seq<Byte>>, path: seq<Server>, j: nat)
    requires Searching(es1, ls, asked0, path0, server, es, asked, path, j) && Exhausted(es, ls, path, j)
    requires j < |ls| && FirstFresh(ServersOf(es, Wire(ls[j..])), path).None?
    ensures Searching(es1, ls, asked0, path0, server, es, asked, path, j + 1) && Exhausted(es, ls, path, j + 1)
  {
    hide ServersOf, Wire, Accounted, Grows, FromCache, FirstFresh, Contacted;
    assert ls[j..][1..] == ls[j + 1..];
  }

  /** What a nested request keeps, once the fresh server `s` of suffix `j` has been asked. */
  lemma SearchNested(es1: seq<Entry>, ls: seq<Label>, asked0: seq<seq<Byte>>, path0: seq<Server>, server: seq<Byte>,
                     es: seq<Entry>, asked: seq<seq<Byte>>, path: seq<Server>, j: nat, s: Server,
                     es': seq<Entry>, asked': seq<seq<Byte>>, path': seq<Server>)
    requires j < |ls|
    ensures
      && Searching(es1, ls, asked0, path0, server, es, asked, path, j)
      && FirstFresh(ServersOf(es, Wire(ls[j..])), path) == Some(s)
      && Accounted(asked, path + [s], s.addr, asked', path') && Grows(es, es') && FromCache(es', ls, path', |path| + 1)
      ==> Searching(es1, ls, asked0, path0, server, es', asked', path', j) && |path0| < |path'|
  {
    hide ServersOf, Wire, Grows, FromCache, Accounted, FirstFresh, Contacted;
    if Searching(es1, ls, asked0, path0, server, es, asked, path, j)
       && FirstFresh(ServersOf(es, Wire(ls[j..])), path) == Some(s)
       && Accounted(asked, path + [s], s.addr, asked', path') && Grows(es, es') && FromCache(es', ls, path', |path| + 1)
    {
      AccountedNested(asked0, path0, server, asked, path, s, asked', path');
      GrowsTransitive(es1, es, es');
      AccountedPrefix(asked0, path0, server, asked, path);
      AccountedPrefix(asked, path + [s], s.addr, asked', path');
      FromCacheNested(es, es', ls, path, s, j, path', |path0|);
      assert path'[|path|] == s;
      assert path != path0 ==> path'[|path0|] == path[|path0|];
    }
  }

  /** A nested request that failed leaves the suffixes already dealt with exhausted. */
  lemma ExhaustedNested(es: seq<Entry>, ls: seq<Label>, path: seq<Server>, s: Server, es': seq<Entry>, path': seq<Server>, j: nat)
    requires j <= |ls| && Exhausted(es, ls, path, j)
    requires Exhausted(es', ls, path', |ls|) || (es' == es && path' == path + [s])
    ensures Exhausted(es', ls, path', j)
  {
    hide ServersOf, Wire, Contacted;
    if es' == es && path' == path + [s] {
      ExhaustedMono(es, ls, path, path', j);
    }
  }

  lemma AccountedPrefix(asked: seq<seq<Byte>>, path: seq<Server>, server: seq<Byte>, asked': seq<seq<Byte>>, path': seq<Server>)
    requires Accounted(asked, path, server, asked', path')
    ensures path <= path' && asked + [server] <= asked'
  {
  }

  lemma SearchDone(es0: seq<Entry>, es1: seq<Entry>, ls: seq<Label>, asked0: seq<seq<Byte>>, path0: seq<Server>, server: seq<Byte>,
                   es: seq<Entry>, asked: seq<seq<Byte>>, path: seq<Server>, j: nat)
    requires Searching(es1, ls, asked0, path0, server, es, asked, path, j) && Grows(es0, es1)
    ensures Accounted(asked0, path0, server, asked, path)
    ensures Grows(es0, es) && Grows(es1, es) && FromCache(es, ls, path, |path0|)
    ensures match Best(es1, ls, path0)
            case None => es == es1 && path == path0
            case Some(s) => if path == path0 then j < |ls| else |path0| < |path| && path[|path0|] == s
  {
    hide ServersOf, Wire, Grows, FromCache, Accounted, FirstFresh;
    GrowsTransitive(es0, es1, es);
  }

  // ----- The network -----

  /** The response to the n-th query, given the server asked and the query sent. */
  type Network = (nat, seq<Byte>, seq<Byte>) -> seq<Byte>

  /** A response the decoders can read, which refers to servers of `universe` only. */
  ghost predicate GoodReply(buf: seq<Byte>, name: seq<Byte>, universe: set<seq<Byte>>) {
    && GoodMessage(buf, RecordStart(name), name)
    && forall e :: e in Parse(buf, RecordStart(name)).servers ==> e.server.name in universe
  }

  /** A reply that refers on and has no answer for the name can be decoded to the end. */
  lemma ReplyRefers(buf: seq<Byte>, name: seq<Byte>, universe: set<seq<Byte>>)
    ensures GoodReply(buf, name, universe) && IsReferral(buf)
            && LastValue(Parse(buf, RecordStart(name)).answers, name).None? ==>
      var start := RecordStart(name);
      var auth, addl := Section(buf, start, 1), Section(buf, start, 2);
      && |auth| == Count(buf, 1) && |addl| == Count(buf, 2)
      && GoodAuthorities(buf, true, SectionStart(buf, start, 1), auth)
      && GoodRecords(buf, SectionEnd(SectionStart(buf, start, 1), auth), addl)
      && Parse(buf, start).servers == NestedJoin(AnswersOf(buf, addl), ZonesOf(buf, auth))
      && GoodServers(Parse(buf, start).servers, universe)
  {
    hide GoodAnswers, GoodRecords, GoodAuthorities, SectionStart, Section, NestedJoin, AnswersOf, ZonesOf, LastValue;
    var start := RecordStart(name);
    SectionsFollow(buf, start, 1);
    if IsReferral(buf) && GoodReferral(buf, start) {
      ServersNamed(buf, start);
    }
  }

  ghost predicate GoodNet(header: seq<Byte>, net: Network, universe: set<seq<Byte>>) {
    forall n, server, name :: 0 !in name ==> GoodReply(net(n, server, Query(header, name)), name, universe)
  }

  /** Cached servers have names, all of them in `universe`. */
  ghost predicate GoodServers(es: seq<Entry>, universe: set<seq<Byte>>) {
    forall e :: e in es ==> e.server.name != [] && e.server.name in universe
  }

  ghost predicate GoodAddresses(m: map<seq<Byte>, seq<Byte>>) {
    forall k :: k in m ==> m[k] != []
  }

  lemma ServerNamed(es: seq<Entry>, universe: set<seq<Byte>>, key: seq<Byte>, s: Server)
    requires GoodServers(es, universe) && s in ServersOf(es, key)
    ensures s.name != [] && s.name in universe
  {
    ServersOfIn(es, key, s);
  }

  lemma EmplaceAllGood(es: seq<Entry>, xs: seq<Entry>, universe: set<seq<Byte>>)
    requires Sorted(es) && GoodServers(es, universe) && GoodServers(xs, universe)
    ensures GoodServers(EmplaceAll(es, xs), universe)
  {
    hide Sorted;
    EmplaceAllServers(es, xs, []);
    forall e | e in EmplaceAll(es, xs) ensures e.server.name != [] && e.server.name in universe {
      assert e in multiset(EmplaceAll(es, xs));
      assert e in multiset(es) || e in multiset(xs);
    }
  }

  /**
    * How the first reply decides a request that began with caches `es0` and `m0` and contacted
    * servers `path0`. An answer, or a reply that refers nowhere, ends it at once; a referral is
    * followed first to the first fresh server of the longest suffix, and the request fails only
    * when every server cached under any suffix is contacted.
    */
  ghost predicate Outcome(reply: Response, name: seq<Byte>, answered: bool,
                          es0: seq<Entry>, m0: map<seq<Byte>, seq<Byte>>, path0: seq<Server>,
                          es: seq<Entry>, m: map<seq<Byte>, seq<Byte>>, path: seq<Server>) {
    var m1 := AddAll(m0, reply.answers);
    var es1 := EmplaceAll(es0, reply.servers);
    if Lookup(m1, name) != [] || !reply.referral then
      m == m1 && es == es0 && path == path0 && (answered <==> Lookup(m1, name) != [])
    else
      && Grows(es1, es)
      && (match Best(es1, Suffixes(name), path0)
          case None => es == es1 && path == path0 && m == m1 && !answered
          case Some(s) => |path0| < |path| && path[|path0|] == s)
      && (!answered ==> Exhausted(es, Suffixes(name), path, |Suffixes(name)|))
  }

  // ----- What the replies to a request teach -----

  /** The replies to the queries sent since there were `from` of them, all for `name`. */
  ghost function Replies(header: seq<Byte>, net: Network, asked: seq<seq<Byte>>, from: nat, name: seq<Byte>): (rs: seq<Response>)
    requires from <= |asked|
    ensures |rs| == |asked| - from
  {
    seq(|asked| - from, i requires 0 <= i < |asked| - from =>
      Parse(net(from + i, asked[from + i], Query(header, name)), RecordStart(name)))
  }

  function AllAnswers(rs: seq<Response>): seq<Pair> {
    if rs == [] then [] else rs[0].answers + AllAnswers(rs[1..])
  }

  /** The servers of a reply that the program follows, which is one without an answer for the name. */
  function Followed(r: Response, name: seq<Byte>): seq<Entry> {
    if LastValue(r.answers, name).None? then r.servers else []
  }

  function AllReferrals(rs: seq<Response>, name: seq<Byte>): seq<Entry> {
    if rs == [] then [] else Followed(rs[0], name) + AllReferrals(rs[1..], name)
  }

  /**
    * The caches hold what they held before and what the replies gave, in the order of the
    * queries; the servers only if the name was not resolved before.
    */
  ghost predicate Learned(rs: seq<Response>, name: seq<Byte>,
                          m0: map<seq<Byte>, seq<Byte>>, es0: seq<Entry>, m: map<seq<Byte>, seq<Byte>>, es: seq<Entry>) {
    && m == AddAll(m0, AllAnswers(rs))
    && (Lookup(m0, name) == [] ==> es == EmplaceAll(es0, AllReferrals(rs, name)))
  }

  lemma {:induction false} AddAllConcat(m: map<seq<Byte>, seq<Byte>>, a: seq<Pair>, b: seq<Pair>)
    ensures AddAll(m, a + b) == AddAll(AddAll(m, a), b)
    decreases |a|
  {
    if a == [] {
      assert a + b == b;
    } else {
      assert (a + b)[1..] == a[1..] + b;
      AddAllConcat(m[a[0].name := a[0].value], a[1..], b);
    }
  }

  lemma {:induction false} AllConcat(a: seq<Response>, b: seq<Response>, name: seq<Byte>)
    ensures AllAnswers(a + b) == AllAnswers(a) + AllAnswers(b)
    ensures AllReferrals(a + b, name) == AllReferrals(a, name) + AllReferrals(b, name)
  {
    hide AllAnswers, AllReferrals;
    if a == [] {
      NoReplies(name);
      assert a + b == b && [] + AllAnswers(b) == AllAnswers(b) && [] + AllReferrals(b, name) == AllReferrals(b, name);
    } else {
      var r, rest := a[0], a[1..];
      assert a == [r] + rest && a + b == [r] + (rest + b);
      MoreReplies(r, rest, name);
      MoreReplies(r, rest + b, name);
      AllConcat(rest, b, name);
      Associative(r.answers, AllAnswers(rest), AllAnswers(b));
      Associative(Followed(r, name), AllReferrals(rest, name), AllReferrals(b, name));
    }
  }

  lemma NoReplies(name: seq<Byte>)
    ensures AllAnswers([]) == [] && AllReferrals([], name) == []
  {
  }

  lemma MoreReplies(r: Response, rest: seq<Response>, name: seq<Byte>)
    ensures AllAnswers([r] + rest) == r.answers + AllAnswers(rest)
    ensures AllReferrals([r] + rest, name) == Followed(r, name) + AllReferrals(rest, name)
  {
    hide Followed;
    assert ([r] + rest)[1..] == rest;
  }

  /** Queries sent in two stretches. */
  lemma RepliesSplit(header: seq<Byte>, net: Network, asked: seq<seq<Byte>>, mid: seq<seq<Byte>>, from: nat, name: seq<Byte>)
    requires from <= |mid| && mid <= asked
    ensures Replies(header, net, asked, from, name) ==
            Replies(header, net, mid, from, name) + Replies(header, net, asked, |mid|, name)
  {
    hide Parse, Query;
  }

  /** More queries, sent for a name that is still unresolved. */
  lemma LearnedMore(header: seq<Byte>, net: Network, name: seq<Byte>,
                    asked: seq<seq<Byte>>, mid: seq<seq<Byte>>, from: nat,
                    m0: map<seq<Byte>, seq<Byte>>, es0: seq<Entry>, m1: map<seq<Byte>, seq<Byte>>, es1: seq<Entry>,
                    m2: map<seq<Byte>, seq<Byte>>, es2: seq<Entry>)
    requires from <= |mid| && mid <= asked && Lookup(m1, name) == []
    requires Learned(Replies(header, net, mid, from, name), name, m0, es0, m1, es1)
    requires Learned(Replies(header, net, asked, |mid|, name), name, m1, es1, m2, es2)
    ensures Learned(Replies(header, net, asked, from, name), name, m0, es0, m2, es2)
  {
    hide Replies, Learned, Lookup;
    RepliesSplit(header, net, asked, mid, from, name);
    LearnedThen(Replies(header, net, mid, from, name), Replies(header, net, asked, |mid|, name), name, m0, es0, m1, es1, m2, es2);
  }

  lemma LearnedThen(a: seq<Response>, b: seq<Response>, name: seq<Byte>,
                    m0: map<seq<Byte>, seq<Byte>>, es0: seq<Entry>, m1: map<seq<Byte>, seq<Byte>>, es1: seq<Entry>,
                    m2: map<seq<Byte>, seq<Byte>>, es2: seq<Entry>)
    requires Learned(a, name, m0, es0, m1, es1) && Learned(b, name, m1, es1, m2, es2) && Lookup(m1, name) == []
    ensures Learned(a + b, name, m0, es0, m2, es2)
  {
    hide AddAll, EmplaceAll, AllAnswers, AllReferrals, Lookup;
    AllConcat(a, b, name);
    AddAllConcat(m0, AllAnswers(a), AllAnswers(b));
    if Lookup(m0, name) == [] {
      EmplaceAllConcat(es0, AllReferrals(a, name), AllReferrals(b, name));
    }
  }

  lemma NothingLearned(header: seq<Byte>, net: Network, asked: seq<seq<Byte>>, name: seq<Byte>,
                       m: map<seq<Byte>, seq<Byte>>, es: seq<Entry>)
    ensures Learned(Replies(header, net, asked, |asked|, name), name, m, es, m, es)
  {
    assert Replies(header, net, asked, |asked|, name) == [];
  }

  /** One reply: its answers are taken, and its servers if it is followed. */
  lemma LearnedOne(r: Response, name: seq<Byte>, m0: map<seq<Byte>, seq<Byte>>, es0: seq<Entry>, es: seq<Entry>)
    requires GoodAddresses(m0) && forall p :: p in r.answers ==> p.value != []
    requires !r.referral ==> r.servers == []
    requires es == if Lookup(AddAll(m0, r.answers), name) == [] && r.referral then EmplaceAll(es0, r.servers) else es0
    ensures Learned([r], name, m0, es0, AddAll(m0, r.answers), es)
  {
    hide LastValue, AddAll, AllAnswers, AllReferrals, EmplaceAll;
    AddAllIsLast(m0, r.answers, name);
    LastValueGiven(r.answers, name);
    OneReply(r, name);
    assert EmplaceAll(es0, []) == es0 by {
      EmplaceNothing(es0);
    }
  }

  /** What the first reply to a request taught, once it has been decoded. */
  lemma ReplyLearned(header: seq<Byte>, net: Network, universe: set<seq<Byte>>, asked0: seq<seq<Byte>>, server: seq<Byte>,
                     name: seq<Byte>, buf: seq<Byte>, m0: map<seq<Byte>, seq<Byte>>, es0: seq<Entry>, es: seq<Entry>)
    requires GoodReply(buf, name, universe) && GoodAddresses(m0)
    requires Parse(buf, RecordStart(name)) == Parse(net(|asked0|, server, Query(header, name)), RecordStart(name))
    requires var r := Parse(buf, RecordStart(name));
             es == if Lookup(AddAll(m0, r.answers), name) == [] && r.referral then EmplaceAll(es0, r.servers) else es0
    ensures var r := Parse(buf, RecordStart(name));
            Learned(Replies(header, net, asked0 + [server], |asked0|, name), name, m0, es0, AddAll(m0, r.answers), es)
  {
    hide GoodAnswers, GoodReferral, Parse, AddAll, EmplaceAll, Lookup, Learned, Query;
    var r := Parse(buf, RecordStart(name));
    AddressesGiven(buf, RecordStart(name));
    ParseReferral(buf, RecordStart(name));
    LearnedOne(r, name, m0, es0, es);
    assert Replies(header, net, asked0 + [server], |asked0|, name) == [r];
  }

  lemma OneReply(r: Response, name: seq<Byte>)
    ensures AllAnswers([r]) == r.answers
    ensures AllReferrals([r], name) == if LastValue(r.answers, name).None? then r.servers else []
  {
    hide LastValue, AllAnswers, AllReferrals;
    NoReplies(name);
    MoreReplies(r, [], name);
    assert [r] + [] == [r];
  }

  lemma EmplaceNothing(es: seq<Entry>)
    ensures EmplaceAll(es, []) == es
  {
  }

  // ----- The resolver -----

  class Resolver {
    const nsCache: LockedMulti
    const resolvedNames: LockedMap
    const rootServer: seq<Byte>
    const id: UInt16
    const header: seq<Byte>
    const net: Network
    /** The names of all servers that may ever be named. */
    ghost const universe: set<seq<Byte>>
    /** The servers asked so far, as the resolver's log lists them. */
    var asked: seq<seq<Byte>>

    constructor (rootServer: seq<Byte>, id: UInt16, net: Network, ghost universe: set<seq<Byte>>)
      requires GoodNet(QueryHeader(id), net, universe)
      ensures Valid() && fresh(nsCache) && fresh(resolvedNames)
      ensures this.rootServer == rootServer && this.header == QueryHeader(id) && this.net == net && this.universe == universe
      ensures asked == [] && nsCache.entries == [] && resolvedNames.entries == map[]
    {
      this.rootServer, this.id, this.net, this.universe := rootServer, id, net, universe;
      header := QueryHeader(id);
      asked := [];
      nsCache := new LockedMulti();
      resolvedNames := new LockedMap();
    }

    ghost predicate Valid()
      reads this, nsCache, resolvedNames
    {
      && header == QueryHeader(id) && GoodNet(header, net, universe)
      && nsCache.Valid() && GoodServers(nsCache.entries, universe) && GoodAddresses(resolvedNames.entries)
    }

    method CheckNsCacheForLabel(key: seq<Byte>, contacted: ContactPath) returns (lookup: Server)
      requires nsCache.Valid()
      modifies contacted
      ensures match FirstFresh(nsCache.Servers(key), old(contacted.path))
              case None => lookup == Server([], []) && contacted.path == old(contacted.path)
              case Some(s) => lookup == s && contacted.path == old(contacted.path) + [s]
    {
      hide ServersOf, Sorted, FirstFresh;
      var first, last := nsCache.GetNS(key);
      ghost var start := first;
      ghost var ss := nsCache.Servers(key);
      assert ss[0..] == ss;
      while first != last
        invariant start <= first <= last <= |nsCache.entries| && contacted.path == old(contacted.path)
        invariant FirstFresh(ss[first - start..], contacted.path) == FirstFresh(ss, contacted.path)
        decreases last - first
      {
        lookup := nsCache.entries[first].server;
        FirstFreshStep(ss, first - start, contacted.path);
        var found := IsContacted(contacted.path, lookup.name);
        if !found {
          contacted.path := contacted.path + [lookup];
          return;
        }
        first := first + 1;
      }
      return Server([], []);
    }

    /** The server to ask first for a name; it works on its own copy of the contacted servers. */
    method WhereToStart(name: seq<Byte>, contactedPath: seq<Server>) returns (start: seq<Byte>)
      requires nsCache.Valid() && GoodServers(nsCache.entries, universe)
      requires 0 !in name && |name| + 1 < LABEL_SIZE
      requires Usable(Split(name)) != [] && Decodable(Usable(Split(name)))
      ensures match Best(nsCache.entries, Usable(Split(name)), contactedPath)
              case None => start == rootServer
              case Some(s) => start == s.addr
    {
      hide Wire, Split, Usable, CStr, HoldsKey, ServersOf, FirstFresh, Sorted;
      var contacted := new ContactPath(contactedPath);
      var key := new Byte[LABEL_SIZE];
      LoadLabel(name, key);
      ghost var ls := Usable(Split(name));
      UsableDotFree(name);
      while true
        invariant HoldsKey(key[..], ls) && Trimmable(ls) && contacted.path == contactedPath
        invariant fresh(contacted) && fresh(key)
        invariant Best(nsCache.entries, ls, contactedPath) == Best(nsCache.entries, Usable(Split(name)), contactedPath)
        decreases |ls|
      {
        KeyCStr(key[..], ls);
        var forwardNs := CheckNsCacheForLabel(CStr(key[..]), contacted);
        if forwardNs.name == [] {
          NoneFresh(nsCache.entries, Wire(ls), universe, contactedPath);
          var trimmable := TrimLabel(key, ls);
          if !trimmable {
            return rootServer;
          }
          ls := ls[1..];
        } else {
          return forwardNs.addr;
        }
      }
    }

    ghost function FirstReply(server: seq<Byte>, name: seq<Byte>): Response
      reads this
    {
      Parse(net(|asked|, server, Query(header, name)), RecordStart(name))
    }

    /**
      * Sends the query and waits for its response. What is sent asks, after the header, for the
      * address (type 1) of class IN (1) of the name, and if RFC 1035 can spell the name, for
      * nothing else.
      */
    method Exchange(server: seq<Byte>, name: seq<Byte>) returns (buf: seq<Byte>, ghost sent: seq<Byte>)
      requires header == QueryHeader(id) && 0 !in name && GoodNet(header, net, universe)
      modifies this`asked
      ensures asked == old(asked) + [server]
      ensures buf == net(|old(asked)|, server, sent) && |sent| == |name| + 18
      ensures Be16(sent, |name| + 14) == 1 && Be16(sent, |name| + 16) == 1
      ensures RfcLengths(Split(name)) ==> ParseQuery(sent) == Some(Question(Split(name), 1, 1))
      ensures Parse(buf, RecordStart(name)) == old(FirstReply(server, name))
      ensures GoodReply(buf, name, universe)
    {
      hide GoodReply, Parse, Wire, Split, ParseQuery, Be16, RfcLengths;
      var query := Serialize(header, name, [0, 1], [0, 1]);
      sent := query;
      QueryFields(header, name);
      QuestionExact(id, name);
      buf := net(|asked|, server, query);
      asked := asked + [server];
      ReplyIsGood(header, net, universe, old(|asked|), server, name);
    }

    /** Takes the addresses of the answer section. */
    method TakeAnswers(buf: seq<Byte>, name: seq<Byte>) returns (k: nat)
      requires Valid() && GoodReply(buf, name, universe)
      modifies resolvedNames
      ensures Valid()
      ensures resolvedNames.entries == AddAll(old(resolvedNames.entries), Parse(buf, RecordStart(name)).answers)
      ensures old(resolvedNames.entries).Keys <= resolvedNames.entries.Keys
      ensures k == SectionStart(buf, RecordStart(name), 1)
      ensures Lookup(resolvedNames.entries, name) == [] ==> LastValue(Parse(buf, RecordStart(name)).answers, name).None?
    {
      hide GoodNet, GoodAnswers, GoodReferral, SectionStart, Sorted, AddAll, Parse, AnswersRead, LastValue;
      k := |name| + 2 * 8 + 2;
      ghost var start := RecordStart(name);
      AddressesGiven(buf, start);
      AddAllKeys(resolvedNames.entries, Parse(buf, start).answers);
      AddAllIsLast(resolvedNames.entries, Parse(buf, start).answers, name);
      LastValueGiven(Parse(buf, start).answers, name);
      GoodMessageAnswers(buf, start, resolvedNames.entries);
      k := DecodeAnswers(buf, k, Count(buf, 0), resolvedNames, |buf|);
    }

    /**
      * Asks `nsName` for `name`; if it only refers elsewhere, asks the cached servers of every
      * suffix of the name, longest first, that this lookup has not contacted.
      */
    method SendDnsRequest(nsName: seq<Byte>, name: seq<Byte>, prevContacted: ContactPath) returns (answered: bool)
      requires Valid() && Resolvable(name)
      modifies this`asked, nsCache, resolvedNames, prevContacted
      ensures Valid()
      // exactly one query to nsName and one to each newly contacted server, none contacted twice
      ensures Accounted(old(asked), old(prevContacted.path), nsName, asked, prevContacted.path)
      ensures answered <==> Lookup(resolvedNames.entries, name) != []
      ensures old(resolvedNames.entries).Keys <= resolvedNames.entries.Keys
      ensures Grows(old(nsCache.entries), nsCache.entries)
      ensures FromCache(nsCache.entries, Suffixes(name), prevContacted.path, |old(prevContacted.path)|)
      ensures Outcome(old(FirstReply(nsName, name)), name, answered,
                      old(nsCache.entries), old(resolvedNames.entries), old(prevContacted.path),
                      nsCache.entries, resolvedNames.entries, prevContacted.path)
      // a failed request leaves nothing cached for the name uncontacted, or has changed no server data
      ensures !answered ==>
        || Exhausted(nsCache.entries, Suffixes(name), prevContacted.path, |Suffixes(name)|)
        || (nsCache.entries == old(nsCache.entries) && prevContacted.path == old(prevContacted.path))
      // an answer for the name, or a reply that refers nowhere, ends the request after one query
      ensures var r := old(FirstReply(nsName, name));
              LastValue(r.answers, name).Some? || !r.referral ==> asked == old(asked) + [nsName] && nsCache.entries == old(nsCache.entries)
      // the caches hold what the replies gave, nested requests included, and nothing else
      ensures Learned(Replies(header, net, asked, |old(asked)|, name), name,
                      old(resolvedNames.entries), old(nsCache.entries), resolvedNames.entries, nsCache.entries)
      decreases Uncontacted(universe, prevContacted.path), 1
    {
      hide Wire, Split, Usable, CStr, HoldsKey, ServersOf, FirstFresh, Sorted, GoodNet, GoodReply, Parse, AddAll, EmplaceAll, LastValue,
           Accounted, Grows, FromCache, Exhausted, Best, Searching, GoodServers, GoodAddresses, InStep, Distinct, Names,
           Section, SectionStart, SectionEnd, GoodRecords, GoodAuthorities, NestedJoin, AnswersOf, ZonesOf,
           Replies, Learned, Query, ParseQuery, Be16, RfcLengths, QueryHeader;
      ghost var asked0, path0, m0, es0 := asked, prevContacted.path, resolvedNames.entries, nsCache.entries;
      ghost var ls := Suffixes(name);
      SearchStart(nsCache.entries, ls, asked0, path0, nsName);
      var buf, _ := Exchange(nsName, name);
      var k := TakeAnswers(buf, name);
      ParseReferral(buf, RecordStart(name));
      var address := resolvedNames.Find(name);
      if address != [] {
        ReplyLearned(header, net, universe, asked0, nsName, name, buf, m0, es0, es0);
        return true;
      }
      if Count(buf, 1) >= 1 && Count(buf, 2) >= 1 {
        ReplyRefers(buf, name, universe);
        ghost var start := RecordStart(name);
        EmplaceAllGood(nsCache.entries, Parse(buf, start).servers, universe);
        GoodReferralRead(buf, k, Section(buf, start, 1), Section(buf, start, 2), nsCache.entries);
        DecodeReferral(buf, k, nsCache, |buf|);
        ghost var m1, es1, j := resolvedNames.entries, nsCache.entries, 0;
        ReplyLearned(header, net, universe, asked0, nsName, name, buf, m0, es0, es1);
        EmplaceAllGrows(old(nsCache.entries), Parse(buf, RecordStart(name)).servers);
        answered, j := Search(nsName, name, prevContacted, asked0);
        SearchDone(old(nsCache.entries), es1, ls, asked0, path0, nsName, nsCache.entries, asked, prevContacted.path, j);
        AccountedPrefix(asked0, path0, nsName, asked, prevContacted.path);
        LearnedMore(header, net, name, asked, asked0 + [nsName], |asked0|, m0, es0, m1, es1, resolvedNames.entries, nsCache.entries);
        return;
      }
      ReplyLearned(header, net, universe, asked0, nsName, name, buf, m0, es0, es0);
      return false;
    }

    /** The referral loop of a request that has just asked `nsName`. */
    method Search(ghost nsName: seq<Byte>, name: seq<Byte>, prevContacted: ContactPath, ghost asked0: seq<seq<Byte>>)
      returns (answered: bool, ghost j: nat)
      requires Valid() && Resolvable(name) && Lookup(resolvedNames.entries, name) == []
      requires asked == asked0 + [nsName]
      modifies this`asked, nsCache, resolvedNames, prevContacted
      ensures Valid()
      ensures answered <==> Lookup(resolvedNames.entries, name) != []
      ensures old(resolvedNames.entries).Keys <= resolvedNames.entries.Keys
      ensures Searching(old(nsCache.entries), Suffixes(name), asked0, old(prevContacted.path), nsName,
                        nsCache.entries, asked, prevContacted.path, j)
      ensures prevContacted.path == old(prevContacted.path) ==> !answered && resolvedNames.entries == old(resolvedNames.entries)
      ensures !answered ==> j == |Suffixes(name)| && Exhausted(nsCache.entries, Suffixes(name), prevContacted.path, j)
      ensures |old(asked)| <= |asked|
      ensures Learned(Replies(header, net, asked, |old(asked)|, name), name,
                      old(resolvedNames.entries), old(nsCache.entries), resolvedNames.entries, nsCache.entries)
      decreases Uncontacted(universe, prevContacted.path), 0
    {
      hide Wire, Split, Usable, CStr, HoldsKey, ServersOf, FirstFresh, Sorted, GoodNet, GoodReply, Parse, AddAll, EmplaceAll, LastValue,
           Accounted, Grows, FromCache, Exhausted, Best, Searching, GoodServers, GoodAddresses, Distinct, Names, Outcome,
           Lookup, Decodable, DotFree, Uncontacted, Replies, Learned, Query;
      ghost var es1, path0, ls := nsCache.entries, prevContacted.path, Suffixes(name);
      ghost var m1, asked1 := resolvedNames.entries, asked;
      NothingLearned(header, net, asked1, name, m1, es1);
      var key := new Byte[LABEL_SIZE];
      LoadLabel(name, key);
      UsableDotFree(name);
      SearchStart(es1, ls, asked0, path0, nsName);
      j := 0;
      assert ls[0..] == ls;
      while true
        invariant Valid() && fresh(key)
        invariant Lookup(resolvedNames.entries, name) == []
        invariant old(resolvedNames.entries).Keys <= resolvedNames.entries.Keys
        invariant prevContacted.path == path0 ==> resolvedNames.entries == old(resolvedNames.entries)
        invariant Searching(es1, ls, asked0, path0, nsName, nsCache.entries, asked, prevContacted.path, j)
        invariant Exhausted(nsCache.entries, ls, prevContacted.path, j)
        invariant j < |ls| && HoldsKey(key[..], ls[j..]) && Trimmable(ls[j..])
        invariant Uncontacted(universe, prevContacted.path) <= Uncontacted(universe, path0)
        invariant asked1 <= asked
        invariant Learned(Replies(header, net, asked, |asked1|, name), name, m1, es1, resolvedNames.entries, nsCache.entries)
        decreases Uncontacted(universe, prevContacted.path), |ls| - j
      {
        ghost var es, m, asked2, path := nsCache.entries, resolvedNames.entries, asked, prevContacted.path;
        KeyCStr(key[..], ls[j..]);
        NoneFresh(es, Wire(ls[j..]), universe, path);
        var forwardNs := CheckNsCacheForLabel(CStr(key[..]), prevContacted);
        if forwardNs.name == [] {
          SearchTrim(es1, ls, asked0, path0, nsName, es, asked2, path, j);
          var trimmable := TrimLabel(key, ls[j..]);
          j := j + 1;
          if !trimmable {
            return false, j;
          }
          assert ls[j - 1..][1..] == ls[j..];
        } else {
          FreshLeavesFewer(es, Wire(ls[j..]), universe, path, prevContacted.path);
          answered := SendDnsRequest(forwardNs.addr, name, prevContacted);
          AccountedPrefix(asked2, path + [forwardNs], forwardNs.addr, asked, prevContacted.path);
          LearnedMore(header, net, name, asked, asked2, |asked1|, m1, es1, m, es, resolvedNames.entries, nsCache.entries);
          FreshLeavesFewer(es, Wire(ls[j..]), universe, path, prevContacted.path);
          SearchNested(es1, ls, asked0, path0, nsName, es, asked2, path, j, forwardNs, nsCache.entries, asked, prevContacted.path);
          if answered {
            return true, j;
          }
          ExhaustedNested(es, ls, path, forwardNs, nsCache.entries, prevContacted.path, j);
        }
      }
    }

    /** One client request for a name: the address sent back, empty if it was not found. */
    method HandleLookup(name: seq<Byte>) returns (address: seq<Byte>, contactedPath: seq<Server>)
      requires Valid() && Resolvable(name)
      modifies this`asked, nsCache, resolvedNames
      ensures Valid()
      ensures address == Lookup(resolvedNames.entries, name)
      ensures old(resolvedNames.entries).Keys <= resolvedNames.entries.Keys
      ensures Grows(old(nsCache.entries), nsCache.entries)
      ensures Distinct(contactedPath) && FromCache(nsCache.entries, Suffixes(name), contactedPath, 0)
      // a name once resolved is answered from the cache, without a query
      ensures Lookup(old(resolvedNames.entries), name) != [] ==>
        && asked == old(asked) && contactedPath == []
        && nsCache.entries == old(nsCache.entries) && resolvedNames.entries == old(resolvedNames.entries)
      // any other name is asked of the best cached server, or the root, and then of the contacted ones
      ensures Lookup(old(resolvedNames.entries), name) == [] ==>
        asked == old(asked) + [StartServer(old(nsCache.entries), rootServer, name)] + Addresses(contactedPath)
      // the number of queries is bounded by the servers there are
      ensures |asked| <= |old(asked)| + 1 + |universe|
      // giving up after a referral means that no cached server for the name was left
      ensures address == [] ==>
        || Exhausted(nsCache.entries, Suffixes(name), contactedPath, |Suffixes(name)|)
        || (nsCache.entries == old(nsCache.entries) && contactedPath == [])
      // the address is the one last given for the name by the replies to this lookup's queries
      ensures |old(asked)| <= |asked|
      ensures Learned(Replies(header, net, asked, |old(asked)|, name), name,
                      old(resolvedNames.entries), old(nsCache.entries), resolvedNames.entries, nsCache.entries)
      ensures Lookup(old(resolvedNames.entries), name) == [] ==>
        address == Given(Replies(header, net, asked, |old(asked)|, name), name)
      // giving up after a referral, the lookup has also contacted a server of the name it started at
      ensures address == [] && Exhausted(nsCache.entries, Suffixes(name), contactedPath, |Suffixes(name)|) ==>
        match Best(old(nsCache.entries), Suffixes(name), [])
        case None => true
        case Some(s) => s.name in Names(contactedPath)
    {
      hide Wire, Split, Usable, ServersOf, FirstFresh, Sorted, GoodNet, Best, Grows, Exhausted, GoodServers, GoodAddresses, Outcome, Decodable,
           Learned, Replies, Given, Names;
      ghost var es0, m0 := nsCache.entries, resolvedNames.entries;
      NothingLearned(header, net, asked, name, m0, es0);
      var path := new ContactPath([]);
      var startAddress := WhereToStart(name, path.path);
      GrowsReflexive(nsCache.entries);
      address := resolvedNames.Find(name);
      if address == [] {
        var success := SendDnsRequest(startAddress, name, path);
        address := resolvedNames.Find(name);
      }
      contactedPath := path.path;
      assert contactedPath[0..] == contactedPath;
      PathBound(nsCache.entries, Suffixes(name), universe, contactedPath);
      GivenIsLast(Replies(header, net, asked, |old(asked)|, name), name, m0, es0, resolvedNames.entries, nsCache.entries);
      StartAskedAgain(es0, nsCache.entries, Suffixes(name), contactedPath);
    }

    /** A sequential run of client requests; `queries[i]` counts the queries sent up to request i. */
    method ServeLookups(names: seq<seq<Byte>>) returns (replies: seq<seq<Byte>>, queries: seq<nat>)
      requires Valid() && forall n :: n in names ==> Resolvable(n)
      modifies this`asked, nsCache, resolvedNames
      ensures Valid()
      ensures |replies| == |names| && |queries| == |names| + 1 && queries[0] == |old(asked)| && queries[|names|] == |asked|
      ensures forall i, j :: 0 <= i < j < |names| && names[i] == names[j] && replies[i] != [] ==>
        replies[j] != [] && queries[j + 1] == queries[j]
    {
      hide Resolvable, GoodNet, GoodServers, Sorted, Suffixes, Grows, Exhausted, FromCache, Distinct, ServersOf,
           Learned, Replies, Given, Names, Best, Addresses;
      replies, queries := [], [|asked|];
      for i := 0 to |names|
        invariant Valid() && |replies| == i && |queries| == i + 1
        invariant queries[0] == |old(asked)| && queries[i] == |asked|
        invariant forall k :: 0 <= k < i && replies[k] != [] ==> names[k] in resolvedNames.entries
        invariant forall k, j :: 0 <= k < j < i && names[k] == names[j] && replies[k] != [] ==>
          replies[j] != [] && queries[j + 1] == queries[j]
      {
        assert names[i] in names;
        var reply, _ := HandleLookup(names[i]);
        replies, queries := replies + [reply], queries + [|asked|];
      }
    }
  }

  /** The server a lookup asks first. */
  ghost function StartServer(es: seq<Entry>, rootServer: seq<Byte>, name: seq<Byte>): seq<Byte> {
    match Best(es, Suffixes(name), [])
    case None => rootServer
    case Some(s) => s.addr
  }

  /** Distinct cached servers are at most as many as there are server names. */
  lemma PathBound(es: seq<Entry>, ls: seq<Label>, universe: set<seq<Byte>>, path: seq<Server>)
    requires GoodServers(es, universe) && Distinct(path) && FromCache(es, ls, path, 0)
    ensures |Addresses(path)| == |path| <= |universe|
  {
    hide Wire, ServersOf, GoodServers;
    DistinctNames(path);
    AddressesLength(path);
    forall s | s in path ensures s.name in universe {
      var k :| 0 <= k < |path| && path[k] == s;
      var i :| 0 <= i < |ls| && path[k] in ServersOf(es, Wire(ls[i..]));
      ServerNamed(es, universe, Wire(ls[i..]), s);
    }
    SubsetSmaller(Names(path), universe);
  }

  lemma {:induction false} DistinctNames(path: seq<Server>)
    requires Distinct(path)
    ensures |Names(path)| == |path|
  {
    if path != [] {
      var last, rest := path[|path| - 1], path[..|path| - 1];
      DistinctNames(rest);
      assert path == rest + [last];
      assert Names(path) == Names(rest) + {last.name};
      assert last.name !in Names(rest);
    }
  }

  lemma AddressesLength(path: seq<Server>)
    ensures |Addresses(path)| == |path|
  {
  }

  /** What the replies say of `name`: the last address they give. */
  function Given(rs: seq<Response>, name: seq<Byte>): seq<Byte> {
    match LastValue(AllAnswers(rs), name)
    case None => []
    case Some(v) => v
  }

  lemma GivenIsLast(rs: seq<Response>, name: seq<Byte>, m0: map<seq<Byte>, seq<Byte>>, es0: seq<Entry>,
                    m: map<seq<Byte>, seq<Byte>>, es: seq<Entry>)
    ensures Learned(rs, name, m0, es0, m, es) && Lookup(m0, name) == [] ==> Lookup(m, name) == Given(rs, name)
  {
    hide AllAnswers, AllReferrals, AddAll, EmplaceAll, LastValue;
    AddAllIsLast(m0, AllAnswers(rs), name);
  }

  /**
    * The start server is not recorded as contacted, so a search that leaves no cached server
    * uncontacted comes back to it.
    */
  lemma StartAskedAgain(es0: seq<Entry>, es: seq<Entry>, ls: seq<Label>, path: seq<Server>)
    ensures Grows(es0, es) && Exhausted(es, ls, path, |ls|) && Best(es0, ls, []).Some? ==>
      Best(es0, ls, []).value.name in Names(path)
  {
    hide Wire, ServersOf, Best, Names;
    if Grows(es0, es) && Exhausted(es, ls, path, |ls|) && Best(es0, ls, []).Some? {
      var i := BestIsLongestSuffix(es0, ls, []);
      var s := Best(es0, ls, []).value;
      assert s in ServersOf(es0, Wire(ls[i..])) && ServersOf(es0, Wire(ls[i..])) <= ServersOf(es, Wire(ls[i..]));
    }
  }

  lemma GrowsReflexive(es: seq<Entry>)
    ensures Grows(es, es)
  {
  }

  ghost function Suffixes(name: seq<Byte>): seq<Label> {
    Usable(Split(name))
  }

  /** Names that fit the program's buffers and whose labels its decoder can measure. */
  ghost predicate Resolvable(name: seq<Byte>) {
    0 !in name && |name| + 1 < LABEL_SIZE && Suffixes(name) != [] && Decodable(Suffixes(name))
  }

  /** Names of up to 253 bytes, whose labels have 1 to 127 bytes, can be looked up; longer ones do not fit. */
  lemma ResolvableNames(name: seq<Byte>)
    ensures 0 !in name && |name| <= 253 && MeasurableLengths(Split(name)) ==> Resolvable(name)
    ensures |name| > 253 ==> !Resolvable(name)
  {
    hide Split, Usable, MeasurableLengths;
    if 0 !in name && MeasurableLengths(Split(name)) {
      SplitLabels(name);
      AllUsable(Split(name));
    }
  }

  lemma FreshLeavesFewer(es: seq<Entry>, key: seq<Byte>, universe: set<seq<Byte>>, path: seq<Server>, path': seq<Server>)
    requires GoodServers(es, universe)
    requires FirstFresh(ServersOf(es, key), path).Some? && path + [FirstFresh(ServersOf(es, key), path).value] <= path'
    ensures Uncontacted(universe, path') < Uncontacted(universe, path)
  {
    hide ServersOf;
    var s := FirstFresh(ServersOf(es, key), path).value;
    ServerNamed(es, universe, key, s);
    FewerLeft(universe, path, s, path');
  }

  lemma ParseReferral(buf: seq<Byte>, start: nat)
    ensures Parse(buf, start).referral <==> Count(buf, 1) >= 1 && Count(buf, 2) >= 1
    ensures !Parse(buf, start).referral ==> Parse(buf, start).servers == []
  {
  }

  lemma ReplyIsGood(header: seq<Byte>, net: Network, universe: set<seq<Byte>>, n: nat, server: seq<Byte>, name: seq<Byte>)
    requires GoodNet(header, net, universe) && 0 !in name
    ensures GoodReply(net(n, server, Query(header, name)), name, universe)
  {
    hide GoodReply, Query;
  }

  /** An empty name is a safe sign for "none left" because cached servers have names. */
  lemma NoneFresh(es: seq<Entry>, key: seq<Byte>, universe: set<seq<Byte>>, path: seq<Server>)
    requires GoodServers(es, universe)
    ensures FirstFresh(ServersOf(es, key), path).Some? ==> FirstFresh(ServersOf(es, key), path).value.name != []
  {
    hide ServersOf;
    var r := FirstFresh(ServersOf(es, key), path);
    if r.Some? {
      ServerNamed(es, universe, key, r.value);
    }
  }

  lemma UsableDotFree(name: seq<Byte>)
    ensures DotFree(Usable(Split(name)))
  {
    hide Split;
    SplitLabels(name);
  }
}
