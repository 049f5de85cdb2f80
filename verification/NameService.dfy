/** The lease-based name service as a state machine: what each request may do, and what every run keeps. */
module NameService {
  import opened CStrings
  import opened Options
  import opened Requests

  datatype Service = Service(port: UInt16, timeout: int)
  type Table = map<seq<Byte>, Service>

  /** What has happened to bindings: a DEFINE that inserted one, a CLOSE that removed one. */
  datatype Event = Bound(name: seq<Byte>, service: Service) | Closed(name: seq<Byte>)

  datatype Config = Config(maxPorts: nat, keepAlive: int)
  datatype State = State(table: Table, log: seq<Event>, now: int)
  datatype Query = Query(msgType: Int8, status: Int8, name: seq<Byte>, port: UInt16)
  datatype Reply = Reply(msgType: Int8, status: Int8, port: UInt16)

  /** The table and clock after making room, and the clock when the request is decided. */
  datatype Reading = Reading(mid: Table, swept: int, t: int)

  // ----- One request -----

  /**
    * What a sweep between `t0` and `t1` may leave of `table`, in whatever order it visits the
    * entries: all that expired before it began are gone, none that has not expired at its end is.
    */
  ghost predicate Swept(table: Table, mid: Table, t0: int, t1: int) {
    && t0 <= t1 && mid.Keys <= table.Keys
    && (forall n :: n in mid ==> mid[n] == table[n])
    && (forall n :: n in table && table[n].timeout < t0 ==> n !in mid)
    && (forall n :: n in table && n !in mid ==> table[n].timeout < t1)
  }

  /** A full table is swept before DEFINE and KEEP_ALIVE. */
  ghost predicate MadeRoom(cfg: Config, s: State, w: Reading) {
    if |s.table| == cfg.maxPorts then Swept(s.table, w.mid, s.now, w.swept)
    else w.mid == s.table && w.swept == s.now
  }

  function Answer(q: Query, status: Int8): Reply {
    Reply(RESPONSE, status, q.port)
  }

  ghost predicate DefineStep(cfg: Config, s: State, q: Query, w: Reading, r: Reply, s': State) {
    && MadeRoom(cfg, s, w)
    && if |w.mid| >= cfg.maxPorts then
         r == Answer(q, ALL_PORTS_BUSY) && s'.table == w.mid && s'.log == s.log
       else if q.name !in w.mid then
         var service := Service(q.port, w.t + cfg.keepAlive);
         r == Answer(q, SUCCESS) && s'.table == w.mid[q.name := service] && s'.log == s.log + [Bound(q.name, service)]
       else
         && r == Answer(q, if w.mid[q.name].timeout > w.t then SERVICE_IN_USE else SUCCESS)
         && s'.table == w.mid && s'.log == s.log
  }

  ghost predicate KeepAliveStep(cfg: Config, s: State, q: Query, w: Reading, r: Reply, s': State) {
    && MadeRoom(cfg, s, w) && s'.table == w.mid && s'.log == s.log
    && r == Answer(q, if |w.mid| >= cfg.maxPorts then ALL_PORTS_BUSY
                      else if q.name in w.mid && w.mid[q.name].port == q.port then SUCCESS
                      else INVALID_ARG)
  }

  ghost predicate LookupStep(s: State, q: Query, w: Reading, r: Reply, s': State) {
    && s'.log == s.log
    && if q.port != 0 then r == Answer(q, INVALID_ARG) && s'.table == s.table
       else if q.name !in s.table then r == Answer(q, SERVICE_NOT_FOUND) && s'.table == s.table
       else if s.table[q.name].timeout < w.t then
         r == Answer(q, SERVICE_NOT_FOUND) && s'.table == s.table - {q.name}
       else
         r == Reply(RESPONSE, SUCCESS, s.table[q.name].port) && s'.table == s.table
  }

  ghost predicate CloseStep(s: State, q: Query, r: Reply, s': State) {
    if q.name in s.table && s.table[q.name].port == q.port then
      r == Answer(q, SUCCESS) && s'.table == s.table - {q.name} && s'.log == s.log + [Closed(q.name)]
    else
      && r == Answer(q, if q.name in s.table then INVALID_ARG else SERVICE_NOT_FOUND)
      && s'.table == s.table && s'.log == s.log
  }

  /** What `generate_response` may do, with every clock reading between `s.now` and `s'.now`. */
  ghost predicate Step(cfg: Config, s: State, q: Query, w: Reading, r: Reply, s': State) {
    && s.now <= w.swept <= w.t <= s'.now
    && if q.msgType == DEFINE_PORT then DefineStep(cfg, s, q, w, r, s')
       else if q.msgType == LOOKUP_PORT then LookupStep(s, q, w, r, s')
       else if q.msgType == KEEP_ALIVE then KeepAliveStep(cfg, s, q, w, r, s')
       else if q.msgType == CLOSE_PORT then CloseStep(s, q, r, s')
       else
         && s'.table == s.table && s'.log == s.log
         && r == if q.msgType == STOP then Answer(q, SUCCESS) else Reply(q.msgType, q.status, q.port)
  }

  // ----- What the history says of a name -----

  /** The binding of the latest inserting DEFINE of `name`, unless a CLOSE removed it since. */
  function Binding(log: seq<Event>, name: seq<Byte>): Option<Service>
    decreases |log|
  {
    if log == [] then None
    else match log[|log| - 1]
      case Bound(n, service) => if n == name then Some(service) else Binding(log[..|log| - 1], name)
      case Closed(n) => if n == name then None else Binding(log[..|log| - 1], name)
  }

  lemma BindingAfter(log: seq<Event>, e: Event, name: seq<Byte>)
    ensures Binding(log + [e], name) ==
      if e.name != name then Binding(log, name) else if e.Bound? then Some(e.service) else None
  {
    assert (log + [e])[..|log|] == log;
  }

  /** The table agrees with the history, except that it may lack bindings that have expired. */
  ghost predicate Inv(cfg: Config, s: State) {
    && |s.table| <= cfg.maxPorts
    && (forall n :: n in s.table ==> Binding(s.log, n) == Some(s.table[n]))
    && (forall n :: n !in s.table && Binding(s.log, n).Some? ==> Binding(s.log, n).value.timeout < s.now)
  }

  lemma SubmapSmaller(a: Table, b: Table)
    requires a.Keys <= b.Keys
    ensures |a| <= |b|
  {
    assert b.Keys == a.Keys + (b.Keys - a.Keys);
    assert |a| == |a.Keys| && |b| == |b.Keys|;
  }

  lemma MadeRoomInv(cfg: Config, s: State, w: Reading)
    requires Inv(cfg, s) && MadeRoom(cfg, s, w) && s.now <= w.swept
    ensures Inv(cfg, State(w.mid, s.log, w.swept))
  {
    hide Binding;
    SubmapSmaller(w.mid, s.table);
  }

  lemma InsertKeepsInv(cfg: Config, s: State, name: seq<Byte>, service: Service, now: int)
    requires Inv(cfg, s) && |s.table| < cfg.maxPorts && name !in s.table && s.now <= now
    ensures Inv(cfg, State(s.table[name := service], s.log + [Bound(name, service)], now))
  {
    hide Binding;
    var table := s.table[name := service];
    assert |table| == |s.table| + 1;
    forall n ensures Binding(s.log + [Bound(name, service)], n) == if n == name then Some(service) else Binding(s.log, n) {
      BindingAfter(s.log, Bound(name, service), n);
    }
  }

  lemma CloseKeepsInv(cfg: Config, s: State, name: seq<Byte>, now: int)
    requires Inv(cfg, s) && s.now <= now
    ensures Inv(cfg, State(s.table - {name}, s.log + [Closed(name)], now))
  {
    hide Binding;
    SubmapSmaller(s.table - {name}, s.table);
    forall n ensures Binding(s.log + [Closed(name)], n) == if n == name then None else Binding(s.log, n) {
      BindingAfter(s.log, Closed(name), n);
    }
  }

  /** Erasing an expired entry, or nothing. */
  lemma ExpireKeepsInv(cfg: Config, s: State, name: seq<Byte>, now: int)
    requires Inv(cfg, s) && s.now <= now
    ensures Inv(cfg, State(s.table, s.log, now))
    ensures name in s.table && s.table[name].timeout < now ==> Inv(cfg, State(s.table - {name}, s.log, now))
  {
    hide Binding;
    SubmapSmaller(s.table - {name}, s.table);
  }

  lemma LaterKeepsInv(cfg: Config, s: State, now: int)
    requires Inv(cfg, s) && s.now <= now
    ensures Inv(cfg, State(s.table, s.log, now))
  {
    hide Binding;
  }

  lemma StepKeepsInv(cfg: Config, s: State, q: Query, w: Reading, r: Reply, s': State)
    requires Inv(cfg, s) && Step(cfg, s, q, w, r, s')
    ensures Inv(cfg, s')
  {
    hide Binding, MadeRoom, Inv, Answer;
    LaterKeepsInv(cfg, s, s'.now);
    if q.msgType == DEFINE_PORT {
      MadeRoomInv(cfg, s, w);
      var mid := State(w.mid, s.log, w.swept);
      LaterKeepsInv(cfg, mid, s'.now);
      if |w.mid| < cfg.maxPorts && q.name !in w.mid {
        InsertKeepsInv(cfg, mid, q.name, Service(q.port, w.t + cfg.keepAlive), s'.now);
      }
    } else if q.msgType == KEEP_ALIVE {
      MadeRoomInv(cfg, s, w);
      LaterKeepsInv(cfg, State(w.mid, s.log, w.swept), s'.now);
    } else if q.msgType == CLOSE_PORT {
      CloseKeepsInv(cfg, s, q.name, s'.now);
    } else if q.msgType == LOOKUP_PORT {
      ExpireKeepsInv(cfg, s, q.name, s'.now);
    }
    assert s' == State(s'.table, s'.log, s'.now);
  }

  // ----- What replies mean, in terms of the history -----

  /** LOOKUP finds exactly the bindings of the history that have not expired when it is decided. */
  lemma LookupExact(cfg: Config, s: State, q: Query, w: Reading, r: Reply, s': State, p: UInt16)
    requires Inv(cfg, s) && Step(cfg, s, q, w, r, s') && q.msgType == LOOKUP_PORT && q.port == 0
    ensures r == Reply(RESPONSE, SUCCESS, p) <==>
            Binding(s.log, q.name).Some? && Binding(s.log, q.name).value.port == p && Binding(s.log, q.name).value.timeout >= w.t
    ensures r.status == SUCCESS || r == Answer(q, SERVICE_NOT_FOUND)
    ensures if r.status == SUCCESS then s'.table == s.table
            else q.name !in s'.table && forall n :: n != q.name && n in s.table ==> n in s'.table && s'.table[n] == s.table[n]
  {
    hide Binding;
  }

  /**
    * CLOSE succeeds only for the port the name is bound to, and does so while that binding has not
    * expired; another port is refused and changes nothing; a name without a binding is not found.
    */
  lemma CloseExact(cfg: Config, s: State, q: Query, w: Reading, r: Reply, s': State)
    requires Inv(cfg, s) && Step(cfg, s, q, w, r, s') && q.msgType == CLOSE_PORT
    ensures var b := Binding(s.log, q.name);
            && (r.status == SUCCESS ==> b.Some? && b.value.port == q.port)
            && (b.Some? && b.value.timeout >= s.now && b.value.port == q.port ==> r == Reply(RESPONSE, SUCCESS, q.port))
            && (b.Some? && b.value.timeout >= s.now && b.value.port != q.port ==> r == Reply(RESPONSE, INVALID_ARG, q.port))
            && (b.None? ==> r == Reply(RESPONSE, SERVICE_NOT_FOUND, q.port))
    ensures if r.status == SUCCESS then s'.table == s.table - {q.name} && s'.log == s.log + [Closed(q.name)]
            else s'.table == s.table && s'.log == s.log
  {
    hide Binding;
  }

  /** KEEP_ALIVE succeeds for the port the name is bound to, unless the table is full; it is refused otherwise. */
  lemma KeepAliveExact(cfg: Config, s: State, q: Query, w: Reading, r: Reply, s': State)
    requires Inv(cfg, s) && Step(cfg, s, q, w, r, s') && q.msgType == KEEP_ALIVE
    ensures r.status == ALL_PORTS_BUSY <==> |s'.table| == cfg.maxPorts
    ensures var b := Binding(s.log, q.name);
            && (r.status == SUCCESS ==> b.Some? && b.value.port == q.port)
            && (r.status != ALL_PORTS_BUSY && b.Some? && b.value.timeout >= w.swept && b.value.port == q.port ==>
                  r == Reply(RESPONSE, SUCCESS, q.port))
            && (r.status != ALL_PORTS_BUSY && (b.None? || b.value.port != q.port) ==> r == Reply(RESPONSE, INVALID_ARG, q.port))
  {
    hide Binding, Inv, MadeRoom;
    MadeRoomInv(cfg, s, w);
    KeepAliveCases(cfg, State(w.mid, s.log, w.swept), q);
  }

  lemma KeepAliveCases(cfg: Config, s: State, q: Query)
    requires Inv(cfg, s)
    ensures |s.table| <= cfg.maxPorts
    ensures q.name in s.table ==> Binding(s.log, q.name) == Some(s.table[q.name])
    ensures q.name !in s.table && Binding(s.log, q.name).Some? ==> Binding(s.log, q.name).value.timeout < s.now
  {
    hide Binding;
  }

  /** Room is made only in a full table: what expired before goes, what has not expired after stays. */
  lemma RoomExact(cfg: Config, s: State, q: Query, w: Reading, r: Reply, s': State)
    requires Step(cfg, s, q, w, r, s') && q.msgType in {DEFINE_PORT, KEEP_ALIVE}
    ensures |s.table| != cfg.maxPorts ==> forall n :: n in s.table ==> n in s'.table && s'.table[n] == s.table[n]
    ensures forall n :: n in s.table && s.table[n].timeout >= w.swept ==> n in s'.table && s'.table[n] == s.table[n]
    ensures |s.table| == cfg.maxPorts ==>
      forall n :: n in s.table && s.table[n].timeout < s.now && n != q.name ==> n !in s'.table
  {
  }

  /** Every reply but that of a successful LOOKUP carries the port of its request. */
  lemma ReplyExact(cfg: Config, s: State, q: Query, w: Reading, r: Reply, s': State)
    requires Step(cfg, s, q, w, r, s')
    ensures q.msgType in {1, 2, 3, 4, 6} ==> r.msgType == 5 && 0 <= r.status <= 4
    ensures r.port == q.port || (q.msgType == 2 && r.status == 0)
    ensures q.msgType == 6 ==> r.status == 0
    ensures q.msgType == 5 ==> r == Reply(5, q.status, q.port)
    ensures q.msgType == 2 && q.port != 0 ==> r == Reply(5, 4, q.port) && s'.table == s.table && s'.log == s.log
    ensures q.msgType !in {1, 2, 3, 4} ==> s'.table == s.table && s'.log == s.log
  {
    hide MadeRoom;
  }

  /** DEFINE is refused while the history holds an unexpired binding, and otherwise only for lack of room. */
  lemma DefineExact(cfg: Config, s: State, q: Query, w: Reading, r: Reply, s': State)
    requires Inv(cfg, s) && Step(cfg, s, q, w, r, s') && q.msgType == DEFINE_PORT
    ensures r.status == ALL_PORTS_BUSY <==> |w.mid| == cfg.maxPorts
    ensures r.status != ALL_PORTS_BUSY ==>
      (r.status == SERVICE_IN_USE <==> Binding(s.log, q.name).Some? && Binding(s.log, q.name).value.timeout > w.t)
    ensures r.status in {SUCCESS, SERVICE_IN_USE, ALL_PORTS_BUSY}
    ensures |w.mid| == cfg.maxPorts ==> forall n :: n in s.table ==> s.table[n].timeout >= s.now
    ensures |s.table| == cfg.maxPorts && (forall n :: n in s.table ==> s.table[n].timeout >= w.swept) ==> r.status == ALL_PORTS_BUSY
  {
    hide Binding, Inv;
    MadeRoomInv(cfg, s, w);
    DefineCases(cfg, s, q, w, r, s');
  }

  lemma DefineCases(cfg: Config, s: State, q: Query, w: Reading, r: Reply, s': State)
    requires Inv(cfg, s) && Inv(cfg, State(w.mid, s.log, w.swept)) && Step(cfg, s, q, w, r, s') && q.msgType == DEFINE_PORT
    ensures r.status == ALL_PORTS_BUSY <==> |w.mid| == cfg.maxPorts
    ensures r.status != ALL_PORTS_BUSY ==>
      (r.status == SERVICE_IN_USE <==> Binding(s.log, q.name).Some? && Binding(s.log, q.name).value.timeout > w.t)
    ensures r.status in {SUCCESS, SERVICE_IN_USE, ALL_PORTS_BUSY}
    ensures |w.mid| == cfg.maxPorts ==> forall n :: n in s.table ==> s.table[n].timeout >= s.now
    ensures |s.table| == cfg.maxPorts && (forall n :: n in s.table ==> s.table[n].timeout >= w.swept) ==> r.status == ALL_PORTS_BUSY
  {
    hide Binding;
    if |w.mid| == cfg.maxPorts {
      FullSweep(s.table, w.mid);
    }
    if |s.table| == cfg.maxPorts && forall n :: n in s.table ==> s.table[n].timeout >= w.swept {
      assert w.mid == s.table;
    }
  }

  /** A sweep that leaves the table full removed nothing. */
  lemma FullSweep(table: Table, mid: Table)
    requires mid.Keys <= table.Keys
    ensures |mid| >= |table| ==> mid.Keys == table.Keys
  {
    var rest := table.Keys - mid.Keys;
    assert table.Keys == mid.Keys + rest;
    assert |table.Keys| == |mid.Keys| + |rest|;
    assert |mid| == |mid.Keys| && |table| == |table.Keys|;
  }

  /** Which requests change the history, and how. */
  lemma LogExact(cfg: Config, s: State, q: Query, w: Reading, r: Reply, s': State)
    requires Step(cfg, s, q, w, r, s')
    ensures s'.log == s.log + [Bound(q.name, Service(q.port, w.t + cfg.keepAlive))]
            <==> q.msgType == DEFINE_PORT && r.status == SUCCESS && q.name !in w.mid
    ensures s'.log == s.log + [Closed(q.name)] <==> q.msgType == CLOSE_PORT && r.status == SUCCESS
    ensures s'.log == s.log
         || s'.log == s.log + [Bound(q.name, Service(q.port, w.t + cfg.keepAlive))]
         || s'.log == s.log + [Closed(q.name)]
    ensures s'.log != s.log ==> |s'.log| == |s.log| + 1
  {
    hide MadeRoom;
    assert Bound(q.name, Service(q.port, w.t + cfg.keepAlive)) != Closed(q.name);
    LastDiffers(s.log, Bound(q.name, Service(q.port, w.t + cfg.keepAlive)), Closed(q.name));
  }

  lemma LastDiffers(log: seq<Event>, a: Event, b: Event)
    ensures log + [a] != log
    ensures a != b ==> log + [a] != log + [b]
  {
    assert (log + [a])[|log|] == a && (log + [b])[|log|] == b;
    assert |log + [a]| == |log| + 1;
  }

  /**
    * Only DEFINE adds a name to the table, and no request changes the entry of a name, unless the
    * sweep of a DEFINE drops the expired entry of the name being defined.
    */
  lemma EntriesStable(cfg: Config, s: State, q: Query, w: Reading, r: Reply, s': State)
    requires Step(cfg, s, q, w, r, s')
    ensures forall n :: n in s.table && n in s'.table ==> s'.table[n] == s.table[n] || (n == q.name && n !in w.mid)
    ensures forall n :: n in s'.table && n !in s.table ==> q.msgType == DEFINE_PORT && n == q.name && r.status == SUCCESS
  {
  }

  /** A name whose binding has not expired keeps that binding unless a CLOSE of it succeeds. */
  lemma LiveBindingStays(cfg: Config, s: State, q: Query, w: Reading, r: Reply, s': State, name: seq<Byte>)
    requires Inv(cfg, s) && Step(cfg, s, q, w, r, s')
    requires Binding(s.log, name).Some? && Binding(s.log, name).value.timeout >= s'.now
    requires s'.log != s.log + [Closed(name)]
    ensures Binding(s'.log, name) == Binding(s.log, name)
    ensures name in s'.table && s'.table[name] == Binding(s.log, name).value
  {
    hide Binding, Inv, MadeRoom, Answer;
    StepKeepsInv(cfg, s, q, w, r, s');
    LogExact(cfg, s, q, w, r, s');
    if s'.log != s.log {
      if s'.log == s.log + [Closed(q.name)] {
        BindingAfter(s.log, Closed(q.name), name);
      } else {
        MadeRoomInv(cfg, s, w);
        InTable(cfg, State(w.mid, s.log, w.swept), name);
        BindingAfter(s.log, Bound(q.name, Service(q.port, w.t + cfg.keepAlive)), name);
      }
    }
    InTable(cfg, s', name);
  }

  lemma InTable(cfg: Config, s: State, name: seq<Byte>)
    requires Inv(cfg, s) && Binding(s.log, name).Some? && Binding(s.log, name).value.timeout >= s.now
    ensures name in s.table && s.table[name] == Binding(s.log, name).value
  {
    hide Binding;
  }

  // ----- Every run -----

  /** One request of a run, with the clock readings that decided it and the reply it got. */
  datatype Exchange = Exchange(query: Query, reading: Reading, reply: Reply)

  ghost predicate AreSteps(cfg: Config, states: seq<State>, xs: seq<Exchange>) {
    && |states| == |xs| + 1
    && forall i :: 0 <= i < |xs| ==> Step(cfg, states[i], xs[i].query, xs[i].reading, xs[i].reply, states[i + 1])
  }

  ghost predicate IsRun(cfg: Config, states: seq<State>, xs: seq<Exchange>) {
    AreSteps(cfg, states, xs) && states[0].table == map[] && states[0].log == []
  }

  lemma {:induction false} RunInv(cfg: Config, states: seq<State>, xs: seq<Exchange>, i: nat)
    requires IsRun(cfg, states, xs) && i < |states|
    ensures Inv(cfg, states[i]) && |states[i].table| <= cfg.maxPorts
  {
    hide Step;
    if i > 0 {
      RunInv(cfg, states, xs, i - 1);
      StepKeepsInv(cfg, states[i - 1], xs[i - 1].query, xs[i - 1].reading, xs[i - 1].reply, states[i]);
    }
  }

  /** The clock never goes back, and the history only grows. */
  lemma {:induction false} RunAdvances(cfg: Config, states: seq<State>, xs: seq<Exchange>, i: nat, j: nat)
    requires IsRun(cfg, states, xs) && i <= j < |states|
    ensures states[i].now <= states[j].now
    ensures states[i].log <= states[j].log
  {
    hide DefineStep, KeepAliveStep, LookupStep, CloseStep;
    if i < j {
      RunAdvances(cfg, states, xs, i, j - 1);
      var x := xs[j - 1];
      assert Step(cfg, states[j - 1], x.query, x.reading, x.reply, states[j]);
      LogExact(cfg, states[j - 1], x.query, x.reading, x.reply, states[j]);
    }
  }

  /** No CLOSE of `name` has succeeded between two states of a run. */
  ghost predicate NotClosed(states: seq<State>, i: nat, j: nat, name: seq<Byte>)
    requires i <= j < |states|
  {
    forall k :: |states[i].log| <= k < |states[j].log| ==> states[j].log[k] != Closed(name)
  }

  /** In every run a binding stays, unchanged and in the table, until it expires or is closed. */
  lemma {:induction false} LeaseHolds(cfg: Config, states: seq<State>, xs: seq<Exchange>, i: nat, j: nat, name: seq<Byte>)
    requires IsRun(cfg, states, xs) && i <= j < |states|
    requires Binding(states[i].log, name).Some? && Binding(states[i].log, name).value.timeout >= states[j].now
    requires NotClosed(states, i, j, name)
    ensures Binding(states[j].log, name) == Binding(states[i].log, name)
    ensures name in states[j].table && states[j].table[name] == Binding(states[i].log, name).value
  {
    hide Step, Binding, Inv;
    RunInv(cfg, states, xs, j);
    if i < j {
      RunAdvances(cfg, states, xs, j - 1, j);
      RunAdvances(cfg, states, xs, i, j - 1);
      NotClosedEarlier(states, i, j, name);
      LeaseHolds(cfg, states, xs, i, j - 1, name);
      RunInv(cfg, states, xs, j - 1);
      var x := xs[j - 1];
      LiveBindingStays(cfg, states[j - 1], x.query, x.reading, x.reply, states[j], name);
    } else {
      InTable(cfg, states[j], name);
    }
  }

  lemma NotClosedEarlier(states: seq<State>, i: nat, j: nat, name: seq<Byte>)
    requires i < j < |states| && states[i].log <= states[j - 1].log <= states[j].log && NotClosed(states, i, j, name)
    ensures NotClosed(states, i, j - 1, name)
    ensures states[j].log != states[j - 1].log + [Closed(name)]
  {
    ExtendedBy(states[j - 1].log, states[j].log, Closed(name));
  }

  lemma ExtendedBy(a: seq<Event>, b: seq<Event>, e: Event)
    ensures b == a + [e] ==> |b| == |a| + 1 && b[|a|] == e
  {
  }

  /** A LOOKUP anywhere in a run finds exactly the unexpired bindings of the history. */
  lemma LookupInRun(cfg: Config, states: seq<State>, xs: seq<Exchange>, k: nat, p: UInt16)
    requires IsRun(cfg, states, xs) && k < |xs| && xs[k].query.msgType == LOOKUP_PORT && xs[k].query.port == 0
    ensures var b := Binding(states[k].log, xs[k].query.name);
            xs[k].reply == Reply(RESPONSE, SUCCESS, p) <==> b.Some? && b.value.port == p && b.value.timeout >= xs[k].reading.t
  {
    hide Step, Binding, Inv;
    RunInv(cfg, states, xs, k);
    LookupExact(cfg, states[k], xs[k].query, xs[k].reading, xs[k].reply, states[k + 1], p);
  }

  /** A name that a DEFINE inserted is found under its port by every LOOKUP until it expires or is closed. */
  lemma DefinedUntilTimeoutOrClose(cfg: Config, states: seq<State>, xs: seq<Exchange>, i: nat, k: nat)
    requires IsRun(cfg, states, xs) && i < k < |xs|
    requires var q := xs[i].query;
             q.msgType == DEFINE_PORT && states[i + 1].log != states[i].log && NotClosed(states, i + 1, k, q.name)
    requires xs[k].query.name == xs[i].query.name
    ensures xs[k].reading.t <= xs[i].reading.t + cfg.keepAlive && xs[k].query.msgType == LOOKUP_PORT && xs[k].query.port == 0 ==>
      xs[k].reply == Reply(RESPONSE, SUCCESS, xs[i].query.port)
    ensures xs[k].reading.t < xs[i].reading.t + cfg.keepAlive && xs[k].query.msgType == DEFINE_PORT ==>
      xs[k].reply.status in {SERVICE_IN_USE, ALL_PORTS_BUSY} && Binding(states[k + 1].log, xs[k].query.name) == Binding(states[k].log, xs[k].query.name)
  {
    hide DefineStep, KeepAliveStep, LookupStep, CloseStep, Binding, Inv, NotClosed, Answer;
    var x, y := xs[i], xs[k];
    var service := Service(x.query.port, x.reading.t + cfg.keepAlive);
    assert Step(cfg, states[i], x.query, x.reading, x.reply, states[i + 1]);
    assert Step(cfg, states[k], y.query, y.reading, y.reply, states[k + 1]);
    LogExact(cfg, states[i], x.query, x.reading, x.reply, states[i + 1]);
    BindingAfter(states[i].log, Bound(x.query.name, service), x.query.name);
    if y.reading.t <= service.timeout {
      LeaseHolds(cfg, states, xs, i + 1, k, x.query.name);
      RunInv(cfg, states, xs, k);
      if y.query.msgType == LOOKUP_PORT && y.query.port == 0 {
        LookupInRun(cfg, states, xs, k, x.query.port);
      }
      if y.query.msgType == DEFINE_PORT && y.reading.t < service.timeout {
        DefineExact(cfg, states[k], y.query, y.reading, y.reply, states[k + 1]);
        LogExact(cfg, states[k], y.query, y.reading, y.reply, states[k + 1]);
      }
    }
  }

  // ----- What the service does not promise -----

  /** KEEP_ALIVE never moves a timeout: the table keeps the first entry inserted for a name. */
  lemma KeepAliveRenewsNothing(cfg: Config, s: State, q: Query, w: Reading, r: Reply, s': State, name: seq<Byte>)
    requires Step(cfg, s, q, w, r, s') && q.msgType == KEEP_ALIVE
    ensures Binding(s'.log, name) == Binding(s.log, name)
    ensures name in s'.table ==> name in s.table && s'.table[name] == s.table[name]
  {
  }

  /**
    * A DEFINE that answers SUCCESS has bound the name to the requested port and a new timeout if
    * and only if the name had left the table when it was decided. Only with a keep-alive time that
    * is not positive can an expired entry that stays be the very entry that was asked for.
    */
  lemma DefineSuccessExact(cfg: Config, s: State, q: Query, w: Reading, r: Reply, s': State)
    requires Inv(cfg, s) && Step(cfg, s, q, w, r, s') && q.msgType == DEFINE_PORT && r.status == SUCCESS
    ensures var wanted := Service(q.port, w.t + cfg.keepAlive);
            && (cfg.keepAlive > 0 ==> (Binding(s'.log, q.name) == Some(wanted) <==> q.name !in w.mid))
            && (Binding(s'.log, q.name) == Some(wanted) <==> q.name !in w.mid || w.mid[q.name] == wanted)
            && (q.name in w.mid ==> w.mid[q.name].timeout <= w.t)
  {
    hide Binding, Inv, MadeRoom;
    MadeRoomInv(cfg, s, w);
    var wanted := Service(q.port, w.t + cfg.keepAlive);
    BindingAfter(s.log, Bound(q.name, wanted), q.name);
    OfTable(cfg, State(w.mid, s.log, w.swept), q.name);
  }

  lemma OfTable(cfg: Config, s: State, name: seq<Byte>)
    requires Inv(cfg, s)
    ensures name in s.table ==> Binding(s.log, name) == Some(s.table[name])
  {
    hide Binding;
  }

  /** A run in which DEFINE answers SUCCESS and the LOOKUP right after it, at the same time, finds nothing. */
  lemma StaleDefine(name: seq<Byte>)
    ensures exists cfg: Config, states: seq<State>, xs: seq<Exchange> ::
      && IsRun(cfg, states, xs) && |xs| == 3
      && xs[1].query == Query(DEFINE_PORT, SUCCESS, name, 2) && xs[1].reply.status == SUCCESS
      && xs[2].query == Query(LOOKUP_PORT, SUCCESS, name, 0) && xs[2].reply.status == SERVICE_NOT_FOUND
      && states[2].now == states[3].now == xs[1].reading.t
  {
    var cfg := Config(100, 5);
    var service := Service(1, 5);
    var empty: Table := map[];
    var table := empty[name := service];
    var log := [Bound(name, service)];
    var states := [State(empty, [], 0), State(table, log, 0), State(table, log, 10), State(table - {name}, log, 10)];
    var xs := [
      Exchange(Query(DEFINE_PORT, SUCCESS, name, 1), Reading(empty, 0, 0), Reply(RESPONSE, SUCCESS, 1)),
      Exchange(Query(DEFINE_PORT, SUCCESS, name, 2), Reading(table, 0, 10), Reply(RESPONSE, SUCCESS, 2)),
      Exchange(Query(LOOKUP_PORT, SUCCESS, name, 0), Reading(table, 10, 10), Reply(RESPONSE, SERVICE_NOT_FOUND, 0))];
    assert |table| == 1;
    assert [] + [Bound(name, service)] == log;
    assert Step(cfg, states[0], xs[0].query, xs[0].reading, xs[0].reply, states[1]);
    assert Step(cfg, states[1], xs[1].query, xs[1].reading, xs[1].reply, states[2]);
    assert Step(cfg, states[2], xs[2].query, xs[2].reading, xs[2].reply, states[3]);
    assert IsRun(cfg, states, xs);
  }
}
