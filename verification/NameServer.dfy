/** The name server: its table, its request handlers and its main loop. */
module NameServer {
  import opened CStrings
  import opened Options
  import opened Requests
  import opened NameService

  /** A clock that never goes back: `ticks(n)` passes before its n-th reading. */
  class Clock {
    const ticks: nat -> nat
    var readings: nat
    var now: int

    constructor (ticks: nat -> nat, now: int)
      ensures this.ticks == ticks && this.now == now
    {
      this.ticks, this.now, readings := ticks, now, 0;
    }

    /** No time passes between readings. */
    ghost predicate Still() {
      forall n :: ticks(n) == 0
    }

    method Pass(seconds: nat)
      modifies this
      ensures now == old(now) + seconds
    {
      now := now + seconds;
    }

    method Time() returns (t: int)
      modifies this
      ensures t == now && now >= old(now)
      ensures Still() ==> now == old(now)
    {
      now := now + ticks(readings);
      readings := readings + 1;
      t := now;
    }
  }

  /** The query a decoded request carries; its name is a C string. */
  ghost function QueryOf(p: Packet): Query {
    Query(p.msgType, p.status, CStr(p.name), p.port)
  }

  ghost function ReplyOf(p: Packet): Reply {
    Reply(p.msgType, p.status, p.port)
  }

  class Server {
    const cfg: Config
    const clock: Clock
    var table: Table
    /** The history of bindings, for the statements about runs. */
    ghost var log: seq<Event>

    constructor (maxSupportedPorts: nat, keepAliveTime: int, clock: Clock)
      ensures cfg == Config(maxSupportedPorts, keepAliveTime) && this.clock == clock
      ensures table == map[] && log == []
    {
      cfg, this.clock := Config(maxSupportedPorts, keepAliveTime), clock;
      table, log := map[], [];
    }

    ghost function Snapshot(): State
      reads this, clock
    {
      State(table, log, clock.now)
    }

    method GetKeepAliveTime() returns (t: int)
      modifies clock
      ensures t == clock.now + cfg.keepAlive && clock.now >= old(clock.now)
      ensures clock.Still() ==> clock.now == old(clock.now)
    {
      t := clock.Time();
      t := t + cfg.keepAlive;
    }

    /** Inserts the service if its name is new; an existing entry stays as it is. */
    method UpdateService(request: Request)
      requires request.Valid()
      modifies this, clock, request`msgType, request`status
      ensures clock.now >= old(clock.now) && (clock.Still() ==> clock.now == old(clock.now))
      ensures request.msgType == RESPONSE && request.status == SUCCESS
      ensures var name := CStr(request.serviceName[..]);
              if name in old(table) then table == old(table) && log == old(log)
              else
                var service := Service(request.port, clock.now + cfg.keepAlive);
                table == old(table)[name := service] && log == old(log) + [Bound(name, service)]
    {
      hide CStr;
      var timeout := GetKeepAliveTime();
      var newService := Service(request.port, timeout);
      var serviceName := CStr(request.serviceName[..]);
      if serviceName !in table {
        table := table[serviceName := newService];
        log := log + [Bound(serviceName, newService)];
      }
      request.msgType := RESPONSE;
      request.status := SUCCESS;
    }

    method KeepAlive(request: Request)
      requires request.Valid()
      modifies this, clock, request`msgType, request`status
      ensures clock.now >= old(clock.now) && (clock.Still() ==> clock.now == old(clock.now))
      ensures table == old(table) && log == old(log)
      ensures request.msgType == RESPONSE
      ensures var name := CStr(request.serviceName[..]);
              request.status == if name in table && table[name].port == request.port then SUCCESS else INVALID_ARG
    {
      hide CStr;
      var serviceToFind := CStr(request.serviceName[..]);
      if serviceToFind in table {
        if table[serviceToFind].port == request.port {
          UpdateService(request);
        } else {
          request.msgType := RESPONSE;
          request.status := INVALID_ARG;
        }
      } else {
        request.msgType := RESPONSE;
        request.status := INVALID_ARG;
      }
    }

    /** `t` is the time at which the request is decided. */
    method DefineService(request: Request) returns (ghost t: int)
      requires request.Valid()
      modifies this, clock, request`msgType, request`status
      ensures old(clock.now) <= t <= clock.now && request.msgType == RESPONSE
      ensures clock.Still() ==> clock.now == old(clock.now)
      ensures var name := CStr(request.serviceName[..]);
              if name in old(table) then
                && request.status == (if old(table)[name].timeout > t then SERVICE_IN_USE else SUCCESS)
                && table == old(table) && log == old(log)
              else
                var service := Service(request.port, t + cfg.keepAlive);
                && request.status == SUCCESS
                && table == old(table)[name := service] && log == old(log) + [Bound(name, service)]
    {
      hide CStr;
      var serviceToFind := CStr(request.serviceName[..]);
      if serviceToFind in table {
        var currentEpoch := clock.Time();
        t := currentEpoch;
        if table[serviceToFind].timeout > currentEpoch {
          request.msgType := RESPONSE;
          request.status := SERVICE_IN_USE;
        } else {
          UpdateService(request);
        }
      } else {
        UpdateService(request);
        t := clock.now;
      }
    }

    method LookupServicePort(request: Request) returns (ghost t: int)
      requires request.Valid()
      modifies this`table, clock, request`msgType, request`status, request`port
      ensures old(clock.now) <= t <= clock.now
      ensures clock.Still() ==> clock.now == old(clock.now)
      ensures LookupStep(old(Snapshot()), old(QueryOf(request.Value())), Reading(old(table), old(clock.now), t),
                         ReplyOf(request.Value()), Snapshot())
    {
      hide CStr;
      t := clock.now;
      if request.port != 0 {
        request.msgType := RESPONSE;
        request.status := INVALID_ARG;
        return;
      }
      var name := CStr(request.serviceName[..]);
      if name in table {
        var currentEpoch := clock.Time();
        t := currentEpoch;
        if table[name].timeout < currentEpoch {
          request.msgType := RESPONSE;
          request.status := SERVICE_NOT_FOUND;
          table := table - {name};
        } else {
          request.port := table[name].port;
          request.msgType := RESPONSE;
          request.status := SUCCESS;
        }
      } else {
        request.msgType := RESPONSE;
        request.status := SERVICE_NOT_FOUND;
      }
    }

    method RemoveService(request: Request)
      requires request.Valid()
      modifies this, request`msgType, request`status
      ensures CloseStep(old(Snapshot()), old(QueryOf(request.Value())), ReplyOf(request.Value()), Snapshot())
    {
      hide CStr;
      var name := CStr(request.serviceName[..]);
      if name in table {
        if table[name].port == request.port {
          table := table - {name};
          log := log + [Closed(name)];
          request.msgType := RESPONSE;
          request.status := SUCCESS;
        } else {
          request.msgType := RESPONSE;
          request.status := INVALID_ARG;
        }
      } else {
        request.msgType := RESPONSE;
        request.status := SERVICE_NOT_FOUND;
      }
    }

    /** Visits every entry once, in any order, reading the clock for each. */
    method ClearTimedoutServices()
      modifies this`table, clock
      ensures Swept(old(table), table, old(clock.now), clock.now) && clock.now >= old(clock.now)
      ensures clock.Still() ==> clock.now == old(clock.now)
    {
      var before := table;
      var left := table.Keys;
      while left != {}
        invariant left <= table.Keys && table.Keys <= before.Keys && clock.now >= old(clock.now)
        invariant clock.Still() ==> clock.now == old(clock.now)
        invariant forall n :: n in table ==> table[n] == before[n]
        invariant forall n :: n in before && n !in left && before[n].timeout < old(clock.now) ==> n !in table
        invariant forall n :: n in before && n !in table ==> before[n].timeout < clock.now
        decreases |left|
      {
        var name :| name in left;
        var currentEpoch := clock.Time();
        left := left - {name};
        if table[name].timeout < currentEpoch {
          table := table - {name};
        }
      }
    }

    /** The sweep of a full table, with which DEFINE and KEEP_ALIVE begin. */
    method SweepIfFull() returns (ghost w: Reading)
      modifies this`table, clock
      ensures w == Reading(table, clock.now, clock.now) && clock.now >= old(clock.now)
      ensures MadeRoom(cfg, old(Snapshot()), w)
      ensures clock.Still() ==> clock.now == old(clock.now)
    {
      hide Swept, Clock.Still;
      if |table| == cfg.maxPorts {
        ClearTimedoutServices();
      }
      w := Reading(table, clock.now, clock.now);
    }

    /** Serves one decoded request; `w` records the readings that decided it. */
    method GenerateResponse(request: Request) returns (ghost w: Reading)
      requires request.Valid()
      modifies this, clock, request`msgType, request`status, request`port
      ensures Step(cfg, old(Snapshot()), old(QueryOf(request.Value())), w, ReplyOf(request.Value()), Snapshot())
      ensures request.Value().name == old(request.Value().name)
      ensures clock.Still() ==> clock.now == old(clock.now)
    {
      hide CStr, MadeRoom, Clock.Still;
      w := Reading(table, clock.now, clock.now);
      if request.msgType == DEFINE_PORT {
        w := SweepIfFull();
        if |table| < cfg.maxPorts {
          ghost var t := DefineService(request);
          RoomAnyTime(cfg, old(Snapshot()), w, t);
          w := w.(t := t);
        } else {
          request.msgType := RESPONSE;
          request.status := ALL_PORTS_BUSY;
        }
      } else if request.msgType == LOOKUP_PORT {
        ghost var t := LookupServicePort(request);
        w := w.(t := t);
      } else if request.msgType == KEEP_ALIVE {
        w := SweepIfFull();
        if |table| < cfg.maxPorts {
          KeepAlive(request);
        } else {
          request.msgType := RESPONSE;
          request.status := ALL_PORTS_BUSY;
        }
      } else if request.msgType == CLOSE_PORT {
        RemoveService(request);
      } else if request.msgType == STOP {
        request.msgType := RESPONSE;
        request.status := SUCCESS;
      }
    }

    /** Answers one datagram; `None` stands for a failed receive. */
    method Handle(datagram: Option<Packet>) returns (response: Packet, stopTriggered: bool, ghost w: Reading)
      requires Inv(cfg, Snapshot()) && Received(datagram)
      modifies this, clock
      ensures Inv(cfg, Snapshot()) && clock.now >= old(clock.now)
      ensures Answers(datagram, response) && |response.name| == NAME_BYTES
      ensures stopTriggered <==> IsStop(datagram)
      ensures IsRequest(datagram) ==>
        Step(cfg, old(Snapshot()), QueryOf(DecodedPacket(datagram.value)), w,
             ReplyOf(DecodedPacket(response)), Snapshot())
      ensures !IsRequest(datagram) ==>
        Snapshot() == old(Snapshot()) && response.port == 0 && response.msgType == 5 && response.status == 5
    {
      hide CStr, Padded, Step, Inv, Encoded, ZeroFilled;
      stopTriggered := false;
      w := Reading(table, clock.now, clock.now);
      if datagram.Some? {
        var clientBuff := NewRequest(datagram.value);
        var responseBuff := Decode(clientBuff, clientBuff);
        if responseBuff != null {
          ghost var decoded := clientBuff.Value();
          if clientBuff.msgType == STOP {
            stopTriggered := true;
          }
          ghost var before := Snapshot();
          w := GenerateResponse(clientBuff);
          StepKeepsInv(cfg, before, QueryOf(decoded), w, ReplyOf(clientBuff.Value()), Snapshot());
          ReplyEncodable(cfg, before, decoded, w, clientBuff.Value(), Snapshot());
          ghost var reply := ReplyOf(clientBuff.Value());
          SwapTwice(clientBuff.port);
          response := Send(clientBuff);
          assert ReplyOf(DecodedPacket(response)) == reply;
          return;
        }
      }
      var badRequest := new Request();
      badRequest.msgType := RESPONSE;
      badRequest.status := UNDEFINED_ERROR;
      ZerosFilled(badRequest.serviceName[..]);
      response := Send(badRequest);
    }

    /**
      * The main loop: answers datagrams until one asks it to stop. The requests among them and
      * what the clients are sent are a run of the state machine, from the state found to the
      * state left; anything else is sent an error.
      */
    method Serve(datagrams: seq<Option<Packet>>)
      returns (responses: seq<Packet>, ghost states: seq<State>, ghost xs: seq<Exchange>)
      requires Inv(cfg, Snapshot()) && forall d :: d in datagrams ==> Received(d)
      modifies this, clock
      ensures Inv(cfg, Snapshot())
      ensures |responses| <= |datagrams| && forall i :: 0 <= i < |responses| ==> Answers(datagrams[i], responses[i])
      // the first request of type 6 is the last one answered
      ensures forall i :: 0 <= i < |responses| - 1 && IsRequest(datagrams[i]) ==> datagrams[i].value.msgType != 6
      ensures |responses| < |datagrams| ==>
        responses != [] && IsRequest(datagrams[|responses| - 1]) && datagrams[|responses| - 1].value.msgType == 6
      ensures forall i :: 0 <= i < |responses| && !IsRequest(datagrams[i]) ==>
        responses[i].port == 0 && responses[i].msgType == 5 && responses[i].status == 5
      ensures AreSteps(cfg, states, xs) && states[0] == old(Snapshot()) && states[|xs|] == Snapshot()
      ensures Queries(xs) == AcceptedQueries(datagrams[..|responses|])
      ensures Replies(xs) == AcceptedReplies(datagrams[..|responses|], responses)
    {
      hide CStr, Inv, IsRequest, Answers, Step, AreSteps, Received, Queries, Replies, AcceptedQueries, AcceptedReplies;
      responses, states, xs := [], [Snapshot()], [];
      NothingServed(cfg, Snapshot());
      var turnOffServer := false;
      var i := 0;
      while !turnOffServer && i < |datagrams|
        invariant Inv(cfg, Snapshot()) && 0 <= i == |responses| <= |datagrams|
        invariant forall k :: 0 <= k < i ==> Answers(datagrams[k], responses[k])
        invariant forall k :: 0 <= k < i && !IsRequest(datagrams[k]) ==>
          responses[k].port == 0 && responses[k].msgType == 5 && responses[k].status == 5
        invariant forall k :: 0 <= k < i && IsStop(datagrams[k]) ==> turnOffServer && k == i - 1
        invariant turnOffServer ==> i > 0 && IsStop(datagrams[i - 1])
        invariant AreSteps(cfg, states, xs) && |states| == |xs| + 1
        invariant states[0] == old(Snapshot()) && states[|xs|] == Snapshot()
        invariant Queries(xs) == AcceptedQueries(datagrams[..i])
        invariant Replies(xs) == AcceptedReplies(datagrams[..i], responses)
      {
        ghost var d, w := datagrams[i], Reading(map[], 0, 0);
        assert d in datagrams;
        var response, stopTriggered;
        response, stopTriggered, w := Handle(datagrams[i]);
        ServedStep(cfg, states, xs, datagrams[..i], responses, d, response, w, Snapshot());
        assert datagrams[..i] + [d] == datagrams[..i + 1];
        if IsRequest(d) {
          states, xs := states + [Snapshot()], xs + [ExchangeOf(d.value, w, response)];
        }
        responses := responses + [response];
        if stopTriggered {
          turnOffServer := true;
        }
        i := i + 1;
      }
    }
  }

  // ----- Datagrams -----

  ghost function Queries(xs: seq<Exchange>): seq<Query> {
    seq(|xs|, i requires 0 <= i < |xs| => xs[i].query)
  }

  ghost function Replies(xs: seq<Exchange>): seq<Reply> {
    seq(|xs|, i requires 0 <= i < |xs| => xs[i].reply)
  }

  /** The queries of the datagrams that the decoder accepts. */
  ghost function AcceptedQueries(ds: seq<Option<Packet>>): seq<Query> {
    if ds == [] then []
    else
      var d := ds[|ds| - 1];
      AcceptedQueries(ds[..|ds| - 1]) + (if IsRequest(d) then [QueryOf(DecodedPacket(d.value))] else [])
  }

  /** The replies that clients decode from the responses to those datagrams. */
  ghost function AcceptedReplies(ds: seq<Option<Packet>>, rs: seq<Packet>): seq<Reply>
    requires |ds| == |rs|
  {
    if ds == [] then []
    else
      var n := |ds| - 1;
      AcceptedReplies(ds[..n], rs[..n]) + (if IsRequest(ds[n]) then [ReplyOf(DecodedPacket(rs[n]))] else [])
  }

  ghost function ExchangeOf(request: Packet, w: Reading, response: Packet): Exchange {
    Exchange(QueryOf(DecodedPacket(request)), w, ReplyOf(DecodedPacket(response)))
  }

  /** The response to a datagram that carries no acceptable request. */
  predicate IsError(response: Packet) {
    response.port == 0 && response.msgType == RESPONSE && response.status == UNDEFINED_ERROR
  }

  /** An encodable response: to a request with the name it carried, to anything else an error. */
  ghost predicate Answers(d: Option<Packet>, response: Packet) {
    && Acceptable(response)
    && (if IsRequest(d) then CStr(response.name) == CStr(d.value.name) else IsError(response))
  }

  lemma NothingServed(cfg: Config, s: State)
    ensures AreSteps(cfg, [s], []) && Queries([]) == AcceptedQueries([]) && Replies([]) == AcceptedReplies([], [])
  {
  }

  /** One more datagram extends the run if it is a request, and leaves it as it is otherwise. */
  lemma ServedStep(cfg: Config, states: seq<State>, xs: seq<Exchange>, ds: seq<Option<Packet>>, rs: seq<Packet>,
                   d: Option<Packet>, response: Packet, w: Reading, s': State)
    requires AreSteps(cfg, states, xs) && |ds| == |rs|
    requires Queries(xs) == AcceptedQueries(ds) && Replies(xs) == AcceptedReplies(ds, rs)
    requires IsRequest(d) ==>
      Step(cfg, states[|xs|], QueryOf(DecodedPacket(d.value)), w, ReplyOf(DecodedPacket(response)), s')
    ensures var more := if IsRequest(d) then [ExchangeOf(d.value, w, response)] else [];
            && Queries(xs + more) == AcceptedQueries(ds + [d])
            && Replies(xs + more) == AcceptedReplies(ds + [d], rs + [response])
            && (IsRequest(d) ==> AreSteps(cfg, states + [s'], xs + more))
    ensures !IsRequest(d) ==> xs + [] == xs
  {
    hide Step, IsRequest, CStr, AreSteps, DecodedPacket, QueryOf, ReplyOf;
    assert (ds + [d])[..|ds|] == ds && (rs + [response])[..|rs|] == rs;
    if IsRequest(d) {
      OneMoreStep(cfg, states, xs, ExchangeOf(d.value, w, response), s');
    }
  }

  lemma OneMoreStep(cfg: Config, states: seq<State>, xs: seq<Exchange>, x: Exchange, s': State)
    requires AreSteps(cfg, states, xs) && Step(cfg, states[|xs|], x.query, x.reading, x.reply, s')
    ensures AreSteps(cfg, states + [s'], xs + [x])
  {
    hide Step;
  }

  function DecodedPacket(p: Packet): Packet {
    p.(port := Swap16(p.port))
  }

  /** A datagram with all its name bytes, or a failed receive. */
  predicate Received(d: Option<Packet>) {
    d.Some? ==> |d.value.name| == NAME_BYTES
  }

  ghost predicate IsRequest(d: Option<Packet>): (r: bool)
    ensures r ==> d.Some?
  {
    d.Some? && Acceptable(DecodedPacket(d.value))
  }

  ghost predicate IsStop(d: Option<Packet>) {
    IsRequest(d) && d.value.msgType == STOP
  }

  method NewRequest(p: Packet) returns (r: Request)
    requires |p.name| == NAME_BYTES
    ensures fresh(r) && fresh(r.serviceName) && r.Valid() && r.Value() == p
  {
    r := new Request();
    r.port, r.msgType, r.status := p.port, p.msgType, p.status;
    forall i | 0 <= i < NAME_BYTES {
      r.serviceName[i] := p.name[i];
    }
  }

  /** Encodes a response in place; a response with valid codes is never refused. */
  method Send(response: Request) returns (sent: Packet)
    requires response.Valid() && Acceptable(response.Value())
    modifies response, response.serviceName
    ensures Acceptable(sent) && |sent.name| == NAME_BYTES
    ensures CStr(sent.name) == CStr(old(response.serviceName[..]))
    ensures sent.port == Swap16(old(response.port)) && sent.msgType == old(response.msgType) && sent.status == old(response.status)
  {
    hide CStr, Padded;
    ghost var p := response.Value();
    RoundTrip(p);
    LastIsZero(p.name);
    var encoded := Encode(response, response);
    assert encoded == response;
    sent := Packet(encoded.port, encoded.msgType, encoded.status, encoded.serviceName[..]);
  }

  lemma LastIsZero(name: seq<Byte>)
    requires |name| == NAME_BYTES && ZeroFilled(name)
    ensures 0 in name[..MAX_SERVICE_NAME_LEN] ==> name[MAX_SERVICE_NAME_LEN] == 0
  {
    if 0 in name[..MAX_SERVICE_NAME_LEN] {
      var i :| 0 <= i < MAX_SERVICE_NAME_LEN && name[i] == 0;
    }
  }

  lemma ZerosFilled(name: seq<Byte>)
    requires Zeros(name) && |name| == NAME_BYTES
    ensures ZeroFilled(name) && 0 in name
  {
    assert name[0] == 0;
  }

  /** Whatever acceptable request came in, the response can be encoded. */
  lemma ReplyEncodable(cfg: Config, s: State, p: Packet, w: Reading, p': Packet, s': State)
    requires Acceptable(p) && Step(cfg, s, QueryOf(p), w, ReplyOf(p'), s') && p'.name == p.name
    ensures Acceptable(p') && (p.msgType != RESPONSE ==> p'.msgType == RESPONSE)
    ensures s.now <= s'.now
  {
    hide CStr;
  }

  lemma RoomAnyTime(cfg: Config, s: State, w: Reading, t: int)
    ensures MadeRoom(cfg, s, w.(t := t)) == MadeRoom(cfg, s, w)
  {
  }

  // ----- The server at work -----

  /**
    * The server itself: a name is defined, its lease runs out, it is defined again with success,
    * and the LOOKUP right after that finds nothing.
    */
  method StaleDefineServed(name: seq<Byte>) returns (defined: Reply, redefined: Reply, looked: Reply)
    requires |name| == NAME_BYTES
    ensures defined == Reply(RESPONSE, SUCCESS, 1) && redefined == Reply(RESPONSE, SUCCESS, 2)
    ensures looked == Reply(RESPONSE, SERVICE_NOT_FOUND, 0)
  {
    hide CStr;
    var clock := new Clock(_ => 0, 0);
    var server := new Server(100, 5, clock);
    ghost var w;
    defined, w := Ask(server, Packet(1, DEFINE_PORT, SUCCESS, name));
    assert server.table == map[CStr(name) := Service(1, 5)];
    clock.Pass(10);
    redefined, w := Ask(server, Packet(2, DEFINE_PORT, SUCCESS, name));
    looked, w := Ask(server, Packet(0, LOOKUP_PORT, SUCCESS, name));
  }

  /**
    * The server itself: a KEEP_ALIVE before the lease runs out answers SUCCESS, and the LOOKUP
    * after the first lease finds nothing.
    */
  method KeepAliveServed(name: seq<Byte>) returns (defined: Reply, kept: Reply, looked: Reply)
    requires |name| == NAME_BYTES
    ensures defined == Reply(RESPONSE, SUCCESS, 1) && kept == Reply(RESPONSE, SUCCESS, 1)
    ensures looked == Reply(RESPONSE, SERVICE_NOT_FOUND, 0)
  {
    hide CStr;
    var clock := new Clock(_ => 0, 0);
    var server := new Server(100, 5, clock);
    ghost var w;
    defined, w := Ask(server, Packet(1, DEFINE_PORT, SUCCESS, name));
    assert server.table == map[CStr(name) := Service(1, 5)];
    clock.Pass(3);
    kept, w := Ask(server, Packet(1, KEEP_ALIVE, SUCCESS, name));
    clock.Pass(3);
    looked, w := Ask(server, Packet(0, LOOKUP_PORT, SUCCESS, name));
  }

  /** With a keep-alive time of 0, a DEFINE over its own expired entry leaves just the binding it asked for. */
  method ZeroLeaseServed(name: seq<Byte>) returns (defined: Reply, redefined: Reply, ghost after: State)
    requires |name| == NAME_BYTES
    ensures defined == redefined == Reply(RESPONSE, SUCCESS, 1)
    ensures after.log == [Bound(CStr(name), Service(1, 0))] && after.table == map[CStr(name) := Service(1, 0)] && after.now == 0
  {
    hide CStr;
    var clock := new Clock(_ => 0, 0);
    var server := new Server(100, 0, clock);
    ghost var w;
    defined, w := Ask(server, Packet(1, DEFINE_PORT, SUCCESS, name));
    assert server.table == map[CStr(name) := Service(1, 0)];
    redefined, w := Ask(server, Packet(1, DEFINE_PORT, SUCCESS, name));
    after := server.Snapshot();
  }

  /**
    * The codes of the protocol as numbers: a name is defined (1) and looked up (2), and then
    * defined, closed (4) and kept alive (3) with another port.
    */
  method RefusalsServed(name: seq<Byte>) returns (looked: Reply, redefined: Reply, closed: Reply, kept: Reply)
    requires |name| == 50
    ensures looked == Reply(5, 0, 1)
    ensures redefined == Reply(5, 1, 2) && closed == Reply(5, 4, 2) && kept == Reply(5, 4, 2)
  {
    hide CStr;
    var clock := new Clock(_ => 0, 0);
    var server := new Server(100, 5, clock);
    ghost var w;
    var defined;
    defined, w := Ask(server, Packet(1, 1, 0, name));
    assert server.table == map[CStr(name) := Service(1, 5)];
    looked, w := Ask(server, Packet(0, 2, 0, name));
    redefined, w := Ask(server, Packet(2, 1, 0, name));
    closed, w := Ask(server, Packet(2, 4, 0, name));
    kept, w := Ask(server, Packet(2, 3, 0, name));
  }

  /** The others: a table of one name is full for a second one, which is not found; then CLOSE and STOP (6). */
  method FullServed(name: seq<Byte>, other: seq<Byte>) returns (full: Reply, looked: Reply, closed: Reply, stopped: Reply)
    requires |name| == |other| == 50 && CStr(name) != CStr(other)
    ensures full == Reply(5, 3, 2) && looked == Reply(5, 2, 0) && closed == Reply(5, 0, 1) && stopped == Reply(5, 0, 0)
  {
    hide CStr;
    var clock := new Clock(_ => 0, 0);
    var server := new Server(1, 5, clock);
    ghost var w;
    var defined;
    defined, w := Ask(server, Packet(1, 1, 0, name));
    assert server.table == map[CStr(name) := Service(1, 5)];
    full, w := Ask(server, Packet(2, 1, 0, other));
    looked, w := Ask(server, Packet(0, 2, 0, other));
    closed, w := Ask(server, Packet(1, 4, 0, name));
    stopped, w := Ask(server, Packet(0, 6, 0, name));
  }

  /** One request while the clock stands still. */
  method Ask(server: Server, p: Packet) returns (r: Reply, ghost w: Reading)
    requires |p.name| == NAME_BYTES && server.clock.Still()
    modifies server, server.clock
    ensures server.clock.now == old(server.clock.now)
    ensures Step(server.cfg, old(server.Snapshot()), QueryOf(p), w, r, server.Snapshot())
  {
    hide CStr, DefineStep, KeepAliveStep, LookupStep, CloseStep, Clock.Still;
    var request := NewRequest(p);
    w := server.GenerateResponse(request);
    r := Reply(request.msgType, request.status, request.port);
  }
}
