/** The relay loop of a destination: where each metric goes, and when a connection is given up.

    The loop looks at its connection once, at its top, and then waits in a select. A connection may
    go down during the wait without the loop noticing. A turn is therefore one select case followed
    by the next pass over the top; what happens outside the loop is a step of its own. */
module Relays {
  import opened DiskLayout
  import opened Options
  import opened Subsequences

  /** What becomes of a metric that the relay received. */
  datatype Fate = ToConn(id: nat) | ToSpool | DropSlowConn | DropSlowSpool | DropNoConn

  /** A metric received, from the spool or from In, and its fate. */
  datatype Receipt = Receipt(unspooled: bool, m: Msg, fate: Fate)

  /** The metrics that met a given fate, in the order in which they were received. */
  function Fated(log: seq<Receipt>, f: Fate): seq<Msg> {
    if log == [] then []
    else
      var last := log[|log| - 1];
      Fated(log[..|log| - 1], f) + if last.fate == f then [last.m] else []
  }

  /** The metrics received from the spool, or those received from In. */
  function Received(log: seq<Receipt>, unspooled: bool): seq<Msg> {
    if log == [] then []
    else
      var last := log[|log| - 1];
      Received(log[..|log| - 1], unspooled) + if last.unspooled == unspooled then [last.m] else []
  }

  lemma LogSnoc(log: seq<Receipt>, r: Receipt, f: Fate, unspooled: bool)
    ensures Fated(log + [r], f) == Fated(log, f) + if r.fate == f then [r.m] else []
    ensures Received(log + [r], unspooled) == Received(log, unspooled) + if r.unspooled == unspooled then [r.m] else []
  {
    assert (log + [r])[..|log|] == log;
  }

  /** The places a metric can be in, and the counters of those dropped. For the channels, what was
      taken out of them and what is still in them. */
  datatype Places = Places(drained: seq<seq<Msg>>, inputs: seq<seq<Msg>>, takenRT: seq<Msg>, inRT: seq<Msg>,
                           slowConn: nat, slowSpool: nat, noConn: nat)
  {
    /** Everything ever queued on a connection. */
    function Sent(id: nat): seq<Msg> {
      if id < |inputs| && id < |drained| then drained[id] + inputs[id] else []
    }

    /** Every metric received is in exactly the place of its fate, each place in order. */
    ghost predicate AccountFor(log: seq<Receipt>) {
      |drained| == |inputs| &&
      (forall id: nat :: Sent(id) == Fated(log, ToConn(id))) &&
      takenRT + inRT == Fated(log, ToSpool) &&
      slowConn == |Fated(log, DropSlowConn)| &&
      slowSpool == |Fated(log, DropSlowSpool)| &&
      noConn == |Fated(log, DropNoConn)|
    }

    function Put(m: Msg, f: Fate): Places
      requires f.ToConn? ==> f.id < |inputs|
    {
      match f
      case ToConn(id) => this.(inputs := inputs[id := inputs[id] + [m]])
      case ToSpool => this.(inRT := inRT + [m])
      case DropSlowConn => this.(slowConn := slowConn + 1)
      case DropSlowSpool => this.(slowSpool := slowSpool + 1)
      case DropNoConn => this.(noConn := noConn + 1)
    }

    /** A connection handed over has not been sent anything. */
    function Open(): Places { this.(drained := drained + [[]], inputs := inputs + [[]]) }

    lemma OpenAccounted(log: seq<Receipt>)
      requires AccountFor(log)
      ensures Open().AccountFor(log) && forall id: nat :: Open().Sent(id) == Sent(id)
    {
      hide Fated;
    }

    /** Recording one more receipt and bringing its place up to date keeps the account. */
    lemma PutAccounted(log: seq<Receipt>, r: Receipt)
      requires AccountFor(log) && (r.fate.ToConn? ==> r.fate.id < |inputs|)
      ensures Put(r.m, r.fate).AccountFor(log + [r])
      ensures forall id: nat :: Put(r.m, r.fate).Sent(id) == Sent(id) + if r.fate == ToConn(id) then [r.m] else []
    {
      forall f
        ensures Fated(log + [r], f) == Fated(log, f) + if r.fate == f then [r.m] else []
      {
        LogSnoc(log, r, f, false);
      }
      hide Fated;
      var after := Put(r.m, r.fate);
      forall id: nat
        ensures after.Sent(id) == Fated(log + [r], ToConn(id))
      {
        if r.fate == ToConn(id) {
          assert after.Sent(id) == Sent(id) + [r.m];
        }
      }
    }
  }

  /** At most one metric was queued, and only on the present connection. */
  ghost predicate AddsOnlyTo(conn: Option<nat>, before: Places, after: Places) {
    |before.inputs| <= |after.inputs| &&
    forall id: nat ::
      before.Sent(id) <= after.Sent(id) && |after.Sent(id)| <= |before.Sent(id)| + if conn == Some(id) then 1 else 0
  }

  datatype Event =
    // outside the loop
    | Die(id: nat)          // a connection goes down, possibly before it is handed over
    | Drain(id: nat)        // a connection's data loop takes a metric from its input
    | SpoolTakes            // the spool's writer takes a realtime metric
    // cases of the select
    | NewConn               // a connection is handed over
    | Ticker                // the reconnect ticker fires
    | Arrive(m: Msg)        // a metric arrives on In
    | Unspool(m: Msg)       // the spool offers a metric
  {
    predicate Outside() { Die? || Drain? || SpoolTakes? }
  }

  /** What is fixed when the relay is set up. */
  datatype Limits = Limits(spooling: bool, connBufSize: nat, spoolBufSize: nat)

  /** The relay as seen over a run. */
  datatype View = View(limits: Limits, log: seq<Receipt>, places: Places, conn: Option<nat>, dead: set<nat>,
                       collected: set<nat>, slowNow: bool, slowLastLoop: bool)
  {
    /** The select listens to the spool only with a connection, and not when it had to drop of late. */
    predicate Listening() { conn.Some? && limits.spooling && !slowLastLoop && !slowNow }

    /** The fate of a metric offered to the connection: it is dropped if the channel is full. */
    function SendFate(): Fate {
      if conn.Some? && conn.value < |places.inputs| && |places.inputs[conn.value]| < limits.connBufSize
      then ToConn(conn.value) else DropSlowConn
    }

    /** The fate of a metric from In. All that counts is the connection the relay believes in. */
    function ArrivalFate(): Fate {
      if conn.Some? then SendFate()
      else if !limits.spooling then DropNoConn
      else if |places.inRT| < limits.spoolBufSize then ToSpool
      else DropSlowSpool
    }

    /** What an event receives. An arriving metric always is; what the spool offers, if listened to. */
    function Entries(e: Event): seq<Receipt> {
      if e.Arrive? then [Receipt(false, e.m, ArrivalFate())]
      else if e.Unspool? && Listening() then [Receipt(true, e.m, SendFate())]
      else []
    }

    /** At the top of the loop a connection found dead is given up for good. */
    function AtTop(): View {
      if conn.Some? && conn.value in dead then this.(conn := None, collected := collected + {conn.value}) else this
    }
  }

  /** A loop that had to drop is slow until the ticker has fired twice, or until a new connection. */
  ghost predicate Paces(slowNow: bool, slowLastLoop: bool, log: seq<Receipt>, e: Event,
                        slowNow': bool, slowLastLoop': bool, log': seq<Receipt>) {
    slowLastLoop' == (if e.NewConn? then false else if e.Ticker? then slowNow else slowLastLoop) &&
    slowNow' == (if e.NewConn? || e.Ticker? then false
                 else slowNow || (log' != [] && log' != log && log'[|log'| - 1].fate == DropSlowConn))
  }

  /** What is taken out of the channels. */
  ghost predicate Drains(v: Places, e: Event, v': Places) {
    v'.drained == (if e.NewConn? then v.drained + [[]]
                   else if e.Drain? && e.id < |v.inputs| && e.id < |v.drained| && v.inputs[e.id] != []
                   then v.drained[e.id := v.drained[e.id] + [v.inputs[e.id][0]]]
                   else v.drained) &&
    v'.takenRT == if e.SpoolTakes? && v.inRT != [] then v.takenRT + [v.inRT[0]] else v.takenRT
  }

  /** What an event does to the relay's state. */
  ghost predicate Handles(v: View, e: Event, v': View) {
    v'.conn == (if e.NewConn? then Some(|v.places.inputs|) else v.conn) && v'.collected == v.collected &&
    v'.dead == v.dead + (if e.Die? then {e.id} else if e.NewConn? && v.conn.Some? then {v.conn.value} else {}) &&
    v'.limits == v.limits && v'.log == v.log + v.Entries(e) &&
    Paces(v.slowNow, v.slowLastLoop, v.log, e, v'.slowNow, v'.slowLastLoop, v'.log) &&
    Drains(v.places, e, v'.places) &&
    AddsOnlyTo(v.conn, v.places, v'.places) &&
    |v'.places.inputs| == |v.places.inputs| + (if e.NewConn? then 1 else 0) &&
    (e.Outside() ==> forall id: nat :: v'.places.Sent(id) == v.places.Sent(id))
  }

  /** What a turn does: one event, and the top of the loop unless it is an outside one. */
  ghost predicate Follows(v: View, e: Event, v': View) {
    exists mid :: Handles(v, e, mid) && v' == if e.Outside() then mid else mid.AtTop()
  }

  class Relay {
    const spooling: bool
    const connBufSize: nat
    const spoolBufSize: nat
    var conn: Option<nat>               // the connection believed to be valid
    var inputs: seq<seq<Msg>>           // the input channel of every connection, in the order they were handed over
    var dead: set<nat>                  // connections that are down
    var collected: set<nat>             // connections given up: redo collected or cleared
    var inRT: seq<Msg>                  // the spool's realtime input
    var online: bool
    var slowNow: bool
    var slowLastLoop: bool
    var unspooling: bool                // the select listens to the spool
    var numDropSlowConn: nat
    var numDropSlowSpool: nat
    var numDropNoConn: nat
    ghost var drained: seq<seq<Msg>>    // everything ever taken from each input channel
    ghost var takenRT: seq<Msg>         // everything ever taken from the spool's input
    ghost var log: seq<Receipt>

    ghost function Stock(): Places reads this {
      Places(drained, inputs, takenRT, inRT, numDropSlowConn, numDropSlowSpool, numDropNoConn)
    }

    ghost function Now(): View reads this {
      View(Limits(spooling, connBufSize, spoolBufSize), log, Stock(), conn, dead, collected, slowNow, slowLastLoop)
    }

    /** Everything ever queued on a connection. */
    ghost function Sent(id: nat): seq<Msg> reads this { Stock().Sent(id) }

    ghost predicate Wellformed() reads this {
      |drained| == |inputs| && online == conn.Some? &&
      (conn.Some? ==> conn.value < |inputs| && conn.value !in collected) &&
      (forall id :: id in collected ==> id < |inputs| && id in dead)
    }

    ghost predicate WithinCapacity() reads this {
      (forall id :: 0 <= id < |inputs| ==> |inputs[id]| <= connBufSize) && |inRT| <= spoolBufSize
    }

    /** The relay waits in its select. */
    ghost predicate Valid() reads this {
      Wellformed() && WithinCapacity() && Stock().AccountFor(log) &&
      unspooling == Now().Listening()
    }

    constructor (spooling: bool, connBufSize: nat, spoolBufSize: nat)
      ensures Valid() && log == [] && inputs == [] && conn.None?
      ensures dead == {} && collected == {}
    {
      this.spooling, this.connBufSize, this.spoolBufSize := spooling, connBufSize, spoolBufSize;
      conn, inputs, dead, collected, inRT := None, [], {}, {}, [];
      online, slowNow, slowLastLoop, unspooling := false, false, false, false;
      numDropSlowConn, numDropSlowSpool, numDropNoConn := 0, 0, 0;
      drained, takenRT, log := [], [], [];
    }

    /** A metric is queued unless the channel is full; then it is dropped and the loop is slow. */
    method NonBlockingSend(buf: Msg, ghost unspooled: bool)
      requires Wellformed() && WithinCapacity() && Stock().AccountFor(log) && conn.Some?
      modifies this`inputs, this`slowNow, this`numDropSlowConn, this`log
      ensures Wellformed() && WithinCapacity() && Stock().AccountFor(log)
      ensures log == old(log) + [Receipt(unspooled, buf, old(Now().SendFate()))]
      ensures slowNow == (old(slowNow) || old(Now().SendFate()) == DropSlowConn)
      ensures AddsOnlyTo(conn, old(Stock()), Stock())
    {
      hide Fated, Places.AccountFor, Places.Sent, AddsOnlyTo;
      if |inputs[conn.value]| < connBufSize {
        Enqueue(buf, unspooled);
      } else {
        DropSlow(buf, unspooled);
      }
    }

    method Enqueue(buf: Msg, ghost unspooled: bool)
      requires Wellformed() && WithinCapacity() && Stock().AccountFor(log) && conn.Some?
      requires |inputs[conn.value]| < connBufSize
      modifies this`inputs, this`log
      ensures Wellformed() && WithinCapacity() && Stock().AccountFor(log)
      ensures log == old(log) + [Receipt(unspooled, buf, ToConn(conn.value))]
      ensures AddsOnlyTo(conn, old(Stock()), Stock())
    {
      Stock().PutAccounted(log, Receipt(unspooled, buf, ToConn(conn.value)));
      hide Fated, Places.AccountFor;
      inputs := inputs[conn.value := inputs[conn.value] + [buf]];
      log := log + [Receipt(unspooled, buf, ToConn(conn.value))];
    }

    method DropSlow(buf: Msg, ghost unspooled: bool)
      requires Wellformed() && WithinCapacity() && Stock().AccountFor(log)
      modifies this`slowNow, this`numDropSlowConn, this`log
      ensures Wellformed() && WithinCapacity() && Stock().AccountFor(log)
      ensures log == old(log) + [Receipt(unspooled, buf, DropSlowConn)] && slowNow
      ensures AddsOnlyTo(conn, old(Stock()), Stock())
    {
      Stock().PutAccounted(log, Receipt(unspooled, buf, DropSlowConn));
      hide Fated, Places.AccountFor;
      numDropSlowConn := numDropSlowConn + 1;
      slowNow := true;
      log := log + [Receipt(unspooled, buf, DropSlowConn)];
    }

    /** A metric goes to the spool unless its input is full; then it is dropped. */
    method NonBlockingSpool(buf: Msg)
      requires Wellformed() && WithinCapacity() && Stock().AccountFor(log) && conn.None? && spooling
      modifies this`inRT, this`numDropSlowSpool, this`log
      ensures Wellformed() && WithinCapacity() && Stock().AccountFor(log)
      ensures log == old(log) + [Receipt(false, buf, old(Now().ArrivalFate()))]
    {
      ghost var r := Receipt(false, buf, Now().ArrivalFate());
      Stock().PutAccounted(log, r);
      hide Fated;
      if |inRT| < spoolBufSize {
        inRT := inRT + [buf];
      } else {
        numDropSlowSpool := numDropSlowSpool + 1;
      }
      log := log + [r];
    }

    /** The case of the select that receives from In. */
    method Dispatch(buf: Msg)
      requires Wellformed() && WithinCapacity() && Stock().AccountFor(log)
      modifies this`inputs, this`slowNow, this`numDropSlowConn, this`inRT, this`numDropSlowSpool,
               this`numDropNoConn, this`log
      ensures Wellformed() && WithinCapacity() && Stock().AccountFor(log)
      ensures log == old(log) + [Receipt(false, buf, old(Now().ArrivalFate()))]
      ensures slowNow == (old(slowNow) || old(Now().ArrivalFate()) == DropSlowConn)
      ensures AddsOnlyTo(conn, old(Stock()), Stock())
    {
      if conn.Some? {
        NonBlockingSend(buf, false);
      } else if spooling {
        NonBlockingSpool(buf);
      } else {
        ghost var r := Receipt(false, buf, Now().ArrivalFate());
        Stock().PutAccounted(log, r);
        hide Fated;
        numDropNoConn := numDropNoConn + 1;
        log := log + [r];
      }
    }

    /** A new connection takes the place of the present one, which is closed. */
    method Connect()
      requires Wellformed() && WithinCapacity() && Stock().AccountFor(log)
      modifies this`conn, this`inputs, this`drained, this`dead, this`online, this`slowNow, this`slowLastLoop
      ensures Wellformed() && WithinCapacity() && Stock().AccountFor(log)
      ensures conn == Some(|old(inputs)|) && Stock() == old(Stock().Open())
      ensures !slowNow && !slowLastLoop
      ensures dead == if old(conn.Some?) then old(dead) + {old(conn.value)} else old(dead)
    {
      CloseConn();
      HandOver();
      hide Places.AccountFor, Places.Sent, Places.Open;
      slowLastLoop, slowNow := false, false;
    }

    method HandOver()
      requires Wellformed() && WithinCapacity() && Stock().AccountFor(log)
      modifies this`conn, this`inputs, this`drained, this`online
      ensures Wellformed() && WithinCapacity() && Stock().AccountFor(log)
      ensures conn == Some(|old(inputs)|) && Stock() == old(Stock().Open())
    {
      Stock().OpenAccounted(log);
      hide Places.AccountFor, Places.Sent;
      conn := Some(|inputs|);
      inputs, drained := inputs + [[]], drained + [[]];
      online := true;
    }

    method CloseConn()
      requires Wellformed()
      modifies this`dead
      ensures Wellformed() && dead == if conn.Some? then old(dead) + {conn.value} else old(dead)
    {
      if conn.Some? {
        dead := dead + {conn.value};
      }
    }

    /** The top of the loop: a connection found dead is given up for good, and the spool is read
        only when there is a connection and nothing had to be dropped in a while. */
    method Top()
      requires Wellformed() && WithinCapacity() && Stock().AccountFor(log)
      modifies this`conn, this`online, this`collected, this`unspooling
      ensures Valid()
      ensures Now() == old(Now()).AtTop()
    {
      hide Fated;
      if conn.Some? && conn.value in dead {
        online := false;
        collected := collected + {conn.value};
        conn := None;
      }
      unspooling := conn.Some? && spooling && !slowLastLoop && !slowNow;
    }

    /** One case of the select. A case that is not enabled is not taken. */
    method Select(e: Event)
      requires Valid() && !e.Outside()
      modifies this`conn, this`inputs, this`drained, this`dead, this`online, this`slowNow, this`slowLastLoop,
               this`inRT, this`numDropSlowConn, this`numDropSlowSpool, this`numDropNoConn, this`log
      ensures Wellformed() && WithinCapacity() && Stock().AccountFor(log)
      ensures Handles(old(Now()), e, Now())
    {
      hide Fated, Places.AccountFor;
      match e
      case NewConn =>
        Stock().OpenAccounted(log);
        Connect();
      case Ticker => slowLastLoop, slowNow := slowNow, false;
      case Unspool(m) =>
        if unspooling {
          NonBlockingSend(m, true);
        }
      case Arrive(m) => Dispatch(m);
    }

    /** A data loop takes a metric from its input. */
    method TakeInput(id: nat)
      requires Valid()
      modifies this`inputs, this`drained
      ensures Valid() && Handles(old(Now()), Drain(id), Now())
    {
      hide Fated;
      if id < |inputs| && inputs[id] != [] {
        assert drained[id] + [inputs[id][0]] + inputs[id][1..] == drained[id] + inputs[id];
        drained := drained[id := drained[id] + [inputs[id][0]]];
        inputs := inputs[id := inputs[id][1..]];
      }
    }

    /** The spool's writer takes a metric. */
    method TakeRT()
      requires Valid()
      modifies this`inRT, this`takenRT
      ensures Valid() && Handles(old(Now()), SpoolTakes, Now())
    {
      hide Fated;
      if inRT != [] {
        assert takenRT + [inRT[0]] + inRT[1..] == takenRT + inRT;
        takenRT := takenRT + [inRT[0]];
        inRT := inRT[1..];
      }
    }

    /** A step outside the loop. It moves metrics out of channels and changes nothing the loop knows. */
    method Environment(e: Event)
      requires Valid() && e.Outside()
      modifies this`inputs, this`drained, this`dead, this`inRT, this`takenRT
      ensures Valid() && Handles(old(Now()), e, Now())
    {
      hide Fated, Places.AccountFor, Places.Sent;
      match e
      case Die(id) => dead := dead + {id};
      case Drain(id) => TakeInput(id);
      case SpoolTakes => TakeRT();
    }

    /** From one select to the next. */
    method Iterate(e: Event)
      requires Valid() && !e.Outside()
      modifies this
      ensures Valid() && Follows(old(Now()), e, Now())
    {
      Select(e);
      hide Fated, Places.AccountFor, Places.Sent, Handles;
      Top();
    }

    /** An iteration of the loop, or a step outside it. */
    method Turn(e: Event)
      requires Valid()
      modifies this
      ensures Valid() && Follows(old(Now()), e, Now())
    {
      hide Fated, Places.AccountFor, Places.Sent, Handles;
      if e.Outside() {
        Environment(e);
      } else {
        Iterate(e);
      }
    }
  }

  // ---------------------------------------------------------------- whole runs

  /** The metrics that arrive on In during a run. */
  function Arrivals(script: seq<Event>): seq<Msg> {
    if script == [] then []
    else
      var last := script[|script| - 1];
      Arrivals(script[..|script| - 1]) + if last.Arrive? then [last.m] else []
  }

  /** The metrics that the spool offers during a run. */
  function Offers(script: seq<Event>): seq<Msg> {
    if script == [] then []
    else
      var last := script[|script| - 1];
      Offers(script[..|script| - 1]) + if last.Unspool? then [last.m] else []
  }

  lemma ScriptSnoc(script: seq<Event>, i: nat)
    requires i < |script|
    ensures Arrivals(script[..i + 1]) == Arrivals(script[..i]) + if script[i].Arrive? then [script[i].m] else []
    ensures Offers(script[..i + 1]) == Offers(script[..i]) + if script[i].Unspool? then [script[i].m] else []
  {
    assert script[..i + 1][..i] == script[..i];
  }

  /** What has been received, compared with what has been offered. */
  ghost predicate Receives(log: seq<Receipt>, script: seq<Event>, log': seq<Receipt>) {
    Received(log', false) == Received(log, false) + Arrivals(script) &&
    Received(log, true) <= Received(log', true) &&
    IsSubsequence(Received(log', true)[|Received(log, true)|..], Offers(script))
  }

  /** What a turn adds to what has been received from either side. */
  lemma EntriesAdd(v: View, e: Event)
    ensures Received(v.log + v.Entries(e), false) == Received(v.log, false) + if e.Arrive? then [e.m] else []
    ensures Received(v.log + v.Entries(e), true) == Received(v.log, true) + if e.Unspool? && v.Listening() then [e.m] else []
  {
    if v.Entries(e) == [] {
      assert v.log + [] == v.log;
    } else {
      LogSnoc(v.log, v.Entries(e)[0], ToSpool, false);
      LogSnoc(v.log, v.Entries(e)[0], ToSpool, true);
      assert v.Entries(e) == [v.Entries(e)[0]];
    }
  }

  lemma ReceivesTurn(log: seq<Receipt>, script: seq<Event>, i: nat, v: View)
    requires i < |script| && Receives(log, script[..i], v.log)
    ensures Receives(log, script[..i + 1], v.log + v.Entries(script[i]))
  {
    ScriptSnoc(script, i);
    EntriesAdd(v, script[i]);
    OfferTaken(Received(log, true), Received(v.log, true), Offers(script[..i]), script[i], v.Listening());
    hide Received, Arrivals, Offers, IsSubsequence;
  }

  lemma OfferTaken(first: seq<Msg>, was: seq<Msg>, offers: seq<Msg>, e: Event, accepted: bool)
    requires first <= was && IsSubsequence(was[|first|..], offers)
    ensures var now := was + if e.Unspool? && accepted then [e.m] else [];
            first <= now && IsSubsequence(now[|first|..], offers + if e.Unspool? then [e.m] else [])
  {
    if e.Unspool? {
      SubsequenceMore(was[|first|..], offers, e.m);
      assert (was + [e.m])[|first|..] == was[|first|..] + [e.m];
      assert was + [] == was;
    } else {
      assert was + [] == was && offers + [] == offers;
    }
  }

  /** Between two moments, nothing queued on a connection is gone, and something is added only to
      the connection that was present at the first; if it was down already, at most one metric, and
      the connection is then no longer present. */
  ghost predicate Sealed(v: View, v': View) {
    |v.places.inputs| <= |v'.places.inputs| && v.dead <= v'.dead && v.collected <= v'.collected &&
    forall id: nat :: id < |v.places.inputs| ==>
      var before, after := v.places.Sent(id), v'.places.Sent(id);
      before <= after &&
      (v.conn != Some(id) ==> after == before && v'.conn != Some(id)) &&
      (id in v.dead ==> |after| <= |before| + if v'.conn == Some(id) then 0 else 1)
  }

  lemma SealedTurn(v0: View, v: View, e: Event, v': View)
    requires Sealed(v0, v) && Follows(v, e, v')
    ensures Sealed(v0, v')
  {
    forall id: nat | id < |v0.places.inputs|
      ensures var before, after := v0.places.Sent(id), v'.places.Sent(id);
              before <= after &&
              (v0.conn != Some(id) ==> after == before && v'.conn != Some(id)) &&
              (id in v0.dead ==> |after| <= |before| + if v'.conn == Some(id) then 0 else 1)
    {
      assert v.places.Sent(id) <= v'.places.Sent(id);
    }
  }

  /** The views of a relay between the events of a run. Each follows from the one before. */
  ghost predicate Trace(views: seq<View>, script: seq<Event>) {
    |views| == |script| + 1 && forall i :: 0 <= i < |script| ==> StepAt(views, script, i)
  }

  ghost predicate StepAt(views: seq<View>, script: seq<Event>, i: nat)
    requires i < |script| && i + 1 < |views|
  {
    Follows(views[i], script[i], views[i + 1])
  }

  lemma TraceSnoc(views: seq<View>, script: seq<Event>, i: nat, v: View)
    requires i < |script| && Trace(views, script[..i]) && Follows(views[i], script[i], v)
    ensures Trace(views + [v], script[..i + 1])
  {
    hide Follows;
    var views', script' := views + [v], script[..i + 1];
    forall k | 0 <= k < i + 1
      ensures StepAt(views', script', k)
    {
      assert k < i ==> StepAt(views, script[..i], k);
    }
  }

  /** What a trace receives. */
  lemma {:induction false} TraceReceives(views: seq<View>, script: seq<Event>, n: nat)
    requires Trace(views, script) && n <= |script|
    ensures Receives(views[0].log, script[..n], views[n].log)
  {
    if n == 0 {
      NothingReceived(views[0].log);
    } else {
      TraceReceives(views, script, n - 1);
      ReceivesTurn(views[0].log, script, n - 1, views[n - 1]);
      assert StepAt(views, script, n - 1);
      hide Receives;
    }
  }

  lemma {:induction false} TraceSealed(views: seq<View>, script: seq<Event>, n: nat)
    requires Trace(views, script) && n <= |script|
    ensures Sealed(views[0], views[n])
  {
    if n > 0 {
      TraceSealed(views, script, n - 1);
      assert StepAt(views, script, n - 1);
      SealedTurn(views[0], views[n - 1], script[n - 1], views[n]);
    }
  }

  /** A fate that the state before allows: a metric is dropped only where it has no way to go. */
  predicate Justified(v: View, f: Fate) {
    match f
    case ToConn(id) => v.conn == Some(id) && id < |v.places.inputs| && |v.places.inputs[id]| < v.limits.connBufSize
    case DropSlowConn => v.conn.Some? && (v.conn.value < |v.places.inputs| ==>
                                            |v.places.inputs[v.conn.value]| >= v.limits.connBufSize)
    case ToSpool => v.conn.None? && v.limits.spooling && |v.places.inRT| < v.limits.spoolBufSize
    case DropSlowSpool => v.conn.None? && v.limits.spooling && |v.places.inRT| >= v.limits.spoolBufSize
    case DropNoConn => v.conn.None? && !v.limits.spooling
  }

  lemma JustifiedTurn(v: View, e: Event, v': View)
    requires Follows(v, e, v')
    ensures v.log <= v'.log && |v'.log| <= |v.log| + 1
    ensures |v'.log| > |v.log| ==> v'.log == v.log + v.Entries(e) && Justified(v, v'.log[|v.log|].fate)
  {
  }

  /** Every metric that a trace receives has a fate that the view at that moment justifies. */
  lemma {:induction false} TraceJustified(views: seq<View>, script: seq<Event>, n: nat, k: nat) returns (i: nat)
    requires Trace(views, script) && n <= |script| && |views[0].log| <= k < |views[n].log|
    ensures i < n && k == |views[i].log| && views[i + 1].log == views[i].log + views[i].Entries(script[i])
    ensures views[i + 1].log <= views[n].log && Justified(views[i], views[n].log[k].fate)
  {
    assert StepAt(views, script, n - 1);
    JustifiedTurn(views[n - 1], script[n - 1], views[n]);
    hide Follows, Justified, View.Entries;
    if k < |views[n - 1].log| {
      i := TraceJustified(views, script, n - 1, k);
    } else {
      i := n - 1;
    }
  }

  /** Nothing is dropped for want of a connection while there is a spool, and nothing is spooled or
      dropped at a spool that is not there. */
  lemma TraceRightKind(views: seq<View>, script: seq<Event>, n: nat, k: nat)
    requires Trace(views, script) && n <= |script| && |views[0].log| <= k < |views[n].log|
    ensures var f := views[n].log[k].fate;
            if views[0].limits.spooling then !f.DropNoConn? else !f.ToSpool? && !f.DropSlowSpool?
  {
    var i := TraceJustified(views, script, n, k);
    SameLimits(views, script, i);
    hide Trace;
  }

  // ---------------------------------------------------------------- what becomes of a connection

  /** What a turn of the loop does to the connection it has, or is handed: if it is down when the turn
      ends, its redo data is collected and it is not used any more; otherwise it stays. */
  lemma TurnCollects(v: View, e: Event, v': View)
    requires Follows(v, e, v') && !e.Outside()
    ensures e.NewConn? ==> var id := |v.places.inputs|;
                           if id in v'.dead then id in v'.collected && v'.conn.None? else v'.conn == Some(id)
    ensures !e.NewConn? && v.conn.Some? ==>
              if v.conn.value in v'.dead then v.conn.value in v'.collected && v'.conn.None? else v'.conn == v.conn
    ensures !e.NewConn? && v.conn.None? ==> v'.conn.None?
  {
  }

  lemma OutsideKeeps(v: View, e: Event, v': View)
    requires Follows(v, e, v')
    ensures e.Outside() ==> v'.conn == v.conn && v'.collected == v.collected
    ensures v.collected <= v'.collected && |v'.places.inputs| == |v.places.inputs| + if e.NewConn? then 1 else 0
  {
  }

  /** Before event `n`, a new connection took the place of connection `id`. */
  ghost predicate Replaced(views: seq<View>, script: seq<Event>, n: nat, id: nat)
    requires n <= |script| && n < |views|
  {
    exists i :: 0 <= i < n && script[i].NewConn? && views[i].conn == Some(id)
  }

  /** Every connection ever handed over is the present one, or was replaced, or has been collected. */
  lemma {:induction false} TraceCollects(views: seq<View>, script: seq<Event>, n: nat, id: nat)
    requires Trace(views, script) && n <= |script| && id < |views[n].places.inputs|
    requires id < |views[0].places.inputs| ==> views[0].conn == Some(id) || id in views[0].collected
    ensures views[n].conn == Some(id) || id in views[n].collected || Replaced(views, script, n, id)
  {
    if n > 0 {
      assert StepAt(views, script, n - 1);
      KeptOrCollected(views[n - 1], script[n - 1], views[n], id);
      hide Follows;
      if id < |views[n - 1].places.inputs| {
        TraceCollects(views, script, n - 1, id);
        hide Trace;
        assert Replaced(views, script, n - 1, id) ==> Replaced(views, script, n, id);
      }
    }
  }

  lemma KeptOrCollected(v: View, e: Event, v': View, id: nat)
    requires Follows(v, e, v') && id < |v'.places.inputs|
    ensures if id >= |v.places.inputs| then v'.conn == Some(id) || id in v'.collected
            else (id in v.collected ==> id in v'.collected) &&
                 (v.conn == Some(id) ==> v'.conn == Some(id) || id in v'.collected || e.NewConn?)
  {
    OutsideKeeps(v, e, v');
    if !e.Outside() {
      TurnCollects(v, e, v');
    }
    hide Follows;
  }

  // ---------------------------------------------------------------- when the spool is read

  /** Event `i` had a metric dropped for slowness. */
  predicate DropAt(views: seq<View>, i: nat)
    requires i + 1 < |views|
  {
    var log := views[i + 1].log;
    log != views[i].log && log != [] && log[|log| - 1].fate == DropSlowConn
  }

  ghost predicate DroppedIn(views: seq<View>, from: nat, to: nat)
    requires to < |views|
  {
    exists i :: from <= i < to && DropAt(views, i)
  }

  /** The position after the last tick but `k` before event `n`, or after the last new connection if that
      is later. */
  function Window(script: seq<Event>, n: nat, k: nat): (w: nat)
    requires n <= |script|
    ensures w <= n
    decreases n
  {
    if n == 0 then 0
    else if script[n - 1].NewConn? then n
    else if script[n - 1].Ticker? then if k == 0 then n else Window(script, n - 1, k - 1)
    else Window(script, n - 1, k)
  }

  lemma TurnPaces(views: seq<View>, script: seq<Event>, i: nat)
    requires Trace(views, script) && i < |script|
    ensures var e, v, v' := script[i], views[i], views[i + 1];
            v'.slowNow == (!e.NewConn? && !e.Ticker? && (v.slowNow || DropAt(views, i))) &&
            v'.slowLastLoop == (!e.NewConn? && if e.Ticker? then v.slowNow else v.slowLastLoop) &&
            (e.Ticker? ==> !DropAt(views, i))
  {
    assert StepAt(views, script, i);
    assert views[i].log + [] == views[i].log;
  }

  lemma OneMoreDrop(views: seq<View>, from: nat, n: nat)
    requires from <= n && n + 1 < |views|
    ensures DroppedIn(views, from, n + 1) <==> DroppedIn(views, from, n) || DropAt(views, n)
  {
    hide DropAt;
  }

  /** The slow flags say whether a metric was dropped since the last tick, and whether one was between
      the last two. */
  lemma {:induction false} TracePaces(views: seq<View>, script: seq<Event>, n: nat)
    requires Trace(views, script) && n <= |script| && !views[0].slowNow && !views[0].slowLastLoop
    ensures views[n].slowNow <==> DroppedIn(views, Window(script, n, 0), n)
    ensures views[n].slowLastLoop <==> DroppedIn(views, Window(script, n, 1), Window(script, n, 0))
  {
    NoneDropped(views, n);
    if n > 0 {
      TracePaces(views, script, n - 1);
      TurnPaces(views, script, n - 1);
      WindowStep(script, n);
      OneMoreDrop(views, Window(script, n - 1, 0), n - 1);
      hide Window, DroppedIn, DropAt, Trace;
    }
  }

  lemma WindowStep(script: seq<Event>, n: nat)
    requires 0 < n <= |script|
    ensures var e := script[n - 1];
            Window(script, n, 0) == (if e.NewConn? || e.Ticker? then n else Window(script, n - 1, 0)) &&
            Window(script, n, 1) == if e.NewConn? then n else Window(script, n - 1, if e.Ticker? then 0 else 1)
  {
  }

  lemma NoneDropped(views: seq<View>, n: nat)
    requires n < |views|
    ensures !DroppedIn(views, n, n) && !DroppedIn(views, 0, 0)
  {
  }

  /** The spool is read exactly while there is a connection and nothing had to be dropped for slowness
      since the last tick but one, or since the connection was new. */
  lemma TraceUnspools(views: seq<View>, script: seq<Event>, i: nat)
    requires Trace(views, script) && i < |script| && script[i].Unspool?
    requires !views[0].slowNow && !views[0].slowLastLoop
    ensures views[i + 1].log != views[i].log <==>
              views[0].limits.spooling && views[i].conn.Some? && !DroppedIn(views, Window(script, i, 1), i)
    ensures views[i + 1].log == views[i].log ||
            (|views[i + 1].log| == |views[i].log| + 1 && views[i + 1].log[|views[i].log|].m == script[i].m &&
             views[i + 1].log[|views[i].log|].unspooled)
  {
    TracePaces(views, script, i);
    SameLimits(views, script, i);
    assert StepAt(views, script, i);
    WindowSplit(script, i);
    SplitDrops(views, Window(script, i, 1), Window(script, i, 0), i);
    UnspoolTurn(views[i], script[i], views[i + 1]);
    hide Follows, DroppedIn;
  }

  lemma UnspoolTurn(v: View, e: Event, v': View)
    requires Follows(v, e, v') && e.Unspool?
    ensures v'.log != v.log <==> v.limits.spooling && v.conn.Some? && !v.slowNow && !v.slowLastLoop
    ensures v'.log == v.log || (|v'.log| == |v.log| + 1 && v'.log[|v.log|].m == e.m && v'.log[|v.log|].unspooled)
  {
    assert v.Entries(e) == [] ==> v.log + v.Entries(e) == v.log;
  }

  lemma {:induction false} WindowSplit(script: seq<Event>, n: nat)
    requires n <= |script|
    ensures Window(script, n, 1) <= Window(script, n, 0)
    decreases n
  {
    if n > 0 && !script[n - 1].NewConn? && !script[n - 1].Ticker? {
      WindowSplit(script, n - 1);
    }
  }

  lemma SplitDrops(views: seq<View>, a: nat, b: nat, c: nat)
    requires a <= b <= c < |views|
    ensures DroppedIn(views, a, c) <==> DroppedIn(views, a, b) || DroppedIn(views, b, c)
  {
  }

  lemma {:induction false} SameLimits(views: seq<View>, script: seq<Event>, n: nat)
    requires Trace(views, script) && n <= |script|
    ensures views[n].limits == views[0].limits
  {
    if n > 0 {
      SameLimits(views, script, n - 1);
      assert StepAt(views, script, n - 1);
    }
  }

  /** A connection handed over later, or the present one, or one collected already. */
  predicate Tracked(v: View, id: nat) { |v.places.inputs| <= id || id in v.collected || v.conn == Some(id) }

  lemma TraceCollectsAll(views: seq<View>, script: seq<Event>)
    requires Trace(views, script)
    ensures forall id: nat :: id < |views[|script|].places.inputs| && Tracked(views[0], id) ==>
              views[|script|].conn == Some(id) || id in views[|script|].collected || Replaced(views, script, |script|, id)
  {
    forall id: nat | id < |views[|script|].places.inputs| && Tracked(views[0], id)
      ensures views[|script|].conn == Some(id) || id in views[|script|].collected || Replaced(views, script, |script|, id)
    {
      TraceCollects(views, script, |script|, id);
    }
  }

  /** Over any run: every metric that arrives on In is received, in order, and so is some of what the
      spool offers. Each is in exactly one place, in order, or in exactly one drop counter. Nothing is
      queued on a connection that has been given up or replaced, which is what collecting its redo
      data relies on, and at most one metric on a connection after it went down. The trace has every
      turn, so each fate is the one that `TraceJustified` says. Every connection handed over is the
      present one at the end, or has been replaced, or has been given to the collection of its redo
      data. */
  method Run(r: Relay, script: seq<Event>) returns (ghost views: seq<View>)
    requires r.Valid()
    modifies r
    ensures r.Valid()
    ensures Trace(views, script) && views[0] == old(r.Now()) && views[|script|] == r.Now()
    ensures Receives(old(r.log), script, r.log)
    ensures Sealed(old(r.Now()), r.Now())
    ensures forall id :: id in old(r.collected) ==> r.Sent(id) == old(r.Sent(id))
    ensures forall id: nat :: id < |r.inputs| && Tracked(old(r.Now()), id) ==>
              r.conn == Some(id) || id in r.collected || Replaced(views, script, |script|, id)
  {
    ghost var first := r.Now();
    assert first.conn.Some? ==> first.conn.value !in first.collected;
    assert forall id :: id in first.collected ==> id < |first.places.inputs|;
    views := RunFrom(r, script);
    TraceReceives(views, script, |script|);
    TraceSealed(views, script, |script|);
    TraceCollectsAll(views, script);
    assert script[..|script|] == script;
    hide Trace, Receives, Replaced, Tracked;
  }

  method RunFrom(r: Relay, script: seq<Event>) returns (ghost views: seq<View>)
    requires r.Valid()
    modifies r
    ensures r.Valid()
    ensures Trace(views, script) && views[0] == old(r.Now()) && views[|script|] == r.Now()
  {
    views := [r.Now()];
    for i := 0 to |script|
      invariant r.Valid() && |views| == i + 1
      invariant Trace(views, script[..i]) && views[0] == old(r.Now()) && views[i] == r.Now()
    {
      hide Relay.Valid, Follows, Trace, Relay.Now;
      r.Turn(script[i]);
      TraceSnoc(views, script, i, r.Now());
      views := views + [r.Now()];
    }
    assert script[..|script|] == script;
  }

  lemma NothingReceived(log: seq<Receipt>)
    ensures Receives(log, [], log)
  {
    assert Received(log, true) + [] == Received(log, true);
    assert IsSubsequence<Msg>([], Offers([]));
  }
}
