/** The spool in front of the disk queue: a writer that merges realtime and bulk input, a buffer,
    the disk queue itself, and a slow channel that paces what comes out. */
module Spools {
  import opened DiskLayout
  import opened Options
  import opened DiskDamage
  import opened DiskDurability
  import opened DiskReaders
  import opened DiskQueues
  import opened Subsequences
  import DiskRuns

  datatype Source = Realtime | Bulk
  datatype Tagged = Tagged(source: Source, msg: Msg)

  function Msgs(ts: seq<Tagged>): seq<Msg> {
    seq(|ts|, i requires 0 <= i < |ts| => ts[i].msg)
  }

  /** What one source contributed, in order. */
  function From(ts: seq<Tagged>, source: Source): seq<Msg> {
    if ts == [] then []
    else
      var last := ts[|ts| - 1];
      From(ts[..|ts| - 1], source) + if last.source == source then [last.msg] else []
  }

  /** `s` is made of `rt` and `bulk`, each in its own order. */
  ghost predicate Interleaving(s: seq<Msg>, rt: seq<Msg>, bulk: seq<Msg>) {
    exists ts :: Msgs(ts) == s && From(ts, Realtime) == rt && From(ts, Bulk) == bulk
  }

  lemma FromSnoc(ts: seq<Tagged>, t: Tagged)
    ensures From(ts + [t], Realtime) == From(ts, Realtime) + (if t.source == Realtime then [t.msg] else [])
    ensures From(ts + [t], Bulk) == From(ts, Bulk) + (if t.source == Bulk then [t.msg] else [])
    ensures Msgs(ts + [t]) == Msgs(ts) + [t.msg]
  {
    assert (ts + [t])[..|ts|] == ts;
  }

  function Opt(o: Option<Msg>): seq<Msg> { if o.Some? then [o.value] else [] }

  /** The five places a message passes on its way out, the one nearest the consumer first. */
  function Pipeline(slow: seq<Msg>, disk: seq<Msg>, storing: seq<Msg>, buffer: seq<Msg>, writing: seq<Msg>): seq<Msg> {
    slow + disk + storing + buffer + writing
  }

  /** Moving a message from one place to the next changes nothing. */
  lemma PipelineMoves(a: seq<Msg>, b: seq<Msg>, c: seq<Msg>, d: seq<Msg>, e: seq<Msg>, m: Msg)
    ensures Pipeline([], [m] + b, c, d, e) == Pipeline([m], b, c, d, e)
    ensures Pipeline(a, b, [m], d, e) == Pipeline(a, b + [m], [], d, e)
    ensures Pipeline(a, b, [], [m] + d, e) == Pipeline(a, b, [m], d, e)
    ensures Pipeline(a, b, c, d, [m]) == Pipeline(a, b, c, d + [m], [])
    ensures Pipeline(a, b, [], [], [m]) == Pipeline(a, b, [m], [], [])
    ensures Pipeline(a, b, c, d, []) + [m] == Pipeline(a, b, c, d, [m])
    ensures Pipeline([m], b, c, d, e) == [m] + Pipeline([], b, c, d, e)
  {
  }

  /** The environment: an input arrives, one of the stages moves on, the consumer receives. */
  datatype Event =
    | Input(t: Tagged)  // the writer takes a message from one of its inputs
    | Push              // ... and hands it to the queue buffer
    | Take              // the buffer loop receives from the queue buffer
    | Store             // ... and puts it into the disk queue
    | Unspool           // the disk queue sends to the slow channel
    | Tick              // the disk queue's sync ticker fires
    | Receive           // the consumer receives from Out

  /** Where the messages are that have been taken and not yet received. */
  datatype Stages = Stages(writing: Option<Msg>, buffer: seq<Msg>, storing: Option<Msg>, disk: seq<Msg>, slow: Option<Msg>)
  {
    /** What an event moves, in front of a queue buffer of this size. A step that is not enabled moves
        nothing: the writer holds one message at a time, a full buffer blocks it, and a buffer of size 0
        hands over directly to the loop behind it. */
    ghost function After(e: Event, size: nat): Stages {
      match e
      case Input(t) => if writing.None? then this.(writing := Some(t.msg)) else this
      case Push =>
        if writing.None? then this
        else if |buffer| < size then this.(writing := None, buffer := buffer + [writing.value])
        else if size == 0 && storing.None? then this.(writing := None, storing := writing)
        else this
      case Take =>
        if storing.None? && buffer != [] then this.(storing := Some(buffer[0]), buffer := buffer[1..]) else this
      case Store => if storing.Some? then this.(storing := None, disk := disk + [storing.value]) else this
      case Unspool => if slow.None? && disk != [] then this.(slow := Some(disk[0]), disk := disk[1..]) else this
      case Tick => this
      case Receive => this.(slow := None)
    }
  }

  class Spool {
    const queue: DiskQueue
    const bufSize: nat
    var writing: Option<Msg>       // held by the writer loop
    var queueBuffer: seq<Msg>
    var storing: Option<Msg>       // held by the buffer loop
    var slow: Option<Msg>          // held by the slow channel
    ghost const leftover: seq<Msg> // what the disk queue held at first
    ghost var taken: seq<Tagged>   // everything taken from the inputs so far
    ghost var out: seq<Msg>        // everything the consumer received so far

    /** Everything between the inputs and the consumer, oldest first. */
    ghost function Held(): seq<Msg> reads this, queue {
      Pipeline(Opt(slow), queue.queue, Opt(storing), queueBuffer, Opt(writing))
    }

    ghost function At(): Stages reads this, queue { Stages(writing, queueBuffer, storing, queue.queue, slow) }

    /** How many stages the held messages still have to pass. */
    ghost function Rank(): nat reads this, queue {
      |Opt(slow)| + 2 * |queue.queue| + 3 * |Opt(storing)| + 4 * |queueBuffer| + 5 * |Opt(writing)|
    }

    ghost predicate Valid() reads this, queue, queue.disk {
      queue.Valid() && queue.Clean() && |queueBuffer| <= bufSize &&
      (storing.Some? ==> Fits(storing.value)) && (writing.Some? ==> Fits(writing.value)) &&
      (forall m :: m in queueBuffer ==> Fits(m)) &&
      out + Held() == leftover + Msgs(taken)
    }

    /** A spool starts on whatever its disk queue holds. */
    constructor (queue: DiskQueue, bufSize: nat)
      requires queue.Valid() && queue.Clean()
      ensures Valid() && this.queue == queue && leftover == queue.queue && taken == [] && out == []
      ensures writing.None? && this.bufSize == bufSize
    {
      this.queue, this.bufSize := queue, bufSize;
      writing, queueBuffer, storing, slow := None, [], None, None;
      leftover, taken, out := queue.queue, [], [];
    }

    /** The writer takes a message unless it still holds one. */
    method TakeInput(t: Tagged) returns (ok: bool)
      requires Valid() && Fits(t.msg)
      modifies this`writing, this`taken
      ensures Valid() && ok == old(writing.None?)
      ensures writing.Some? && At() == old(At()).After(Input(t), bufSize)
      ensures taken == if ok then old(taken) + [t] else old(taken)
    {
      hide DiskQueue.Valid, DiskQueue.Clean, From;
      ok := writing.None?;
      if ok {
        PipelineMoves(Opt(slow), queue.queue, Opt(storing), queueBuffer, Opt(writing), t.msg);
        hide Pipeline;
        writing := Some(t.msg);
        FromSnoc(taken, t);
        assert leftover + Msgs(taken) + [t.msg] == leftover + (Msgs(taken) + [t.msg]);
        taken := taken + [t];
      }
    }

    /** The send blocks while the buffer is full; a buffer of size 0 hands over directly. */
    method PushToBuffer()
      requires Valid()
      modifies this`writing, this`queueBuffer, this`storing
      ensures Valid() && Rank() <= old(Rank()) && At() == old(At()).After(Push, bufSize)
      ensures old(|queueBuffer| < bufSize || (bufSize == 0 && storing.None?)) ==> writing.None?
      ensures old(writing.Some?) && writing.None? ==> Rank() < old(Rank())
      ensures old(writing.None?) ==> writing.None?
    {
      if writing.Some? {
        PipelineMoves(Opt(slow), queue.queue, Opt(storing), queueBuffer, Opt(writing), writing.value);
        hide Pipeline;
        if |queueBuffer| < bufSize {
          queueBuffer := queueBuffer + [writing.value];
          writing := None;
        } else if bufSize == 0 && storing.None? {
          storing := writing;
          writing := None;
        }
      }
    }

    method TakeFromBuffer()
      requires Valid()
      modifies this`queueBuffer, this`storing
      ensures Valid() && Rank() <= old(Rank()) && At() == old(At()).After(Take, bufSize)
      ensures old(storing.None? && queueBuffer != []) ==>
                |queueBuffer| == |old(queueBuffer)| - 1 && Rank() < old(Rank())
      ensures old(queueBuffer == []) ==> queueBuffer == [] && storing == old(storing)
    {
      if storing.None? && queueBuffer != [] {
        assert queueBuffer == [queueBuffer[0]] + queueBuffer[1..];
        PipelineMoves(Opt(slow), queue.queue, Opt(storing), queueBuffer[1..], Opt(writing), queueBuffer[0]);
        hide Pipeline;
        storing := Some(queueBuffer[0]);
        queueBuffer := queueBuffer[1..];
      }
    }

    method Store()
      requires Valid()
      modifies this`storing, queue, queue.disk
      ensures Valid() && storing.None? && Rank() <= old(Rank()) && At() == old(At()).After(Event.Store, bufSize)
      ensures old(storing.Some?) ==> Rank() < old(Rank())
      ensures old(!queue.Missing()) ==> !queue.Missing()
    {
      hide Laid, Backed, Surviving, DiskQueue.Offering;
      if storing.Some? {
        PipelineMoves(Opt(slow), queue.queue, Opt(storing), queueBuffer, Opt(writing), storing.value);
        hide Pipeline;
        DiskRuns.Settle(queue);
        queue.CleanIsTame();
        hide Agrees, DiskQueue.Tame;
        var ok := queue.Put(storing.value);
        storing := None;
      }
    }

    method Unspool()
      requires Valid()
      modifies this`slow, queue, queue.disk
      ensures Valid() && Rank() <= old(Rank()) && At() == old(At()).After(Event.Unspool, bufSize)
      ensures old(slow.None? && queue.queue != []) ==> Rank() < old(Rank())
      ensures old(!queue.Missing()) ==> !queue.Missing()
    {
      hide Laid, Backed, Surviving, DiskQueue.Offering;
      if slow.None? {
        ghost var pending := queue.queue;
        if pending != [] {
          assert pending == [pending[0]] + pending[1..];
          PipelineMoves([], pending[1..], Opt(storing), queueBuffer, Opt(writing), pending[0]);
        }
        hide Pipeline, DiskQueue.Valid, Fits;
        var sent := DiskRuns.TryDeliver(queue);
        if sent != [] {
          slow := Some(sent[0]);
          assert pending[0] == sent[0] && pending[1..] == queue.queue;
        }
      }
    }

    method SyncTick()
      requires Valid()
      modifies queue`needSync
      ensures Valid() && queue.SyncDue() && At() == old(At())
    {
      hide Laid, Backed, DiskQueue.Layout;
      DiskRuns.RequestSync(queue);
    }

    method Receive() returns (m: Option<Msg>)
      requires Valid()
      modifies this`slow, this`out
      ensures Valid() && m == old(slow) && slow == None && out == old(out) + Opt(m)
      ensures Rank() == old(Rank()) - |Opt(m)| && At() == old(At()).After(Event.Receive, bufSize)
    {
      hide DiskQueue.Valid, DiskQueue.Missing;
      if slow.Some? {
        PipelineMoves(Opt(slow), queue.queue, Opt(storing), queueBuffer, Opt(writing), slow.value);
      }
      hide Pipeline;
      m := slow;
      out := out + Opt(m);
      slow := None;
    }
  }

  /** The leftovers come first, and then an interleaving of the two inputs. */
  ghost predicate LeftoverFirst(all: seq<Msg>, leftover: seq<Msg>, rt: seq<Msg>, bulk: seq<Msg>) {
    leftover <= all && Interleaving(all[|leftover|..], rt, bulk)
  }

  lemma ValidMeansInterleaving(s: Spool)
    requires s.Valid()
    ensures LeftoverFirst(s.out + s.Held(), s.leftover, From(s.taken, Realtime), From(s.taken, Bulk))
  {
    hide From, Msgs;
    assert (s.out + s.Held())[|s.leftover|..] == Msgs(s.taken);
  }

  /** What the two inputs offer during a run. */
  function Inputs(script: seq<Event>): seq<Tagged> {
    if script == [] then []
    else
      var last := script[|script| - 1];
      Inputs(script[..|script| - 1]) + if last.Input? then [last.t] else []
  }

  /** The inputs offered while the writer is free. `free[i]` says whether it is before event `i`. */
  function Accepted(script: seq<Event>, free: seq<bool>): seq<Tagged>
    requires |script| <= |free|
  {
    if script == [] then []
    else
      var n := |script| - 1;
      Accepted(script[..n], free) + if script[n].Input? && free[n] then [script[n].t] else []
  }

  /** The writer is busy after an input and becomes free by handing over, and in no other way. */
  ghost predicate WriterFree(script: seq<Event>, free: seq<bool>) {
    |free| == |script| + 1 &&
    forall i :: 0 <= i < |script| ==>
      match script[i]
      case Input(_) => !free[i + 1]
      case Push => free[i] ==> free[i + 1]
      case _ => free[i + 1] == free[i]
  }

  lemma {:induction false} AcceptedSame(script: seq<Event>, free: seq<bool>, more: seq<bool>)
    requires |script| <= |free|
    ensures Accepted(script, free + more) == Accepted(script, free)
  {
    if script != [] {
      AcceptedSame(script[..|script| - 1], free, more);
    }
  }

  /** One more event, before which the writer is free as `free` says last, and after which it is
      free as `now` says. */
  lemma AcceptedSnoc(script: seq<Event>, i: nat, free: seq<bool>, now: bool)
    requires i < |script| && |free| == i + 1
    ensures Accepted(script[..i + 1], free + [now]) ==
            Accepted(script[..i], free) + if script[i].Input? && free[i] then [script[i].t] else []
  {
    assert script[..i + 1][..i] == script[..i];
    AcceptedSame(script[..i], free, [now]);
  }

  lemma {:induction false} AcceptedIsSubsequence(script: seq<Event>, free: seq<bool>)
    requires |script| <= |free|
    ensures IsSubsequence(Accepted(script, free), Inputs(script))
  {
    if script != [] {
      var n := |script| - 1;
      AcceptedIsSubsequence(script[..n], free);
      var taken, offered := Accepted(script[..n], free), Inputs(script[..n]);
      assert taken + [] == taken && offered + [] == offered;
      if script[n].Input? {
        SubsequenceMore(taken, offered, script[n].t);
      }
    }
  }

  /** What a run has taken, and when the writer was free. */
  ghost predicate Took(taken: seq<Tagged>, script: seq<Event>, taken': seq<Tagged>, free: seq<bool>) {
    WriterFree(script, free) && taken' == taken + Accepted(script, free)
  }

  lemma TookStep(taken: seq<Tagged>, script: seq<Event>, i: nat, mid: seq<Tagged>, free: seq<bool>, now: bool)
    requires i < |script| && Took(taken, script[..i], mid, free)
    requires match script[i]
             case Input(_) => !now
             case Push => free[i] ==> now
             case _ => now == free[i]
    ensures Took(taken, script[..i + 1], mid + (if script[i].Input? && free[i] then [script[i].t] else []), free + [now])
  {
    AcceptedSnoc(script, i, free, now);
    hide Accepted;
  }

  /** Over any run, exactly the inputs offered while the writer is free are taken. What came out
      followed by everything on its way is what the disk queue held at first, and then an
      interleaving of what has been taken from each input. */
  method Run(s: Spool, script: seq<Event>) returns (received: seq<Msg>, ghost free: seq<bool>)
    requires s.Valid()
    requires forall e :: e in script && e.Input? ==> Fits(e.t.msg)
    modifies s, s.queue, s.queue.disk
    ensures s.Valid() && s.out == old(s.out) + received
    ensures Took(old(s.taken), script, s.taken, free) && IsSubsequence(Accepted(script, free), Inputs(script))
    ensures free[0] == old(s.writing.None?) && free[|script|] == s.writing.None?
    ensures LeftoverFirst(s.out + s.Held(), s.leftover, From(s.taken, Realtime), From(s.taken, Bulk))
  {
    received, free := [], [s.writing.None?];
    assert Took(s.taken, script[..0], s.taken, free);
    hide Spool.Valid, From, Fits, Took, LeftoverFirst, IsSubsequence, Spool.Held, Stages.After, Spool.At;
    for i := 0 to |script|
      invariant s.Valid() && s.out == old(s.out) + received
      invariant Took(old(s.taken), script[..i], s.taken, free)
      invariant |free| == i + 1 && free[0] == old(s.writing.None?) && free[i] == s.writing.None?
    {
      assert script[i] in script;
      ghost var mid := s.taken;
      var out := HandleEvent(s, script[i]);
      received := received + out;
      TookStep(old(s.taken), script, i, mid, free, s.writing.None?);
      free := free + [s.writing.None?];
    }
    assert script[..|script|] == script;
    AcceptedIsSubsequence(script, free);
    ValidMeansInterleaving(s);
  }

  /** One event: it moves what it can, and a receive hands over what the slow channel held. */
  method HandleEvent(s: Spool, e: Event) returns (received: seq<Msg>)
    requires s.Valid() && (e.Input? ==> Fits(e.t.msg))
    modifies s, s.queue, s.queue.disk
    ensures s.Valid() && s.out == old(s.out) + received
    ensures s.At() == old(s.At()).After(e, s.bufSize) && received == if e.Receive? then Opt(old(s.slow)) else []
    ensures e.Tick? ==> s.queue.SyncDue()
    ensures s.taken == old(s.taken) + if e.Input? && old(s.writing.None?) then [e.t] else []
    ensures match e
            case Input(_) => !s.writing.None?
            case Push => old(s.writing.None?) ==> s.writing.None?
            case _ => s.writing.None? == old(s.writing.None?)
  {
    hide Spool.Valid, From, Fits;
    received := [];
    match e
    case Input(t) => var ok := s.TakeInput(t);
    case Push => s.PushToBuffer();
    case Take => s.TakeFromBuffer();
    case Store => s.Store();
    case Unspool => s.Unspool();
    case Tick => s.SyncTick();
    case Receive =>
      var m := s.Receive();
      received := Opt(m);
  }

  /** Nothing stays behind: with no further input, serving every stage in turn delivers all that was
      there at first and all that was taken, each source in its order. */
  method Drain(s: Spool)
    requires s.Valid()
    modifies s, s.queue, s.queue.disk
    ensures s.Valid() && s.Held() == [] && s.taken == old(s.taken)
    ensures s.out == s.leftover + Msgs(s.taken)
  {
    Ready(s);
    hide Laid, Backed, Surviving, DiskQueue.Operable, DiskQueue.Durable, DiskQueue.Clean;
    ghost var rank := s.Rank() + 1;
    while s.slow.Some? || HasData(s.queue.read, s.queue.write) || s.storing.Some? ||
          s.queueBuffer != [] || s.writing.Some?
      invariant s.Valid() && !s.queue.Missing() && s.taken == old(s.taken) && s.Rank() < rank
      decreases rank
    {
      HasDataIffQueued(s.queue);
      rank := s.Rank();
      ServeAll(s);
    }
    HasDataIffQueued(s.queue);
    assert s.out + [] == s.out;
  }

  lemma HasDataIffQueued(q: DiskQueue)
    requires q.Valid() && !q.Missing()
    ensures HasData(q.read, q.write) <==> q.queue != []
  {
    LaidHasData(q.disk.files, q.disk.intact, q.disk.broken, q.maxBytesPerFile, q.read, q.queue, q.write);
  }

  /** The disk queue gets ready to deliver. */
  method Ready(s: Spool)
    requires s.Valid()
    modifies s.queue, s.queue.disk
    ensures s.Valid() && !s.queue.Missing() && s.Rank() == old(s.Rank())
  {
    hide Laid, Backed, Surviving, DiskQueue.Operable, DiskQueue.Durable, DiskQueue.Clean;
    DiskRuns.Settle(s.queue);
  }

  /** One turn of every stage, the last one first. */
  method ServeAll(s: Spool)
    requires s.Valid() && !s.queue.Missing()
    modifies s, s.queue, s.queue.disk
    ensures s.Valid() && !s.queue.Missing() && s.taken == old(s.taken)
    ensures old(s.Rank()) > 0 ==> s.Rank() < old(s.Rank())
  {
    hide DiskQueue.Valid, DiskQueue.Missing, DiskQueue.Clean;
    var m := s.Receive();
    s.Unspool();
    MakeRoom(s);
  }

  /** One turn of the stages before the disk queue. The writer is free afterwards. */
  method MakeRoom(s: Spool)
    requires s.Valid()
    modifies s, s.queue, s.queue.disk
    ensures s.Valid() && s.writing.None? && s.taken == old(s.taken) && s.out == old(s.out)
    ensures s.Rank() <= old(s.Rank())
    ensures old(s.storing.Some? || s.queueBuffer != [] || s.writing.Some?) ==> s.Rank() < old(s.Rank())
    ensures old(!s.queue.Missing()) ==> !s.queue.Missing()
  {
    hide DiskQueue.Valid, DiskQueue.Missing;
    s.Store();
    s.TakeFromBuffer();
    s.PushToBuffer();
  }

  /** Redo data enters through the bulk input, in order, as the writer gets to it. */
  method Ingest(s: Spool, bulkData: seq<Msg>)
    requires s.Valid() && forall m :: m in bulkData ==> Fits(m)
    modifies s, s.queue, s.queue.disk
    ensures s.Valid() && s.out == old(s.out)
    ensures From(s.taken, Bulk) == From(old(s.taken), Bulk) + bulkData
    ensures From(s.taken, Realtime) == From(old(s.taken), Realtime)
  {
    hide Spool.Valid, From;
    for i := 0 to |bulkData|
      invariant s.Valid() && s.out == old(s.out)
      invariant From(s.taken, Bulk) == From(old(s.taken), Bulk) + bulkData[..i]
      invariant From(s.taken, Realtime) == From(old(s.taken), Realtime)
    {
      MakeRoom(s);
      assert bulkData[i] in bulkData && bulkData[..i + 1] == bulkData[..i] + [bulkData[i]];
      FromSnoc(s.taken, Tagged(Bulk, bulkData[i]));
      var ok := s.TakeInput(Tagged(Bulk, bulkData[i]));
    }
    assert bulkData[..|bulkData|] == bulkData;
  }
}
