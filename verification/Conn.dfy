/** A connection to a destination: the retention buffer, the loop that writes metrics, and the
    collection of what may not have arrived once the connection is down. */
module Conns {
  import opened DiskLayout
  import opened BufWriters
  import opened Options

  /** Retains at least the last period's worth of metrics, in two generations. */
  class KeepSafe {
    var safeOld: seq<Msg>
    var safeRecent: seq<Msg>

    constructor ()
      ensures safeOld == [] && safeRecent == []
    {
      safeOld, safeRecent := [], [];
    }

    /** A tick of the cleaning loop. */
    method Rotate()
      modifies this
      ensures safeOld == old(safeRecent) && safeRecent == []
    {
      safeOld := safeRecent;
      safeRecent := [];
    }

    method Add(buf: Msg)
      modifies this`safeRecent
      ensures safeRecent == old(safeRecent) + [buf]
    {
      safeRecent := safeRecent + [buf];
    }

    method GetAll() returns (all: seq<Msg>)
      modifies this
      ensures all == old(safeOld + safeRecent) && safeOld == safeRecent == []
    {
      all := safeOld + safeRecent;
      safeOld, safeRecent := [], [];
    }
  }

  // ---------------------------------------------------------------- the wire

  const NEW_LINE: seq<byte> := [10]

  /** How metrics are written: as lines, or pickled. A metric that cannot be pickled is not written. */
  datatype Format = PlainText | Pickled(pickle: Msg -> Option<seq<byte>>)
  {
    predicate Bad(m: Msg) { Pickled? && pickle(m).None? }

    function Encode(m: Msg): seq<byte> {
      match this
      case PlainText => m + NEW_LINE
      case Pickled(pickle) => if pickle(m).Some? then pickle(m).value else []
    }
  }

  /** The bytes that a list of metrics puts on the wire. */
  function Wire(f: Format, ms: seq<Msg>): seq<byte> {
    if ms == [] then [] else Wire(f, ms[..|ms| - 1]) + f.Encode(ms[|ms| - 1])
  }

  lemma {:induction false} WirePrefix(f: Format, ms: seq<Msg>, k: nat)
    requires k <= |ms|
    ensures Wire(f, ms[..k]) <= Wire(f, ms)
    decreases |ms|
  {
    if k < |ms| {
      var init := ms[..|ms| - 1];
      WirePrefix(f, init, k);
      assert init[..k] == ms[..k];
    } else {
      assert ms[..k] == ms;
    }
  }

  lemma WireGrows(f: Format, ms: seq<Msg>, more: seq<Msg>)
    ensures |Wire(f, ms)| <= |Wire(f, ms + more)|
  {
    WirePrefix(f, ms + more, |ms|);
    assert (ms + more)[..|ms|] == ms;
  }

  lemma WireSnoc(f: Format, ms: seq<Msg>, m: Msg)
    ensures Wire(f, ms + [m]) == Wire(f, ms) + f.Encode(m)
  {
    assert (ms + [m])[..|ms|] == ms;
  }

  // ---------------------------------------------------------------- the receiver

  /** The lines that a receiver has completed: what precedes every byte 10. */
  function Lines(s: seq<byte>): seq<Msg> { LinesFrom([], s) }

  function LinesFrom(line: Msg, s: seq<byte>): seq<Msg>
    decreases |s|
  {
    if s == [] then []
    else if s[0] == 10 then [line] + LinesFrom([], s[1..])
    else LinesFrom(line + [s[0]], s[1..])
  }

  /** No metric contains a byte 10. */
  predicate Unbroken(ms: seq<Msg>) { forall m :: m in ms ==> 10 !in m }

  lemma {:induction false} LineRead(line: Msg, m: Msg, rest: seq<byte>)
    requires 10 !in m
    ensures LinesFrom(line, m + ([10] + rest)) == [line + m] + LinesFrom([], rest)
    decreases |m|
  {
    if m == [] {
      assert m + ([10] + rest) == [10] + rest && line + m == line;
      assert ([10] + rest)[1..] == rest;
    } else {
      assert (m + ([10] + rest))[1..] == m[1..] + ([10] + rest);
      LineRead(line + [m[0]], m[1..], rest);
      assert line + [m[0]] + m[1..] == line + m;
    }
  }

  lemma {:induction false} WireCons(ms: seq<Msg>)
    requires ms != []
    ensures Wire(PlainText, ms) == ms[0] + ([10] + Wire(PlainText, ms[1..]))
    decreases |ms|
  {
    if |ms| == 1 {
      assert ms[..0] == [] && ms[1..] == [];
    } else {
      var init := ms[..|ms| - 1];
      WireCons(init);
      assert ms[1..][..|ms| - 2] == init[1..];
    }
  }

  /** The receiver of everything reads every metric. */
  lemma {:induction false} LinesOfWire(ms: seq<Msg>)
    requires Unbroken(ms)
    ensures Lines(Wire(PlainText, ms)) == ms
  {
    if ms != [] {
      WireCons(ms);
      LineRead([], ms[0], Wire(PlainText, ms[1..]));
      LinesOfWire(ms[1..]);
      assert [] + ms[0] == ms[0];
    }
  }

  /** Metrics without a byte 10 are what a receiver of these bytes reads. */
  predicate Received(sent: seq<byte>, ms: seq<Msg>) { Unbroken(ms) ==> Lines(sent) == ms }

  lemma AllReceived(ms: seq<Msg>)
    ensures Received(Wire(PlainText, ms), ms)
  {
    if Unbroken(ms) {
      LinesOfWire(ms);
    }
  }

  lemma {:induction false} LinesGrow(line: Msg, p: seq<byte>, s: seq<byte>)
    requires p <= s
    ensures LinesFrom(line, p) <= LinesFrom(line, s)
    decreases |p|
  {
    if p != [] {
      LinesGrow(if s[0] == 10 then [] else line + [s[0]], p[1..], s[1..]);
    }
  }

  /** Whatever part of the wire a receiver has got, the lines it has completed are the first metrics,
      and among them are those that are on the wire in full. */
  lemma ReceivedLines(ms: seq<Msg>, k: nat, sent: seq<byte>)
    requires Unbroken(ms) && k <= |ms| && Wire(PlainText, ms[..k]) <= sent <= Wire(PlainText, ms)
    ensures ms[..k] <= Lines(sent) <= ms
  {
    LinesOfWire(ms);
    LinesOfWire(ms[..k]);
    LinesGrow([], Wire(PlainText, ms[..k]), sent);
    LinesGrow([], sent, Wire(PlainText, ms));
  }

  // ---------------------------------------------------------------- histories

  /** What has happened to a connection, as far as it bears on what can still be lost. */
  datatype Done = Took(m: Msg) | Flushed | Rotated

  /** The metrics taken from the input. */
  function Taken(h: seq<Done>): seq<Msg> {
    if h == [] then []
    else
      var last := h[|h| - 1];
      Taken(h[..|h| - 1]) + if last.Took? then [last.m] else []
  }

  /** What had happened before the `n`-th last rotation. */
  function Before(h: seq<Done>, n: nat): seq<Done> {
    if n == 0 then h
    else if h == [] then []
    else Before(h[..|h| - 1], if h[|h| - 1].Rotated? then n - 1 else n)
  }

  /** What had happened before the last successful flush. */
  function BeforeFlush(h: seq<Done>): seq<Done> {
    if h == [] then [] else if h[|h| - 1].Flushed? then h[..|h| - 1] else BeforeFlush(h[..|h| - 1])
  }

  /** How many rotations there were since the last successful flush, or since the start. */
  function SinceFlush(h: seq<Done>): nat {
    if h == [] then 0
    else match h[|h| - 1]
      case Took(_) => SinceFlush(h[..|h| - 1])
      case Rotated => SinceFlush(h[..|h| - 1]) + 1
      case Flushed => 0
  }

  /** How many metrics had been taken before the last rotation but one: these are not retained. */
  function Dropped(h: seq<Done>): nat { |Taken(Before(h, 2))| }

  /** How many had been taken before the last rotation. */
  function Recent(h: seq<Done>): nat { |Taken(Before(h, 1))| }

  lemma HistorySnoc(h: seq<Done>, d: Done)
    ensures Taken(h + [d]) == if d.Took? then Taken(h) + [d.m] else Taken(h)
    ensures Dropped(h + [d]) == if d.Rotated? then Recent(h) else Dropped(h)
    ensures Recent(h + [d]) == if d.Rotated? then |Taken(h)| else Recent(h)
    ensures BeforeFlush(h + [d]) == if d.Flushed? then h else BeforeFlush(h)
    ensures SinceFlush(h + [d]) == if d.Flushed? then 0 else SinceFlush(h) + if d.Rotated? then 1 else 0
  {
    assert (h + [d])[..|h|] == h;
    assert Before(h, 0) == h && Taken(h) + [] == Taken(h);
    assert Before(h + [d], 1) == Before(h, if d.Rotated? then 0 else 1);
    assert Before(h + [d], 2) == Before(h, if d.Rotated? then 1 else 2);
  }

  lemma {:induction false} BeforeIsEarlier(h: seq<Done>, n: nat)
    ensures Before(h, n) <= h
    decreases |h|
  {
    if n > 0 && h != [] {
      BeforeIsEarlier(h[..|h| - 1], if h[|h| - 1].Rotated? then n - 1 else n);
    }
  }

  lemma {:induction false} TakenEarlier(earlier: seq<Done>, h: seq<Done>)
    requires earlier <= h
    ensures Taken(earlier) <= Taken(h)
    decreases |h|
  {
    if |earlier| < |h| {
      TakenEarlier(earlier, h[..|h| - 1]);
    } else {
      assert earlier == h;
    }
  }

  lemma {:induction false} FlushIsEarlier(h: seq<Done>)
    ensures BeforeFlush(h) <= h
  {
    if h != [] {
      FlushIsEarlier(h[..|h| - 1]);
    }
  }

  /** Generations are in order, and with at most one rotation since the last successful flush, what
      is not retained had been taken before that flush. */
  lemma {:induction false} Retention(h: seq<Done>)
    ensures Dropped(h) <= Recent(h) <= |Taken(h)| && Taken(BeforeFlush(h)) <= Taken(h)
    ensures SinceFlush(h) <= 1 ==> Dropped(h) <= |Taken(BeforeFlush(h))|
    ensures SinceFlush(h) == 0 ==> Recent(h) <= |Taken(BeforeFlush(h))|
  {
    FlushIsEarlier(h);
    TakenEarlier(BeforeFlush(h), h);
    if h != [] {
      var init, last := h[..|h| - 1], h[|h| - 1];
      Retention(init);
      assert h == init + [last];
      HistorySnoc(init, last);
    }
  }

  /** The rotations and successful flushes in a history. They alone decide `SinceFlush`. */
  function Marks(h: seq<Done>): seq<Done> {
    if h == [] then []
    else
      var last := h[|h| - 1];
      Marks(h[..|h| - 1]) + if last.Took? then [] else [last]
  }

  lemma {:induction false} SinceFlushOfMarks(h: seq<Done>)
    ensures SinceFlush(Marks(h)) == SinceFlush(h)
  {
    if h != [] {
      var init, last := h[..|h| - 1], h[|h| - 1];
      SinceFlushOfMarks(init);
      HistorySnoc(Marks(init), last);
      assert Marks(init) + [] == Marks(init);
    }
  }

  lemma {:induction false} MarksSplit(a: seq<Done>, b: seq<Done>)
    ensures Marks(a + b) == Marks(a) + Marks(b)
    decreases |b|
  {
    if b == [] {
      assert a + b == a;
    } else {
      MarksSplit(a, b[..|b| - 1]);
      assert (a + b)[..|a + b| - 1] == a + b[..|b| - 1];
    }
  }

  function Rotations(h: seq<Done>): nat {
    if h == [] then 0 else Rotations(h[..|h| - 1]) + if h[|h| - 1].Rotated? then 1 else 0
  }

  lemma {:induction false} RotationsSplit(a: seq<Done>, b: seq<Done>)
    ensures Rotations(a + b) == Rotations(a) + Rotations(b)
    decreases |b|
  {
    if b == [] {
      assert a + b == a;
    } else {
      RotationsSplit(a, b[..|b| - 1]);
      assert (a + b)[..|a + b| - 1] == a + b[..|b| - 1];
    }
  }

  lemma {:induction false} RotationsOfMarks(h: seq<Done>)
    ensures Rotations(Marks(h)) == Rotations(h)
  {
    if h != [] {
      var init, last := h[..|h| - 1], h[|h| - 1];
      RotationsOfMarks(init);
      assert [last][..0] == [] && Marks(init) + [] == Marks(init);
      RotationsSplit(Marks(init), [last]);
    }
  }

  /** Rotations are counted at most once each. */
  lemma {:induction false} SinceFlushBound(h: seq<Done>, more: seq<Done>)
    ensures SinceFlush(h + more) <= SinceFlush(h) + Rotations(more)
    decreases |more|
  {
    if more == [] {
      assert h + more == h;
    } else {
      var init := more[..|more| - 1];
      SinceFlushBound(h, init);
      assert (h + more)[..|h + more| - 1] == h + init;
    }
  }

  // ---------------------------------------------------------------- the connection

  /** What can happen to a connection: the relay queues a metric, the data loop takes one of its
      branches, the retention buffer rotates, the far side hangs up. */
  datatype Event = Queue(m: Msg) | Take | Flush | Rotate | Eof | Shutdown

  class Conn {
    const format: Format
    const buffered: Writer
    const keepSafe: KeepSafe
    var In: seq<Msg>               // the input channel
    var up: bool
    var handling: bool             // the data loop is running
    ghost var history: seq<Done>

    /** The retention buffer holds what was taken since the last rotation but one, in two parts. */
    ghost predicate Retained() reads this, keepSafe {
      Dropped(history) <= Recent(history) <= |Taken(history)| &&
      keepSafe.safeOld == Taken(history)[Dropped(history)..Recent(history)] &&
      keepSafe.safeRecent == Taken(history)[Recent(history)..]
    }

    /** What was taken before the last successful flush is on the wire. What was accepted for the
        wire never goes beyond what was taken. */
    ghost predicate Wired() reads this, buffered, buffered.buf, buffered.wr {
      buffered.Valid() &&
      Wire(format, Taken(BeforeFlush(history))) <= buffered.wr.sent &&
      buffered.accepted <= Wire(format, Taken(history)) &&
      (handling ==> buffered.accepted == Wire(format, Taken(history)))
    }

    /** Everything ever queued. */
    ghost function All(): seq<Msg> reads this { Taken(history) + In }

    ghost predicate Valid() reads this, keepSafe, buffered, buffered.buf, buffered.wr {
      Retained() && Wired()
    }

    constructor (format: Format, wr: Sink, ioBufSize: nat)
      requires 0 < ioBufSize && wr.sent == []
      ensures Valid() && fresh(buffered) && fresh(buffered.buf) && fresh(keepSafe) && buffered.wr == wr
      ensures buffered.buf.Length == ioBufSize && buffered.n == 0 && !buffered.err
      ensures this.format == format && In == [] && history == [] && up && handling && Quiet()
    {
      this.format := format;
      buffered := new Writer(wr, ioBufSize);
      keepSafe := new KeepSafe();
      In, up, handling := [], true, true;
      history := [];
    }

    /** Writes one metric. A metric that cannot be pickled counts as written. */
    method Write(m: Msg) returns (written: nat, err: bool)
      requires buffered.Valid()
      modifies buffered`n, buffered`err, buffered`accepted, buffered.buf, buffered.wr
      ensures buffered.Valid() && old(buffered.wr.sent) <= buffered.wr.sent
      ensures written <= |format.Encode(m)|
      ensures buffered.accepted == old(buffered.accepted) + format.Encode(m)[..written]
      ensures format.Bad(m) ==> !err && buffered.accepted == old(buffered.accepted)
      ensures !format.Bad(m) ==> (err <==> written < |format.Encode(m)| || buffered.err)
      ensures |format.Encode(m)| <= old(buffered.Available()) && !old(buffered.err) ==>
                !err && !buffered.err && buffered.wr.sent == old(buffered.wr.sent)
    {
      var buf := m;
      if format.Pickled? {
        var dp := format.pickle(m);
        if dp.None? {
          return 0, false;
        }
        buf := dp.value;
      }
      written := 0;
      var size := |buf|;
      var n;
      n, err := buffered.Write(buf);
      written := written + n;
      if !err && size == n && !format.Pickled? {
        size := 1;
        n, err := buffered.Write(NEW_LINE);
        written := written + n;
      }
      if !err && size != n {
        err := true;
      }
    }

    /** Takes a metric from the input and retains it: one atomic step. */
    method Receive() returns (buf: Msg)
      requires Retained() && In != []
      modifies this`In, this`history, keepSafe
      ensures Retained() && All() == old(All())
      ensures buf == old(In)[0] && In == old(In)[1..] && history == old(history) + [Took(buf)]
    {
      HistorySnoc(history, Took(In[0]));
      assert Taken(history) + In == Taken(history) + [In[0]] + In[1..];
      buf := In[0];
      In := In[1..];
      history := history + [Took(buf)];
      hide Dropped, Recent, Taken;
      keepSafe.Add(buf);
    }

    /** Nothing has been written since the last successful flush, and nothing has failed. */
    ghost predicate Quiet() reads this, buffered, buffered.wr {
      !buffered.err && buffered.wr.sent == Wire(format, Taken(BeforeFlush(history)))
    }

    /** The buffer has room for the next metric if it has room for everything ever queued. */
    lemma RoomForNext()
      requires Valid() && handling && Quiet() && In != [] && |Wire(format, All())| <= buffered.buf.Length
      ensures |format.Encode(In[0])| <= buffered.Available()
    {
      var k := |Taken(history)| + 1;
      assert All()[..k] == Taken(history) + [In[0]];
      WireSnoc(format, Taken(history), In[0]);
      WirePrefix(format, All(), k);
      hide Wire, Taken, BeforeFlush, Retained;
    }

    /** A metric has been taken and is still to be written. */
    ghost predicate Owing(m: Msg) reads this, buffered, buffered.buf, buffered.wr {
      buffered.Valid() &&
      Wire(format, Taken(BeforeFlush(history))) <= buffered.wr.sent &&
      buffered.accepted + format.Encode(m) == Wire(format, Taken(history))
    }

    /** The branch that takes a metric: it is retained before it is written. */
    method HandleTake()
      requires Valid() && handling && In != []
      modifies this`In, this`history, this`up, this`handling, keepSafe,
               buffered`n, buffered`err, buffered`accepted, buffered.buf, buffered.wr
      ensures Valid() && history == old(history) + [Took(old(In)[0])] && In == old(In)[1..]
      ensures All() == old(All())
      ensures |format.Encode(old(In)[0])| <= old(buffered.Available()) && !old(buffered.err) ==>
                handling && buffered.wr.sent == old(buffered.wr.sent) && !buffered.err
    {
      HistorySnoc(history, Took(In[0]));
      WireSnoc(format, Taken(history), In[0]);
      hide Dropped, Recent, Taken, Wire, BeforeFlush, Format.Encode, All;
      var buf := Receive();
      assert Owing(buf);
      hide Writer.Valid;
      WriteOut(buf);
    }

    method WriteOut(m: Msg)
      requires Owing(m) && handling
      modifies this`up, this`handling,
               buffered`n, buffered`err, buffered`accepted, buffered.buf, buffered.wr
      ensures Wired()
      ensures |format.Encode(m)| <= old(buffered.Available()) && !old(buffered.err) ==>
                handling && buffered.wr.sent == old(buffered.wr.sent) && !buffered.err
    {
      hide Taken, Wire, BeforeFlush, Writer.Valid;
      var n, err := Write(m);
      assert n == |format.Encode(m)| ==> format.Encode(m)[..n] == format.Encode(m);
      if err {
        up := false;
        handling := false;
      }
    }

    /** A flush on a tick or on demand. */
    method HandleFlush()
      requires Valid() && handling
      modifies this`up, this`handling, this`history, buffered`n, buffered`err,
               buffered.buf, buffered.wr
      ensures Valid() && In == old(In) && All() == old(All())
      ensures history == if handling then old(history) + [Flushed] else old(history)
      ensures handling ==> buffered.wr.sent == Wire(format, Taken(history)) && Quiet()
      ensures handling && format.PlainText? ==> Received(buffered.wr.sent, Taken(history))
    {
      AllReceived(Taken(history));
      HistorySnoc(history, Flushed);
      hide Dropped, Recent, Taken, Wire, BeforeFlush, Received, Format.Encode;
      var err := buffered.Flush();
      if err {
        up := false;
        handling := false;
      } else {
        history := history + [Flushed];
      }
    }

    method HandleRotate()
      requires Valid()
      modifies this`history, keepSafe
      ensures Valid() && history == old(history) + [Rotated] && All() == old(All()) && (old(Quiet()) ==> Quiet())
    {
      HistorySnoc(history, Rotated);
      hide Dropped, Recent, Taken, Wire, BeforeFlush;
      keepSafe.Rotate();
      history := history + [Rotated];
    }

    /** The relay queues a metric. */
    method Enqueue(m: Msg)
      requires Valid()
      modifies this`In
      ensures Valid() && history == old(history) && All() == old(All()) + [m]
    {
      In := In + [m];
    }

    /** The far side hangs up, or the connection is closed. */
    method Hangup()
      requires Valid()
      modifies this`up
      ensures Valid() && !up && All() == old(All())
    {
      up := false;
    }

    method HandleShutdown()
      requires Valid()
      modifies this`handling
      ensures Valid() && (handling <==> old(handling) && up) && All() == old(All())
    {
      if !up {
        handling := false;
      }
    }

    /** Retains one more metric of the input. */
    method Keep()
      requires Retained() && In != []
      modifies this`In, this`history, keepSafe
      ensures Retained() && All() == old(All()) && |In| == |old(In)| - 1
      ensures Dropped(history) == old(Dropped(history)) && BeforeFlush(history) == old(BeforeFlush(history))
    {
      HistorySnoc(history, Took(In[0]));
      hide Dropped, Recent, Taken, BeforeFlush, All;
      var buf := Receive();
    }

    /** What may not have arrived, including what is still queued. Nothing is queued after this. */
    method GetRedo() returns (redo: seq<Msg>)
      requires Valid() && !up
      modifies this`In, this`history, keepSafe
      ensures In == [] && Taken(history) == old(All())
      ensures Dropped(history) <= |Taken(history)| && redo == Taken(history)[Dropped(history)..]
      ensures Dropped(history) == old(Dropped(history)) && BeforeFlush(history) == old(BeforeFlush(history))
    {
      while In != []
        invariant Retained() && All() == old(All())
        invariant Dropped(history) == old(Dropped(history)) && BeforeFlush(history) == old(BeforeFlush(history))
        modifies this`In, this`history, keepSafe
        decreases |In|
      {
        hide Retained, All, Dropped, BeforeFlush;
        Keep();
      }
      redo := keepSafe.GetAll();
    }
  }

  // ---------------------------------------------------------------- whole runs

  /** What the relay queues during a run. */
  function Queued(script: seq<Event>): seq<Msg> {
    if script == [] then []
    else
      var last := script[|script| - 1];
      Queued(script[..|script| - 1]) + if last.Queue? then [last.m] else []
  }

  /** The rotations of a run and, while the data loop runs, its flushes. */
  function Scheduled(script: seq<Event>, running: bool): seq<Done> {
    if script == [] then []
    else
      Scheduled(script[..|script| - 1], running) +
      match script[|script| - 1]
      case Rotate => [Rotated]
      case Flush => if running then [Flushed] else []
      case _ => []
  }

  /** The trace of a script in which the data loop stops at position `stop`: every rotation takes
      place, and every flush before that. */
  ghost predicate Happened(script: seq<Event>, stop: nat, trace: seq<Done>) {
    stop <= |script| &&
    Marks(trace) == Scheduled(script[..stop], true) + Scheduled(script[stop..], false)
  }

  lemma ScriptSnoc(script: seq<Event>, e: Event, running: bool)
    ensures Scheduled(script + [e], running) == Scheduled(script, running) + Scheduled([e], running)
    ensures Queued(script + [e]) == Queued(script) + if e.Queue? then [e.m] else []
  {
    assert (script + [e])[..|script|] == script && [e][..0] == [];
    assert Scheduled([], running) == [];
  }

  lemma {:induction false} RotationsScheduled(script: seq<Event>, running: bool)
    ensures Rotations(Scheduled(script, running)) == |Scheduled(script, false)|
  {
    if script != [] {
      var init := script[..|script| - 1];
      RotationsScheduled(init, running);
      assert script == init + [script[|script| - 1]];
      var more := Scheduled([script[|script| - 1]], running);
      ScriptSnoc(init, script[|script| - 1], running);
      ScriptSnoc(init, script[|script| - 1], false);
      RotationsSplit(Scheduled(init, running), more);
      assert [Rotated][..0] == [] == [Flushed][..0] && [script[|script| - 1]][..0] == [];
    }
  }

  lemma {:induction false} ScheduledSplit(a: seq<Event>, b: seq<Event>, running: bool)
    ensures Scheduled(a + b, running) == Scheduled(a, running) + Scheduled(b, running)
    decreases |b|
  {
    if b == [] {
      assert a + b == a && Scheduled(b, running) == [];
    } else {
      var init, last := b[..|b| - 1], b[|b| - 1];
      ScheduledSplit(a, init, running);
      ScriptSnoc(a + init, last, running);
      ScriptSnoc(init, last, running);
      hide Scheduled;
      assert a + init + [last] == a + b && init + [last] == b;
      Grouped(Scheduled(a, running), Scheduled(init, running), Scheduled([last], running));
    }
  }

  /** The trace has as many rotations as the script, so the script bounds those since a flush. */
  lemma FewRotations(h: seq<Done>, script: seq<Event>, stop: nat, trace: seq<Done>)
    requires Happened(script, stop, trace)
    ensures Rotations(trace) == |Scheduled(script, false)|
    ensures SinceFlush(h + trace) <= SinceFlush(h) + |Scheduled(script, false)|
  {
    SinceFlushBound(h, trace);
    RotationsOfMarks(trace);
    RotationsScheduled(script[..stop], true);
    RotationsScheduled(script[stop..], false);
    RotationsSplit(Scheduled(script[..stop], true), Scheduled(script[stop..], false));
    ScheduledSplit(script[..stop], script[stop..], false);
    assert script[..stop] + script[stop..] == script;
  }

  /** The script and where the loop stopped decide how many rotations there were since a flush. */
  lemma SinceFlushOfScript(h: seq<Done>, script: seq<Event>, stop: nat, trace: seq<Done>)
    requires Happened(script, stop, trace)
    ensures SinceFlush(h + trace) ==
            SinceFlush(Marks(h) + (Scheduled(script[..stop], true) + Scheduled(script[stop..], false)))
  {
    SinceFlushOfMarks(h + trace);
    MarksSplit(h, trace);
  }

  /** How the trace grows over one event. The loop runs on after it, or it has stopped. */
  lemma HappenedStep(script: seq<Event>, i: nat, stop: nat, trace: seq<Done>, d: seq<Done>, running: bool)
    requires i < |script| && Happened(script[..i], stop, trace) && (running ==> stop == i)
    requires Marks(d) == Scheduled([script[i]], running)
    ensures Happened(script[..i + 1], if running then i + 1 else stop, trace + d)
  {
    MarksSplit(trace, d);
    var now := script[..i + 1];
    if running {
      ScriptSnoc(script[..i], script[i], true);
      assert script[..i] + [script[i]] == now;
      assert now[..i + 1] == now && now[i + 1..] == [] && script[..i][..i] == script[..i] && script[..i][i..] == [];
    } else {
      ScriptSnoc(script[..i][stop..], script[i], false);
      assert script[..i][stop..] + [script[i]] == now[stop..];
      assert now[..stop] == script[..i][..stop];
    }
  }

  lemma OneEvent(e: Event)
    ensures Marks([]) == [] && Marks([Flushed]) == [Flushed] && Marks([Rotated]) == [Rotated]
    ensures forall running ::
              Scheduled([e], running) == if e.Rotate? then [Rotated] else if e.Flush? && running then [Flushed] else []
  {
    assert [e][..0] == [] && [Flushed][..0] == [Rotated][..0] == [];
    assert Scheduled([], true) == Scheduled([], false) == [];
  }

  /** One event. A branch that is not enabled is not taken. */
  method HandleEvent(c: Conn, e: Event) returns (ghost d: seq<Done>)
    requires c.Valid()
    modifies c, c.keepSafe, c.buffered`n, c.buffered`err, c.buffered`accepted, c.buffered.buf, c.buffered.wr
    ensures c.Valid() && c.history == old(c.history) + d && (c.handling ==> old(c.handling))
    ensures Marks(d) == Scheduled([e], c.handling)
    ensures e.Take? && old(c.handling && c.In != []) ==> d == [Took(old(c.In)[0])] && c.In == old(c.In)[1..]
    ensures old(c.Quiet()) && c.handling && |Wire(c.format, old(c.All()))| <= c.buffered.buf.Length ==> c.Quiet()
    ensures c.All() == old(c.All()) + if e.Queue? then [e.m] else []
  {
    OneEvent(e);
    hide Conn.All, Conn.Valid, Scheduled, Marks, Wire, Taken, BeforeFlush;
    d := [];
    match e
    case Queue(m) => c.Enqueue(m);
    case Take => d := HandleTakeIfAny(c);
    case Flush =>
      if c.handling {
        c.HandleFlush();
        d := if c.handling then [Flushed] else [];
      }
    case Rotate =>
      d := [Rotated];
      c.HandleRotate();
    case Eof => c.Hangup();
    case Shutdown => c.HandleShutdown();
  }

  method HandleTakeIfAny(c: Conn) returns (ghost d: seq<Done>)
    requires c.Valid()
    modifies c, c.keepSafe, c.buffered`n, c.buffered`err, c.buffered`accepted, c.buffered.buf, c.buffered.wr
    ensures c.Valid() && c.history == old(c.history) + d && (c.handling ==> old(c.handling))
    ensures Marks(d) == [] && c.All() == old(c.All())
    ensures old(c.handling && c.In != []) ==> d == [Took(old(c.In)[0])] && c.In == old(c.In)[1..]
    ensures old(c.Quiet()) && c.handling && |Wire(c.format, old(c.All()))| <= c.buffered.buf.Length ==> c.Quiet()
  {
    d := [];
    if c.handling && c.In != [] {
      d := [Took(c.In[0])];
      HistorySnoc(c.history, d[0]);
      if c.Quiet() && |Wire(c.format, c.All())| <= c.buffered.buf.Length {
        c.RoomForNext();
      }
      hide Conn.All, Conn.Valid, Taken, Wire, BeforeFlush;
      c.HandleTake();
    }
  }

  /** What a run of the data loop has done to what was ever queued and to the history. */
  ghost predicate Ran(all: seq<Msg>, h: seq<Done>, script: seq<Event>, all': seq<Msg>, h': seq<Done>,
                      running: bool, trace: seq<Done>, stop: nat) {
    all' == all + Queued(script) && h' == h + trace && Happened(script, stop, trace) && (running ==> stop == |script|)
  }

  lemma RanStep(all: seq<Msg>, h: seq<Done>, script: seq<Event>, i: nat, mid: seq<Msg>, hm: seq<Done>, running: bool,
                trace: seq<Done>, stop: nat, d: seq<Done>, running': bool)
    requires i < |script| && Ran(all, h, script[..i], mid, hm, running, trace, stop)
    requires (running' ==> running) && Marks(d) == Scheduled([script[i]], running')
    ensures Ran(all, h, script[..i + 1], mid + (if script[i].Queue? then [script[i].m] else []), hm + d, running',
                trace + d, if running' then i + 1 else stop)
  {
    ScriptSnoc(script[..i], script[i], true);
    assert script[..i] + [script[i]] == script[..i + 1];
    HappenedStep(script, i, stop, trace, d, running');
    Grouped(h, trace, d);
    Grouped(all, Queued(script[..i]), if script[i].Queue? then [script[i].m] else []);
    hide Queued, Happened, Marks, Scheduled;
  }

  lemma Grouped<T>(a: seq<T>, b: seq<T>, c: seq<T>)
    ensures a + b + c == a + (b + c)
  {
  }

  /** Any run of the data loop. What is taken or still queued is what was, followed by what the
      script queues. The trace has every rotation of the script, and its flushes up to where the
      loop stopped. */
  method Serve(c: Conn, script: seq<Event>) returns (ghost trace: seq<Done>, ghost stop: nat)
    requires c.Valid()
    modifies c, c.keepSafe, c.buffered`n, c.buffered`err, c.buffered`accepted, c.buffered.buf, c.buffered.wr
    ensures c.Valid() && Ran(old(c.All()), old(c.history), script, c.All(), c.history, c.handling, trace, stop)
    ensures old(c.Quiet()) && c.handling && |Wire(c.format, c.All())| <= c.buffered.buf.Length ==> c.Quiet()
  {
    trace, stop := [], 0;
    ghost var h, all := c.history, c.All();
    assert Ran(all, h, script[..0], c.All(), c.history, c.handling, trace, stop);
    hide Conn.Valid, Conn.All, Conn.Quiet, Ran, Marks, Scheduled, Wire;
    for i := 0 to |script|
      invariant c.Valid() && Ran(all, h, script[..i], c.All(), c.history, c.handling, trace, stop)
      invariant old(c.Quiet()) && c.handling && |Wire(c.format, c.All())| <= c.buffered.buf.Length ==> c.Quiet()
    {
      ghost var mid, hm, running := c.All(), c.history, c.handling;
      ghost var d := HandleEvent(c, script[i]);
      RanStep(all, h, script, i, mid, hm, running, trace, stop, d, c.handling);
      WireGrows(c.format, mid, if script[i].Queue? then [script[i].m] else []);
      stop := if c.handling then i + 1 else stop;
      trace := trace + d;
    }
    assert script[..|script|] == script;
  }

  /** Metric `i` of `all` has all of its bytes on the wire. */
  ghost predicate OnWire(f: Format, all: seq<Msg>, i: nat, sent: seq<byte>)
    requires i < |all|
  {
    Wire(f, all[..i + 1]) <= sent
  }

  lemma AllOnWire(f: Format, all: seq<Msg>, flushed: seq<Msg>, sent: seq<byte>, gone: nat)
    requires flushed <= all && gone <= |flushed| && Wire(f, flushed) <= sent
    ensures forall i :: 0 <= i < gone ==> OnWire(f, all, i, sent)
  {
    forall i | 0 <= i < gone
      ensures OnWire(f, all, i, sent)
    {
      WirePrefix(f, flushed, i + 1);
      assert flushed[..i + 1] == all[..i + 1];
    }
  }

  /** Nothing beyond what was taken before a flush is on the wire if all that was sent was sent by it. */
  lemma NotOnWire(f: Format, all: seq<Msg>, flushed: seq<Msg>, i: nat)
    requires flushed <= all && |flushed| <= i < |all| && f.PlainText?
    ensures !OnWire(f, all, i, Wire(f, flushed))
  {
    hide Wire;
    assert all[..i + 1] == all[..i] + [all[i]];
    WireSnoc(f, all[..i], all[i]);
    WirePrefix(f, all[..i], |flushed|);
    assert all[..i][..|flushed|] == flushed;
  }

  /** Everything but the first `gone` metrics is handed back; the others are on the wire. */
  ghost predicate Complete(f: Format, all: seq<Msg>, gone: nat, sent: seq<byte>)
    requires gone <= |all|
  {
    forall i :: 0 <= i < gone ==> OnWire(f, all, i, sent)
  }

  /** A receiver has read all metrics but those handed back, and none that was not queued. */
  ghost predicate ReadBy(all: seq<Msg>, gone: nat, sent: seq<byte>)
    requires gone <= |all|
  {
    all[..gone] <= Lines(sent) <= all
  }

  lemma CompleteIsRead(all: seq<Msg>, gone: nat, sent: seq<byte>)
    requires gone <= |all| && Complete(PlainText, all, gone, sent) && Unbroken(all) && sent <= Wire(PlainText, all)
    ensures ReadBy(all, gone, sent)
  {
    if gone == 0 {
      assert all[..0] == [] && Wire(PlainText, all[..0]) == [];
    } else {
      assert OnWire(PlainText, all, gone - 1, sent);
    }
    ReceivedLines(all, gone, sent);
  }

  /** What a connection hands back once it is down, given its history. */
  method Collect(c: Conn) returns (redo: seq<Msg>)
    requires c.Valid()
    modifies c`up, c`In, c`history, c.keepSafe
    ensures var all, h, f := old(c.All()), old(c.history), c.format;
            Dropped(h) <= |all| && redo == all[Dropped(h)..] && c.buffered.wr.sent <= Wire(f, all) &&
            (Dropped(h) <= |Taken(BeforeFlush(h))| ==> Complete(f, all, Dropped(h), c.buffered.wr.sent)) &&
            (old(c.Quiet()) && f.PlainText? ==>
               (Complete(f, all, Dropped(h), c.buffered.wr.sent) <==> Dropped(h) <= |Taken(BeforeFlush(h))|))
  {
    ghost var all, h := c.All(), c.history;
    CollectedIsComplete(c);
    hide Dropped, BeforeFlush, Taken, Wire, Complete, Conn.Quiet;
    c.Hangup();
    redo := c.GetRedo();
  }

  lemma CollectedIsComplete(c: Conn)
    requires c.Valid()
    ensures var all, h, f, sent := c.All(), c.history, c.format, c.buffered.wr.sent;
            Dropped(h) <= |all| && sent <= Wire(f, all) &&
            (Dropped(h) <= |Taken(BeforeFlush(h))| ==> Complete(f, all, Dropped(h), sent)) &&
            (c.Quiet() && f.PlainText? ==>
               (Complete(f, all, Dropped(h), sent) <==> Dropped(h) <= |Taken(BeforeFlush(h))|))
  {
    var all, h, flushed := c.All(), c.history, Taken(BeforeFlush(c.history));
    Retention(h);
    WirePrefix(c.format, all, |Taken(h)|);
    assert all[..|Taken(h)|] == Taken(h);
    hide Dropped, BeforeFlush, Taken, Wire, Recent;
    if Dropped(h) <= |flushed| {
      AllOnWire(c.format, all, flushed, c.buffered.wr.sent, Dropped(h));
    } else if c.Quiet() && c.format.PlainText? {
      NotOnWire(c.format, all, flushed, |flushed|);
    }
  }

  /** Redo completeness. Of all metrics ever queued, the redo slice is everything but what had been
      taken before the last rotation but one. If that had been taken before the last successful flush,
      all the others are on the wire; at most one rotation since makes sure of it, and so does a script
      with few enough rotations. The condition is exact: with a buffer that has room for everything,
      and no failure, the others are on the wire if and only if it holds. The wire only ever holds a
      prefix of the encoded metrics. In terms of a receiver of lines: it has read all metrics but those
      handed back, and nothing that was not queued. */
  method ServeAndCollect(c: Conn, script: seq<Event>) returns (redo: seq<Msg>, ghost trace: seq<Done>, ghost stop: nat)
    requires c.Valid()
    modifies c, c.keepSafe, c.buffered`n, c.buffered`err, c.buffered`accepted, c.buffered.buf, c.buffered.wr
    ensures Happened(script, stop, trace) && (c.handling ==> stop == |script|)
    ensures var all := old(c.All()) + Queued(script);
            var h, f, sent := old(c.history) + trace, c.format, c.buffered.wr.sent;
            Dropped(h) <= |all| && redo == all[Dropped(h)..] && sent <= Wire(f, all) &&
            (Dropped(h) <= |Taken(BeforeFlush(h))| ==> Complete(f, all, Dropped(h), sent)) &&
            (f.PlainText? && Unbroken(all) && Dropped(h) <= |Taken(BeforeFlush(h))| ==> ReadBy(all, Dropped(h), sent)) &&
            (f.PlainText? && old(c.Quiet()) && c.handling && |Wire(f, all)| <= c.buffered.buf.Length ==>
               (Complete(f, all, Dropped(h), sent) <==> Dropped(h) <= |Taken(BeforeFlush(h))|))
  {
    trace, stop := Serve(c, script);
    hide Dropped, BeforeFlush, Taken, Queued, Happened, Wire, Complete, Unbroken, ReadBy;
    hide Conn.Valid, Conn.All, Conn.Quiet;
    ghost var all, gone := c.All(), Dropped(c.history);
    redo := Collect(c);
    if c.format.PlainText? && Unbroken(all) && Complete(c.format, all, gone, c.buffered.wr.sent) {
      CompleteIsRead(all, gone, c.buffered.wr.sent);
    }
  }

  /** When the condition holds: at most one rotation since the last successful flush, and in
      particular few enough rotations in the script. */
  lemma FewRotationsSuffice(h: seq<Done>, script: seq<Event>, stop: nat, trace: seq<Done>)
    requires Happened(script, stop, trace)
    ensures SinceFlush(h + trace) <= 1 ==> Dropped(h + trace) <= |Taken(BeforeFlush(h + trace))|
    ensures SinceFlush(h) + |Scheduled(script, false)| <= 1 ==> SinceFlush(h + trace) <= 1
  {
    Retention(h + trace);
    FewRotations(h, script, stop, trace);
  }

  method RotateTwice(c: Conn)
    requires c.Valid()
    modifies c`history, c.keepSafe
    ensures c.Valid() && Taken(c.history) == old(Taken(c.history)) && Dropped(c.history) == |Taken(c.history)|
  {
    hide Dropped, Recent, Taken, Conn.Valid;
    HistorySnoc(c.history, Rotated);
    c.HandleRotate();
    HistorySnoc(c.history, Rotated);
    c.HandleRotate();
  }

  /** The bound on rotations is needed: whenever a metric is taken into a buffer that has room for
      it and two rotations follow with no flush between, it is neither sent nor handed back. */
  method LostAfterTwoRotations(c: Conn) returns (redo: seq<Msg>)
    requires c.Valid() && c.handling && |c.In| == 1
    requires !c.buffered.err && |c.format.Encode(c.In[0])| <= c.buffered.Available()
    modifies c, c.keepSafe, c.buffered`n, c.buffered`err, c.buffered`accepted, c.buffered.buf, c.buffered.wr
    ensures redo == [] && c.buffered.wr.sent == old(c.buffered.wr.sent)
  {
    hide Dropped, Taken, Conn.Valid;
    c.HandleTake();
    RotateTwice(c);
    c.Hangup();
    redo := c.GetRedo();
  }
}
