/** Whole runs of the disk queue, compared with a plain list. */
module DiskRuns {
  import opened DiskLayout
  import opened DiskReaders
  import opened DiskDamage
  import opened DiskDurability
  import opened DiskQueues
  import opened Options
  import opened Subsequences

  /** What the environment chooses at each select, plus a clean shutdown and restart. */
  datatype Event = Put(data: Msg) | Deliver | Empty | SyncTick | Reopen

  datatype FifoResult = FifoResult(delivered: seq<Msg>, pending: seq<Msg>)

  /** The specification: a list, to which only three of the events mean anything. */
  function One(q: seq<Msg>, e: Event): FifoResult {
    match e
    case Put(data) => FifoResult([], q + [data])
    case Deliver => if q == [] then FifoResult([], q) else FifoResult([q[0]], q[1..])
    case Empty => FifoResult([], [])
    case SyncTick => FifoResult([], q)
    case Reopen => FifoResult([], q)
  }

  function Fifo(q: seq<Msg>, script: seq<Event>): FifoResult
    decreases |script|
  {
    if script == [] then FifoResult([], q)
    else
      var first := One(q, script[0]);
      var rest := Fifo(first.pending, script[1..]);
      FifoResult(first.delivered + rest.delivered, rest.pending)
  }

  function PutBy(e: Event): seq<Msg> { if e.Put? then [e.data] else [] }

  function Puts(script: seq<Event>): seq<Msg> {
    if script == [] then []
    else (if script[0].Put? then [script[0].data] else []) + Puts(script[1..])
  }

  lemma {:induction false} FifoConserves(q: seq<Msg>, script: seq<Event>)
    requires Empty !in script
    ensures var r := Fifo(q, script); r.delivered + r.pending == q + Puts(script)
    decreases |script|
  {
    if script != [] {
      assert script[0] in script && forall e :: e in script[1..] ==> e in script;
      var first, put := One(q, script[0]), if script[0].Put? then [script[0].data] else [];
      assert first.delivered + first.pending == q + put;
      hide One;
      FifoConserves(first.pending, script[1..]);
      var rest := Fifo(first.pending, script[1..]);
      Chain(q, put, first.delivered, first.pending, Puts(script[1..]), rest.delivered, rest.pending);
    }
  }

  /** Conservation over one event, then over the rest. */
  lemma Chain(q: seq<Msg>, put: seq<Msg>, d: seq<Msg>, p: seq<Msg>, puts: seq<Msg>, d': seq<Msg>, p': seq<Msg>)
    requires d + p == q + put && d' + p' == p + puts
    ensures d + d' + p' == q + (put + puts)
  {
    assert d + d' + p' == d + (d' + p');
    assert d + (p + puts) == d + p + puts;
  }

  lemma {:induction false} FifoSplit(q: seq<Msg>, a: seq<Event>, b: seq<Event>)
    ensures var first := Fifo(q, a);
            var second := Fifo(first.pending, b);
            Fifo(q, a + b) == FifoResult(first.delivered + second.delivered, second.pending)
    decreases |a|
  {
    hide One;
    if a == [] {
      assert a + b == b;
      assert Fifo(q, a).delivered + Fifo(q, b).delivered == Fifo(q, b).delivered;
    } else {
      assert (a + b)[1..] == a[1..] + b;
      FifoSplit(One(q, a[0]).pending, a[1..], b);
    }
  }

  lemma FifoOne(q: seq<Msg>, e: Event)
    ensures Fifo(q, [e]) == One(q, e)
  {
    assert [e][1..] == [];
  }

  /** After the last Empty, what has been delivered followed by what is pending is exactly what
      has been put since; nothing read ahead before the Empty is delivered after it. */
  lemma FifoSinceLastEmpty(q: seq<Msg>, a: seq<Event>, b: seq<Event>)
    requires Empty !in b
    ensures var all := Fifo(q, a + [Empty] + b);
            exists since :: all.delivered == Fifo(q, a).delivered + since && since + all.pending == Puts(b)
  {
    var since := Fifo([], b).delivered;
    FifoSplit(q, a + [Empty], b);
    FifoSplit(q, a, [Empty]);
    FifoConserves([], b);
    FifoOne(Fifo(q, a).pending, Empty);
    assert Fifo(q, a + [Empty]).delivered == Fifo(q, a).delivered;
    assert [] + Puts(b) == Puts(b);
  }

  /** The bytes determine the queue: two lists stored between the same cursors are equal. */
  lemma {:induction false} StoredIsUnique(files: Files, max: int, r: Cursor, p: seq<Msg>, q: seq<Msg>)
    requires Stored(files, max, r, p) && Stored(files, max, r, q)
    requires Walk(max, r, p) == Walk(max, r, q)
    requires (forall m :: m in p ==> Fits(m)) && (forall m :: m in q ==> Fits(m))
    ensures p == q
    decreases |p|
  {
    WalkMonotone(max, r, p);
    WalkMonotone(max, r, q);
    if p != [] && q != [] {
      FrameIsRead(files, r, p[0]);
      FrameIsRead(files, r, q[0]);
      StoredIsUnique(files, max, Step(max, r, p[0]), p[1..], q[1..]);
    }
  }

  // ---------------------------------------------------------------- turns of the loop

  /** One iteration. What can be delivered is not changed by giving up a file that cannot be read. */
  method Pass(q: DiskQueue) returns (selecting: bool)
    requires q.Operable()
    modifies q, q.disk
    ensures q.Operable() && !q.Missing() && (selecting ==> q.Selecting())
    ensures q.Deliverable() == old(q.Deliverable()) && q.depth == old(q.depth)
    ensures !selecting ==> |q.queue| < |old(q.queue)| + if old(q.Missing()) then 1 else 0
    ensures q.disk.broken.Keys <= old(q.disk.broken).Keys
    ensures old(q.Clean()) ==> q.Clean()
    ensures old(q.Valid()) ==> q.Valid() && q.queue == old(q.queue) && old(q.disk.Owed()) <= q.disk.Owed()
    ensures q.read == old(q.read) || (q.read == Cursor(old(q.read.file) + 1, 0) && !selecting)
    ensures selecting ==> q.read == old(q.read)
    ensures old(q.Paced(1)) ==> q.Paced(0)
    ensures old(q.SyncDue()) ==> q.disk.Owed() == old(q.queue)
  {
    PassSurvives(q);
    hide Laid, Backed, Surviving, AfterFile;
    selecting := q.Iterate();
  }

  lemma PassSurvives(q: DiskQueue)
    requires q.Operable()
    ensures q.Missing() || q.Unreadable() ==>
              Surviving(q.disk.broken - {q.read.file}, q.maxBytesPerFile, Cursor(q.read.file + 1, 0), q.AfterPass()) ==
              q.Deliverable()
    ensures q.Unreadable() ==> |q.AfterPass()| < |q.queue|
  {
    var c := Cursor(q.read.file + 1, 0);
    SurvivingAbove(q.disk.broken - {q.read.file}, q.disk.broken, q.maxBytesPerFile, c, q.AfterPass());
  }

  /** The loop until it reaches its select. */
  method Settle(q: DiskQueue)
    requires q.Operable()
    modifies q, q.disk
    ensures q.Selecting()
    ensures q.Deliverable() == old(q.Deliverable()) && q.depth == old(q.depth)
    ensures q.disk.broken.Keys <= old(q.disk.broken).Keys
    ensures old(q.Clean()) ==> q.Clean()
    ensures old(q.Valid()) ==> q.Valid() && q.queue == old(q.queue) && old(q.disk.Owed()) <= q.disk.Owed()
    ensures old(q.Valid()) ==> q.read == old(q.read) || q.read == Cursor(old(q.read.file) + 1, 0)
    ensures old(q.Paced(1)) ==> q.Paced(0)
    ensures old(q.Valid() && q.SyncDue()) ==> q.disk.Owed() == q.queue
  {
    hide Laid, Backed, Surviving;
    var selecting := Pass(q);
    while !selecting
      invariant q.Operable() && !q.Missing() && (selecting ==> q.Selecting())
      invariant q.Deliverable() == old(q.Deliverable()) && q.depth == old(q.depth)
      invariant q.disk.broken.Keys <= old(q.disk.broken).Keys
      invariant old(q.Clean()) ==> q.Clean()
      invariant old(q.Valid()) ==> q.Valid() && q.queue == old(q.queue) && old(q.disk.Owed()) <= q.disk.Owed()
      invariant old(q.Valid()) ==> q.read == old(q.read) || q.read == Cursor(old(q.read.file) + 1, 0)
      invariant old(q.Paced(1)) ==> q.Paced(0)
      invariant old(q.Valid() && q.SyncDue()) ==> q.disk.Owed() == q.queue
      decreases !selecting, |q.queue|
    {
      selecting := Pass(q);
      q.OwedIsPending();
    }
  }

  /** The select whose delivery branch is taken when it is enabled. */
  method TryDeliver(q: DiskQueue) returns (out: seq<Msg>)
    requires q.Operable()
    modifies q, q.disk
    ensures q.Operable() && q.Durable() && !q.Missing() && |out| <= 1
    ensures out + q.Deliverable() == old(q.Deliverable()) && (out == [] ==> q.queue == [])
    ensures q.disk.broken.Keys <= old(q.disk.broken).Keys
    ensures old(q.Clean()) ==> q.Clean()
    ensures old(q.Valid()) ==> q.Valid() && out + q.queue == old(q.queue)
    ensures old(q.Valid()) && old(q.depth == |q.queue|) ==> q.depth == |q.queue|
    ensures old(q.Valid()) && out == [] ==> old(q.disk.Owed()) <= q.disk.Owed()
    ensures old(q.Paced(1)) ==> q.Paced(0)
    ensures old(q.Valid()) && out != [] ==>
              (old(q.disk.Owed()) == [] || old(q.disk.Owed())[0] == out[0]) && Rest(old(q.disk.Owed())) <= q.disk.Owed()
  {
    out := [];
    hide Backed, Surviving;
    Settle(q);
    LaidFacts(q.disk.files, q.disk.intact, q.disk.broken, q.maxBytesPerFile, q.read, q.queue, q.write);
    hide Laid;
    if q.read.file < q.write.file || q.read.pos < q.write.pos {
      var m := q.Deliver();
      out := [m];
    }
  }

  /** The selects that neither deliver nor empty: they only add to what is persisted. */
  method HandleOther(q0: DiskQueue, e: Event) returns (q: DiskQueue)
    requires q0.Selecting() && !e.Deliver? && !e.Empty?
    requires e.Put? ==> Fits(e.data) && q0.Tame() && q0.write.file !in q0.disk.broken
    modifies q0, q0.disk
    ensures q == q0 || fresh(q)
    ensures q.disk == q0.disk && q.maxBytesPerFile == q0.maxBytesPerFile && q.Operable() && q.Durable()
    ensures old(q0.disk.Owed()) <= q.disk.Owed()
    ensures q.queue == old(q0.queue) + PutBy(e) && q.Deliverable() == old(q0.Deliverable()) + PutBy(e)
    ensures q.depth == old(q0.depth) + |PutBy(e)|
    ensures q.disk.broken == old(q0.disk.broken) && (old(q0.Clean()) ==> q.Clean())
    ensures q.syncEvery == q0.syncEvery && (old(q0.Paced(0)) ==> q.Paced(1))
    ensures e.SyncTick? ==> q.SyncDue()
  {
    hide Laid, Backed, Surviving;
    q := q0;
    match e
    case Put(data) => var ok := q.Put(data);
    case SyncTick => RequestSync(q);
    case Reopen => q := Restart(q);
  }

  method RequestSync(q: DiskQueue)
    requires q.Sound() && q.Durable()
    modifies q`needSync
    ensures q.Sound() && q.Durable() && q.needSync
  {
    BackedUntracked(q.disk.intact, q.maxBytesPerFile, q.disk.meta, q.disk.snap, q.disk.done, q.read, q.queue, q.write,
                    !q.Missing() && !q.needSync, q.read);
    hide Laid, Backed;
    q.needSync := true;
  }

  /** A clean shutdown, and a new queue on the same disk. */
  method Restart(q0: DiskQueue) returns (q: DiskQueue)
    requires q0.Sound() && q0.Durable() && !q0.Missing()
    modifies q0, q0.disk
    ensures fresh(q) && q.disk == q0.disk && q.maxBytesPerFile == q0.maxBytesPerFile && q.Operable() && q.Durable()
    ensures q.queue == old(q0.queue) && q.depth == old(q0.depth) && q.Deliverable() == old(q0.Deliverable())
    ensures q.disk.broken == old(q0.disk.broken) && old(q0.disk.Owed()) <= q.disk.Owed()
    ensures old(q0.Clean()) ==> q.Clean()
    ensures q.syncEvery == q0.syncEvery && q.Paced(0)
  {
    hide Laid, Backed, Surviving;
    q0.Close();
    ClosedIsConsistent(q0);
    assert q0.queue[0..] == q0.queue;
    q := new DiskQueue(q0.disk, q0.maxBytesPerFile, q0.syncEvery);
  }

  lemma ClosedIsConsistent(q: DiskQueue)
    requires q.Layout() && q.Durable() && !q.Missing()
    requires q.disk.snap == q.queue && q.disk.done == 0 && q.disk.meta == Some(Meta(q.depth, q.read, q.write))
    ensures q.disk.Safe(q.maxBytesPerFile) && q.disk.Consistent(q.maxBytesPerFile)
  {
    LaidFacts(q.disk.files, q.disk.intact, q.disk.broken, q.maxBytesPerFile, q.read, q.queue, q.write);
    hide Worn, Marked, Walk, Stored;
  }

  // ---------------------------------------------------------------- error-free runs

  /** The loop, from wherever it is to the completion of one select. */
  method Handle(q0: DiskQueue, e: Event) returns (q: DiskQueue, out: seq<Msg>)
    requires q0.Valid() && q0.Clean() && q0.depth == |q0.queue|
    requires e.Put? ==> Fits(e.data)
    modifies q0, q0.disk
    ensures q == q0 || fresh(q)
    ensures q.disk == q0.disk && q.Valid() && q.Clean() && q.depth == |q.queue|
    ensures FifoResult(out, q.queue) == One(old(q0.queue), e)
    ensures q.syncEvery == q0.syncEvery && q.maxBytesPerFile == q0.maxBytesPerFile && (old(q0.Paced(1)) ==> q.Paced(1))
  {
    hide Laid, Backed, Surviving, DiskQueue.Sound, DiskQueue.Durable, DiskQueue.Missing, Fits;
    q, out := q0, [];
    if e == Deliver {
      out := TryDeliver(q);
      assert out != [] ==> out == [out[0]];
    } else if e == Empty {
      Clear(q);
    } else {
      q := Settled(q, e);
    }
  }

  method Settled(q0: DiskQueue, e: Event) returns (q: DiskQueue)
    requires q0.Valid() && q0.Clean() && !e.Deliver? && !e.Empty? && (e.Put? ==> Fits(e.data))
    modifies q0, q0.disk
    ensures q == q0 || fresh(q)
    ensures q.disk == q0.disk && q.Valid() && q.Clean()
    ensures q.queue == old(q0.queue) + PutBy(e) && q.depth == old(q0.depth) + |PutBy(e)|
    ensures q.syncEvery == q0.syncEvery && q.maxBytesPerFile == q0.maxBytesPerFile && (old(q0.Paced(1)) ==> q.Paced(1))
  {
    hide Laid, Backed, Surviving, Fits;
    Settle(q0);
    q0.CleanIsTame();
    hide DiskQueue.Missing, DiskQueue.Tame;
    q := HandleOther(q0, e);
  }

  method Clear(q: DiskQueue)
    requires q.Valid()
    modifies q, q.disk
    ensures q.Valid() && q.queue == [] && q.depth == 0 && (old(q.Clean()) ==> q.Clean())
    ensures old(q.Paced(1)) ==> q.Paced(1)
  {
    hide Laid, Surviving;
    Settle(q);
    var ok := q.Empty();
    assert q.disk.broken == map[];
  }

  /** Any error-free run refines the list, if the data ends at the writer at its start. Depth stays
      exact throughout. */
  method Run(q0: DiskQueue, script: seq<Event>) returns (q: DiskQueue, delivered: seq<Msg>)
    requires q0.Valid() && q0.Clean() && q0.depth == |q0.queue|
    requires forall e :: e in script && e.Put? ==> Fits(e.data)
    modifies q0, q0.disk
    ensures q == q0 || fresh(q)
    ensures q.disk == q0.disk && q.Valid() && q.Clean() && q.depth == |q.queue|
    ensures FifoResult(delivered, q.queue) == Fifo(old(q0.queue), script)
    ensures q.syncEvery == q0.syncEvery && q.maxBytesPerFile == q0.maxBytesPerFile && (old(q0.Paced(1)) ==> q.Paced(1))
  {
    q, delivered := q0, [];
    for i := 0 to |script|
      invariant q == q0 || fresh(q)
      invariant q.disk == q0.disk && q.Valid() && q.Clean() && q.depth == |q.queue|
      invariant FifoResult(delivered, q.queue) == Fifo(old(q0.queue), script[..i])
      invariant q.syncEvery == q0.syncEvery && q.maxBytesPerFile == q0.maxBytesPerFile
      invariant old(q0.Paced(1)) ==> q.Paced(1)
    {
      assert script[i] in script;
      assert script[..i + 1] == script[..i] + [script[i]];
      FifoSplit(old(q0.queue), script[..i], [script[i]]);
      FifoOne(q.queue, script[i]);
      hide DiskQueue.Valid, DiskQueue.Clean, DiskQueue.Paced;
      var out;
      q, out := Handle(q, script[i]);
      delivered := delivered + out;
    }
    assert script[..|script|] == script;
  }

  // ---------------------------------------------------------------- stale bytes

  /** After an unclean restart the write file may hold bytes at or past the write cursor, and the
      reader may have buffered them. Writing is then unsafe: a Put into the file being read is read
      back, whatever is put, exactly when nothing at or past the write cursor is buffered. */
  lemma TameIff(q: DiskQueue)
    requires q.Operable() && !q.Missing() && q.write.file !in q.disk.broken
    requires q.readFile.Some? && q.readFile.value.at.file == q.write.file
    ensures var h, pending := q.readFile.value, if q.next == q.read then q.queue else q.queue[1..];
            q.Tame() <==>
            forall m :: Fits(m) ==>
              ReadsBack(Overwrite(q.disk.files[q.write.file], q.write.pos, Frame(m)), h, pending + [m])
  {
    var h, pending := q.readFile.value, if q.next == q.read then q.queue else q.queue[1..];
    var c := h.at;
    LaidFacts(q.disk.files, q.disk.intact, q.disk.broken, q.maxBytesPerFile, q.read, q.queue, q.write);
    assert Walk(q.maxBytesPerFile, c, pending) == q.write && Stored(q.disk.intact, q.maxBytesPerFile, c, pending);
    assert q.disk.intact[c.file] == q.disk.files[c.file];
    StoredFrames(q.disk.intact, q.maxBytesPerFile, c, pending);
    hide Worn, Marked, Stored, Walk, Agrees, Backed;
    PutReadsBackIff(q.disk.files[c.file], h, pending, q.write.pos);
  }

  // ---------------------------------------------------------------- damaged files

  /** Damage that has not been read yet: the frame at `x` is still to be read, and bytes that the
      reader has buffered stay as they are, since it will not look at them again. */
  predicate CanDamage(q: DiskQueue, x: Cursor, bytes: seq<byte>) reads q, q.disk {
    x in Visits(q.disk.files, q.maxBytesPerFile, q.Head(), q.write) && MakesUnreadable(q.disk.files, x, bytes) &&
    (q.next == q.read || x != q.read) &&
    (q.readFile.Some? && q.read.file == x.file ==> Agrees(bytes, q.readFile.value))
  }

  /** A file is damaged. What is lost is exactly what its file held from there on and could be read. */
  method Damage(q: DiskQueue, x: Cursor, bytes: seq<byte>)
    returns (ghost before: seq<Msg>, ghost lost: seq<Msg>, ghost after: seq<Msg>, ghost k: nat)
    requires q.Operable() && CanDamage(q, x, bytes)
    modifies q.disk`files, q.disk`broken
    ensures q.Operable() && (old(q.Durable()) ==> q.Durable()) && (old(q.Clean()) ==> q.Clean())
    ensures q.disk.files == old(q.disk.files)[x.file := bytes] && q.disk.broken == old(q.disk.broken)[x.file := x.pos]
    ensures Damages(old(q.disk.broken), q.maxBytesPerFile, old(q.Head()), q.queue, x, before, lost, after, k)
    ensures old(q.Deliverable()) == before + lost + after && q.Deliverable() == before + after
    ensures InOneFile(q.maxBytesPerFile, x, lost) && q.Head() == old(q.Head())
  {
    VisitsPending(q.disk.files, q.disk.intact, q.disk.broken, q.maxBytesPerFile, q.Head(), q.queue, q.write, x);
    before, lost, after, k := Damaging(q.disk.broken, q.maxBytesPerFile, q.Head(), q.queue, x);
    InFileIsInOneFile(q.maxBytesPerFile, x, q.queue[k..], lost);
    LaidDamaged(q.disk.files, q.disk.intact, q.disk.broken, q.maxBytesPerFile, q.Head(), q.queue, q.write, x, bytes);
    hide Laid, Backed, Surviving, Agrees, Visits, Starts, InFile;
    q.disk.files := q.disk.files[x.file := bytes];
    q.disk.broken := q.disk.broken[x.file := x.pos];
  }

  /** Left to itself, the loop delivers exactly what can be read of the files, damaged or not. */
  method DeliverAll(q: DiskQueue) returns (delivered: seq<Msg>)
    requires q.Operable()
    modifies q, q.disk
    ensures q.Operable() && q.queue == []
    ensures delivered == old(Readable(q.disk.files, q.maxBytesPerFile, q.Head(), q.write))
    ensures delivered == old(q.Deliverable())
  {
    ReadableIsSurviving(q.disk.files, q.disk.intact, q.disk.broken, q.maxBytesPerFile, q.Head(), q.queue, q.write);
    hide DiskQueue.Operable, DiskQueue.Deliverable, Readable;
    delivered := DeliverRest(q);
  }

  method DeliverRest(q: DiskQueue) returns (delivered: seq<Msg>)
    requires q.Operable()
    modifies q, q.disk
    ensures q.Operable() && q.queue == [] && delivered == old(q.Deliverable())
  {
    ghost var all := q.Deliverable();
    delivered := [];
    assert delivered + q.Deliverable() == all;
    hide DiskQueue.Operable, DiskQueue.Deliverable, DiskQueue.Valid, DiskQueue.Clean, DiskQueue.Missing, DiskQueue.Durable;
    var more := true;
    while more
      invariant q.Operable() && delivered + q.Deliverable() == all && (!more ==> q.queue == [])
      decreases more, |q.Deliverable()|
    {
      ghost var left := q.Deliverable();
      var out := TryDeliver(q);
      Moved(delivered, left, out, q.Deliverable());
      delivered, more := delivered + out, out != [];
    }
    NothingSurvives(q);
  }

  lemma Moved(delivered: seq<Msg>, left: seq<Msg>, out: seq<Msg>, left': seq<Msg>)
    requires out + left' == left
    ensures delivered + out + left' == delivered + left && (out != [] ==> |left'| < |left|)
  {
  }

  lemma NothingSurvives(q: DiskQueue)
    requires q.queue == []
    ensures q.Deliverable() == []
  {
  }

  /** A file is damaged from its `k`-th pending frame on. The loop then delivers the messages before
      it, and after them exactly those of the later files. */
  method DeliverDamaged(q: DiskQueue, x: Cursor, bytes: seq<byte>) returns (delivered: seq<Msg>, ghost k: nat)
    requires q.Valid() && CanDamage(q, x, bytes)
    modifies q, q.disk
    ensures k < |old(q.queue)| && Walk(q.maxBytesPerFile, old(q.Head()), old(q.queue)[..k]) == x
    ensures delivered == old(q.queue)[..k] + AfterFile(q.maxBytesPerFile, x, old(q.queue)[k..])
    ensures delivered == old(Readable(q.disk.files[x.file := bytes], q.maxBytesPerFile, q.Head(), q.write))
    ensures q.Operable() && q.queue == []
  {
    ghost var before, lost, after;
    before, lost, after, k := Damage(q, x, bytes);
    DamageIsContained(q.maxBytesPerFile, q.Head(), q.queue, k);
    hide Laid, Backed, Surviving, Readable, AfterFile, Walk;
    delivered := DeliverAll(q);
  }

  datatype BadEvent = Good(e: Event) | Damage(x: Cursor, bytes: seq<byte>)

  /** What a run puts. */
  function PutsOf(script: seq<BadEvent>): seq<Msg> {
    if script == [] then []
    else
      var last := script[|script| - 1];
      PutsOf(script[..|script| - 1]) + if last.Good? then PutBy(last.e) else []
  }

  /** The files that a run damages. */
  function Hurt(script: seq<BadEvent>): set<int> {
    set b | b in script && b.Damage? :: b.x.file
  }

  function Hits(script: seq<BadEvent>): nat {
    if script == [] then 0 else Hits(script[..|script| - 1]) + if script[|script| - 1].Damage? then 1 else 0
  }

  /** What one event does to the messages that can be delivered: it delivers and adds some, or it
      loses some of one file. */
  ghost predicate Turned(max: int, left: seq<Msg>, b: BadEvent, out: seq<Msg>, left': seq<Msg>, losses: seq<seq<Msg>>) {
    if b.Good? then losses == [] && out + left' == left + PutBy(b.e)
    else
      out == [] && |losses| == 1 && (exists c :: InOneFile(max, c, losses[0])) &&
      exists before, after :: left == before + losses[0] + after && left' == before + after
  }

  /** What a run has made of the messages pending at first and those put: they are delivered, can still
      be delivered, or are in one of the losses, of which there is one for every damage, each in one
      file. */
  ghost predicate Accounts(max: int, first: seq<Msg>, script: seq<BadEvent>, delivered: seq<Msg>, left: seq<Msg>,
                           losses: seq<seq<Msg>>) {
    Cuts(first + PutsOf(script), delivered + left, losses) && |losses| == Hits(script) &&
    forall l :: l in losses ==> exists c :: InOneFile(max, c, l)
  }

  lemma AccountsTurn(max: int, first: seq<Msg>, script: seq<BadEvent>, i: nat, delivered: seq<Msg>, left: seq<Msg>,
                     losses: seq<seq<Msg>>, out: seq<Msg>, left': seq<Msg>, lost: seq<seq<Msg>>)
    requires i < |script| && Accounts(max, first, script[..i], delivered, left, losses)
    requires Turned(max, left, script[i], out, left', lost)
    ensures Accounts(max, first, script[..i + 1], delivered + out, left', losses + lost)
  {
    ScriptSnoc(first, script, i);
    var all := first + PutsOf(script[..i]);
    if script[i].Good? {
      assert losses + lost == losses;
      CutsGood(all, delivered, left, losses, PutBy(script[i].e), out, left');
    } else {
      var before, after :| left == before + lost[0] + after && left' == before + after;
      CutsLoss(all, delivered, losses, before, lost[0], after);
      assert delivered + out == delivered && losses + lost == losses + [lost[0]];
    }
    hide Cuts, InOneFile, PutsOf, Hits;
  }

  lemma CutsGood(all: seq<Msg>, delivered: seq<Msg>, left: seq<Msg>, losses: seq<seq<Msg>>,
                 put: seq<Msg>, out: seq<Msg>, left': seq<Msg>)
    requires Cuts(all, delivered + left, losses) && out + left' == left + put
    ensures Cuts(all + put, delivered + out + left', losses)
  {
    CutsAppend(all, delivered + left, losses, put);
    hide Cuts;
    assert delivered + out + left' == delivered + (out + left');
    assert delivered + left + put == delivered + (left + put);
  }

  lemma CutsLoss(all: seq<Msg>, delivered: seq<Msg>, losses: seq<seq<Msg>>, before: seq<Msg>, lost: seq<Msg>, after: seq<Msg>)
    requires Cuts(all, delivered + (before + lost + after), losses)
    ensures Cuts(all, delivered + (before + after), losses + [lost])
  {
    assert delivered + (before + lost + after) == (delivered + before) + lost + after;
    CutsOnce(all, delivered + before, lost, after, losses);
    hide Cuts;
    assert delivered + (before + after) == delivered + before + after;
  }

  lemma ScriptSnoc(first: seq<Msg>, script: seq<BadEvent>, i: nat)
    requires i < |script|
    ensures first + PutsOf(script[..i + 1]) == if script[i].Good? then first + PutsOf(script[..i]) + PutBy(script[i].e)
                                               else first + PutsOf(script[..i])
    ensures Hits(script[..i + 1]) == Hits(script[..i]) + if script[i].Damage? then 1 else 0
  {
    assert script[..i + 1][..i] == script[..i];
  }

  lemma HurtSnoc(script: seq<BadEvent>, i: nat)
    requires i < |script|
    ensures Hurt(script[..i + 1]) == Hurt(script[..i]) + if script[i].Damage? then {script[i].x.file} else {}
  {
    assert script[..i + 1] == script[..i] + [script[i]];
  }

  /** One event of a run with damage, given the files damaged so far. Damage that `CanDamage` excludes
      does nothing. A Put into a damaged file is not taken. */
  method BadTurn(q0: DiskQueue, b: BadEvent, hurt: set<int>)
    returns (q: DiskQueue, out: seq<Msg>, ghost lost: seq<seq<Msg>>, stuck: bool)
    requires q0.Operable() && q0.Clean() && q0.disk.broken.Keys <= hurt
    requires b.Good? ==> !b.e.Empty? && (b.e.Put? ==> Fits(b.e.data))
    modifies q0, q0.disk
    ensures q == q0 || fresh(q)
    ensures q.disk == q0.disk && q.maxBytesPerFile == q0.maxBytesPerFile && q.Operable() && q.Clean()
    ensures q.disk.broken.Keys <= hurt + if b.Damage? then {b.x.file} else {}
    ensures if stuck then b.Good? && b.e.Put? && q.write.file in hurt && q.Deliverable() == old(q0.Deliverable())
            else Turned(q.maxBytesPerFile, old(q0.Deliverable()), b, out, q.Deliverable(), lost)
  {
    hide DiskQueue.Operable, DiskQueue.Clean, DiskQueue.Deliverable, InOneFile;
    q, out, lost, stuck := q0, [], [], false;
    if b.Good? {
      ghost var left := q.Deliverable();
      q, out, stuck := GoodTurn(q, b.e, hurt);
      assert left + [] == left && (out == [] ==> out + q.Deliverable() == q.Deliverable());
    } else {
      ghost var before, gone, after, c := MaybeDamage(q, b.x, b.bytes);
      lost := [gone];
      assert InOneFile(q.maxBytesPerFile, c, lost[0]) && q.Deliverable() == before + after;
      assert old(q0.Deliverable()) == before + lost[0] + after;
    }
  }

  method GoodTurn(q0: DiskQueue, e: Event, hurt: set<int>) returns (q: DiskQueue, out: seq<Msg>, stuck: bool)
    requires q0.Operable() && q0.Clean() && q0.disk.broken.Keys <= hurt && !e.Empty? && (e.Put? ==> Fits(e.data))
    modifies q0, q0.disk
    ensures q == q0 || fresh(q)
    ensures q.disk == q0.disk && q.maxBytesPerFile == q0.maxBytesPerFile && q.Operable() && q.Clean()
    ensures q.disk.broken.Keys <= hurt
    ensures out + q.Deliverable() == old(q0.Deliverable()) + if stuck then [] else PutBy(e)
    ensures stuck ==> e.Put? && out == [] && q.write.file in hurt
  {
    hide Laid, Backed, Surviving, DiskQueue.Missing, Fits;
    q, out, stuck := q0, [], false;
    if e.Deliver? {
      out := TryDeliver(q);
    } else {
      Settle(q);
      if e.Put? && q.write.file in hurt {
        stuck := true;
      } else {
        if e.Put? {
          q.CleanIsTame();
        }
        q := HandleOther(q, e);
      }
    }
  }

  method MaybeDamage(q: DiskQueue, x: Cursor, bytes: seq<byte>)
    returns (ghost before: seq<Msg>, ghost lost: seq<Msg>, ghost after: seq<Msg>, ghost c: Cursor)
    requires q.Operable() && q.Clean()
    modifies q.disk`files, q.disk`broken
    ensures q.Operable() && q.Clean() && q.disk.broken.Keys <= old(q.disk.broken).Keys + {x.file}
    ensures old(q.Deliverable()) == before + lost + after && q.Deliverable() == before + after
    ensures InOneFile(q.maxBytesPerFile, c, lost) && (!old(CanDamage(q, x, bytes)) ==> lost == [])
  {
    hide Laid, Backed, Surviving, DiskQueue.Sound, DiskQueue.Durable;
    before, lost, after, c := q.Deliverable(), [], [], x;
    if CanDamage(q, x, bytes) {
      ghost var k;
      before, lost, after, k := Damage(q, x, bytes);
    }
  }

  /** Over any run with damage: of the messages pending at first and put since, each is delivered, can
      still be delivered, or is in one of the losses, one for every damage; what is delivered is in
      order. Without damage there is no loss. The run stops early at a Put into a damaged file. */
  method DamagedRun(q0: DiskQueue, script: seq<BadEvent>)
    returns (q: DiskQueue, delivered: seq<Msg>, ghost losses: seq<seq<Msg>>, done: nat)
    requires q0.Valid() && q0.Clean()
    requires forall b :: b in script && b.Good? ==> !b.e.Empty? && (b.e.Put? ==> Fits(b.e.data))
    modifies q0, q0.disk
    ensures q == q0 || fresh(q)
    ensures q.disk == q0.disk && q.Operable() && done <= |script|
    ensures Accounts(q0.maxBytesPerFile, old(q0.queue), script[..done], delivered, q.Deliverable(), losses)
    ensures done < |script| ==> script[done].Good? && script[done].e.Put? && q.write.file in Hurt(script[..done])
  {
    q, delivered, losses, done := q0, [], [], 0;
    NoneBroken(q0.maxBytesPerFile, q0.Head(), q0.queue);
    ghost var first := q0.queue;
    assert first + PutsOf(script[..0]) == first && delivered + q.Deliverable() == first;
    assert Accounts(q0.maxBytesPerFile, first, script[..0], delivered, q0.Deliverable(), losses);
    hide DiskQueue.Operable, DiskQueue.Clean, DiskQueue.Deliverable, Accounts, Turned, Hurt, PutsOf, Hits;
    while done < |script|
      invariant q == q0 || fresh(q)
      invariant q.disk == q0.disk && q.Operable() && q.Clean() && q.maxBytesPerFile == q0.maxBytesPerFile
      invariant done <= |script| && q.disk.broken.Keys <= Hurt(script[..done])
      invariant Accounts(q0.maxBytesPerFile, first, script[..done], delivered, q.Deliverable(), losses)
    {
      assert script[done] in script;
      HurtSnoc(script, done);
      ghost var left := q.Deliverable();
      var out, stuck;
      ghost var lost;
      q, out, lost, stuck := BadTurn(q, script[done], Hurt(script[..done]));
      if stuck {
        return;
      }
      AccountsTurn(q0.maxBytesPerFile, first, script, done, delivered, left, losses, out, q.Deliverable(), lost);
      delivered, losses := delivered + out, losses + lost;
      done := done + 1;
    }
  }

  // ---------------------------------------------------------------- crashes

  ghost predicate EndsWith(s: seq<Msg>, t: seq<Msg>) {
    |t| <= |s| && s[|s| - |t|..] == t
  }

  /** A crash at any step of any run, followed by a restart. Whatever was not synced may be lost or
      garbled: `left` is what is found there instead. Everything that was persisted and not delivered
      is still there, in order, at the end of the recovered queue; what comes before it was delivered
      already and is delivered again. At most one file is skipped. */
  method CrashAndRestart(lost: DiskQueue, left: Files) returns (q: DiskQueue)
    requires lost.disk.Safe(lost.maxBytesPerFile) && lost.disk.Undamaged()
    modifies lost.disk
    ensures fresh(q) && q.disk == lost.disk && q.Valid() && q.Selecting()
    ensures q.queue == old(lost.disk.snap) || q.queue == old(lost.disk.Owed())
    ensures EndsWith(q.queue, old(lost.disk.Owed())) && q.queue <= q.disk.Owed()
    ensures old(lost.disk.meta.Some?) ==>
              var m := old(lost.disk.meta.value);
              q.read == m.read || q.read == Cursor(m.read.file + 1, 0)
    ensures left == map[] ==> q.Clean()
    ensures q.syncEvery == lost.syncEvery && q.Paced(0)
  {
    hide Laid, Backed, Surviving;
    Crash(lost.disk, lost.maxBytesPerFile, left);
    hide Torn;
    q := new DiskQueue(lost.disk, lost.maxBytesPerFile, lost.syncEvery);
    assert q.disk.snap[0..] == q.queue;
    Settle(q);
  }

  method Crash(disk: Disk, max: int, left: Files)
    requires disk.Safe(max) && disk.Undamaged()
    modifies disk`files, disk`intact
    ensures disk.Safe(max) && disk.Undamaged() && disk.Consistent(max)
    ensures disk.files == if disk.meta.Some? then Torn(old(disk.files), disk.meta.value.write, left) else left
    ensures left == map[] ==> EndsAt(disk.files, if disk.meta.Some? then disk.meta.value.write else Cursor(0, 0))
  {
    if disk.meta.None? {
      disk.files, disk.intact := left, left;
    } else {
      TornIsRecoverable(disk.intact, max, disk.meta.value, disk.snap, disk.done, left);
      hide HeadIntact, Recoverable;
      disk.files := Torn(disk.files, disk.meta.value.write, left);
      disk.intact := disk.files;
    }
  }

  datatype CrashEvent = Normal(e: Event) | Crash(left: Files)

  /** The undelivered part of a promise `o` made earlier: `o[..j]` has been delivered since, in
      order, and `o[j..]` is still persisted, after some redelivery `x`. */
  ghost predicate Kept(o: seq<Msg>, j: nat, x: seq<Msg>, delivered: seq<Msg>, owed: seq<Msg>) {
    j <= |o| && IsSubsequence(o[..j], delivered) && x + o[j..] <= owed
  }

  /** Delivering the head of what is owed keeps every promise. */
  lemma KeptDeliver(o: seq<Msg>, j: nat, x: seq<Msg>, delivered: seq<Msg>, owed: seq<Msg>,
                    m: Msg, owed': seq<Msg>)
    returns (j': nat, x': seq<Msg>)
    requires Kept(o, j, x, delivered, owed)
    requires (owed == [] || owed[0] == m) && Rest(owed) <= owed'
    ensures Kept(o, j', x', delivered + [m], owed')
  {
    SubsequenceMore(o[..j], delivered, m);
    hide IsSubsequence;
    j', x' := KeptTail(o, j, x, owed, m);
    assert Rest(owed) <= owed';
    if j' == j + 1 {
      assert o[..j'] == o[..j] + [m];
    }
  }

  /** How the promised part of what is owed shifts as the head goes. */
  lemma KeptTail(o: seq<Msg>, j: nat, x: seq<Msg>, owed: seq<Msg>, m: Msg) returns (j': nat, x': seq<Msg>)
    requires j <= |o| && x + o[j..] <= owed && (owed == [] || owed[0] == m)
    ensures j' == j || (j' == j + 1 <= |o| && o[j] == m)
    ensures j' <= |o| && x' + o[j'..] <= Rest(owed)
  {
    if x != [] {
      j', x' := j, x[1..];
      assert x + o[j..] == [x[0]] + (x' + o[j..]);
    } else if j < |o| {
      j', x' := j + 1, [];
      assert (x + o[j..])[0] == m;
      assert x + o[j..] == [m] + o[j'..];
    } else {
      j', x' := j, [];
    }
  }

  /** What a turn does to what is owed: it delivers its head, or adds to it at its end and, by
      redelivery after a crash, at its front. */
  ghost predicate Owes(owed: seq<Msg>, out: seq<Msg>, owed': seq<Msg>) {
    if out == [] then exists again :: again + owed <= owed'
    else |out| == 1 && (owed == [] || owed[0] == out[0]) && Rest(owed) <= owed'
  }

  lemma OwesMore(owed: seq<Msg>, owed': seq<Msg>)
    requires owed <= owed'
    ensures Owes(owed, [], owed')
  {
    assert [] + owed <= owed';
  }

  lemma OwesAgain(owed: seq<Msg>, queue: seq<Msg>, owed': seq<Msg>)
    requires EndsWith(queue, owed) && queue <= owed'
    ensures Owes(owed, [], owed')
  {
    assert queue[..|queue| - |owed|] + owed == queue;
  }

  /** Every turn keeps every promise. */
  lemma KeptTurn(o: seq<Msg>, j: nat, x: seq<Msg>, delivered: seq<Msg>, owed: seq<Msg>, out: seq<Msg>, owed': seq<Msg>)
    returns (j': nat, x': seq<Msg>)
    requires Kept(o, j, x, delivered, owed) && Owes(owed, out, owed')
    ensures Kept(o, j', x', delivered + out, owed')
  {
    if out == [] {
      var again :| again + owed <= owed';
      j', x' := j, again + x;
      assert x' + o[j..] == again + (x + o[j..]) && delivered + out == delivered;
    } else {
      assert out == [out[0]];
      j', x' := KeptDeliver(o, j, x, delivered, owed, out[0], owed');
    }
  }

  lemma ValidIsUndamaged(q: DiskQueue)
    requires q.Valid()
    ensures q.disk.Safe(q.maxBytesPerFile) && q.disk.Undamaged()
  {
    LaidFacts(q.disk.files, q.disk.intact, q.disk.broken, q.maxBytesPerFile, q.Head(), q.queue, q.write);
    assert forall f :: f in q.disk.files ==> q.disk.files[f] == q.disk.intact[f];
  }

  /** One event of a run with crashes. A Put waits for a reader that has buffered too much. */
  method CrashyTurn(q0: DiskQueue, c: CrashEvent) returns (q: DiskQueue, out: seq<Msg>, stuck: bool)
    requires q0.Valid() && (c.Normal? ==> !c.e.Empty? && (c.e.Put? ==> Fits(c.e.data)))
    modifies q0, q0.disk
    ensures q == q0 || fresh(q)
    ensures q.disk == q0.disk && q.Valid() && Owes(old(q0.disk.Owed()), out, q.disk.Owed())
    ensures stuck ==> c.Normal? && c.e.Put? && out == [] && q.Selecting() && !q.Tame()
    ensures old(q0.Clean()) && (c.Crash? ==> c.left == map[]) ==> q.Clean() && !stuck
    ensures q.syncEvery == q0.syncEvery && (old(q0.Paced(1)) ==> q.Paced(1))
  {
    hide Laid, Backed, Surviving, EndsWith;
    q, out, stuck := q0, [], false;
    ghost var owed := q.disk.Owed();
    if c.Crash? {
      ValidIsUndamaged(q);
      q := CrashAndRestart(q, c.left);
      OwesAgain(owed, q.queue, q.disk.Owed());
    } else if c.e == Deliver {
      out := TryDeliver(q);
      if out == [] {
        OwesMore(owed, q.disk.Owed());
      }
    } else {
      q, stuck := CrashyOther(q, c.e);
      OwesMore(owed, q.disk.Owed());
    }
  }

  method CrashyOther(q0: DiskQueue, e: Event) returns (q: DiskQueue, stuck: bool)
    requires q0.Valid() && !e.Deliver? && !e.Empty? && (e.Put? ==> Fits(e.data))
    modifies q0, q0.disk
    ensures q == q0 || fresh(q)
    ensures q.disk == q0.disk && q.Valid() && old(q0.disk.Owed()) <= q.disk.Owed()
    ensures stuck ==> e.Put? && q.Selecting() && !q.Tame()
    ensures old(q0.Clean()) ==> q.Clean() && !stuck
    ensures q.syncEvery == q0.syncEvery && (old(q0.Paced(1)) ==> q.Paced(1))
  {
    hide Laid, Backed, Surviving;
    q, stuck := q0, false;
    Settle(q);
    if q.Tame() || !e.Put? {
      q := HandleOther(q, e);
    } else {
      stuck := true;
    }
  }

  /** At-least-once delivery. Whatever is persisted and undelivered when the run starts is, after
      any mix of puts, deliveries, syncs, clean restarts and crashes, either delivered in order or
      still persisted in order. The run stops early at a Put that finds bytes at or past the write
      cursor in the reader's buffer (see `TameIff`). That can happen only after a crash that left such
      bytes behind: never if the data ends at the writer at the start and after every crash. */
  method CrashyRun(q0: DiskQueue, script: seq<CrashEvent>) returns (q: DiskQueue, delivered: seq<Msg>, done: nat)
    requires q0.Valid()
    requires forall c :: c in script && c.Normal? ==> !c.e.Empty? && (c.e.Put? ==> Fits(c.e.data))
    modifies q0, q0.disk
    ensures q == q0 || fresh(q)
    ensures q.disk == q0.disk && q.Valid()
    ensures exists j, x :: Kept(old(q0.disk.Owed()), j, x, delivered, q.disk.Owed())
    ensures done <= |script|
    ensures done < |script| ==> script[done].Normal? && script[done].e.Put? && q.Selecting() && !q.Tame()
    ensures old(q0.Clean()) && (forall c :: c in script && c.Crash? ==> c.left == map[]) ==> done == |script| && q.Clean()
    ensures q.syncEvery == q0.syncEvery && (old(q0.Paced(1)) ==> q.Paced(1))
  {
    q, delivered, done := q0, [], 0;
    ghost var o := q0.disk.Owed();
    ghost var j: nat, x: seq<Msg> := 0, [];
    assert x + o[j..] == o;
    ghost var clean := q0.Clean() && forall c :: c in script && c.Crash? ==> c.left == map[];
    hide DiskQueue.Valid, DiskQueue.Clean, DiskQueue.Selecting, DiskQueue.Tame, DiskQueue.Paced, Owes;
    while done < |script|
      invariant q == q0 || fresh(q)
      invariant q.disk == q0.disk && q.Valid() && done <= |script| && (clean ==> q.Clean())
      invariant Kept(o, j, x, delivered, q.disk.Owed())
      invariant q.syncEvery == q0.syncEvery && (old(q0.Paced(1)) ==> q.Paced(1))
    {
      assert script[done] in script;
      ghost var owed := q.disk.Owed();
      var out, stuck;
      q, out, stuck := CrashyTurn(q, script[done]);
      j, x := KeptTurn(o, j, x, delivered, owed, out, q.disk.Owed());
      delivered := delivered + out;
      if stuck {
        return;
      }
      done := done + 1;
    }
  }

  /** The recovered queue, after some redelivery, is the pending one but for the last `lost` messages. */
  ghost predicate Loses(recovered: seq<Msg>, pending: seq<Msg>, lost: nat) {
    lost <= |pending| && EndsWith(recovered, pending[..|pending| - lost])
  }

  lemma PacedLoses(queue: seq<Msg>, owed: seq<Msg>, recovered: seq<Msg>, most: nat)
    requires owed <= queue && |queue| <= |owed| + most && EndsWith(recovered, owed)
    ensures exists lost: nat :: lost <= most && Loses(recovered, queue, lost)
  {
    var lost := |queue| - |owed|;
    assert queue[..|queue| - lost] == owed;
    assert Loses(recovered, queue, lost);
  }

  /** Bounded loss. A crash after any error-free run, whatever is left of the unsynced bytes, loses at
      most the last `syncEvery` of the messages then pending: the others come back, in order, after
      what is redelivered. */
  method RunAndCrash(q0: DiskQueue, script: seq<Event>, left: Files) returns (q: DiskQueue, delivered: seq<Msg>)
    requires q0.Valid() && q0.Clean() && q0.depth == |q0.queue| && q0.Paced(1) && 0 < q0.syncEvery
    requires forall e :: e in script && e.Put? ==> Fits(e.data)
    modifies q0, q0.disk
    ensures fresh(q) && q.Valid() && delivered == Fifo(old(q0.queue), script).delivered
    ensures exists lost: nat :: lost <= q0.syncEvery && Loses(q.queue, Fifo(old(q0.queue), script).pending, lost)
  {
    hide Laid, Backed, Surviving, EndsWith;
    var q1;
    q1, delivered := Run(q0, script);
    q1.OwedIsPending();
    ValidIsUndamaged(q1);
    ghost var owed := q1.disk.Owed();
    q := CrashAndRestart(q1, left);
    PacedLoses(Fifo(old(q0.queue), script).pending, owed, q.queue, q0.syncEvery);
  }

  /** A crash while the loop waits in its select loses fewer than `syncEvery` messages, and none if it
      had been asked to sync. */
  method CrashInSelect(q0: DiskQueue, left: Files) returns (q: DiskQueue)
    requires q0.Valid() && q0.Paced(1) && 0 < q0.syncEvery
    modifies q0, q0.disk
    ensures fresh(q) && q.Valid()
    ensures exists lost: nat :: lost < q0.syncEvery && Loses(q.queue, old(q0.queue), lost)
    ensures old(q0.SyncDue()) ==> EndsWith(q.queue, old(q0.queue))
  {
    hide Laid, Backed, Surviving, EndsWith;
    Settle(q0);
    q0.OwedIsPending();
    ValidIsUndamaged(q0);
    ghost var queue, owed := q0.queue, q0.disk.Owed();
    q := CrashAndRestart(q0, left);
    PacedLoses(queue, owed, q.queue, q0.syncEvery - 1);
  }
}
