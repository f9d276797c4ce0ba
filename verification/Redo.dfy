/** What happens to the metrics of a connection that dies: from the connection's retention buffer
    through the spool's bulk input and the disk queue to the spool's output. */
module Redo {
  import opened DiskLayout
  import opened Conns
  import opened Spools

  /** Collects what may not have arrived and feeds it to the spool, oldest first. */
  method CollectRedo(c: Conn, s: Spool)
    requires c.Valid() && !c.up && s.Valid()
    requires forall m :: m in c.All() ==> Fits(m)
    modifies c`In, c`history, c.keepSafe, s, s.queue, s.queue.disk
    ensures s.Valid() && c.In == [] && Taken(c.history) == old(c.All()) && Dropped(c.history) == old(Dropped(c.history))
    ensures Dropped(c.history) <= |Taken(c.history)|
    ensures From(s.taken, Bulk) == From(old(s.taken), Bulk) + Taken(c.history)[Dropped(c.history)..]
    ensures From(s.taken, Realtime) == From(old(s.taken), Realtime)
  {
    hide Spool.Valid, Conn.Retained, Conn.Wired, From, Dropped, Taken;
    var bulkData := c.GetRedo();
    assert forall m :: m in bulkData ==> m in Taken(c.history);
    Ingest(s, bulkData);
  }

  /** A connection serves any sequence of events and dies; its redo data goes to the spool, and the
      spool is drained. If what it does not retain had been taken before the last successful flush,
      every metric that was ever queued on the connection is on the wire or has come out of the spool,
      in order, after what the spool's disk queue held at first. */
  method NothingIsLost(c: Conn, script: seq<Conns.Event>, s: Spool)
    returns (ghost all: seq<Msg>, ghost trace: seq<Done>, ghost stop: nat)
    requires c.Valid() && s.Valid()
    requires forall m :: m in c.All() + Queued(script) ==> Fits(m)
    modifies c, c.keepSafe, c.buffered`n, c.buffered`err, c.buffered`accepted, c.buffered.buf, c.buffered.wr,
             s, s.queue, s.queue.disk
    ensures all == old(c.All()) + Queued(script) && Happened(script, stop, trace)
    ensures var h := old(c.history) + trace;
            Dropped(h) <= |all| &&
            (Dropped(h) <= |Taken(BeforeFlush(h))| ==> Complete(c.format, all, Dropped(h), c.buffered.wr.sent)) &&
            From(s.taken, Bulk) == From(old(s.taken), Bulk) + all[Dropped(h)..]
    ensures s.Valid() && s.out == s.leftover + Msgs(s.taken)
  {
    all := c.All() + Queued(script);
    hide Spool.Valid, Conn.Retained, Conn.Wired, From, Queued, Happened, Dropped, Complete, Wire, Taken, BeforeFlush;
    var redo;
    redo, trace, stop := ServeAndCollect(c, script);
    assert forall m :: m in redo ==> m in all;
    Ingest(s, redo);
    Drain(s);
  }
}
