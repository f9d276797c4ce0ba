/** What survives a crash: the data files and the last persisted metadata.

    Two ghost values describe the promise attached to them. `snap` is the queue as it was when
    the metadata was persisted, and `done` counts how many of its messages were delivered since.
    `snap[done..]` is therefore what has been persisted and not yet delivered. */
module DiskDurability {
  import opened DiskLayout
  import opened Options

  datatype Meta = Meta(depth: int, read: Cursor, write: Cursor)

  /** The file the metadata reads from is there, and so is every message of the snapshot. */
  ghost predicate HeadIntact(files: Files, max: int, m: Meta, snap: seq<Msg>) {
    Walk(max, m.read, snap) == m.write && Stored(files, max, m.read, snap)
  }

  /** The file the metadata reads from was removed; the undelivered part of the snapshot starts
      at the head of the next file. */
  ghost predicate HeadRemoved(files: Files, max: int, m: Meta, rest: seq<Msg>) {
    m.read.file !in files && m.read.file < m.write.file &&
    HeadIntact(files, max, m.(read := Cursor(m.read.file + 1, 0)), rest)
  }

  ghost predicate Recoverable(files: Files, max: int, meta: Option<Meta>, snap: seq<Msg>, done: nat) {
    done <= |snap| &&
    match meta
    case None => snap == []
    case Some(m) => HeadIntact(files, max, m, snap) || HeadRemoved(files, max, m, snap[done..])
  }

  /** Writing at or beyond the persisted write cursor disturbs nothing that a restart needs. */
  lemma WriteIsRecoverable(files: Files, max: int, m: Meta, snap: seq<Msg>, done: nat,
                           w: Cursor, bytes: seq<byte>)
    requires Recoverable(files, max, Some(m), snap, done)
    requires m.write.file == w.file && AtOrBefore(m.write, w)
    ensures var after := files[w.file := Overwrite(ContentOf(files, w.file), w.pos, bytes)];
            Recoverable(after, max, Some(m), snap, done) &&
            (HeadIntact(files, max, m, snap) ==> HeadIntact(after, max, m, snap))
  {
    var after := files[w.file := Overwrite(ContentOf(files, w.file), w.pos, bytes)];
    if HeadIntact(files, max, m, snap) {
      StoredPreserved(files, after, max, m.read, snap, w);
    } else {
      StoredPreserved(files, after, max, Cursor(m.read.file + 1, 0), snap[done..], w);
    }
  }

  /** The files after a crash. What lies before the persisted write cursor has been synced and is there;
      from there on, bytes and files are whatever `left` has. */
  function Torn(files: Files, w: Cursor, left: Files): Files {
    map f | f in files.Keys + left.Keys && (f < w.file ==> f in files) && (f > w.file ==> f in left) ::
      if f < w.file then files[f]
      else if f > w.file then left[f]
      else (if w.pos < |ContentOf(files, f)| then files[f][..w.pos] else ContentOf(files, f)) + ContentOf(left, f)
  }

  /** A crash that loses or garbles everything unsynced disturbs nothing that a restart needs. */
  lemma TornIsRecoverable(files: Files, max: int, m: Meta, snap: seq<Msg>, done: nat, left: Files)
    requires Recoverable(files, max, Some(m), snap, done)
    ensures Recoverable(Torn(files, m.write, left), max, Some(m), snap, done)
  {
    var after := Torn(files, m.write, left);
    var w := m.write;
    assert w.file in files ==> w.file in after && SamePrefix(files[w.file], after[w.file], w.pos);
    if HeadIntact(files, max, m, snap) {
      StoredPreserved(files, after, max, m.read, snap, w);
    } else {
      StoredPreserved(files, after, max, Cursor(m.read.file + 1, 0), snap[done..], w);
    }
  }

  /** How the running queue's read cursor relates to the metadata while no sync is due. */
  ghost predicate Tracking(max: int, m: Meta, snap: seq<Msg>, done: nat, r: Cursor)
    requires done <= |snap|
  {
    m.read.file == r.file &&
    (done < |snap| ==> r == Walk(max, m.read, snap[..done])) &&
    (done == |snap| ==> AtOrBefore(m.write, r))
  }

  /** Delivering one message within a file keeps track of the metadata. */
  lemma TrackingStep(max: int, m: Meta, snap: seq<Msg>, done: nat, r: Cursor, msg: Msg)
    requires done <= |snap| && Walk(max, m.read, snap) == m.write
    requires Tracking(max, m, snap, done, r)
    requires done < |snap| ==> snap[done] == msg
    requires Step(max, r, msg).file == r.file
    ensures Tracking(max, m, snap, if done < |snap| then done + 1 else done, Step(max, r, msg))
  {
    if done < |snap| {
      WalkOneMore(max, m.read, snap, done);
      assert snap[..|snap|] == snap;
    }
  }

  lemma WalkOneMore(max: int, c: Cursor, q: seq<Msg>, k: nat)
    requires k < |q|
    ensures Walk(max, c, q[..k + 1]) == Step(max, Walk(max, c, q[..k]), q[k])
  {
    assert q[..k + 1] == q[..k] + [q[k]];
    WalkSplit(max, c, q[..k], [q[k]]);
    assert Walk(max, Walk(max, c, q[..k]), [q[k]]) == Step(max, Walk(max, c, q[..k]), q[k]);
  }

  /** Delivering the last message of a file removes that file. The metadata still points into
      it, yet nothing undelivered is lost: the rest of the snapshot starts in the next file. */
  lemma RemovalIsRecoverable(files: Files, max: int, m: Meta, snap: seq<Msg>, done: nat,
                             r: Cursor, msg: Msg, w: Cursor)
    requires done <= |snap| && HeadIntact(files, max, m, snap)
    requires Tracking(max, m, snap, done, r)
    requires done < |snap| ==> snap[done] == msg
    requires Step(max, r, msg) == Cursor(r.file + 1, 0)
    requires m.write.file == w.file && AtOrBefore(Step(max, r, msg), w)
    ensures done < |snap|
    ensures HeadRemoved(files - {r.file}, max, m, snap[done + 1..])
  {
    WalkOneMore(max, m.read, snap, done);
    var next := Cursor(r.file + 1, 0);
    var rest := snap[done + 1..];
    assert snap == snap[..done + 1] + rest;
    WalkSplit(max, m.read, snap[..done + 1], rest);
    StoredSplit(files, max, m.read, snap[..done + 1], rest);
    WalkMonotone(max, next, rest);
    StoredPreserved(files, files - {r.file}, max, next, rest, m.write);
  }

  /** Everything that one delivery has to keep, with the file it leaves already removed. */
  lemma DeliveryIsRecoverable(files: Files, max: int, meta: Option<Meta>, snap: seq<Msg>, done: nat,
                              r: Cursor, q: seq<Msg>, w: Cursor)
    requires q != [] && Walk(max, r, q) == w && Stored(files, max, r, q)
    requires Recoverable(files, max, meta, snap, done) && snap[done..] <= q
    requires meta.Some? ==> HeadIntact(files, max, meta.value, snap) &&
                            Tracking(max, meta.value, snap, done, r) && meta.value.write.file == w.file
    ensures var next := Step(max, r, q[0]);
            var after := if next.file == r.file then files else files - {r.file};
            var done' := if done < |snap| then done + 1 else done;
            Walk(max, next, q[1..]) == w && Stored(after, max, next, q[1..]) &&
            (q[1..] != [] ==> next.file in after) && (q[1..] == [] ==> next == w) &&
            Recoverable(after, max, meta, snap, done') && snap[done'..] <= q[1..] &&
            (meta.Some? && next.file == r.file ==>
               HeadIntact(after, max, meta.value, snap) && Tracking(max, meta.value, snap, done', next))
  {
    var next := Step(max, r, q[0]);
    WalkMonotone(max, next, q[1..]);
    if done < |snap| {
      assert snap[done..][0] == q[0];
    }
    if next.file == r.file {
      if meta.Some? {
        TrackingStep(max, meta.value, snap, done, r, q[0]);
      }
    } else {
      StoredPreserved(files, files - {r.file}, max, next, q[1..], w);
      if meta.Some? {
        RemovalIsRecoverable(files, max, meta.value, snap, done, r, q[0], w);
      }
    }
  }

  /** Where a restart has to start reading. */
  function RestartHead(files: Files, m: Meta): Cursor {
    if m.read.file !in files && m.read.file < m.write.file then Cursor(m.read.file + 1, 0) else m.read
  }

  /** The queue that a restart recovers. */
  ghost function Recovered(files: Files, max: int, m: Meta, snap: seq<Msg>, done: nat): seq<Msg>
    requires done <= |snap|
  {
    if HeadIntact(files, max, m, snap) then snap else snap[done..]
  }

  /** A restart finds the recovered queue between its cursors, skips at most the one file the
      metadata reads from, and a second crash before anything else happens loses nothing. */
  lemma RestartFinds(files: Files, max: int, m: Meta, snap: seq<Msg>, done: nat)
    requires Recoverable(files, max, Some(m), snap, done)
    ensures var q := Recovered(files, max, m, snap, done);
            var h := RestartHead(files, m);
            Walk(max, h, q) == m.write && Stored(files, max, h, q) &&
            Recoverable(files, max, Some(m), q, 0) &&
            (q != snap ==> h != m.read) &&
            (h == m.read ==> HeadIntact(files, max, m, q) && Tracking(max, m, q, 0, m.read))
  {
    var q := Recovered(files, max, m, snap, done);
    assert q[0..] == q;
    if HeadIntact(files, max, m, snap) {
      HasDataIffPending(max, m.read, snap, m.write);
    }
  }

  // ---------------------------------------------------------------- a running queue

  /** The part of a snapshot that has not been delivered since. */
  function Undelivered(snap: seq<Msg>, done: nat): seq<Msg> { if done <= |snap| then snap[done..] else [] }

  ghost predicate Restartable(files: Files, max: int, meta: Option<Meta>, snap: seq<Msg>, done: nat) {
    Recoverable(files, max, meta, snap, done) && forall m :: m in snap ==> Fits(m)
  }

  /** The metadata describe a state from which the running queue `q` can be recovered; if `tracked`,
      the read cursor `r` is where they put it. */
  ghost predicate Backed(files: Files, max: int, meta: Option<Meta>, snap: seq<Msg>, done: nat,
                         r: Cursor, q: seq<Msg>, w: Cursor, tracked: bool) {
    Restartable(files, max, meta, snap, done) && Undelivered(snap, done) <= q &&
    (meta.Some? ==>
       meta.value.write.file == w.file && AtOrBefore(meta.value.write, w) &&
       (tracked ==> HeadIntact(files, max, meta.value, snap) && Tracking(max, meta.value, snap, done, r)))
  }

  lemma BackedBySync(files: Files, max: int, depth: int, r: Cursor, q: seq<Msg>, w: Cursor, gone: bool)
    requires gone <==> r.file !in files && r.file < w.file
    requires var h := if gone then Cursor(r.file + 1, 0) else r; Walk(max, h, q) == w && Stored(files, max, h, q)
    requires forall m :: m in q ==> Fits(m)
    ensures Backed(files, max, Some(Meta(depth, r, w)), q, 0, r, q, w, !gone)
  {
    assert q[0..] == q;
  }

  lemma BackedUntracked(files: Files, max: int, meta: Option<Meta>, snap: seq<Msg>, done: nat,
                        r: Cursor, q: seq<Msg>, w: Cursor, tracked: bool, r': Cursor)
    requires Backed(files, max, meta, snap, done, r, q, w, tracked)
    ensures Backed(files, max, meta, snap, done, r', q, w, false)
  {
  }

  lemma BackedByWrite(files: Files, max: int, meta: Option<Meta>, snap: seq<Msg>, done: nat,
                      r: Cursor, q: seq<Msg>, w: Cursor, tracked: bool, m: Msg)
    requires Backed(files, max, meta, snap, done, r, q, w, tracked)
    ensures var after := files[w.file := Overwrite(ContentOf(files, w.file), w.pos, Frame(m))];
            Backed(after, max, meta, snap, done, r, q, w, tracked)
  {
    if meta.Some? {
      WriteIsRecoverable(files, max, meta.value, snap, done, w, Frame(m));
    }
    hide HeadIntact, HeadRemoved, Overwrite;
  }

  lemma BackedMore(files: Files, max: int, meta: Option<Meta>, snap: seq<Msg>, done: nat,
                   r: Cursor, q: seq<Msg>, w: Cursor, tracked: bool, m: Msg, w': Cursor)
    requires Backed(files, max, meta, snap, done, r, q, w, tracked) && w'.file == w.file && w.pos <= w'.pos
    ensures Backed(files, max, meta, snap, done, r, q + [m], w', tracked) && Undelivered(snap, done) <= q
  {
    hide HeadIntact, Recoverable;
  }

  /** One delivery, with the file that it leaves already removed. */
  lemma BackedByDelivery(files: Files, max: int, meta: Option<Meta>, snap: seq<Msg>, done: nat,
                         r: Cursor, q: seq<Msg>, w: Cursor)
    requires q != [] && Walk(max, r, q) == w && Stored(files, max, r, q)
    requires Backed(files, max, meta, snap, done, r, q, w, true)
    ensures var next := Step(max, r, q[0]);
            var after := if next.file == r.file then files else files - {r.file};
            var done' := if done < |snap| then done + 1 else done;
            Backed(after, max, meta, snap, done', next, q[1..], w, next.file == r.file) &&
            Undelivered(snap, done') == if Undelivered(snap, done) == [] then [] else Undelivered(snap, done)[1..]
  {
    DeliveryIsRecoverable(files, max, meta, snap, done, r, q, w);
    hide HeadIntact, Recoverable, Walk, Stored, Tracking;
  }
}
