/** Damaged data files. What was written is compared with what the files hold now: a damaged file is
    as it was up to the start of some frame, and that frame cannot be read. Reading goes on in the
    next file. */
module DiskDamage {
  import opened DiskLayout

  /** Where the frames of `q` start on the walk from `c`. */
  function Starts(max: int, c: Cursor, q: seq<Msg>): set<Cursor>
    decreases |q|
  {
    if q == [] then {} else {c} + Starts(max, Step(max, c, q[0]), q[1..])
  }

  lemma {:induction false} StartsSplit(max: int, c: Cursor, a: seq<Msg>, b: seq<Msg>)
    ensures Starts(max, c, a + b) == Starts(max, c, a) + Starts(max, Walk(max, c, a), b)
    decreases |a|
  {
    if a == [] {
      assert a + b == b;
    } else {
      assert (a + b)[1..] == a[1..] + b;
      StartsSplit(max, Step(max, c, a[0]), a[1..], b);
    }
  }

  lemma {:induction false} StartsWithin(max: int, c: Cursor, q: seq<Msg>, x: Cursor)
    requires x in Starts(max, c, q)
    ensures AtOrBefore(c, x) && AtOrBefore(x, Walk(max, c, q))
    decreases |q|
  {
    WalkMonotone(max, Step(max, c, q[0]), q[1..]);
    if x != c {
      StartsWithin(max, Step(max, c, q[0]), q[1..], x);
    }
  }

  /** For every damaged file, where the first frame is that cannot be read. */
  type Broken = map<int, nat>

  predicate BrokenAt(broken: Broken, c: Cursor) { c.file in broken && broken[c.file] == c.pos }

  /** `files` is what has become of `intact`. */
  ghost predicate Worn(files: Files, intact: Files, broken: Broken) {
    files.Keys == intact.Keys && broken.Keys <= files.Keys &&
    (forall f :: f in files && f !in broken ==> files[f] == intact[f]) &&
    (forall f :: f in broken ==> SamePrefix(intact[f], files[f], broken[f]) &&
                                 ReadAt(files, Cursor(f, broken[f])).ReadError?)
  }

  /** The frames that cannot be read, from the file of `c` on, are pending ones. */
  ghost predicate Marked(broken: Broken, max: int, c: Cursor, q: seq<Msg>) {
    forall f :: f in broken && f >= c.file ==> Cursor(f, broken[f]) in Starts(max, c, q)
  }

  /** The head of the queue can be read unless it is where its file is damaged. */
  lemma HeadReadable(files: Files, intact: Files, broken: Broken, max: int, c: Cursor, q: seq<Msg>)
    requires Worn(files, intact, broken) && Marked(broken, max, c, q) && Stored(intact, max, c, q) && q != []
    ensures if BrokenAt(broken, c) then ReadAt(files, c).ReadError? else FrameAt(files, c, q[0])
  {
    if c.file in broken && !BrokenAt(broken, c) {
      var x, next := Cursor(c.file, broken[c.file]), Step(max, c, q[0]);
      StartsWithin(max, next, q[1..], x);
      var now, was, end := files[c.file], intact[c.file], c.pos + |Frame(q[0])|;
      assert end <= x.pos;
      assert SamePrefix(was, now, x.pos);
      var last := was[end - 1];
      assert now[c.pos..end] == was[c.pos..end];
    }
  }

  lemma WornWrite(files: Files, intact: Files, broken: Broken, f: int, pos: nat, data: seq<byte>)
    requires Worn(files, intact, broken) && f !in broken
    ensures ContentOf(files, f) == ContentOf(intact, f)
    ensures Worn(files[f := Overwrite(ContentOf(files, f), pos, data)],
                 intact[f := Overwrite(ContentOf(intact, f), pos, data)], broken)
  {
  }

  lemma WornRemove(files: Files, intact: Files, broken: Broken, f: int)
    requires Worn(files, intact, broken)
    ensures Worn(files - {f}, intact - {f}, broken - {f})
  {
  }

  lemma MarkedAppend(broken: Broken, max: int, c: Cursor, q: seq<Msg>, m: Msg)
    requires Marked(broken, max, c, q)
    ensures Marked(broken, max, c, q + [m])
  {
    StartsSplit(max, c, q, [m]);
  }

  /** After the head has been delivered. A file that the reader leaves is not damaged any more. */
  lemma MarkedAdvance(broken: Broken, max: int, c: Cursor, q: seq<Msg>)
    requires Marked(broken, max, c, q) && q != [] && !BrokenAt(broken, c)
    ensures Marked(broken, max, Step(max, c, q[0]), q[1..])
    ensures Step(max, c, q[0]).file != c.file ==> c.file !in broken
  {
    var next := Step(max, c, q[0]);
    if next.file != c.file && c.file in broken {
      StartsWithin(max, next, q[1..], Cursor(c.file, broken[c.file]));
    }
  }

  /** After the rest of a file has been given up. */
  lemma MarkedSkip(broken: Broken, max: int, c: Cursor, q: seq<Msg>)
    requires Marked(broken, max, c, q)
    ensures Marked(broken, max, Cursor(c.file + 1, 0), AfterFile(max, c, q))
  {
    var later := AfterFile(max, c, q);
    var lost := q[..|q| - |later|];
    AfterFileSplit(max, c, q);
    StartsSplit(max, c, lost, later);
    forall f | f in broken && f >= c.file + 1
      ensures Cursor(f, broken[f]) in Starts(max, Cursor(c.file + 1, 0), later)
    {
      var x := Cursor(f, broken[f]);
      if x in Starts(max, c, lost) {
        var k := StartIs(max, c, lost, x);
      }
    }
  }

  lemma {:induction false} StartIs(max: int, c: Cursor, q: seq<Msg>, x: Cursor) returns (k: nat)
    requires x in Starts(max, c, q)
    ensures k < |q| && Walk(max, c, q[..k]) == x
    decreases |q|
  {
    k := 0;
    if x != c {
      var j := StartIs(max, Step(max, c, q[0]), q[1..], x);
      k := j + 1;
      assert q[..k][1..] == q[1..][..j];
    }
  }

  // ---------------------------------------------------------------- the queue on disk

  /** The messages of `q` were written between the cursors, and any damage is in their frames. */
  ghost predicate Laid(files: Files, intact: Files, broken: Broken, max: int, r: Cursor, q: seq<Msg>, w: Cursor) {
    Walk(max, r, q) == w && Stored(intact, max, r, q) && (forall m :: m in q ==> Fits(m)) &&
    Worn(files, intact, broken) && Marked(broken, max, r, q)
  }

  lemma LaidFacts(files: Files, intact: Files, broken: Broken, max: int, r: Cursor, q: seq<Msg>, w: Cursor)
    requires Laid(files, intact, broken, max, r, q, w)
    ensures files.Keys == intact.Keys && broken.Keys <= files.Keys && Worn(files, intact, broken)
    ensures AtOrBefore(r, w) && (HasData(r, w) <==> q != []) && (q != [] ==> r.file in files) && (q == [] ==> r == w)
    ensures forall f :: f in broken ==> f <= w.file
    ensures forall m :: m in q ==> Fits(m)
  {
    WalkMonotone(max, r, q);
    forall f | f in broken && f >= r.file
      ensures f <= w.file
    {
      StartsWithin(max, r, q, Cursor(f, broken[f]));
    }
  }

  lemma LaidHasData(files: Files, intact: Files, broken: Broken, max: int, r: Cursor, q: seq<Msg>, w: Cursor)
    requires Laid(files, intact, broken, max, r, q, w)
    ensures HasData(r, w) <==> q != []
  {
    WalkMonotone(max, r, q);
  }

  lemma NothingLaid(files: Files, intact: Files, broken: Broken, max: int, c: Cursor)
    requires Worn(files, intact, broken) && forall f :: f in broken ==> f < c.file
    ensures Laid(files, intact, broken, max, c, [], c)
  {
  }

  lemma LaidAppend(files: Files, intact: Files, broken: Broken, max: int, r: Cursor, q: seq<Msg>, w: Cursor, m: Msg)
    requires Laid(files, intact, broken, max, r, q, w) && w.file !in broken && Fits(m)
    ensures ContentOf(files, w.file) == ContentOf(intact, w.file)
    ensures Laid(files[w.file := Overwrite(ContentOf(files, w.file), w.pos, Frame(m))],
                 intact[w.file := Overwrite(ContentOf(intact, w.file), w.pos, Frame(m))],
                 broken, max, r, q + [m], Step(max, w, m))
  {
    StoredAppend(intact, max, r, q, w, m);
    MarkedAppend(broken, max, r, q, m);
    WornWrite(files, intact, broken, w.file, w.pos, Frame(m));
    hide Overwrite, Worn, Marked, Frame;
  }

  /** After the head has been delivered, and the file it was in removed if the reader leaves it. */
  lemma LaidAdvance(files: Files, intact: Files, broken: Broken, max: int, r: Cursor, q: seq<Msg>, w: Cursor)
    requires Laid(files, intact, broken, max, r, q, w) && q != [] && !BrokenAt(broken, r)
    ensures var next := Step(max, r, q[0]);
            var (files', intact') := if next.file == r.file then (files, intact) else (files - {r.file}, intact - {r.file});
            Laid(files', intact', broken, max, next, q[1..], w) &&
            (next.file in files' || !(next.file < w.file))
  {
    var next := Step(max, r, q[0]);
    MarkedAdvance(broken, max, r, q);
    WalkMonotone(max, next, q[1..]);
    if next.file != r.file {
      WornRemove(files, intact, broken, r.file);
      assert broken - {r.file} == broken;
      StoredPreserved(intact, intact - {r.file}, max, next, q[1..], w);
    }
    hide Worn, Marked;
  }

  /** After the file of the read cursor is given up, what was written to the later files still lies
      between the new cursors, and their damage is still where pending frames are. */
  lemma LaidSkip(files: Files, intact: Files, broken: Broken, max: int, r: Cursor, q: seq<Msg>, w: Cursor, gone: bool)
    requires gone <==> r.file !in files && r.file < w.file
    requires Laid(files, intact, broken, max, if gone then Cursor(r.file + 1, 0) else r, q, w)
    ensures var rest := if gone then q else AfterFile(max, r, q);
            var r' := Cursor(r.file + 1, 0);
            Laid(files - {r.file}, intact - {r.file}, broken - {r.file}, max, r', rest, if r.file == w.file then r' else w)
  {
    WornRemove(files, intact, broken, r.file);
    if gone {
      SkipKeepsLaterFiles(intact, max, r, q, w, true);
    } else {
      MarkedSkip(broken, max, r, q);
      if r.file in intact {
        LaterFilesIntact(intact, max, r, q, w, intact[r.file]);
        assert intact[r.file := intact[r.file]] == intact;
      }
      SkipKeepsLaterFiles(intact, max, r, q, w, false);
    }
    hide Worn, Walk, Stored, AfterFile;
  }

  // ---------------------------------------------------------------- what remains readable

  /** What the loop sends on its way from `r` to `w`, given any bytes on disk: the messages it can
      read, file by file. A file that cannot be read further is skipped. */
  function Readable(files: Files, max: int, r: Cursor, w: Cursor): seq<Msg>
    decreases w.file - r.file, |ContentOf(files, r.file)| - r.pos
  {
    if r.file > w.file || !HasData(r, w) then []
    else match ReadAt(files, r)
      case Read(m) => [m] + Readable(files, max, Step(max, r, m), w)
      case ReadError => Readable(files, max, Cursor(r.file + 1, 0), w)
      case ReadPanic => []
  }

  /** Of the messages written, those that can still be read. */
  function Surviving(broken: Broken, max: int, c: Cursor, q: seq<Msg>): seq<Msg>
    decreases |q|
  {
    if q == [] then []
    else if BrokenAt(broken, c) then
      AfterFileShorter(max, c, q);
      Surviving(broken, max, Cursor(c.file + 1, 0), AfterFile(max, c, q))
    else [q[0]] + Surviving(broken, max, Step(max, c, q[0]), q[1..])
  }

  lemma AfterFileShorter(max: int, c: Cursor, q: seq<Msg>)
    requires q != []
    ensures |AfterFile(max, c, q)| < |q|
  {
  }

  lemma {:induction false} NoneBroken(max: int, c: Cursor, q: seq<Msg>)
    ensures Surviving(map[], max, c, q) == q
    decreases |q|
  {
    if q != [] {
      NoneBroken(max, Step(max, c, q[0]), q[1..]);
    }
  }

  /** What the loop sends is what survives. */
  lemma {:induction false} ReadableIsSurviving(files: Files, intact: Files, broken: Broken, max: int, c: Cursor,
                                               q: seq<Msg>, w: Cursor)
    requires Worn(files, intact, broken) && Marked(broken, max, c, q) && Stored(intact, max, c, q)
    requires Walk(max, c, q) == w && forall m :: m in q ==> Fits(m)
    ensures Readable(files, max, c, w) == Surviving(broken, max, c, q)
    decreases |q|
  {
    WalkMonotone(max, c, q);
    if q != [] {
      HeadReadable(files, intact, broken, max, c, q);
      if BrokenAt(broken, c) {
        ReadableAfterSkip(files, intact, broken, max, c, q, w);
      } else {
        FrameIsRead(files, c, q[0]);
        MarkedAdvance(broken, max, c, q);
        ReadableIsSurviving(files, intact, broken, max, Step(max, c, q[0]), q[1..], w);
      }
    }
  }

  lemma {:induction false} ReadableAfterSkip(files: Files, intact: Files, broken: Broken, max: int, c: Cursor,
                                             q: seq<Msg>, w: Cursor)
    requires Worn(files, intact, broken) && Marked(broken, max, c, q) && Stored(intact, max, c, q) && q != []
    requires Walk(max, c, q) == w && forall m :: m in q ==> Fits(m)
    ensures var c', later := Cursor(c.file + 1, 0), AfterFile(max, c, q);
            Readable(files, max, c', w) == Surviving(broken, max, c', later)
    decreases |q|, 0
  {
    var c', later := Cursor(c.file + 1, 0), AfterFile(max, c, q);
    var lost := q[..|q| - |later|];
    AfterFileShorter(max, c, q);
    AfterFileSplit(max, c, q);
    WalkSplit(max, c, lost, later);
    StoredSplit(intact, max, c, lost, later);
    WalkMonotone(max, c, q);
    if w.file != c.file {
      MarkedSkip(broken, max, c, q);
      ReadableIsSurviving(files, intact, broken, max, c', later, w);
    }
  }

  /** The frames that the loop will read on its way. */
  function Visits(files: Files, max: int, r: Cursor, w: Cursor): set<Cursor>
    decreases w.file - r.file, |ContentOf(files, r.file)| - r.pos
  {
    if r.file > w.file || !HasData(r, w) then {}
    else match ReadAt(files, r)
      case Read(m) => {r} + Visits(files, max, Step(max, r, m), w)
      case ReadError => Visits(files, max, Cursor(r.file + 1, 0), w)
      case ReadPanic => {}
  }

  /** They are pending, and lie before the damage in their files. */
  lemma {:induction false} VisitsPending(files: Files, intact: Files, broken: Broken, max: int, c: Cursor,
                                         q: seq<Msg>, w: Cursor, x: Cursor)
    requires Laid(files, intact, broken, max, c, q, w) && x in Visits(files, max, c, w)
    ensures x in Starts(max, c, q) && (x.file in broken ==> x.pos < broken[x.file])
    ensures x.file in files && ReadAt(files, x).Read?
    decreases |q|
  {
    WalkMonotone(max, c, q);
    HeadReadable(files, intact, broken, max, c, q);
    if BrokenAt(broken, c) {
      LaterPending(files, intact, broken, max, c, q, w, x);
    } else {
      FrameIsRead(files, c, q[0]);
      MarkedAdvance(broken, max, c, q);
      if x == c {
        if c.file in broken {
          StartsWithin(max, c, q, Cursor(c.file, broken[c.file]));
        }
      } else {
        VisitsPending(files, intact, broken, max, Step(max, c, q[0]), q[1..], w, x);
      }
    }
  }

  lemma {:induction false} LaterPending(files: Files, intact: Files, broken: Broken, max: int, c: Cursor,
                                        q: seq<Msg>, w: Cursor, x: Cursor)
    requires Laid(files, intact, broken, max, c, q, w) && q != [] && x in Visits(files, max, Cursor(c.file + 1, 0), w)
    ensures x in Starts(max, c, q) && (x.file in broken ==> x.pos < broken[x.file])
    ensures x.file in files && ReadAt(files, x).Read?
    decreases |q|, 0
  {
    var c', later := Cursor(c.file + 1, 0), AfterFile(max, c, q);
    var lost := q[..|q| - |later|];
    AfterFileShorter(max, c, q);
    AfterFileSplit(max, c, q);
    WalkSplit(max, c, lost, later);
    StoredSplit(intact, max, c, lost, later);
    StartsSplit(max, c, lost, later);
    WalkMonotone(max, c, q);
    if w.file != c.file {
      MarkedSkip(broken, max, c, q);
      VisitsPending(files, intact, broken, max, c', later, w, x);
    }
  }

  // ---------------------------------------------------------------- changes

  lemma {:induction false} SurvivingAppend(broken: Broken, max: int, c: Cursor, q: seq<Msg>, m: Msg)
    requires Walk(max, c, q).file !in broken
    ensures Surviving(broken, max, c, q + [m]) == Surviving(broken, max, c, q) + [m]
    decreases |q|
  {
    if q == [] {
      assert q + [m] == [m] && [m][1..] == [];
    } else if BrokenAt(broken, c) {
      var c', later := Cursor(c.file + 1, 0), AfterFile(max, c, q);
      AfterFileAppend(max, c, q, m);
      AfterFileShorter(max, c, q);
      SurvivingAppend(broken, max, c', later, m);
    } else {
      assert (q + [m])[1..] == q[1..] + [m];
      SurvivingAppend(broken, max, Step(max, c, q[0]), q[1..], m);
    }
  }

  lemma {:induction false} AfterFileAppend(max: int, c: Cursor, q: seq<Msg>, m: Msg)
    requires Walk(max, c, q).file != c.file
    ensures AfterFile(max, c, q + [m]) == AfterFile(max, c, q) + [m]
    ensures Walk(max, Cursor(c.file + 1, 0), AfterFile(max, c, q)) == Walk(max, c, q)
    decreases |q|
  {
    if q != [] {
      assert (q + [m])[1..] == q[1..] + [m];
      if Step(max, c, q[0]).file == c.file {
        AfterFileAppend(max, Step(max, c, q[0]), q[1..], m);
      }
    }
  }

  /** Damage in earlier files does not matter. */
  lemma {:induction false} SurvivingAbove(a: Broken, b: Broken, max: int, c: Cursor, q: seq<Msg>)
    requires forall f :: f >= c.file ==> (f in a <==> f in b) && (f in a ==> a[f] == b[f])
    ensures Surviving(a, max, c, q) == Surviving(b, max, c, q)
    decreases |q|
  {
    if q != [] {
      if BrokenAt(a, c) {
        AfterFileShorter(max, c, q);
        SurvivingAbove(a, b, max, Cursor(c.file + 1, 0), AfterFile(max, c, q));
      } else {
        SurvivingAbove(a, b, max, Step(max, c, q[0]), q[1..]);
      }
    }
  }

  /** The messages of `q` in the file of `c`. */
  function InFile(max: int, c: Cursor, q: seq<Msg>): seq<Msg> { q[..|q| - |AfterFile(max, c, q)|] }

  /** What can be read of a file, then what can be read of the later ones. */
  lemma {:induction false} SurvivingInFile(broken: Broken, max: int, c: Cursor, q: seq<Msg>) returns (here: seq<Msg>)
    ensures Surviving(broken, max, c, q) == here + Surviving(broken, max, Cursor(c.file + 1, 0), AfterFile(max, c, q))
    ensures here <= InFile(max, c, q) && (c.file !in broken ==> here == InFile(max, c, q))
    decreases |q|
  {
    here := [];
    if q != [] && !BrokenAt(broken, c) {
      var next := Step(max, c, q[0]);
      if next.file == c.file {
        here := SurvivingInFile(broken, max, next, q[1..]);
        assert InFile(max, c, q) == [q[0]] + InFile(max, next, q[1..]);
      }
      here := [q[0]] + here;
    }
  }

  /** A frame in a later file is still there after a skip. */
  lemma SkipStart(max: int, c: Cursor, q: seq<Msg>, x: Cursor)
    requires x in Starts(max, c, q) && x.file > c.file
    ensures x in Starts(max, Cursor(c.file + 1, 0), AfterFile(max, c, q))
  {
    var broken: Broken := map[x.file := x.pos];
    assert Cursor(x.file, broken[x.file]) == x;
    MarkedSkip(broken, max, c, q);
  }

  lemma WalkAfterSkip(max: int, c: Cursor, q: seq<Msg>, j: nat)
    requires j < |AfterFile(max, c, q)|
    ensures var later := AfterFile(max, c, q);
            var k := |q| - |later| + j;
            Walk(max, c, q[..k]) == Walk(max, Cursor(c.file + 1, 0), later[..j]) && q[k..] == later[j..]
  {
    var later := AfterFile(max, c, q);
    AfterFileSplit(max, c, q);
    WalkSplit(max, c, InFile(max, c, q), later[..j]);
    assert q[..|q| - |later| + j] == InFile(max, c, q) + later[..j];
  }

  /** What new damage at `x`, where message `k` starts, does: of what could be read, exactly `lost`
      goes. It lies in the file of `x`, from there on, and is all of that if the file was undamaged. */
  ghost predicate Damages(broken: Broken, max: int, c: Cursor, q: seq<Msg>, x: Cursor,
                          before: seq<Msg>, lost: seq<Msg>, after: seq<Msg>, k: nat) {
    Surviving(broken, max, c, q) == before + lost + after &&
    Surviving(broken[x.file := x.pos], max, c, q) == before + after &&
    k < |q| && Walk(max, c, q[..k]) == x &&
    lost <= InFile(max, x, q[k..]) && (x.file !in broken ==> lost == InFile(max, x, q[k..]))
  }

  lemma DamagesHead(broken: Broken, max: int, c: Cursor, q: seq<Msg>) returns (lost: seq<Msg>, after: seq<Msg>)
    requires q != [] && (c.file in broken ==> c.pos <= broken[c.file])
    ensures Damages(broken, max, c, q, c, [], lost, after, 0)
  {
    var c', later := Cursor(c.file + 1, 0), AfterFile(max, c, q);
    assert q[0..] == q;
    lost := SurvivingInFile(broken, max, c, q);
    after := Surviving(broken, max, c', later);
    SurvivingAbove(broken, broken[c.file := c.pos], max, c', later);
    hide InFile;
  }

  lemma DamagesAfterSkip(broken: Broken, max: int, c: Cursor, q: seq<Msg>, x: Cursor,
                         before: seq<Msg>, lost: seq<Msg>, after: seq<Msg>, j: nat)
    requires q != [] && BrokenAt(broken, c) && x.file > c.file
    requires Damages(broken, max, Cursor(c.file + 1, 0), AfterFile(max, c, q), x, before, lost, after, j)
    ensures Damages(broken, max, c, q, x, before, lost, after, |q| - |AfterFile(max, c, q)| + j)
  {
    WalkAfterSkip(max, c, q, j);
    hide InFile, Walk, AfterFile;
  }

  lemma DamagesAfterStep(broken: Broken, max: int, c: Cursor, q: seq<Msg>, x: Cursor,
                         before: seq<Msg>, lost: seq<Msg>, after: seq<Msg>, j: nat)
    requires q != [] && !BrokenAt(broken, c) && x != c
    requires Damages(broken, max, Step(max, c, q[0]), q[1..], x, before, lost, after, j)
    ensures Damages(broken, max, c, q, x, [q[0]] + before, lost, after, j + 1)
  {
    assert q[..j + 1][1..] == q[1..][..j] && q[j + 1..] == q[1..][j..];
    hide InFile, AfterFile;
    assert Surviving(broken, max, c, q) == [q[0]] + (before + lost + after);
    assert Surviving(broken[x.file := x.pos], max, c, q) == [q[0]] + (before + after);
  }

  /** New damage in a pending frame, not past the damage that its file already has. */
  lemma {:induction false} Damaging(broken: Broken, max: int, c: Cursor, q: seq<Msg>, x: Cursor)
    returns (before: seq<Msg>, lost: seq<Msg>, after: seq<Msg>, k: nat)
    requires x in Starts(max, c, q) && (x.file in broken ==> x.pos <= broken[x.file])
    ensures Damages(broken, max, c, q, x, before, lost, after, k)
    decreases |q|
  {
    hide Damages;
    if c == x {
      before, k := [], 0;
      lost, after := DamagesHead(broken, max, c, q);
    } else {
      var j;
      var next := Step(max, c, q[0]);
      StartsWithin(max, next, q[1..], x);
      if BrokenAt(broken, c) {
        SkipStart(max, c, q, x);
        AfterFileShorter(max, c, q);
        before, lost, after, j := Damaging(broken, max, Cursor(c.file + 1, 0), AfterFile(max, c, q), x);
        DamagesAfterSkip(broken, max, c, q, x, before, lost, after, j);
        k := |q| - |AfterFile(max, c, q)| + j;
      } else {
        before, lost, after, j := Damaging(broken, max, next, q[1..], x);
        DamagesAfterStep(broken, max, c, q, x, before, lost, after, j);
        before, k := [q[0]] + before, j + 1;
      }
    }
  }

  /** The frame at `x` becomes unreadable, while what lies before it in its file is as it was. */
  predicate MakesUnreadable(files: Files, x: Cursor, bytes: seq<byte>) {
    x.file in files && x.pos <= |files[x.file]| && x.pos <= |bytes| && bytes[..x.pos] == files[x.file][..x.pos] &&
    ReadAt(files[x.file := bytes], x).ReadError?
  }

  lemma LaidDamaged(files: Files, intact: Files, broken: Broken, max: int, c: Cursor, q: seq<Msg>, w: Cursor,
                    x: Cursor, bytes: seq<byte>)
    requires Laid(files, intact, broken, max, c, q, w) && x in Starts(max, c, q)
    requires x.file in broken ==> x.pos <= broken[x.file]
    requires MakesUnreadable(files, x, bytes)
    ensures Laid(files[x.file := bytes], intact, broken[x.file := x.pos], max, c, q, w)
  {
    var after, broken' := files[x.file := bytes], broken[x.file := x.pos];
    assert Cursor(x.file, broken'[x.file]) == x;
    forall i | 0 <= i < x.pos && i < |intact[x.file]|
      ensures i < |bytes| && bytes[i] == intact[x.file][i]
    {
      assert bytes[..x.pos][i] == files[x.file][..x.pos][i];
    }
    forall f | f in broken'
      ensures ReadAt(after, Cursor(f, broken'[f])).ReadError?
    {
      if f != x.file {
        assert ReadAt(files, Cursor(f, broken[f])).ReadError?;
      }
    }
    hide Stored, Walk, Starts;
  }

  /** With a single damaged file: what comes before the damage can be read, and then exactly the
      messages of the later files. */
  lemma {:induction false} DamageIsContained(max: int, c: Cursor, q: seq<Msg>, k: nat)
    requires k < |q|
    ensures var x := Walk(max, c, q[..k]);
            Surviving(map[x.file := x.pos], max, c, q) == q[..k] + AfterFile(max, x, q[k..])
    decreases k
  {
    var x := Walk(max, c, q[..k]);
    if k == 0 {
      var c', later := Cursor(c.file + 1, 0), AfterFile(max, c, q);
      assert q[0..] == q;
      SurvivingAbove(map[x.file := x.pos], map[], max, c', later);
      NoneBroken(max, c', later);
    } else {
      assert q[..k][1..] == q[1..][..k - 1] && q[k..] == q[1..][k - 1..];
      WalkMonotone(max, c, q[..k]);
      DamageIsContained(max, Step(max, c, q[0]), q[1..], k - 1);
    }
  }

  /** The frames of `q` all start in the file of `c`. */
  ghost predicate InOneFile(max: int, c: Cursor, q: seq<Msg>) {
    forall k :: 0 <= k < |q| ==> Walk(max, c, q[..k]).file == c.file
  }

  lemma InFileIsInOneFile(max: int, c: Cursor, q: seq<Msg>, some: seq<Msg>)
    requires some <= InFile(max, c, q)
    ensures InOneFile(max, c, some)
  {
    AfterFileSplit(max, c, q);
    forall k | 0 <= k < |some|
      ensures some[..k] == InFile(max, c, q)[..k]
    {
    }
  }
}
