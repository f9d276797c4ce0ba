/** The on-disk format of the queue: length-prefixed frames spread over numbered files, and
    the cursors that walk over them.

    The central notion is `Walk`: the cursor reached after moving over a list of messages. It
    depends on the message lengths alone, so the reader and the writer can be compared without
    looking at any byte. `Stored` then says that the bytes under that walk are the right ones. */
module DiskLayout {

  type byte = x: int | 0 <= x < 256
  type Msg = seq<byte>
  type Files = map<int, seq<byte>>

  datatype Cursor = Cursor(file: int, pos: nat)

  const TWO_31 := 0x8000_0000
  const TWO_32 := 0x1_0000_0000

  /** Two's-complement reading of the low 32 bits: what `int32(x)` means in the source. */
  function ToInt32(x: int): (r: int)
    ensures -TWO_31 <= r < TWO_31
  {
    (x + TWO_31) % TWO_32 - TWO_31
  }

  // ---------------------------------------------------------------- frames

  /** The big-endian 32-bit header in front of every message. */
  function Header(n: nat): (h: seq<byte>)
    ensures |h| == 4
  {
    var u := n % TWO_32;
    [u / 0x100_0000, u / 0x1_0000 % 256, u / 256 % 256, u % 256]
  }

  function HeaderValue(h: seq<byte>): int
    requires |h| == 4
  {
    ToInt32((h[0] as int) * 0x100_0000 + (h[1] as int) * 0x1_0000 + (h[2] as int) * 256 + h[3] as int)
  }

  /** The most significant byte comes first. */
  lemma HeaderIsBigEndian(n: nat)
    ensures var h := Header(n);
            (h[0] as int) * 0x100_0000 + (h[1] as int) * 0x1_0000 + (h[2] as int) * 256 + h[3] as int == n % TWO_32
  {
    var u := n % TWO_32;
    assert u / 256 == (u / 0x1_0000) * 256 + u / 256 % 256;
    assert u / 0x1_0000 == (u / 0x100_0000) * 256 + u / 0x1_0000 % 256;
  }

  lemma HeaderRoundTrip(n: nat)
    ensures HeaderValue(Header(n)) == ToInt32(n)
  {
    HeaderIsBigEndian(n);
    hide Header;
  }

  function Frame(m: Msg): seq<byte> { Header(|m|) + m }

  /** How far the reader advances over a message of length `n`. The source adds the header
      size in 32-bit arithmetic before widening. */
  function ReaderAdvance(n: nat): int { ToInt32(4 + ToInt32(n)) }

  /** How far the writer advances: the same sum, in 64 bits. */
  function WriterAdvance(n: nat): int { 4 + n }

  /** A message whose frame both sides measure alike. */
  predicate Fits(m: Msg) { |m| < TWO_31 - 4 }

  /** Reader and writer agree on a frame's length exactly for the messages that `Fits` admits. */
  lemma AdvanceAgreesIffFits(m: Msg)
    ensures ReaderAdvance(|m|) == WriterAdvance(|m|) <==> Fits(m)
  {
    if |m| < TWO_31 {
      assert ToInt32(|m|) == |m|;
    }
  }

  lemma FittingAdvance(m: Msg)
    requires Fits(m)
    ensures ToInt32(4 + |m|) == 4 + |m|
  {
  }

  // ---------------------------------------------------------------- reading at a cursor

  datatype ReadResult =
    | Read(data: Msg)   // a whole frame
    | ReadError         // missing file, short header or short body
    | ReadPanic         // negative size: the allocation of the read buffer panics

  /** What one low-level read finds at a cursor, given the bytes on disk. */
  function ReadAt(files: Files, c: Cursor): ReadResult {
    if c.file !in files || |files[c.file]| < c.pos + 4 then ReadError
    else
      var content := files[c.file];
      var size := HeaderValue(content[c.pos..c.pos + 4]);
      if size < 0 then ReadPanic
      else if |content| < c.pos + 4 + size then ReadError
      else Read(content[c.pos + 4..c.pos + 4 + size])
  }

  predicate FrameAt(files: Files, c: Cursor, m: Msg) {
    c.file in files &&
    |files[c.file]| >= c.pos + |Frame(m)| &&
    files[c.file][c.pos..c.pos + |Frame(m)|] == Frame(m)
  }

  lemma FrameIsRead(files: Files, c: Cursor, m: Msg)
    requires FrameAt(files, c, m) && Fits(m)
    ensures ReadAt(files, c) == Read(m)
  {
    HeaderRoundTrip(|m|);
    assert HeaderValue(Header(|m|)) == |m|;
    hide Header, HeaderValue, ToInt32;
    var content := files[c.file];
    var bytes := content[c.pos..c.pos + 4 + |m|];
    assert content[c.pos..c.pos + 4] == bytes[..4] == Header(|m|);
    assert content[c.pos + 4..c.pos + 4 + |m|] == bytes[4..] == m;
  }

  // ---------------------------------------------------------------- cursors and walks

  /** Where a cursor stands after one message: past the frame, or at the start of the next
      file when the frame ended beyond the size limit. */
  function Step(max: int, c: Cursor, m: Msg): Cursor {
    var end := c.pos + 4 + |m|;
    if end > max then Cursor(c.file + 1, 0) else Cursor(c.file, end)
  }

  function Walk(max: int, c: Cursor, q: seq<Msg>): Cursor
    decreases |q|
  {
    if q == [] then c else Walk(max, Step(max, c, q[0]), q[1..])
  }

  /** The frames of `q` lie on disk along the walk from `c`. */
  ghost predicate Stored(files: Files, max: int, c: Cursor, q: seq<Msg>)
    decreases |q|
  {
    q == [] || (FrameAt(files, c, q[0]) && Stored(files, max, Step(max, c, q[0]), q[1..]))
  }

  predicate AtOrBefore(c: Cursor, d: Cursor) {
    c.file < d.file || (c.file == d.file && c.pos <= d.pos)
  }

  /** The test by which the loop decides that there is data to read. */
  predicate HasData(r: Cursor, w: Cursor) { r.file < w.file || r.pos < w.pos }

  lemma {:induction false} WalkSplit(max: int, c: Cursor, a: seq<Msg>, b: seq<Msg>)
    ensures Walk(max, c, a + b) == Walk(max, Walk(max, c, a), b)
    decreases |a|
  {
    if a == [] {
      assert a + b == b;
    } else {
      assert (a + b)[1..] == a[1..] + b;
      WalkSplit(max, Step(max, c, a[0]), a[1..], b);
    }
  }

  lemma {:induction false} StoredSplit(files: Files, max: int, c: Cursor, a: seq<Msg>, b: seq<Msg>)
    ensures Stored(files, max, c, a + b) <==>
            Stored(files, max, c, a) && Stored(files, max, Walk(max, c, a), b)
    decreases |a|
  {
    if a == [] {
      assert a + b == b;
    } else {
      assert (a + b)[1..] == a[1..] + b;
      StoredSplit(files, max, Step(max, c, a[0]), a[1..], b);
    }
  }

  lemma {:induction false} WalkMonotone(max: int, c: Cursor, q: seq<Msg>)
    ensures AtOrBefore(c, Walk(max, c, q))
    ensures q != [] ==> Walk(max, c, q) != c
    decreases |q|
  {
    if q != [] {
      WalkMonotone(max, Step(max, c, q[0]), q[1..]);
    }
  }

  /** Roll agreement. When the writer stands where the pending messages lead the reader, the
      loop's test for data is exact, and it fails only with both cursors on the same spot. */
  lemma HasDataIffPending(max: int, r: Cursor, q: seq<Msg>, w: Cursor)
    requires Walk(max, r, q) == w
    ensures HasData(r, w) <==> q != []
    ensures !HasData(r, w) ==> r == w
  {
    WalkMonotone(max, r, q);
  }

  // ---------------------------------------------------------------- what disturbs stored frames

  /** Of the first `n` bytes, `after` has all that `before` had. */
  ghost predicate SamePrefix(before: seq<byte>, after: seq<byte>, n: nat) {
    forall i :: 0 <= i < n && i < |before| ==> i < |after| && after[i] == before[i]
  }

  /** `after` has every byte that `before` had at or after the start of file `lo` and before `w`. */
  ghost predicate SameBelow(before: Files, after: Files, lo: int, w: Cursor) {
    (forall f :: lo <= f < w.file && f in before ==> f in after && after[f] == before[f]) &&
    (lo <= w.file && w.file in before ==>
       w.file in after && SamePrefix(before[w.file], after[w.file], w.pos))
  }

  lemma {:induction false} StoredPreserved(before: Files, after: Files, max: int, c: Cursor, q: seq<Msg>, w: Cursor)
    requires Stored(before, max, c, q)
    requires AtOrBefore(Walk(max, c, q), w)
    requires SameBelow(before, after, c.file, w)
    ensures Stored(after, max, c, q)
    decreases |q|
  {
    if q != [] {
      var next := Step(max, c, q[0]);
      WalkMonotone(max, next, q[1..]);
      StoredPreserved(before, after, max, next, q[1..], w);
      var n := |Frame(q[0])|;
      if c.file == w.file {
        var was, now := before[c.file], after[c.file];
        assert SamePrefix(was, now, w.pos);
        var last := was[c.pos + n - 1];
        assert c.pos + n <= |now|;
        assert now[c.pos..c.pos + n] == was[c.pos..c.pos + n];
      }
    }
  }

  /** Writing `data` at `pos` without truncating; a gap reads as zeros. */
  function Overwrite(content: seq<byte>, pos: nat, data: seq<byte>): (r: seq<byte>)
    ensures |r| == if |content| < pos + |data| then pos + |data| else |content|
    ensures r[pos..pos + |data|] == data
    ensures forall i :: 0 <= i < pos && i < |content| ==> r[i] == content[i]
  {
    var padded := if |content| < pos then content + seq(pos - |content|, _ => 0) else content;
    padded[..pos] + data + (if pos + |data| < |padded| then padded[pos + |data|..] else [])
  }

  function ContentOf(files: Files, f: int): seq<byte> { if f in files then files[f] else [] }

  /** Appending one frame at the writer keeps the pending frames and adds the new one. */
  lemma StoredAppend(files: Files, max: int, r: Cursor, q: seq<Msg>, w: Cursor, m: Msg)
    requires Walk(max, r, q) == w && Stored(files, max, r, q)
    ensures var after := files[w.file := Overwrite(ContentOf(files, w.file), w.pos, Frame(m))];
            Walk(max, r, q + [m]) == Step(max, w, m) && Stored(after, max, r, q + [m])
  {
    var after := files[w.file := Overwrite(ContentOf(files, w.file), w.pos, Frame(m))];
    StoredPreserved(files, after, max, r, q, w);
    WalkSplit(max, r, q, [m]);
    StoredSplit(after, max, r, q, [m]);
    assert [m][1..] == [];
    assert Stored(after, max, w, [m]);
  }

  // ---------------------------------------------------------------- skipping a file

  /** The messages of `q` that start after the file of `c`. */
  function AfterFile(max: int, c: Cursor, q: seq<Msg>): (later: seq<Msg>)
    ensures |later| <= |q|
    decreases |q|
  {
    if q == [] then []
    else if Step(max, c, q[0]).file != c.file then q[1..]
    else AfterFile(max, Step(max, c, q[0]), q[1..])
  }

  /** Skipping drops exactly the frames that start in the skipped file: a prefix of the queue.
      What is left is nonempty only if the walk leaves that file, and then it starts at the
      head of the next one. */
  lemma {:induction false} AfterFileSplit(max: int, c: Cursor, q: seq<Msg>)
    ensures var later := AfterFile(max, c, q);
            var lost := q[..|q| - |later|];
            q == lost + later &&
            (forall k :: 0 <= k < |lost| ==> Walk(max, c, lost[..k]).file == c.file) &&
            (Walk(max, c, q).file == c.file ==> later == []) &&
            (Walk(max, c, q).file != c.file ==> Walk(max, c, lost) == Cursor(c.file + 1, 0))
    decreases |q|
  {
    if q != [] {
      var next := Step(max, c, q[0]);
      var later := AfterFile(max, c, q);
      var lost := q[..|q| - |later|];
      WalkMonotone(max, next, q[1..]);
      if next.file != c.file {
        assert lost == [q[0]];
        assert lost[1..] == [];
      } else {
        AfterFileSplit(max, next, q[1..]);
        var lost1 := q[1..][..|q| - 1 - |later|];
        assert lost[1..] == lost1;
        forall k | 0 <= k < |lost|
          ensures Walk(max, c, lost[..k]).file == c.file
        {
          if k > 0 {
            assert lost[..k][1..] == lost1[..k - 1];
          }
        }
      }
    }
  }

  /** After the file of the read cursor is given up, the messages of the later files still lie
      between the new cursors. */
  lemma SkipKeepsLaterFiles(files: Files, max: int, r: Cursor, q: seq<Msg>, w: Cursor, gone: bool)
    requires gone ==> r.file !in files && r.file < w.file
    requires Walk(max, if gone then Cursor(r.file + 1, 0) else r, q) == w
    requires Stored(files, max, Cursor(r.file + 1, 0), if gone then q else AfterFile(max, r, q))
    ensures var rest := if gone then q else AfterFile(max, r, q);
            var r' := Cursor(r.file + 1, 0);
            Walk(max, r', rest) == (if r.file == w.file then r' else w) &&
            Stored(files - {r.file}, max, r', rest) &&
            (rest != [] ==> r'.file in files) && (rest == [] ==> w.file <= r'.file) &&
            (forall m :: m in rest ==> m in q)
  {
    var rest := if gone then q else AfterFile(max, r, q);
    var r' := Cursor(r.file + 1, 0);
    if !gone {
      AfterFileSplit(max, r, q);
      var lost := q[..|q| - |rest|];
      WalkSplit(max, r, lost, rest);
      WalkMonotone(max, r, q);
    }
    WalkMonotone(max, r', rest);
    StoredPreserved(files, files - {r.file}, max, r', rest, Walk(max, r', rest));
  }

  /** Whatever happens to the bytes of the file being read, the messages after it are intact. */
  lemma LaterFilesIntact(files: Files, max: int, r: Cursor, q: seq<Msg>, w: Cursor, bytes: seq<byte>)
    requires Walk(max, r, q) == w && Stored(files, max, r, q)
    ensures Stored(files[r.file := bytes], max, Cursor(r.file + 1, 0), AfterFile(max, r, q))
  {
    var rest := AfterFile(max, r, q);
    var lost := q[..|q| - |rest|];
    AfterFileSplit(max, r, q);
    WalkMonotone(max, r, q);
    if rest != [] {
      StoredSplit(files, max, r, lost, rest);
      WalkSplit(max, r, lost, rest);
      StoredPreserved(files, files[r.file := bytes], max, Cursor(r.file + 1, 0), rest, w);
    }
  }
}
