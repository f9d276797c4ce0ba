/** The buffered reader on an open data file. It fetches from the file in large pieces, so a part of
    what it will return may be older than what the file holds by then. */
module DiskReaders {
  import opened DiskLayout

  const BUFFER_SIZE := 4096

  /** Where the next byte that the reader returns belongs, and the bytes that it has in its buffer. */
  datatype Handle = Handle(at: Cursor, buffered: seq<byte>)
  {
    /** Where the next fetch from the file starts. */
    function End(): nat { at.pos + |buffered| }
  }

  function Suffix(content: seq<byte>, pos: nat): seq<byte> { if pos <= |content| then content[pos..] else [] }

  datatype Fetched = Fetched(data: seq<byte>, rest: Handle) | Short

  /** The next `n` bytes. What the buffer lacks is fetched directly if it would fill the buffer, and
      otherwise by filling the buffer once. */
  function Fetch(content: seq<byte>, h: Handle, n: nat): Fetched {
    var have, next := |h.buffered|, h.at.(pos := h.at.pos + n);
    if n <= have then Fetched(h.buffered[..n], Handle(next, h.buffered[n..]))
    else
      var more, file := n - have, Suffix(content, h.End());
      if |file| < more then Short
      else
        var filled := if more >= BUFFER_SIZE then more else if |file| < BUFFER_SIZE then |file| else BUFFER_SIZE;
        Fetched(h.buffered + file[..more], Handle(next, file[more..filled]))
  }

  datatype Reading = Reading(result: ReadResult, rest: Handle)

  /** One frame: its header, then as many bytes as the header says. */
  function ReadThrough(content: seq<byte>, h: Handle): Reading {
    match Fetch(content, h, 4)
    case Short => Reading(ReadError, h)
    case Fetched(head, h1) =>
      var size := HeaderValue(head);
      if size < 0 then Reading(ReadPanic, h1)
      else match Fetch(content, h1, size)
        case Short => Reading(ReadError, h1)
        case Fetched(data, h2) => Reading(Read(data), h2)
  }

  // ---------------------------------------------------------------- what the reader returns

  /** All that the reader would return from here on: its buffer, then the file. */
  function Ahead(content: seq<byte>, h: Handle): seq<byte> { h.buffered + Suffix(content, h.End()) }

  /** A fetch yields the buffer, then the file. */
  lemma FetchIsAhead(content: seq<byte>, h: Handle, n: nat)
    ensures var s, f := Ahead(content, h), Fetch(content, h, n);
            if |s| < n then f.Short?
            else f.Fetched? && f.data == s[..n] && Ahead(content, f.rest) == s[n..] && f.rest.at == h.at.(pos := h.at.pos + n)
  {
    var have := |h.buffered|;
    if n > have {
      var more, file := n - have, Suffix(content, h.End());
      if more <= |file| {
        var rest := Fetch(content, h, n).rest;
        assert Suffix(content, rest.End()) == file[more + |rest.buffered|..];
        assert Ahead(content, h)[n..] == file[more..];
      }
    }
  }

  /** A short fetch through an empty buffer leaves the reader with 4096 bytes of the file, counted
      from where it began, or with all there is. */
  lemma FetchFills(content: seq<byte>, at: Cursor, n: nat)
    requires 0 < n < 4096 && at.pos + n <= |content|
    ensures var f, end := Fetch(content, Handle(at, []), n), at.pos + 4096;
            f.Fetched? && f.rest.End() == if end < |content| then end else |content|
  {
    assert |Suffix(content, at.pos)| == |content| - at.pos;
  }

  /** The frame at the start of some bytes. */
  function Decode(s: seq<byte>): ReadResult {
    if |s| < 4 then ReadError
    else
      var size := HeaderValue(s[..4]);
      if size < 0 then ReadPanic else if |s| < 4 + size then ReadError else Read(s[4..4 + size])
  }

  /** Reading through the buffer is reading what lies ahead. */
  lemma ReadsAhead(content: seq<byte>, h: Handle)
    ensures var s, r := Ahead(content, h), ReadThrough(content, h);
            r.result == Decode(s) &&
            (r.result.Read? ==> Ahead(content, r.rest) == s[4 + |r.result.data|..] &&
                                r.rest.at == h.at.(pos := h.at.pos + 4 + |r.result.data|))
  {
    hide HeaderValue, Fetch;
    FetchIsAhead(content, h, 4);
    var s, head := Ahead(content, h), Fetch(content, h, 4);
    if head.Fetched? && HeaderValue(head.data) >= 0 {
      var size := HeaderValue(head.data);
      FetchIsAhead(content, head.rest, size);
      hide Ahead;
      if 4 + size <= |s| {
        assert s[4..][size..] == s[4 + size..];
      }
    }
  }

  lemma ReadAtDecodes(files: Files, c: Cursor)
    ensures ReadAt(files, c) == if c.file in files then Decode(Suffix(files[c.file], c.pos)) else ReadError
  {
    hide HeaderValue;
    if c.file in files && c.pos + 4 <= |files[c.file]| {
      var content := files[c.file];
      var s := Suffix(content, c.pos);
      assert s[..4] == content[c.pos..c.pos + 4];
      var size := HeaderValue(s[..4]);
      assert 0 <= size && 4 + size <= |s| ==> s[4..4 + size] == content[c.pos + 4..c.pos + 4 + size];
    }
  }

  // ---------------------------------------------------------------- agreement with the file

  /** What is buffered is what the file holds now. */
  predicate Agrees(content: seq<byte>, h: Handle) { h.buffered <= Suffix(content, h.at.pos) }

  /** As long as the buffer agrees with the file, reading through it is reading the file. */
  lemma AgreeingRead(files: Files, h: Handle)
    requires h.at.file in files && Agrees(files[h.at.file], h)
    ensures var r := ReadThrough(files[h.at.file], h);
            r.result == ReadAt(files, h.at) && (r.result.Read? ==> Agrees(files[h.at.file], r.rest))
  {
    var content := files[h.at.file];
    ReadsAhead(content, h);
    ReadAtDecodes(files, h.at);
    AgreeingAhead(content, h);
    RestAgrees(content, h);
    hide Decode, Fetch;
  }

  /** The two fetches of a read, one by one. */
  lemma FetchesRead(files: Files, h: Handle)
    requires h.at.file in files && Agrees(files[h.at.file], h)
    ensures var content := files[h.at.file];
            match Fetch(content, h, 4)
            case Short => ReadAt(files, h.at) == ReadError
            case Fetched(head, h1) =>
              |head| == 4 &&
              var size := HeaderValue(head);
              if size < 0 then ReadAt(files, h.at) == ReadPanic
              else match Fetch(content, h1, size)
                case Short => ReadAt(files, h.at) == ReadError
                case Fetched(data, h2) =>
                  ReadAt(files, h.at) == Read(data) && |data| == size && Agrees(content, h2) &&
                  h2.at == h.at.(pos := h.at.pos + 4 + size)
  {
    var content := files[h.at.file];
    AgreeingRead(files, h);
    ReadsAhead(content, h);
    FetchIsAhead(content, h, 4);
    var head := Fetch(content, h, 4);
    if head.Fetched? && HeaderValue(head.data) >= 0 {
      FetchIsAhead(content, head.rest, HeaderValue(head.data));
    }
    hide Fetch, Agrees, ReadAt, Decode, Ahead, HeaderValue;
  }

  lemma FetchAgrees(content: seq<byte>, h: Handle, n: nat)
    requires Agrees(content, h) && Fetch(content, h, n).Fetched?
    ensures Agrees(content, Fetch(content, h, n).rest)
  {
    var rest := Fetch(content, h, n).rest;
    var s := Suffix(content, h.at.pos);
    if n <= |h.buffered| {
      assert Suffix(content, rest.at.pos) == s[n..] && rest.buffered == s[..|h.buffered|][n..];
    }
  }

  lemma RestAgrees(content: seq<byte>, h: Handle)
    requires Agrees(content, h)
    ensures ReadThrough(content, h).result.Read? ==> Agrees(content, ReadThrough(content, h).rest)
  {
    var head := Fetch(content, h, 4);
    if head.Fetched? {
      FetchAgrees(content, h, 4);
      var size := HeaderValue(head.data);
      if size >= 0 && Fetch(content, head.rest, size).Fetched? {
        FetchAgrees(content, head.rest, size);
      }
    }
    hide Fetch, Agrees, HeaderValue;
  }

  /** A write that starts where nothing is buffered leaves the agreement alone. */
  lemma WriteAgrees(content: seq<byte>, h: Handle, w: nat, data: seq<byte>)
    requires Agrees(content, h) && (h.buffered == [] || h.End() <= w)
    ensures Agrees(Overwrite(content, w, data), h)
  {
    if h.buffered != [] {
      var after, n := Overwrite(content, w, data), |h.buffered|;
      assert Suffix(after, h.at.pos)[..n] == Suffix(content, h.at.pos)[..n];
    }
  }

  lemma WriteAgreesIn(files: Files, h: Handle, w: Cursor, data: seq<byte>)
    requires h.at.file in files && Agrees(files[h.at.file], h)
    requires h.at.file == w.file && h.buffered != [] ==> h.End() <= w.pos
    ensures Agrees(files[w.file := Overwrite(ContentOf(files, w.file), w.pos, data)][h.at.file], h)
  {
    if h.at.file == w.file {
      WriteAgrees(files[w.file], h, w.pos, data);
    }
  }

  /** The data ends at the writer: nothing is stored at or past `w`, and no later file exists. */
  predicate EndsAt(files: Files, w: Cursor) {
    (forall f :: f in files ==> f <= w.file) && (w.file in files ==> |files[w.file]| <= w.pos)
  }

  lemma WriteEndsAt(files: Files, w: Cursor, data: seq<byte>)
    requires EndsAt(files, w)
    ensures EndsAt(files[w.file := Overwrite(ContentOf(files, w.file), w.pos, data)], w.(pos := w.pos + |data|))
  {
  }

  // ---------------------------------------------------------------- when it is lost

  function Frames(ms: seq<Msg>): seq<byte> {
    if ms == [] then [] else Frame(ms[0]) + Frames(ms[1..])
  }

  /** Reading on yields exactly `ms`. */
  predicate ReadsBack(content: seq<byte>, h: Handle, ms: seq<Msg>)
    decreases |ms|
  {
    ms == [] ||
    var r := ReadThrough(content, h);
    r.result == Read(ms[0]) && ReadsBack(content, r.rest, ms[1..])
  }

  lemma Digits(a: int, b: int, c: int, d: int)
    requires 0 <= a < 256 && 0 <= b < 256 && 0 <= c < 256 && 0 <= d < 256
    ensures var n := a * 0x100_0000 + b * 0x1_0000 + c * 256 + d;
            n / 0x100_0000 == a && n / 0x1_0000 % 256 == b && n / 256 % 256 == c && n % 256 == d && 0 <= n < TWO_32
  {
    var n := a * 0x100_0000 + b * 0x1_0000 + c * 256 + d;
    assert n / 256 == a * 0x1_0000 + b * 256 + c;
    assert n / 0x1_0000 == a * 256 + b;
  }

  lemma NonNegativeIsUnsigned(x: int)
    requires 0 <= x < TWO_32 && ToInt32(x) >= 0
    ensures ToInt32(x) == x
  {
  }

  lemma HeaderInjective(h: seq<byte>, n: nat)
    requires |h| == 4 && n < TWO_31 && HeaderValue(h) == n
    ensures h == Header(n)
  {
    var x := (h[0] as int) * 0x100_0000 + (h[1] as int) * 0x1_0000 + (h[2] as int) * 256 + h[3] as int;
    Digits(h[0], h[1], h[2], h[3]);
    NonNegativeIsUnsigned(x);
    assert x == n;
    hide ToInt32, HeaderValue;
    HeaderDigits(n);
  }

  lemma HeaderDigits(n: nat)
    requires n < TWO_31
    ensures Header(n) == [n / 0x100_0000, n / 0x1_0000 % 256, n / 256 % 256, n % 256]
  {
  }

  lemma PrefixSlices(a: seq<byte>, b: seq<byte>, s: seq<byte>)
    requires a + b <= s
    ensures s[..|a|] == a && s[|a|..|a| + |b|] == b
  {
    assert s[..|a| + |b|] == a + b;
  }

  lemma DecodesIff(s: seq<byte>, m: Msg)
    requires Fits(m)
    ensures Decode(s) == Read(m) <==> Frame(m) <= s
  {
    HeaderRoundTrip(|m|);
    assert HeaderValue(Header(|m|)) == |m|;
    if Decode(s) == Read(m) {
      HeaderInjective(s[..4], |m|);
      hide Header, HeaderValue;
      assert s[..4 + |m|] == s[..4] + s[4..4 + |m|];
    }
    if Frame(m) <= s {
      PrefixSlices(Header(|m|), m, s);
      hide Header, HeaderValue;
    }
  }

  lemma {:induction false} ReadsBackIff(content: seq<byte>, h: Handle, ms: seq<Msg>)
    requires forall m :: m in ms ==> Fits(m)
    ensures ReadsBack(content, h, ms) <==> Frames(ms) <= Ahead(content, h)
    decreases |ms|
  {
    if ms != [] {
      var s, r := Ahead(content, h), ReadThrough(content, h);
      ReadsAhead(content, h);
      DecodesIff(s, ms[0]);
      hide ReadThrough, Decode, Header;
      if r.result == Read(ms[0]) {
        ReadsBackIff(content, r.rest, ms[1..]);
        hide Ahead;
        PrefixOfSum(Frame(ms[0]), Frames(ms[1..]), s);
      }
    }
  }

  lemma PrefixOfSum<T>(a: seq<T>, b: seq<T>, s: seq<T>)
    requires a <= s
    ensures a + b <= s <==> b <= s[|a|..]
  {
    if a + b <= s {
      assert s[|a|..][..|b|] == s[..|a| + |b|][|a|..] == b;
    }
    if b <= s[|a|..] {
      assert s[..|a| + |b|] == s[..|a|] + s[|a|..][..|b|];
    }
  }

  /** Stored frames that all lie in one file. */
  lemma {:induction false} StoredFrames(files: Files, max: int, c: Cursor, q: seq<Msg>)
    requires Stored(files, max, c, q) && Walk(max, c, q).file == c.file && c.file in files
    ensures Frames(q) <= Suffix(files[c.file], c.pos) && c.pos + |Frames(q)| == Walk(max, c, q).pos
    decreases |q|
  {
    if q != [] {
      var next, s := Step(max, c, q[0]), Suffix(files[c.file], c.pos);
      WalkMonotone(max, next, q[1..]);
      StoredFrames(files, max, next, q[1..]);
      assert Frame(q[0]) <= s && Suffix(files[c.file], next.pos) == s[|Frame(q[0])|..];
      hide Frame;
      PrefixOfSum(Frame(q[0]), Frames(q[1..]), s);
    }
  }

  lemma {:induction false} FramesSnoc(ms: seq<Msg>, m: Msg)
    ensures Frames(ms + [m]) == Frames(ms) + Frame(m)
  {
    if ms == [] {
      assert ms + [m] == [m] && [m][1..] == [];
    } else {
      assert (ms + [m])[1..] == ms[1..] + [m];
      FramesSnoc(ms[1..], m);
    }
  }

  /** A message whose frame does not start with `b`. */
  function Unlike(b: byte): (m: Msg)
    ensures Fits(m) && Frame(m)[0] != b
  {
    if b != 0 then [] else seq(0x100_0000, _ => 0)
  }

  /** Writing a message at `w`, past the pending ones, is safe for the reader exactly when its buffer
      does not reach beyond `w`: otherwise some message would not be read back. */
  lemma PutReadsBackIff(content: seq<byte>, h: Handle, pending: seq<Msg>, w: nat)
    requires Agrees(content, h) && h.at.pos + |Frames(pending)| == w && Frames(pending) <= Suffix(content, h.at.pos)
    requires forall m :: m in pending ==> Fits(m)
    ensures (forall m :: Fits(m) ==> ReadsBack(Overwrite(content, w, Frame(m)), h, pending + [m])) <==> h.End() <= w
  {
    if h.End() <= w {
      forall m | Fits(m)
        ensures ReadsBack(Overwrite(content, w, Frame(m)), h, pending + [m])
      {
        PutReadsBack(content, h, pending, w, m);
      }
    } else {
      var k := w - h.at.pos;
      var m := Unlike(h.buffered[k]);
      var after := Overwrite(content, w, Frame(m));
      FramesSnoc(pending, m);
      ReadsBackIff(after, h, pending + [m]);
      hide Header, ReadsBack, Frames;
      assert Frames(pending + [m])[k] == Frame(m)[0] != Ahead(after, h)[k];
    }
  }

  lemma PutReadsBack(content: seq<byte>, h: Handle, pending: seq<Msg>, w: nat, m: Msg)
    requires Agrees(content, h) && h.at.pos + |Frames(pending)| == w && Frames(pending) <= Suffix(content, h.at.pos)
    requires h.End() <= w && (forall p :: p in pending ==> Fits(p)) && Fits(m)
    ensures ReadsBack(Overwrite(content, w, Frame(m)), h, pending + [m])
  {
    var after := Overwrite(content, w, Frame(m));
    WriteAgrees(content, h, w, Frame(m));
    FramesSnoc(pending, m);
    ReadsBackIff(after, h, pending + [m]);
    AgreeingAhead(after, h);
    Written(content, h.at.pos, Frames(pending), Frame(m));
    hide Header, ReadsBack, Frames, Overwrite, Ahead, Agrees, Frame;
  }

  lemma AgreeingAhead(content: seq<byte>, h: Handle)
    requires Agrees(content, h)
    ensures Ahead(content, h) == Suffix(content, h.at.pos)
  {
  }

  lemma Written(content: seq<byte>, pos: nat, before: seq<byte>, data: seq<byte>)
    requires before <= Suffix(content, pos)
    ensures before + data <= Suffix(Overwrite(content, pos + |before|, data), pos)
  {
    var w := pos + |before|;
    var after := Overwrite(content, w, data);
    assert before != [] ==> content[pos..][..|before|] == before;
    assert after[pos..w] == before;
    assert after[pos..][..|before| + |data|] == after[pos..w] + after[w..w + |data|];
  }

  /** The same after a restart: a new reader goes through the pending messages, which fit its buffer
      together with whatever follows them. The next message is then read back, whatever it is,
      exactly when the file ends at the write cursor. */
  lemma StaleBytesIff(content: seq<byte>, c: Cursor, first: Msg, w: nat)
    requires Fits(first) && c.pos + |Frame(first)| == w <= |content| && content[c.pos..w] == Frame(first)
    requires |content| - c.pos <= BUFFER_SIZE
    ensures var r := ReadThrough(content, Handle(c, []));
            r.result == Read(first) &&
            ((forall m :: Fits(m) ==> ReadThrough(Overwrite(content, w, Frame(m)), r.rest).result == Read(m)) <==>
             |content| == w)
  {
    var r := ReadThrough(content, Handle(c, []));
    FirstRead(content, c, first);
    var none: seq<Msg> := [];
    PutReadsBackIff(content, r.rest, none, w);
    hide ReadThrough, Overwrite, Header, Agrees, Frame;
    forall m | Fits(m)
      ensures ReadsBack(Overwrite(content, w, Frame(m)), r.rest, none + [m]) <==>
              ReadThrough(Overwrite(content, w, Frame(m)), r.rest).result == Read(m)
    {
      assert none + [m] == [m] && [m][1..] == none;
    }
  }

  lemma FirstRead(content: seq<byte>, c: Cursor, first: Msg)
    requires Fits(first) && c.pos <= |content| <= c.pos + BUFFER_SIZE && Frame(first) <= content[c.pos..]
    ensures var r := ReadThrough(content, Handle(c, []));
            r.result == Read(first) && r.rest.at == c.(pos := c.pos + |Frame(first)|) && Agrees(content, r.rest) &&
            r.rest.End() == |content|
  {
    var h := Handle(c, []);
    ReadsAhead(content, h);
    AgreeingAhead(content, h);
    DecodesIff(content[c.pos..], first);
    BufferTakesAll(content, c);
    RestAgrees(content, h);
    hide ReadThrough, Header, Ahead;
  }

  /** A short file is buffered whole. */
  lemma BufferTakesAll(content: seq<byte>, c: Cursor)
    requires c.pos + 4 <= |content| <= c.pos + BUFFER_SIZE
    ensures var r := ReadThrough(content, Handle(c, [])); r.result.Read? ==> r.rest.End() == |content|
  {
    hide HeaderValue;
  }

  /** For one, a message written over a stale frame of the same length is not read back: the stale one
      is, though the file no longer holds it. */
  lemma StaleFrameIsRead(c: Cursor, a: Msg, stale: Msg, m: Msg)
    requires c.pos == 0 && Fits(a) && Fits(stale) && |m| == |stale| && |Frame(a)| + |Frame(stale)| <= BUFFER_SIZE
    ensures var content := Frame(a) + Frame(stale);
            var r := ReadThrough(content, Handle(c, []));
            var after := Overwrite(content, |Frame(a)|, Frame(m));
            r.result == Read(a) && after == Frame(a) + Frame(m) && ReadThrough(after, r.rest).result == Read(stale)
  {
    var content := Frame(a) + Frame(stale);
    var r := ReadThrough(content, Handle(c, []));
    FirstRead(content, c, a);
    var after := Overwrite(content, |Frame(a)|, Frame(m));
    ReadsAhead(after, r.rest);
    DecodesIff(Ahead(after, r.rest), stale);
    hide ReadThrough, Header, Decode;
    assert r.rest.buffered == Frame(stale);
    assert after == Frame(a) + Frame(m);
  }
}
