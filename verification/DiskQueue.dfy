/** The disk-backed FIFO queue.

    `Disk` is what outlives the process; `DiskQueue` is the in-memory object over it. Dropping a
    queue and constructing another on the same disk is a crash and restart. */
module DiskQueues {
  import opened DiskLayout
  import opened DiskReaders
  import opened DiskDamage
  import opened DiskDurability
  import opened Options

  class Disk {
    var files: Files             // data files, by number
    var bad: Files               // files set aside under a ".bad" name
    var meta: Option<Meta>       // the metadata file
    ghost var intact: Files      // the data files as they were written
    ghost var broken: Broken     // which of them are damaged, and where
    ghost var snap: seq<Msg>     // the queue when `meta` was persisted
    ghost var done: nat          // how many of `snap` were delivered since

    constructor ()
      ensures files == intact == map[] && broken == map[] && meta == None && snap == [] && done == 0
    {
      files, bad, meta, intact, broken, snap, done := map[], map[], None, map[], map[], [], 0;
    }

    ghost predicate Safe(max: int) reads this {
      Restartable(intact, max, meta, snap, done)
    }

    /** Any damage lies in frames that a restart would find pending. */
    ghost predicate Consistent(max: int) reads this {
      Worn(files, intact, broken) && done <= |snap| &&
      match meta
      case None => broken == map[]
      case Some(m) => Marked(broken, max, RestartHead(intact, m), Recovered(intact, max, m, snap, done))
    }

    ghost predicate Undamaged() reads this { files == intact && broken == map[] }

    /** Persisted and not yet delivered. */
    ghost function Owed(): seq<Msg> reads this { Undelivered(snap, done) }
  }

  function Rest(s: seq<Msg>): seq<Msg> { if s == [] then [] else s[1..] }

  function FilesBetween(files: Files, from: int, to: int): set<int> { set f | f in files && from <= f < to }

  lemma OneMoreFile(files: Files, from: int, to: int)
    requires from <= to
    ensures files - FilesBetween(files, from, to) - {to} == files - FilesBetween(files, from, to + 1)
  {
  }

  class DiskQueue {
    const disk: Disk
    const maxBytesPerFile: int
    const syncEvery: int

    var read: Cursor             // readFileNum, readPos
    var write: Cursor            // writeFileNum, writePos
    var next: Cursor             // nextReadFileNum, nextReadPos: past the message read ahead
    var depth: int

    var exitFlag: bool
    var needSync: bool
    var count: int

    var dataRead: Msg            // the message read ahead

    var readFile: Option<Handle>    // open handle with its buffer
    var writeFile: Option<Cursor>   // open handle and its offset

    ghost var queue: seq<Msg>       // the messages pending

    // ------------------------------------------------------------ invariants

    /** The read cursor points into a file that is gone: only right after a restart. */
    predicate Missing() reads this, disk {
      read.file !in disk.files && read.file < write.file
    }

    /** Where the pending messages start. */
    function Head(): Cursor reads this, disk {
      if Missing() then Cursor(read.file + 1, 0) else read
    }

    /** The bytes written between the cursors are exactly the pending messages, and if a file is
        damaged, it is so from one of their frames on. */
    ghost predicate Layout() reads this, disk {
      Laid(disk.files, disk.intact, disk.broken, maxBytesPerFile, Head(), queue, write)
    }

    /** Open handles stand where the next sequential read or write has to happen, and the bytes that
        the reader has buffered are still those of the file. */
    predicate Handles() reads this, disk {
      (readFile.Some? ==> readFile.value.at == next && next.file == read.file && read.file in disk.files &&
                          Agrees(disk.files[read.file], readFile.value)) &&
      (writeFile.Some? ==> writeFile.value == write)
    }

    /** The head of the queue has been read and is ready to be sent. */
    ghost predicate Offering() reads this {
      queue != [] && dataRead == queue[0] && next == Step(maxBytesPerFile, read, dataRead)
    }

    ghost predicate Ahead() reads this, disk {
      next == read || (!Missing() && Offering() && !BrokenAt(disk.broken, read))
    }

    /** The metadata on disk describes a state from which the queue can be recovered. */
    ghost predicate Durable() reads this, disk {
      Backed(disk.intact, maxBytesPerFile, disk.meta, disk.snap, disk.done, read, queue, write, !Missing() && !needSync)
    }

    ghost predicate Sound() reads this, disk { Layout() && Handles() && Ahead() }

    /** Between any two iterations of the loop. */
    ghost predicate Operable() reads this, disk { Sound() && !exitFlag && (needSync || Durable()) }

    /** The same, with nothing damaged. */
    ghost predicate Valid() reads this, disk { Operable() && Durable() && disk.broken == map[] }

    /** The data ends at the writer: the write file has nothing at or past the write cursor, unless it
        is damaged, and no later file exists. */
    ghost predicate Clean() reads this, disk {
      (forall f :: f in disk.files ==> f <= write.file) &&
      (write.file in disk.files && write.file !in disk.broken ==> |disk.files[write.file]| <= write.pos)
    }

    /** The reader has buffered nothing that lies at or past the write cursor. */
    predicate Tame() reads this {
      readFile.Some? && readFile.value.at.file == write.file && readFile.value.buffered != [] ==>
        readFile.value.End() <= write.pos
    }

    lemma CleanIsTame()
      requires Handles() && Clean() && write.file !in disk.broken
      ensures Tame()
    {
    }

    /** The head of the queue lies where its file is damaged. */
    ghost predicate Unreadable() reads this, disk {
      !Missing() && queue != [] && next == read && BrokenAt(disk.broken, read)
    }

    /** The pending messages that can still be read. */
    ghost function Deliverable(): seq<Msg> reads this, disk {
      Surviving(disk.broken, maxBytesPerFile, Head(), queue)
    }

    // ------------------------------------------------------------ start-up

    /** Instantiates a queue on whatever a previous one, cleanly closed or not, left behind. */
    constructor (disk: Disk, maxBytesPerFile: int, syncEvery: int)
      requires disk.Safe(maxBytesPerFile) && disk.Consistent(maxBytesPerFile)
      modifies disk`snap, disk`done
      ensures Operable() && Durable()
      ensures this.disk == disk && this.maxBytesPerFile == maxBytesPerFile && this.syncEvery == syncEvery
      ensures queue == old(disk.snap) || queue == old(disk.Owed())
      ensures queue != old(disk.snap) ==> Missing()
      ensures old(disk.meta.Some?) ==> var m := old(disk.meta.value); depth == m.depth && read == m.read && write == m.write
      ensures old(disk.meta.None?) ==> depth == 0 && read == write == Cursor(0, 0)
      ensures disk.snap == queue && disk.done == 0 && Paced(0)
    {
      this.disk, this.maxBytesPerFile, this.syncEvery := disk, maxBytesPerFile, syncEvery;
      exitFlag, needSync, count, dataRead := false, false, 0, [];
      readFile, writeFile := None, None;
      read, write, next, depth := Cursor(0, 0), Cursor(0, 0), Cursor(0, 0), 0;
      queue := [];
      new;
      RetrieveMetaData();
      assert queue[0..] == queue;
    }

    /** What a restart finds pending, and where it starts. */
    lemma RestartsSound() returns (h: Cursor, q: seq<Msg>)
      requires disk.Safe(maxBytesPerFile) && disk.Consistent(maxBytesPerFile)
      ensures var (r, w) := if disk.meta.None? then (Cursor(0, 0), Cursor(0, 0))
                            else (disk.meta.value.read, disk.meta.value.write);
              h == (if r.file !in disk.files && r.file < w.file then Cursor(r.file + 1, 0) else r) &&
              Laid(disk.files, disk.intact, disk.broken, maxBytesPerFile, h, q, w) &&
              Backed(disk.intact, maxBytesPerFile, disk.meta, q, 0, r, q, w, h == r) &&
              (q == disk.snap || (q == disk.Owed() && h != r))
    {
      if disk.meta.Some? {
        var m := disk.meta.value;
        h, q := RestartHead(disk.intact, m), Recovered(disk.intact, maxBytesPerFile, m, disk.snap, disk.done);
        RestartFinds(disk.intact, maxBytesPerFile, m, disk.snap, disk.done);
        assert q[0..] == q && disk.files.Keys == disk.intact.Keys;
        hide Marked, HeadIntact, Stored, Walk;
      } else {
        h, q := Cursor(0, 0), [];
      }
    }

    method RetrieveMetaData()
      requires disk.Safe(maxBytesPerFile) && disk.Consistent(maxBytesPerFile)
      requires read == write == next == Cursor(0, 0) && depth == 0
      requires readFile.None? && writeFile.None? && !needSync && !exitFlag && queue == []
      modifies this`read, this`write, this`next, this`depth, this`queue, disk`snap, disk`done
      ensures Operable() && Durable()
      ensures queue == old(disk.snap) || queue == old(disk.Owed())
      ensures queue != old(disk.snap) ==> Missing()
      ensures old(disk.meta.Some?) ==> var m := old(disk.meta.value); depth == m.depth && read == m.read && write == m.write
      ensures old(disk.meta.None?) ==> depth == 0 && read == write == Cursor(0, 0)
      ensures disk.snap == queue && disk.done == 0
    {
      ghost var h, q := RestartsSound();
      hide Laid, Backed, Disk.Safe, Disk.Consistent;
      if disk.meta.Some? {
        var m := disk.meta.value;
        depth := m.depth;
        read, write, next := m.read, m.write, m.read;
      }
      queue := q;
      disk.snap, disk.done := q, 0;
    }

    // ------------------------------------------------------------ persisting

    /** fsync and rename are durable, so this always succeeds. */
    method Sync()
      requires Layout()
      modifies this`needSync, disk`meta, disk`snap, disk`done
      ensures Layout() && Durable() && !needSync
      ensures disk.meta == Some(Meta(depth, read, write)) && disk.snap == queue && disk.done == 0
      ensures disk.Owed() == queue
    {
      LaidFacts(disk.files, disk.intact, disk.broken, maxBytesPerFile, Head(), queue, write);
      BackedBySync(disk.intact, maxBytesPerFile, depth, read, queue, write, Missing());
      assert queue[0..] == queue;
      hide Laid, Backed, Worn;
      disk.meta := Some(Meta(depth, read, write));
      disk.snap, disk.done := queue, 0;
      needSync := false;
    }

    // ------------------------------------------------------------ reading

    /** One low-level read at the read cursor, through a new buffered reader if no file is open. */
    method ReadOne() returns (r: ReadResult)
      requires readFile.Some? ==> readFile.value.at == read && read.file in disk.files &&
                                  Agrees(disk.files[read.file], readFile.value)
      requires ReadAt(disk.files, read).Read? ==> Fits(ReadAt(disk.files, read).data)
      modifies this`readFile, this`next
      ensures r == ReadAt(disk.files, read)
      ensures r.Read? ==> next == Step(maxBytesPerFile, read, r.data)
      ensures r.Read? ==> if next.file != read.file then readFile.None?
                          else readFile.Some? && readFile.value.at == next && Agrees(disk.files[read.file], readFile.value)
      ensures !r.Read? ==> next == old(next)
      ensures r.ReadError? ==> readFile.None?
    {
      if readFile.None? {
        if read.file !in disk.files {
          return ReadError;
        }
        readFile := Some(Handle(read, []));
      }
      var content := disk.files[read.file];
      FetchesRead(disk.files, readFile.value);
      hide HeaderValue, ToInt32, Fetch, Agrees, ReadAt;
      var head := Fetch(content, readFile.value, 4);
      if head.Short? {
        readFile := None;
        return ReadError;
      }
      var msgSize := HeaderValue(head.data);
      if msgSize < 0 {
        return ReadPanic;
      }
      var body := Fetch(content, head.rest, msgSize);
      if body.Short? {
        readFile := None;
        return ReadError;
      }
      r := Read(body.data);
      FittingAdvance(r.data);
      var totalBytes := ToInt32(4 + msgSize);
      next := Cursor(read.file, read.pos + totalBytes);
      readFile := Some(body.rest);
      if next.pos > maxBytesPerFile {
        readFile := None;
        next := Cursor(next.file + 1, 0);
      }
    }

    // ------------------------------------------------------------ writing

    /** What a write does to everything that has to be kept. */
    lemma WriteKept(data: Msg)
      requires Layout() && Durable() && Handles() && !Missing() && Fits(data) && Tame() && write.file !in disk.broken
      ensures var files := disk.files[write.file := Overwrite(ContentOf(disk.files, write.file), write.pos, Frame(data))];
              var intact := disk.intact[write.file := Overwrite(ContentOf(disk.intact, write.file), write.pos, Frame(data))];
              Laid(files, intact, disk.broken, maxBytesPerFile, read, queue + [data], Step(maxBytesPerFile, write, data)) &&
              Backed(intact, maxBytesPerFile, disk.meta, disk.snap, disk.done, read, queue, write, !needSync) &&
              (readFile.Some? ==> Agrees(files[read.file], readFile.value)) &&
              (EndsAt(disk.files, write) ==> EndsAt(files, Cursor(write.file, write.pos + 4 + |data|)))
    {
      LaidAppend(disk.files, disk.intact, disk.broken, maxBytesPerFile, read, queue, write, data);
      BackedByWrite(disk.intact, maxBytesPerFile, disk.meta, disk.snap, disk.done, read, queue, write,
                    !needSync, data);
      if EndsAt(disk.files, write) {
        WriteEndsAt(disk.files, write, Frame(data));
      }
      hide Laid, Backed, Overwrite, Agrees, Step, EndsAt;
      if readFile.Some? {
        WriteAgreesIn(disk.files, readFile.value, write, Frame(data));
      }
    }

    /** Puts the frame into the file, but moves no cursor yet: a crash here loses nothing. */
    method WriteFrame(data: Msg)
      requires Layout() && Durable() && Handles() && !Missing() && Fits(data)
      requires Tame() && write.file !in disk.broken
      modifies this`writeFile, disk`files, disk`intact
      ensures disk.files == old(disk.files)[write.file :=
                Overwrite(ContentOf(old(disk.files), write.file), write.pos, Frame(data))]
      ensures writeFile == Some(Cursor(write.file, write.pos + 4 + |data|))
      ensures Durable()
      ensures readFile.Some? ==> Agrees(disk.files[read.file], readFile.value)
      ensures Laid(disk.files, disk.intact, disk.broken, maxBytesPerFile, read, queue + [data],
                   Step(maxBytesPerFile, write, data))
      ensures old(EndsAt(disk.files, write)) ==> EndsAt(disk.files, Cursor(write.file, write.pos + 4 + |data|))
    {
      WriteKept(data);
      hide Laid, Backed, Overwrite, Agrees, Step, EndsAt, Frame, ContentOf;
      OverwriteFrame(data);
    }

    /** The write itself, through the open handle or a new one. */
    method OverwriteFrame(data: Msg)
      requires writeFile.Some? ==> writeFile.value == write
      modifies this`writeFile, disk`files, disk`intact
      ensures writeFile == Some(Cursor(write.file, write.pos + 4 + |data|))
      ensures disk.files == old(disk.files)[write.file :=
                Overwrite(ContentOf(old(disk.files), write.file), write.pos, Frame(data))]
      ensures disk.intact == old(disk.intact)[write.file :=
                Overwrite(ContentOf(old(disk.intact), write.file), write.pos, Frame(data))]
    {
      hide Overwrite, Frame;
      if writeFile.None? {
        disk.files := disk.files[write.file := ContentOf(disk.files, write.file)];
        writeFile := Some(write);
      }
      var at := writeFile.value;
      disk.files := disk.files[at.file := Overwrite(ContentOf(disk.files, at.file), at.pos, Frame(data))];
      disk.intact := disk.intact[at.file := Overwrite(ContentOf(disk.intact, at.file), at.pos, Frame(data))];
      writeFile := Some(Cursor(at.file, at.pos + 4 + |data|));
    }

    /** Appends a message and rolls to a new file once the current one is over the limit. */
    method WriteOne(data: Msg)
      requires Sound() && Durable() && !Missing() && Fits(data) && Tame() && write.file !in disk.broken
      modifies this`write, this`writeFile, this`depth, this`needSync, this`queue,
               disk`files, disk`intact, disk`meta, disk`snap, disk`done
      ensures Sound() && Durable() && !Missing()
      ensures queue == old(queue) + [data] && depth == old(depth) + 1
      ensures write == Step(maxBytesPerFile, old(write), data)
      ensures old(!needSync) ==> !needSync
      ensures old(disk.Owed()) <= disk.Owed()
      ensures old(Clean()) ==> Clean()
    {
      hide Laid, Backed, Agrees, Overwrite;
      WriteFrame(data);
      BackedMore(disk.intact, maxBytesPerFile, disk.meta, disk.snap, disk.done, read, queue, write, !needSync, data,
                 Cursor(write.file, write.pos + 4 + |data|));
      queue := queue + [data];
      depth := depth + 1;
      write := Cursor(write.file, write.pos + 4 + |data|);
      if write.pos > maxBytesPerFile {
        RollWriteFile();
      }
    }

    /** Starts writing to a new file, and syncs as it does so. */
    method RollWriteFile()
      requires !Missing() && write.file in disk.files
      requires Laid(disk.files, disk.intact, disk.broken, maxBytesPerFile, read, queue, Cursor(write.file + 1, 0))
      modifies this`write, this`writeFile, this`needSync, disk`meta, disk`snap, disk`done
      ensures Layout() && Durable() && !Missing() && !needSync && writeFile.None?
      ensures write == Cursor(old(write.file) + 1, 0) && disk.Owed() == queue
    {
      LaidFacts(disk.files, disk.intact, disk.broken, maxBytesPerFile, read, queue, Cursor(write.file + 1, 0));
      hide Laid, Worn, Backed;
      write := Cursor(write.file + 1, 0);
      Sync();
      writeFile := None;
    }

    // ------------------------------------------------------------ moving on

    /** Removes every file between the cursors and starts a new one. */
    method SkipToNextRWFile()
      requires Worn(disk.files, disk.intact, disk.broken) && forall f :: f in disk.broken ==> f <= write.file
      modifies this`read, this`write, this`next, this`depth, this`readFile, this`writeFile, this`queue,
               disk`files, disk`intact, disk`broken
      ensures read == next == write == Cursor(old(write.file) + 1, 0)
      ensures depth == 0 && queue == [] && readFile.None? && writeFile.None?
      ensures disk.files == old(disk.files) - FilesBetween(old(disk.files), old(read.file), old(write.file) + 1)
      ensures disk.broken.Keys <= old(disk.broken).Keys
      ensures Sound()
    {
      readFile, writeFile := None, None;
      RemoveFiles();
      write := Cursor(write.file + 1, 0);
      read, next := write, write;
      depth := 0;
      queue := [];
      NothingLaid(disk.files, disk.intact, disk.broken, maxBytesPerFile, read);
      hide Worn, Laid;
    }

    method RemoveFiles()
      requires Worn(disk.files, disk.intact, disk.broken)
      modifies disk`files, disk`intact, disk`broken
      ensures disk.files == old(disk.files) - FilesBetween(old(disk.files), read.file, write.file + 1)
      ensures Worn(disk.files, disk.intact, disk.broken) && disk.broken.Keys <= old(disk.broken).Keys
    {
      var i := read.file;
      while i <= write.file
        invariant read.file <= i <= write.file + 1 || i == read.file
        invariant disk.files == old(disk.files) - FilesBetween(old(disk.files), read.file, i)
        invariant Worn(disk.files, disk.intact, disk.broken) && disk.broken.Keys <= old(disk.broken).Keys
      {
        OneMoreFile(old(disk.files), read.file, i);
        WornRemove(disk.files, disk.intact, disk.broken, i);
        hide Worn, FilesBetween;
        disk.files, disk.intact, disk.broken := disk.files - {i}, disk.intact - {i}, disk.broken - {i};
        i := i + 1;
      }
    }

    /** Looks for the marks of a damaged queue once the reader has caught up with the writer. */
    method CheckTailCorruption(d: int)
      requires Worn(disk.files, disk.intact, disk.broken) && forall f :: f in disk.broken ==> f <= write.file
      modifies this`read, this`write, this`next, this`depth, this`readFile, this`writeFile, this`queue,
               this`needSync, disk`files, disk`intact, disk`broken
      ensures HasData(old(read), old(write)) || old(read) == old(write) ==>
                read == old(read) && write == old(write) && next == old(next) && queue == old(queue) &&
                readFile == old(readFile) && writeFile == old(writeFile) && disk.files == old(disk.files) &&
                disk.intact == old(disk.intact) && disk.broken == old(disk.broken)
      ensures HasData(old(read), old(write)) ==> depth == old(depth) && needSync == old(needSync)
      ensures old(read) == old(write) ==>
                (d == 0 ==> depth == old(depth)) && (d != 0 ==> depth == 0) &&
                needSync == (old(needSync) || d != 0)
      ensures !HasData(old(read), old(write)) && old(read) != old(write) ==>
                read == next == write == Cursor(old(write.file) + 1, 0) && depth == 0 && queue == [] && needSync
    {
      hide Worn, Laid;
      if read.file < write.file || read.pos < write.pos {
        return;
      }
      if d != 0 {
        depth := 0;
        needSync := true;
      }
      if read.file != write.file || read.pos != write.pos {
        SkipToNextRWFile();
        needSync := true;
      }
    }

    /** What one delivery leaves behind, with the file that the reader leaves removed. */
    lemma DeliveryKept()
      requires Sound() && Durable() && !Missing() && !needSync && Offering()
      ensures var (files, intact) := if next.file == read.file then (disk.files, disk.intact)
                                     else (disk.files - {read.file}, disk.intact - {read.file});
              var done := if disk.done < |disk.snap| then disk.done + 1 else disk.done;
              Laid(files, intact, disk.broken, maxBytesPerFile, next, queue[1..], write) &&
              (next.file in files || !(next.file < write.file)) &&
              Backed(intact, maxBytesPerFile, disk.meta, disk.snap, done, next, queue[1..], write, next.file == read.file) &&
              Undelivered(disk.snap, done) == Rest(disk.Owed())
    {
      assert next != read && !BrokenAt(disk.broken, read);
      LaidAdvance(disk.files, disk.intact, disk.broken, maxBytesPerFile, read, queue, write);
      BackedByDelivery(disk.intact, maxBytesPerFile, disk.meta, disk.snap, disk.done, read, queue, write);
    }

    /** Moves the read cursor past the delivered message and removes the file it has left. */
    method Advance()
      requires Sound() && Durable() && !Missing() && !needSync && Offering()
      modifies this`read, this`queue, this`needSync, disk`files, disk`intact, disk`done
      ensures Sound() && Durable() && !Missing()
      ensures queue == old(queue)[1..] && read == next
      ensures needSync <==> read.file != old(read.file)
      ensures disk.files == if read.file != old(read.file) then old(disk.files) - {old(read.file)} else old(disk.files)
      ensures disk.Owed() == Rest(old(disk.Owed()))
    {
      DeliveryKept();
      hide Laid, Backed, Agrees, Offering, Rest, Undelivered;
      var oldReadFileNum := read.file;
      read := next;
      queue := queue[1..];
      disk.done := if disk.done < |disk.snap| then disk.done + 1 else disk.done;
      if oldReadFileNum != next.file {
        LeaveReadFile(oldReadFileNum);
      }
    }

    /** The metadata must not go on pointing into a removed file. */
    method LeaveReadFile(f: int)
      modifies this`needSync, disk`files, disk`intact
      ensures needSync && disk.files == old(disk.files) - {f} && disk.intact == old(disk.intact) - {f}
    {
      needSync := true;
      disk.files, disk.intact := disk.files - {f}, disk.intact - {f};
    }

    /** Takes note that the message read ahead has been delivered. */
    method MoveForward()
      requires Sound() && Durable() && !Missing() && !needSync && Offering()
      modifies this`read, this`write, this`next, this`depth, this`readFile, this`writeFile, this`queue,
               this`needSync, disk`files, disk`intact, disk`broken, disk`done
      ensures Sound() && Durable() && !Missing()
      ensures queue == old(queue)[1..] && next == read && write == old(write)
      ensures depth == if queue == [] then 0 else old(depth) - 1
      ensures read == old(next) && (read.file != old(read.file) ==> needSync)
      ensures disk.files == if read.file != old(read.file) then old(disk.files) - {old(read.file)} else old(disk.files)
      ensures disk.broken == old(disk.broken)
      ensures disk.Owed() == Rest(old(disk.Owed()))
    {
      Advance();
      depth := depth - 1;
      LaidFacts(disk.files, disk.intact, disk.broken, maxBytesPerFile, read, queue, write);
      hide Laid, Worn, Backed, Agrees;
      CheckTailCorruption(depth);
    }

    // ------------------------------------------------------------ bad files

    /** The pending messages that do not lie in the file being read. */
    ghost function Survivors(): seq<Msg> reads this, disk {
      if Missing() then queue else AfterFile(maxBytesPerFile, read, queue)
    }

    /** Renames a file; a missing one is only logged. */
    method SetAside(f: int)
      modifies disk`files, disk`bad, disk`intact, disk`broken
      ensures disk.files == old(disk.files) - {f}
      ensures disk.intact == old(disk.intact) - {f} && disk.broken == old(disk.broken) - {f}
      ensures f !in old(disk.files) ==> disk.files == old(disk.files)
      ensures disk.bad == if f in old(disk.files) then old(disk.bad)[f := old(disk.files)[f]] else old(disk.bad)
    {
      if f in disk.files {
        disk.bad := disk.bad[f := disk.files[f]];
        disk.files := disk.files - {f};
      }
      disk.intact, disk.broken := disk.intact - {f}, disk.broken - {f};
    }

    /** What is left after the file being read has been given up. */
    lemma SkipKept()
      requires Layout()
      ensures var r, f := Cursor(read.file + 1, 0), read.file;
              var w := if read.file == write.file then r else write;
              Laid(disk.files - {f}, disk.intact - {f}, disk.broken - {f}, maxBytesPerFile, r, Survivors(), w) &&
              (r.file in disk.files - {f} || !(r.file < w.file))
    {
      var r, f := Cursor(read.file + 1, 0), read.file;
      var w := if read.file == write.file then r else write;
      LaidSkip(disk.files, disk.intact, disk.broken, maxBytesPerFile, read, queue, write, Missing());
      hide AfterFile;
      LaidFacts(disk.files - {f}, disk.intact - {f}, disk.broken - {f}, maxBytesPerFile, r, Survivors(), w);
      hide Laid;
    }

    /** Gives up on the file being read. */
    method HandleReadError()
      requires Layout() && readFile.None?
      requires writeFile.Some? ==> writeFile.value == write
      modifies this`read, this`write, this`next, this`writeFile, this`needSync, this`queue,
               disk`files, disk`bad, disk`intact, disk`broken
      ensures Sound() && !Missing() && needSync
      ensures queue == old(Survivors())
      ensures read == next == Cursor(old(read.file) + 1, 0)
      ensures write == if old(read.file == write.file) then read else old(write)
      ensures disk.files == old(disk.files) - {old(read.file)} && disk.intact == old(disk.intact) - {old(read.file)}
      ensures disk.broken == old(disk.broken) - {old(read.file)}
      ensures disk.bad == if old(read.file !in disk.files) then old(disk.bad)
                          else old(disk.bad)[old(read.file) := old(disk.files)[old(read.file)]]
    {
      SkipKept();
      hide Laid, Survivors, Agrees, BrokenAt, Backed;
      ghost var rest := Survivors();
      LeaveFile();
      read := Cursor(read.file + 1, 0);
      next := read;
      needSync := true;
      queue := rest;
    }

    method LeaveFile()
      requires writeFile.Some? ==> writeFile.value == write
      modifies this`write, this`writeFile, disk`files, disk`bad, disk`intact, disk`broken
      ensures writeFile.Some? ==> writeFile.value == write
      ensures write == if old(read.file == write.file) then Cursor(read.file + 1, 0) else old(write)
      ensures disk.files == old(disk.files) - {read.file} && disk.intact == old(disk.intact) - {read.file}
      ensures disk.broken == old(disk.broken) - {read.file}
      ensures disk.bad == if read.file !in old(disk.files) then old(disk.bad)
                          else old(disk.bad)[read.file := old(disk.files)[read.file]]
    {
      if read.file == write.file {
        writeFile := None;
        write := Cursor(write.file + 1, 0);
      }
      SetAside(read.file);
    }

    // ------------------------------------------------------------ the loop

    /** With a sync at every `syncEvery`-th iteration, at most `count + slack` messages have been put
        since the last one. */
    ghost predicate Paced(slack: nat) reads this, disk {
      0 < syncEvery ==> 0 <= count < syncEvery && |queue| <= |disk.Owed()| + count + slack
    }

    /** The next iteration syncs. */
    predicate SyncDue() reads this { needSync || count + 1 == syncEvery }

    method SyncIfDue()
      requires Layout() && (needSync || Durable())
      modifies this`needSync, this`count, disk`meta, disk`snap, disk`done
      ensures Layout() && Durable() && !needSync
      ensures old(Durable()) ==> old(disk.Owed()) <= disk.Owed()
      ensures old(SyncDue()) ==> disk.Owed() == queue && disk.meta == Some(Meta(depth, read, write))
      ensures old(Paced(1)) ==> Paced(0)
    {
      OwedIsPending();
      hide Laid, Backed;
      count := count + 1;
      if count == syncEvery {
        count := 0;
        needSync := true;
      }
      if needSync {
        Sync();
      }
    }

    lemma OwedIsPending()
      ensures Durable() ==> disk.Owed() <= queue
    {
    }

    /** The pending messages after one pass: the messages of a damaged file are given up. */
    ghost function AfterPass(): seq<Msg> reads this, disk {
      if Unreadable() then AfterFile(maxBytesPerFile, read, queue) else queue
    }

    /** The part of one loop iteration before the select. False means `continue`: a file was
        skipped and the next iteration has to start over. */
    method Iterate() returns (selecting: bool)
      requires Operable()
      modifies this`read, this`write, this`next, this`readFile, this`writeFile, this`needSync,
               this`queue, this`count, this`dataRead,
               disk`files, disk`bad, disk`intact, disk`broken, disk`meta, disk`snap, disk`done
      ensures Operable() && !Missing()
      ensures selecting == old(!Missing() && !Unreadable())
      ensures queue == old(AfterPass()) && depth == old(depth)
      ensures selecting ==> Selecting()
      ensures read == if selecting then old(read) else Cursor(old(read.file) + 1, 0)
      ensures disk.broken == if selecting then old(disk.broken) else old(disk.broken) - {old(read.file)}
      ensures old(Durable() && !Unreadable()) ==> Durable() && old(disk.Owed()) <= disk.Owed()
      ensures old(Clean()) ==> Clean()
      ensures old(SyncDue()) ==> disk.Owed() == old(queue)
      ensures old(Paced(1)) ==> Paced(0)
      ensures disk.bad == if selecting || old(read.file !in disk.files) then old(disk.bad)
                          else old(disk.bad)[old(read.file) := old(disk.files)[old(read.file)]]
    {
      LaidHasData(disk.files, disk.intact, disk.broken, maxBytesPerFile, Head(), queue, write);
      hide Laid, Backed, Step, Agrees, AfterFile;
      SyncIfDue();
      if read.file < write.file || read.pos < write.pos {
        if next.pos == read.pos {
          selecting := ReadAhead();
          return;
        }
      }
      return true;
    }

    /** Reads the head of the queue, or skips the file it should be in. */
    method ReadAhead() returns (ok: bool)
      requires Sound() && Durable() && !needSync && !exitFlag
      requires next.pos == read.pos && (queue != [] || Missing())
      modifies this`read, this`write, this`next, this`readFile, this`writeFile, this`needSync,
               this`queue, this`dataRead, disk`files, disk`bad, disk`intact, disk`broken
      ensures Operable() && !Missing()
      ensures ok == old(!Missing() && !Unreadable())
      ensures queue == old(AfterPass()) && (ok ==> Selecting())
      ensures read == if ok then old(read) else Cursor(old(read.file) + 1, 0)
      ensures disk.broken == if ok then old(disk.broken) else old(disk.broken) - {old(read.file)}
      ensures old(!Unreadable()) ==> Durable()
      ensures old(Clean()) ==> Clean()
      ensures |queue| <= |old(queue)|
      ensures disk.bad == if ok || old(read.file !in disk.files) then old(disk.bad)
                          else old(disk.bad)[old(read.file) := old(disk.files)[old(read.file)]]
    {
      if !Missing() {
        HeadReads();
      }
      hide Laid, Backed, Worn, ReadAt, AfterFile, Agrees;
      var r := ReadOne();
      if r.ReadError? {
        SkipFile();
        return false;
      }
      dataRead := r.data;
      return true;
    }

    /** What follows a failed read of the head. */
    method SkipFile()
      requires Layout() && Durable() && !exitFlag && readFile.None? && (writeFile.Some? ==> writeFile.value == write)
      requires Missing() || (queue != [] && next == read && BrokenAt(disk.broken, read))
      modifies this`read, this`write, this`next, this`writeFile, this`needSync, this`queue,
               disk`files, disk`bad, disk`intact, disk`broken
      ensures Operable() && !Missing() && queue == old(AfterPass())
      ensures read == Cursor(old(read.file) + 1, 0) && disk.broken == old(disk.broken) - {old(read.file)}
      ensures old(Missing()) ==> Durable()
      ensures old(Clean()) ==> Clean()
      ensures disk.bad == if old(read.file !in disk.files) then old(disk.bad)
                          else old(disk.bad)[old(read.file) := old(disk.files)[old(read.file)]]
    {
      BackedUntracked(disk.intact, maxBytesPerFile, disk.meta, disk.snap, disk.done, read, queue, write,
                      !Missing() && !needSync, Cursor(read.file + 1, 0));
      LaidFacts(disk.files, disk.intact, disk.broken, maxBytesPerFile, Head(), queue, write);
      assert read.file !in disk.intact ==> disk.intact - {read.file} == disk.intact;
      hide Laid, Backed, Worn, AfterFile;
      HandleReadError();
    }

    /** A read at the head yields the head, unless its file is damaged there. */
    lemma HeadReads()
      requires Layout() && !Missing() && queue != []
      ensures ReadAt(disk.files, read) == if BrokenAt(disk.broken, read) then ReadError else Read(queue[0])
      ensures Fits(queue[0])
    {
      HeadReadable(disk.files, disk.intact, disk.broken, maxBytesPerFile, read, queue);
      if !BrokenAt(disk.broken, read) {
        FrameIsRead(disk.files, read, queue[0]);
      }
    }

    // ------------------------------------------------------------ the select

    /** The queue holds an offered message, or none is pending. */
    ghost predicate Selecting() reads this, disk {
      Operable() && Durable() && !Missing() && !needSync && (queue != [] ==> Offering())
    }

    /** The branch that sends the message read ahead. It is enabled only while data is pending. */
    method Deliver() returns (data: Msg)
      requires Selecting() && queue != []
      modifies this`read, this`write, this`next, this`depth, this`readFile, this`writeFile, this`queue,
               this`needSync, disk`files, disk`intact, disk`broken, disk`done
      ensures Operable() && Durable() && !Missing()
      ensures [data] + queue == old(queue) && disk.broken == old(disk.broken)
      ensures [data] + Deliverable() == old(Deliverable())
      ensures old(disk.Owed()) == [] || old(disk.Owed())[0] == data
      ensures disk.Owed() == Rest(old(disk.Owed()))
      ensures depth == if queue == [] then 0 else old(depth) - 1
      ensures old(Clean()) ==> Clean()
    {
      OwedIsPending();
      hide Laid, Backed, Agrees, BrokenAt;
      data := dataRead;
      MoveForward();
    }

    method Put(data: Msg) returns (ok: bool)
      requires Sound() && Durable() && !Missing() && Fits(data) && Tame() && write.file !in disk.broken
      modifies this`write, this`writeFile, this`depth, this`needSync, this`queue,
               disk`files, disk`intact, disk`meta, disk`snap, disk`done
      ensures ok == !exitFlag
      ensures Sound() && Durable() && !Missing()
      ensures queue == if ok then old(queue) + [data] else old(queue)
      ensures Deliverable() == if ok then old(Deliverable()) + [data] else old(Deliverable())
      ensures depth == if ok then old(depth) + 1 else old(depth)
      ensures old(disk.Owed()) <= disk.Owed()
      ensures old(Clean()) ==> Clean()
    {
      SurvivingAppend(disk.broken, maxBytesPerFile, read, queue, data);
      hide Laid, Backed, Agrees, Surviving;
      if exitFlag {
        return false;
      }
      WriteOne(data);
      return true;
    }

    /** Empties the queue and forgets the metadata. */
    method Empty() returns (ok: bool)
      requires Sound() && Durable() && !Missing()
      modifies this`read, this`write, this`next, this`depth, this`readFile, this`writeFile, this`queue,
               disk`files, disk`intact, disk`broken, disk`meta, disk`snap, disk`done
      ensures ok == !exitFlag
      ensures Sound() && Durable() && !Missing()
      ensures ok ==> queue == [] && depth == 0 && disk.meta == None
      ensures ok ==> read == next == write == Cursor(old(write.file) + 1, 0)
      ensures !ok ==> queue == old(queue) && depth == old(depth)
      ensures disk.broken.Keys <= old(disk.broken).Keys
      ensures old(Clean()) ==> Clean()
    {
      if exitFlag {
        return false;
      }
      LaidFacts(disk.files, disk.intact, disk.broken, maxBytesPerFile, Head(), queue, write);
      hide Laid, Worn;
      SkipToNextRWFile();
      disk.meta, disk.snap, disk.done := None, [], 0;
      return true;
    }

    /** Stops the loop and persists the cursors. */
    method Close()
      requires Sound()
      modifies this`exitFlag, this`readFile, this`writeFile, this`needSync, disk`meta, disk`snap, disk`done
      ensures exitFlag && Sound() && Durable()
      ensures disk.snap == queue && disk.done == 0
      ensures disk.meta == Some(Meta(depth, read, write))
      ensures old(Durable()) ==> old(disk.Owed()) <= disk.Owed()
    {
      OwedIsPending();
      hide Laid, Backed;
      exitFlag := true;
      readFile, writeFile := None, None;
      Sync();
    }
  }
}
