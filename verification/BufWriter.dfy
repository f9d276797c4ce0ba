/** The buffered writer in front of a connection. */
module BufWriters {
  import opened DiskLayout

  /** The far side of the connection, under the contract of io.Writer: a write may stop anywhere
      and may fail, but it never stops short without an error. */
  class Sink {
    var sent: seq<byte>

    constructor ()
      ensures sent == []
    {
      sent := [];
    }

    method Write(p: seq<byte>) returns (n: nat, err: bool)
      modifies this
      ensures n <= |p| && (n < |p| ==> err)
      ensures sent == old(sent) + p[..n]
    {
      n :| 0 <= n <= |p|;
      err := *;
      if n < |p| {
        err := true;
      }
      sent := sent + p[..n];
    }
  }

  class Writer {
    const wr: Sink
    const buf: array<byte>
    var n: nat                        // how much of buf is in use
    var err: bool                     // an error has occurred; it sticks
    ghost var accepted: seq<byte>     // what callers were told has been taken

    ghost predicate Valid() reads this, buf, wr {
      0 < buf.Length && n <= buf.Length &&
      accepted == wr.sent + buf[..n]
    }

    constructor (wr: Sink, size: nat)
      requires 0 < size
      ensures Valid() && fresh(buf) && this.wr == wr
      ensures buf.Length == size && n == 0 && !err && accepted == wr.sent
    {
      this.wr := wr;
      buf := new byte[size](_ => 0);
      n, err := 0, false;
      accepted := wr.sent;
    }

    function Available(): nat reads this requires n <= buf.Length { buf.Length - n }

    /** Moves what follows the first `k` bytes to the front of the buffer. */
    method Discard(k: nat)
      requires k <= n <= buf.Length
      modifies this`n, buf
      ensures n == old(n) - k && buf[..n] == old(buf[k..n])
    {
      if 0 < k < n {
        forall i | 0 <= i < n - k {
          buf[i] := buf[k + i];
        }
      }
      n := n - k;
    }

    method Flush() returns (e: bool)
      requires Valid()
      modifies this`n, this`err, buf, wr
      ensures Valid() && e == err
      ensures !e ==> n == 0 && wr.sent == accepted
      ensures old(err) ==> e && n == old(n) && wr.sent == old(wr.sent)
      ensures old(wr.sent) <= wr.sent
    {
      if err {
        return true;
      }
      if n == 0 {
        return false;
      }
      var k;
      k, e := wr.Write(buf[..n]);
      if k < n && !e {
        e := true;
      }
      if e {
        assert buf[..n] == buf[..k] + buf[k..n];
        Discard(k);
        err := true;
        return;
      }
      n := 0;
    }

    /** Copies as much of `p` as fits. */
    method Fill(p: seq<byte>) returns (k: nat)
      requires Valid()
      modifies this`n, this`accepted, buf
      ensures Valid() && k == (if |p| < old(Available()) then |p| else old(Available()))
      ensures n == old(n) + k && accepted == old(accepted) + p[..k]
    {
      k := if |p| < Available() then |p| else Available();
      ghost var was := buf[..n];
      forall i | 0 <= i < k {
        buf[n + i] := p[i];
      }
      n := n + k;
      accepted := accepted + p[..k];
      assert buf[..n] == was + p[..k];
    }

    /** Makes room for `p`, which does not fit: writes it through an empty buffer, or fills the
        buffer and flushes it. */
    method Overflow(p: seq<byte>) returns (k: nat)
      requires Valid() && !err && |p| > Available()
      modifies this`n, this`err, this`accepted, buf, wr
      ensures Valid() && k <= |p| && accepted == old(accepted) + p[..k]
      ensures old(wr.sent) <= wr.sent
      ensures err || k > 0 || n < old(n)
    {
      if n == 0 {
        k, err := wr.Write(p);
        accepted := accepted + p[..k];
      } else {
        k := Fill(p);
        var ignored := Flush();
      }
    }

    /** Accepts `p`, or the part of it that came before an error. */
    method Write(p: seq<byte>) returns (nn: nat, e: bool)
      requires Valid()
      modifies this`n, this`err, this`accepted, buf, wr
      ensures Valid() && e == err
      ensures nn <= |p| && accepted == old(accepted) + p[..nn]
      ensures nn < |p| ==> e
      ensures old(err) ==> nn == 0 && wr.sent == old(wr.sent)
      ensures old(wr.sent) <= wr.sent
      ensures |p| <= old(Available()) && !old(err) ==> !e && n == old(n) + |p| && wr.sent == old(wr.sent)
    {
      nn := 0;
      var rest := p;
      while |rest| > Available() && !err
        invariant Valid()
        invariant nn <= |p| && rest == p[nn..] && accepted == old(accepted) + p[..nn]
        invariant old(err) ==> err && nn == 0 && wr.sent == old(wr.sent)
        invariant old(wr.sent) <= wr.sent
        invariant |p| <= old(Available()) && !old(err) ==> nn == 0 && !err && n == old(n) && wr.sent == old(wr.sent)
        decreases !err, |rest|, n
      {
        var k := Overflow(rest);
        assert p[..nn] + rest[..k] == p[..nn + k];
        nn := nn + k;
        rest := rest[k..];
      }
      if err {
        return nn, true;
      }
      var k := Fill(rest);
      assert p[..nn] + rest[..k] == p[..nn + k] == p;
      nn := nn + k;
      e := false;
    }
  }
}
