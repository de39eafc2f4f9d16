/**
 * The write-ahead log of the storage package: a file opened for appending
 * behind a buffered writer. The file is modelled by its bytes, the buffer
 * by the bytes not yet handed to the file, and durability by the length of
 * the prefix the last successful sync covers. Every operating-system call
 * may fail; which one does is left open, except that calls on a closed file
 * always fail.
 */
module StorageWal {
  import opened Wrappers
  import opened Keys
  import opened Errors
  import opened WalFormat

  /** The capacity of the writer's buffer: the default size of a buffered writer. */
  const BufferSize := 4096

  /**
   * Where a successful buffered write of `s` behind the buffered bytes `p`
   * leaves everything: the bytes handed to the file and those left in the
   * buffer. What fits stays buffered; otherwise a non-empty buffer is
   * topped up and written out, and a remainder larger than the whole
   * buffer goes to the file directly.
   */
  function Buffered(p: Bytes, s: Bytes): (r: (Bytes, Bytes))
    requires |p| <= BufferSize
    ensures r.0 + r.1 == p + s && |r.1| <= BufferSize
  {
    if |p| + |s| <= BufferSize then ([], p + s)
    else if p == [] then (s, [])
    else
      var a := BufferSize - |p|;
      if |s| - a <= BufferSize then (p + s[..a], s[a..]) else (p + s, [])
  }

  /** Topping up a non-empty buffer and writing it out leaves the same outcome for the rest. */
  lemma BufferedTopUp(p: Bytes, s: Bytes)
    requires 0 < |p| <= BufferSize && |p| + |s| > BufferSize
    ensures var a := BufferSize - |p|;
      && p + s[..a] + Buffered([], s[a..]).0 == Buffered(p, s).0
      && Buffered([], s[a..]).1 == Buffered(p, s).1
  {
    var a := BufferSize - |p|;
    assert s == s[..a] + s[a..];
  }

  /** `d` lies between `a` and `a + e`, so it is `a` followed by a prefix of `e`. */
  lemma PrefixBetween(a: Bytes, d: Bytes, e: Bytes)
    requires a <= d && d <= a + e
    ensures |a| <= |d| <= |a| + |e| && d == a + e[..|d| - |a|]
  {
    assert d == d[..|a|] + d[|a|..];
  }

  /** A write that stops short of `r`, after `d` already held `d0 + p0` on the way to `d0 + p0 + s`, stays between the two. */
  lemma Progress(d0: Bytes, p0: Bytes, s: Bytes, d: Bytes, r: Bytes, e: Bytes)
    requires d0 <= d && d0 + p0 <= d && d + r == d0 + p0 + s
    requires d <= e <= d + r
    ensures d0 <= e && d0 + p0 <= e && e <= d0 + p0 + s
  {
  }

  /** What fits the free space stays buffered. */
  lemma BufferedFits(p: Bytes, s: Bytes)
    requires |p| + |s| <= BufferSize
    ensures Buffered(p, s) == ([], p + s)
  {
  }

  /** Behind an empty buffer, a string larger than the buffer goes to the file whole. */
  lemma BufferedDirect(s: Bytes)
    requires |s| > BufferSize
    ensures Buffered([], s) == (s, []) && Buffered([], []) == ([], [])
  {
  }

  /** A prefix of `b` is a prefix of `b` followed by anything. */
  lemma PrefixGrows(a: Bytes, b: Bytes, r: Bytes)
    requires a <= b
    ensures a <= b + r
  {
    assert (b + r)[..|b|] == b;
  }

  /** Topping up the buffer `p` with `a` bytes of `r` keeps the text in order. */
  lemma TopUp(p: Bytes, r: Bytes, a: nat)
    requires a <= |r|
    ensures (p + r[..a]) + r[a..] == p + r
  {
    assert r == r[..a] + r[a..];
  }

  class Wal {
    /** The bytes in the file. */
    var data: Bytes
    /** The bytes in the writer's buffer, not yet written to the file. */
    var pending: Bytes
    /** How many leading bytes of the file the last successful sync made durable. */
    var synced: nat
    /** The writer's sticky error: once a write to the file fails, every later write and flush fails. */
    var broken: bool
    /** Whether the file is still open. */
    var open: bool

    /**
     * Between calls the buffer is empty unless a write failed, in which case
     * the bytes it held stay there.
     */
    ghost predicate Valid()
      reads this
    {
      synced <= |data| && |pending| <= BufferSize && (!broken ==> pending == [])
    }

    /** An open file that already holds `existing`, behind an empty buffer. */
    constructor (existing: Bytes)
      ensures Valid() && data == existing && pending == [] && synced == |existing|
      ensures open && !broken
    {
      data := existing;
      pending := [];
      synced := |existing|;
      broken := false;
      open := true;
    }

    /**
     * Validate the key, then append `key:value` and a newline through the
     * buffer, flush it and sync. Nothing is written for an invalid key, and
     * success means the record is in the file and durable.
     */
    method Entry(key: Bytes, value: Bytes) returns (err: Status)
      requires Valid()
      modifies this
      ensures Valid() && open == old(open)
      ensures key == [] ==> err == Some(KeyEmpty) && unchanged(this)
      ensures key != [] && Colon in key ==> err == Some(KeyHasColon) && unchanged(this)
      ensures err.None? ==> data == old(data) + Record(key, value) && pending == [] && synced == |data|
      ensures err.None? ==> old(!broken) && !broken
      ensures key != [] && Colon !in key && old(broken) ==>
        err == Some(Wrapped(WalWrite, IO(Write))) && unchanged(this)
      ensures err.Some? ==> err.value in {KeyEmpty, KeyHasColon, Wrapped(WalWrite, IO(Write)),
                                         Wrapped(WalFlush, IO(Write)), IO(IOStep.Sync)}
      ensures exists j :: 0 <= j <= |Record(key, value)| && data == old(data) + Record(key, value)[..j]
      ensures synced >= old(synced)
    {
      var entry := Record(key, value);
      assert data == old(data) + entry[..0];
      if key == [] {
        return Some(KeyEmpty);
      }
      if Colon in key {
        return Some(KeyHasColon);
      }
      err := WriteString(entry);
      if err.Some? {
        PrefixBetween(old(data), data, entry);
        assert data == old(data) + entry[..|data| - |old(data)|];
        return Some(Wrapped(WalWrite, err.value));
      }
      assert data + pending == old(data) + entry;
      ghost var written := data;
      err := Flush();
      if err.Some? {
        PrefixBetween(old(data), data, entry);
        assert data == old(data) + entry[..|data| - |old(data)|];
        return Some(Wrapped(WalFlush, err.value));
      }
      assert data == old(data) + entry[..|entry|];
      err := Sync();
    }

    /**
     * Rescan the file from its start: the strict decoding of its lines, or
     * an I/O error from the seek or the scanner. The buffer is not read, and
     * nothing changes.
     */
    method Read() returns (r: Result<map<Bytes, Bytes>, Error>)
      requires Valid()
      ensures r.Success? || r.error.BadLine? ==> r == Decode(Lines(data))
      ensures r.Failure? && !r.error.BadLine? ==>
        r.error == Wrapped(WalSeek, IO(Seek)) || r.error == Wrapped(WalScan, IO(Scan))
      ensures !open ==> r == Failure(Wrapped(WalSeek, IO(Seek)))
    {
      var seekOk: bool :| open || !seekOk;
      if !seekOk {
        return Failure(Wrapped(WalSeek, IO(Seek)));
      }
      var ls := Lines(data);
      // The scanner delivers the lines up to `stop`, then either reaches the
      // end of the file or reports a read error.
      var readErr: bool :| true;
      var stop: nat :| stop <= |ls| && (!readErr ==> stop == |ls|);
      var entries: map<Bytes, Bytes> := map[];
      var lineNum := 0;
      while lineNum < stop
        invariant 0 <= lineNum <= stop
        invariant forall j :: 0 <= j < lineNum ==> WellformedLine(ls[j])
        invariant entries == LastWins(Parsed(ls[..lineNum]))
      {
        var line := ls[lineNum];
        lineNum := lineNum + 1;
        var parts := Split(line, Colon);
        if |parts| != 2 {
          FirstBadAt(ls, lineNum - 1);
          DecodeAt(ls, lineNum - 1);
          return Failure(BadLine(lineNum));
        }
        ParsedSnoc(ls, lineNum - 1);
        entries := entries[parts[0] := parts[1]];
      }
      if readErr {
        return Failure(Wrapped(WalScan, IO(Scan)));
      }
      assert ls[..lineNum] == ls;
      DecodeAll(ls);
      return Success(entries);
    }

    /** Flush the buffer, then sync, then close the file; the first failure is returned and stops the rest. */
    method Close() returns (err: Status)
      requires Valid()
      modifies this
      ensures Valid()
      ensures err.None? ==> old(!broken) && pending == [] && synced == |data| && data == old(data) && !open
      ensures old(broken) ==> err == Some(Wrapped(WalFlush, IO(Write))) && unchanged(this)
      ensures old(!open) ==> err.Some? && data == old(data)
      ensures err.Some? ==> err.value in {Wrapped(WalFlush, IO(Write)), Wrapped(WalSync, IO(IOStep.Sync)), IO(CloseFile)}
    {
      err := Flush();
      if err.Some? {
        return Some(Wrapped(WalFlush, err.value));
      }
      err := Sync();
      if err.Some? {
        return Some(Wrapped(WalSync, err.value));
      }
      var closeOk: bool :| open || !closeOk;
      open := false;
      if !closeOk {
        return Some(IO(CloseFile));
      }
      return None;
    }

    /**
     * The buffered writer's WriteString: after a failure every call fails.
     * Otherwise, while the rest does not fit the free space, an empty
     * buffer hands the rest to the file at once, and a non-empty one is
     * topped up and flushed; what is left then joins the buffer. A failed
     * write to the file leaves the bytes not written behind and makes the
     * failure sticky.
     */
    method WriteString(s: Bytes) returns (err: Status)
      requires synced <= |data| && |pending| <= BufferSize
      modifies this
      ensures synced <= |data| && synced == old(synced) && open == old(open) && |pending| <= BufferSize
      ensures old(broken) ==> err == Some(IO(Write)) && unchanged(this)
      ensures err.None? ==>
        && old(!broken) && !broken
        && data == old(data) + Buffered(old(pending), s).0 && pending == Buffered(old(pending), s).1
      ensures !old(broken) && |old(pending)| + |s| <= BufferSize ==> err.None?
      ensures !old(broken) && !old(open) && |old(pending)| + |s| > BufferSize ==> err.Some?
      ensures err.Some? ==> err == Some(IO(Write)) && broken
      ensures old(data) <= data && old(data) + old(pending) <= data + pending <= old(data) + old(pending) + s
    {
      if broken {
        return Some(IO(Write));
      }
      var rest;
      rest, err := Drain(s);
      if err.Some? {
        return;
      }
      ghost var start, d, p := old(data) + old(pending), data, pending;
      BufferedFits(p, rest);
      pending := pending + rest;
      assert d + pending == old(data) + old(pending) + s;
      PrefixGrows(start, d + p, rest);
    }

    /**
     * WriteString's loop: hand bytes on until the rest of `s` fits the free
     * space of the buffer, and return that rest.
     */
    method Drain(s: Bytes) returns (rest: Bytes, err: Status)
      requires synced <= |data| && |pending| <= BufferSize && !broken
      modifies this
      ensures synced <= |data| && synced == old(synced) && open == old(open) && |pending| <= BufferSize
      ensures old(data) <= data && old(data) + old(pending) <= data + pending
      ensures err.None? ==>
        && !broken && |pending| + |rest| <= BufferSize
        && data + pending + rest == old(data) + old(pending) + s
        && data + Buffered(pending, rest).0 == old(data) + Buffered(old(pending), s).0
        && Buffered(pending, rest).1 == Buffered(old(pending), s).1
      ensures |old(pending)| + |s| <= BufferSize ==> err.None?
      ensures !old(open) && |old(pending)| + |s| > BufferSize ==> err.Some?
      ensures err.Some? ==> err == Some(IO(Write)) && broken && data + pending <= old(data) + old(pending) + s
    {
      rest := s;
      err := None;
      while |rest| > BufferSize - |pending|
        invariant synced <= |data| && synced == old(synced) && open == old(open) && |pending| <= BufferSize && !broken
        invariant old(data) <= data && old(data) + old(pending) <= data + pending
        invariant data + pending + rest == old(data) + old(pending) + s
        invariant data + Buffered(pending, rest).0 == old(data) + Buffered(old(pending), s).0
        invariant Buffered(pending, rest).1 == Buffered(old(pending), s).1
        invariant !open ==> data == old(data) && pending == old(pending) && rest == s
        invariant err.None?
        decreases |rest|, |pending|
      {
        ghost var d0, p0, r0 := data, pending, rest;
        rest, err := Spill(rest);
        if err.Some? {
          Progress(old(data), old(pending), s, d0 + p0, r0, data + pending);
          return;
        }
        assert data + Buffered(pending, rest).0 == old(data) + Buffered(old(pending), s).0 by {
          assert data + Buffered(pending, rest).0 == d0 + Buffered(p0, r0).0;
        }
      }
    }

    /**
     * One round of WriteString's loop on `rest`, which does not fit the free
     * space: an empty buffer hands all of it to the file, a non-empty one is
     * topped up from it and flushed. `remaining` is what is left to write.
     */
    method Spill(rest: Bytes) returns (remaining: Bytes, err: Status)
      requires synced <= |data| && |pending| <= BufferSize && !broken && |rest| > BufferSize - |pending|
      modifies this
      ensures synced <= |data| && synced == old(synced) && open == old(open) && |pending| <= BufferSize
      ensures old(data) <= data
      ensures err.None? ==>
        && !broken && old(data) + old(pending) <= data + pending
        && data + pending + remaining == old(data) + old(pending) + rest
        && data + Buffered(pending, remaining).0 == old(data) + Buffered(old(pending), rest).0
        && Buffered(pending, remaining).1 == Buffered(old(pending), rest).1
        && (|remaining| < |rest| || (|remaining| == |rest| && |pending| < |old(pending)|))
      ensures err.Some? ==>
        && err == Some(IO(Write)) && broken
        && old(data) + old(pending) <= data + pending <= old(data) + old(pending) + rest
      ensures !open ==> err.Some?
    {
      if pending == [] {
        BufferedDirect(rest);
        err := WriteFile(rest);
        return [], err;
      }
      var a := BufferSize - |pending|;
      BufferedTopUp(pending, rest);
      TopUp(pending, rest, a);
      remaining, err := TopUpFlush(rest);
      assert data + pending + remaining == old(data) + ((old(pending) + rest[..a]) + remaining);
      if err.None? {
        assert data == old(data) + (old(pending) + rest[..a]);
        assert data + Buffered([], remaining).0 == old(data) + (old(pending) + rest[..a] + Buffered([], remaining).0);
      }
      PrefixGrows(old(data) + old(pending), old(data) + old(pending), rest[..a]);
      PrefixGrows(data + pending, data + pending, remaining);
    }

    /** Top up a non-empty buffer from `rest` and flush it; the bytes not taken are returned. */
    method TopUpFlush(rest: Bytes) returns (remaining: Bytes, err: Status)
      requires synced <= |data| && 0 < |pending| <= BufferSize && !broken && |rest| > BufferSize - |pending|
      modifies this
      ensures synced <= |data| && synced == old(synced) && open == old(open) && |pending| <= BufferSize
      ensures remaining == rest[BufferSize - |old(pending)|..]
      ensures old(data) <= data && data + pending == old(data) + (old(pending) + rest[..BufferSize - |old(pending)|])
      ensures err.None? ==> !broken && pending == []
      ensures err.Some? ==> err == Some(IO(Write)) && broken
      ensures !open ==> err.Some?
    {
      var a := BufferSize - |pending|;
      pending := pending + rest[..a];
      remaining := rest[a..];
      err := Flush();
    }

    /** The file's WriteString: on a failure only some of the bytes reach the file; it fails on a closed file. */
    method WriteFile(b: Bytes) returns (err: Status)
      requires synced <= |data|
      modifies this
      ensures synced <= |data| && pending == old(pending) && synced == old(synced) && open == old(open)
      ensures err.None? ==> data == old(data) + b && broken == old(broken)
      ensures err.Some? ==> err == Some(IO(Write)) && broken && old(data) <= data <= old(data) + b
      ensures !open ==> err.Some?
    {
      var ok: bool :| open || !ok;
      if ok {
        data := data + b;
        return None;
      }
      var n: nat :| n <= |b|;
      data := data + b[..n];
      broken := true;
      return Some(IO(Write));
    }

    /**
     * The buffered writer's Flush: after a failure it fails again; an empty
     * buffer succeeds without touching the file; otherwise the buffer goes to
     * the file, and on a failed write the part not written stays buffered.
     */
    method Flush() returns (err: Status)
      requires synced <= |data|
      modifies this
      ensures synced <= |data| && synced == old(synced) && open == old(open)
      ensures old(broken) ==> err == Some(IO(Write)) && unchanged(this)
      ensures err.None? ==> old(!broken) && !broken && pending == [] && data == old(data) + old(pending)
      ensures !old(broken) && old(pending) == [] ==> err.None?
      ensures !old(broken) && err.Some? ==>
        && err == Some(IO(Write)) && broken
        && exists j :: 0 <= j <= |old(pending)| && data == old(data) + old(pending)[..j] && pending == old(pending)[j..]
      ensures !old(broken) && !old(open) && old(pending) != [] ==> err.Some?
      ensures old(data) <= data && data + pending == old(data) + old(pending)
    {
      if broken {
        return Some(IO(Write));
      }
      if pending == [] {
        return None;
      }
      var ok: bool :| open || !ok;
      if ok {
        data := data + pending;
        pending := [];
        return None;
      }
      var j: nat :| j <= |pending|;
      assert pending == pending[..j] + pending[j..];
      data := data + pending[..j];
      pending := pending[j..];
      broken := true;
      return Some(IO(Write));
    }

    /** File.Sync: on success everything in the file is durable; it fails on a closed file. */
    method Sync() returns (err: Status)
      requires synced <= |data|
      modifies this
      ensures synced <= |data| && data == old(data) && pending == old(pending) && broken == old(broken) && open == old(open)
      ensures err.None? ==> synced == |data|
      ensures err.Some? ==> err == Some(IO(IOStep.Sync)) && synced == old(synced)
      ensures !open ==> err.Some?
    {
      var ok: bool :| open || !ok;
      if ok {
        synced := |data|;
        return None;
      }
      return Some(IO(IOStep.Sync));
    }
  }

  /**
   * What the directory part of a path names. Opening a path with O_CREATE
   * makes the file only when its directory exists as a directory.
   */
  datatype PathKind = Directory | RegularFile | Missing

  /**
   * InitWal: open (or create) the log file, which holds `existing`, in a
   * directory of kind `dir`; the open may fail, and always does when `dir`
   * is not a directory.
   */
  method InitWal(dir: PathKind, existing: Bytes) returns (w: Wal?, err: Status)
    ensures err.None? <==> w != null
    ensures w != null ==> fresh(w) && w.Valid() && w.data == existing && w.pending == [] && w.open && !w.broken
    ensures err.Some? ==> err == Some(Wrapped(WalOpen, IO(OpenFile)))
    ensures dir != Directory ==> w == null
  {
    var ok: bool :| dir == Directory || !ok;
    if !ok {
      return null, Some(Wrapped(WalOpen, IO(OpenFile)));
    }
    w := new Wal(existing);
    return w, None;
  }

  /** The pairs of one more line extend the parsed prefix by that line's pair. */
  lemma ParsedSnoc(ls: seq<Bytes>, n: nat)
    requires n < |ls| && forall j :: 0 <= j <= n ==> WellformedLine(ls[j])
    ensures Parsed(ls[..n + 1]) == Parsed(ls[..n]) + [LineEntry(ls[n])]
    ensures LastWins(Parsed(ls[..n + 1])) == LastWins(Parsed(ls[..n]))[Split(ls[n], Colon)[0] := Split(ls[n], Colon)[1]]
  {
    assert Parsed(ls[..n + 1])[..n] == Parsed(ls[..n]);
  }
}
