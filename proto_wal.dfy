/**
 * The prototype write-ahead log of the wal package: a file written directly,
 * without a buffer and without checking keys or values, and read back
 * leniently from the file's current offset. NewWal opens the file for
 * writing only, so reading a log it opened fails.
 */
module ProtoWal {
  import opened Wrappers
  import opened Keys
  import opened Errors
  import opened WalFormat

  class Wal {
    /** The bytes in the file. */
    var data: Bytes
    /** The file offset reads start from; appends move it to the end of the file. */
    var offset: nat
    /** How many leading bytes of the file the last successful sync made durable. */
    var synced: nat
    /** Whether the file was opened for reading. */
    var readable: bool

    ghost predicate Valid()
      reads this
    {
      offset <= |data| && synced <= |data|
    }

    /** A file that already holds `existing`, opened for appending, write-only, at offset 0. */
    constructor WriteOnly(existing: Bytes)
      ensures Valid() && data == existing && offset == 0 && synced == |existing| && !readable
    {
      data := existing;
      offset := 0;
      synced := |existing|;
      readable := false;
    }

    /**
     * Append `key:value` and a newline, whatever the key and value hold,
     * then sync. A failed write may leave part of the record in the file.
     */
    method Entry(key: Bytes, value: Bytes) returns (err: Status)
      requires Valid()
      modifies this
      ensures Valid() && readable == old(readable)
      ensures err.None? ==> data == old(data) + Record(key, value) && synced == |data| && offset == |data|
      ensures err.Some? ==> err == Some(IO(Write)) || err == Some(IO(IOStep.Sync))
      ensures err == Some(IO(IOStep.Sync)) ==> data == old(data) + Record(key, value) && synced == old(synced)
      ensures err == Some(IO(Write)) ==>
        synced == old(synced) && exists j :: 0 <= j < |Record(key, value)| && data == old(data) + Record(key, value)[..j]
    {
      var entry := Record(key, value);
      var ok: bool :| true;
      if !ok {
        var j: nat :| j < |entry|;
        data := data + entry[..j];
        offset := |data|;
        return Some(IO(Write));
      }
      data := data + entry;
      offset := |data|;
      var synced' := Sync();
      if !synced' {
        return Some(IO(IOStep.Sync));
      }
      return None;
    }

    /**
     * Scan the lines from the current offset and keep the pairs of the
     * well-formed ones, later lines winning; a read error discards the table.
     * A write-only file fails on its first read.
     */
    method Read() returns (r: Result<map<Bytes, Bytes>, Error>)
      requires Valid()
      modifies this
      ensures Valid() && data == old(data) && synced == old(synced) && readable == old(readable)
      ensures r.Success? ==> r.value == DecodeLenient(Lines(data[old(offset)..])) && offset == |data|
      ensures r.Failure? ==> r.error == IO(Scan)
      ensures !readable ==> r.Failure? && offset == old(offset)
    {
      if !readable {
        return Failure(IO(Scan));
      }
      var ls := Lines(data[offset..]);
      var readErr: bool :| true;
      var stop: nat :| stop <= |ls| && (!readErr ==> stop == |ls|);
      var entries: map<Bytes, Bytes> := map[];
      var i := 0;
      while i < stop
        invariant 0 <= i <= stop
        invariant entries == LastWins(Kept(ls[..i]))
        invariant unchanged(this)
      {
        var parts := Split(ls[i], Colon);
        KeptSnoc(ls, i);
        if |parts| == 2 {
          LastWinsSnoc(Kept(ls[..i]), LineEntry(ls[i]));
          entries := entries[parts[0] := parts[1]];
        } else {
          assert Kept(ls[..i + 1]) == Kept(ls[..i]);
        }
        i := i + 1;
      }
      if readErr {
        var o: nat :| offset <= o <= |data|;
        offset := o;
        return Failure(IO(Scan));
      }
      assert ls[..i] == ls;
      offset := |data|;
      return Success(entries);
    }

    /** File.Sync: true when everything in the file is now durable. */
    method Sync() returns (ok: bool)
      requires Valid()
      modifies this
      ensures Valid() && data == old(data) && offset == old(offset) && readable == old(readable)
      ensures synced == if ok then |data| else old(synced)
    {
      ok :| true;
      if ok {
        synced := |data|;
      }
    }
  }

  /** NewWal: open the file, which holds `existing`, for appending and writing only; the open may fail. */
  method NewWal(existing: Bytes) returns (w: Wal?, err: Status)
    ensures err.None? <==> w != null
    ensures w != null ==> fresh(w) && w.Valid() && w.data == existing && w.offset == 0 && w.synced == |existing| && !w.readable
    ensures err.Some? ==> err == Some(IO(OpenFile))
  {
    var ok: bool :| true;
    if !ok {
      return null, Some(IO(OpenFile));
    }
    w := new Wal.WriteOnly(existing);
    return w, None;
  }

  /** Kept of one more line adds that line's pair when it is well formed. */
  lemma KeptSnoc(ls: seq<Bytes>, i: nat)
    requires i < |ls|
    ensures Kept(ls[..i + 1]) == Kept(ls[..i]) + if WellformedLine(ls[i]) then [LineEntry(ls[i])] else []
  {
    assert ls[..i + 1][..i] == ls[..i];
  }
}
