/**
 * The memtable of the storage package: a skip list indexed in memory and
 * backed by its own write-ahead log. A write goes to the log first and to
 * the index only once the log has it; a size bound on the bytes written
 * refuses writes that would exceed it.
 */
module StorageMemtable {
  import opened Wrappers
  import opened Keys
  import opened Errors
  import opened Ordered
  import opened WalFormat
  import opened StorageWal
  import opened StorageSkipList

  /** The size bound InitMemtable uses when given none: 32 MiB. */
  const DefaultMaxSize: int := 32 * 1024 * 1024

  class Memtable {
    const wal: Wal
    const data: SkipList
    /** The key and value bytes of the successful Sets so far. */
    var size: int
    const maxSize: int
    var closed: bool

    /** The objects a memtable owns. */
    ghost function Repr(): set<object>
    {
      {this, wal, data}
    }

    ghost predicate Valid()
      reads Repr()
    {
      wal.Valid() && data.Valid() && 0 <= size <= maxSize
    }

    constructor (wal: Wal, data: SkipList, maxSize: int)
      requires wal.Valid() && data.Valid() && 0 <= maxSize
      ensures Valid() && this.wal == wal && this.data == data && this.maxSize == maxSize
      ensures size == 0 && !closed
    {
      this.wal := wal;
      this.data := data;
      this.maxSize := maxSize;
      size := 0;
      closed := false;
    }

    /**
     * Refuse a write to a closed or full memtable, then log `(key, value)`
     * and only then index it; a failed log write leaves index and size alone.
     */
    method Set(key: Bytes, value: Bytes) returns (err: Status)
      requires Valid()
      modifies Repr()
      ensures Valid() && closed == old(closed)
      ensures closed ==> err == Some(MemtableClosed) && unchanged(Repr())
      ensures !closed && old(size) + |key| + |value| > maxSize ==> err == Some(MemtableFull) && unchanged(Repr())
      ensures err.Some? ==> data.Contents() == old(data.Contents()) && size == old(size)
      ensures err.Some? && err.value.Wrapped? ==> err.value.context == MemtableWrite
      ensures (err == Some(MemtableClosed)) == closed
      ensures (err == Some(MemtableFull)) == (!closed && old(size) + |key| + |value| > maxSize)
      ensures err.Some? ==> err.value in {MemtableClosed, MemtableFull} || err.value.Wrapped?
      ensures err.None? ==>
        && data.Contents() == Insert(old(data.Contents()), key, value)
        && size == old(size) + |key| + |value|
        && wal.data == old(wal.data) + Record(key, value)
      ensures exists j :: 0 <= j <= |Record(key, value)| && wal.data == old(wal.data) + Record(key, value)[..j]
      ensures !closed && old(size) + |key| + |value| <= maxSize && (key == [] || Colon in key) ==>
        err == Some(Wrapped(MemtableWrite, if key == [] then KeyEmpty else KeyHasColon)) && unchanged(Repr())
    {
      assert wal.data == old(wal.data) + Record(key, value)[..0];
      if closed {
        return Some(MemtableClosed);
      }
      var newSize := size + |key| + |value|;
      if newSize > maxSize {
        return Some(MemtableFull);
      }
      err := wal.Entry(key, value);
      if err.Some? {
        return Some(Wrapped(MemtableWrite, err.value));
      }
      var _ := data.Put(key, value);
      size := newSize;
    }

    /** A miss on a closed memtable; otherwise the skip list's answer. */
    method Get(key: Bytes) returns (value: Bytes, found: bool)
      requires Valid()
      ensures found == (!closed && Find(data.Contents(), key).Some?)
      ensures value == if found then Find(data.Contents(), key).value else []
    {
      if closed {
        return [], false;
      }
      value, found := data.Get(key);
    }

    /** A tombstone is the empty value: Delete is Set with it. */
    method Delete(key: Bytes) returns (err: Status)
      requires Valid()
      modifies Repr()
      ensures Valid() && closed == old(closed)
      ensures closed ==> err == Some(MemtableClosed) && unchanged(Repr())
      ensures !closed && old(size) + |key| > maxSize ==> err == Some(MemtableFull) && unchanged(Repr())
      ensures err.Some? ==> data.Contents() == old(data.Contents()) && size == old(size)
      ensures err.None? ==> data.Contents() == Insert(old(data.Contents()), key, []) && size == old(size) + |key|
      ensures err.None? ==> wal.data == old(wal.data) + Record(key, [])
      ensures !closed && old(size) + |key| <= maxSize && (key == [] || Colon in key) ==>
        err == Some(Wrapped(MemtableWrite, if key == [] then KeyEmpty else KeyHasColon)) && unchanged(Repr())
      ensures exists j :: 0 <= j <= |Record(key, [])| && wal.data == old(wal.data) + Record(key, [])[..j]
    {
      err := Set(key, []);
    }

    /** The first Close marks the memtable closed and closes its log; later ones do nothing. */
    method Close() returns (err: Status)
      requires Valid()
      modifies Repr()
      ensures Valid() && closed
      ensures old(closed) ==> err.None? && unchanged(Repr())
      ensures data.Contents() == old(data.Contents()) && size == old(size)
      ensures !old(closed) && err.Some? ==> err.value in {Wrapped(WalFlush, IO(Write)), Wrapped(WalSync, IO(IOStep.Sync)), IO(CloseFile)}
      ensures !old(closed) && err.None? ==>
        !wal.open && wal.pending == [] && wal.synced == |wal.data| && wal.data == old(wal.data)
      ensures !old(closed) && old(wal.broken) ==> err == Some(Wrapped(WalFlush, IO(Write))) && unchanged(wal)
      ensures !old(closed) && !old(wal.open) ==> err.Some? && wal.data == old(wal.data)
    {
      if closed {
        return None;
      }
      closed := true;
      err := wal.Close();
    }

    /** The bytes written so far, never above the bound. */
    function Size(): (n: int)
      reads Repr()
      requires Valid()
      ensures 0 <= n <= maxSize
    {
      size
    }
  }

  /**
   * Open a new log holding `existing` under `dir` and replay what it decodes
   * to into a fresh skip list, one key at a time in no particular order. A
   * log that does not decode makes it fail and close the log again. The size
   * counts only later writes.
   */
  method InitMemtable(dir: PathKind, existing: Bytes, maxSize: int) returns (m: Memtable?, err: Status)
    ensures err.None? <==> m != null
    ensures dir != Directory ==> err == Some(Wrapped(MemtableInitWal, Wrapped(WalOpen, IO(OpenFile))))
    ensures m != null ==>
      && fresh(m.Repr()) && m.Valid() && !m.closed && m.size == 0
      && m.maxSize == (if maxSize <= 0 then DefaultMaxSize else maxSize)
      && m.wal.data == existing && m.wal.open
      && Decode(Lines(existing)).Success?
      && Represents(m.data.Contents(), Decode(Lines(existing)).value)
    ensures Decode(Lines(existing)).Failure? ==> m == null
    ensures err.Some? ==> err.value.Wrapped? && err.value.context in {MemtableInitWal, MemtableRecover}
  {
    var maxSize' := if maxSize <= 0 then DefaultMaxSize else maxSize;
    var wal, werr := InitWal(dir, existing);
    if werr.Some? {
      return null, Some(Wrapped(MemtableInitWal, werr.value));
    }
    var entries := wal.Read();
    if entries.Failure? {
      var _ := wal.Close();
      return null, Some(Wrapped(MemtableRecover, entries.error));
    }
    var skl := Replay(entries.value);
    m := new Memtable(wal, skl, maxSize');
    return m, None;
  }

  /** A fresh skip list holding the decoded log: each key put once, in no particular order. */
  method Replay(entries: map<Bytes, Bytes>) returns (skl: SkipList)
    ensures fresh(skl) && skl.Valid() && Represents(skl.Contents(), entries)
  {
    skl := new SkipList.InitSL(0.5, 16);
    var keys := entries.Keys;
    ghost var replayed: map<Bytes, Bytes> := map[];
    while keys != {}
      invariant keys <= entries.Keys
      invariant replayed.Keys == entries.Keys - keys
      invariant forall k :: k in replayed ==> replayed[k] == entries[k]
      invariant fresh(skl) && skl.Valid() && Represents(skl.Contents(), replayed)
      decreases |keys|
    {
      var k :| k in keys;
      ghost var c := skl.Contents();
      var _ := skl.Put(k, entries[k]);
      if k == [] {
        RepresentsEmptyKey(c, replayed, entries[k]);
      } else {
        RepresentsInsert(c, replayed, k, entries[k]);
      }
      replayed := replayed[k := entries[k]];
      keys := keys - {k};
    }
    assert replayed == entries;
  }
}
