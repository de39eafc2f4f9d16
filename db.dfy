/**
 * The database of the storage package: one current memtable that takes the
 * writes and a list of immutable ones, oldest first, waiting to be flushed.
 * A write that finds the current table full replaces it by a fresh one and
 * tries once more. Opening a database recovers one immutable table from
 * each log file found; the logs' contents and the outcome of every
 * directory operation are parameters of the model.
 */
module StorageDB {
  import opened Wrappers
  import opened Keys
  import opened Errors
  import opened Ordered
  import opened WalFormat
  import opened StorageWal
  import opened StorageMemtable
  import opened Layers

  /** No two tables of `ts` share an object. */
  ghost predicate Separate(ts: seq<Memtable>)
  {
    forall i, j :: 0 <= i < j < |ts| ==> ts[i].Repr() !! ts[j].Repr()
  }

  /** The size bound every memtable of a database gets from its options. */
  function TableBound(memtableSize: int): (n: int)
    ensures n > 0
    ensures memtableSize > 0 ==> n == memtableSize
  {
    if memtableSize <= 0 then DefaultMaxSize else memtableSize
  }

  /**
   * A table as a database holds it: valid, bounded as the options say, open
   * while the database is, and holding the entries of its layer.
   */
  ghost predicate Held(t: Memtable, layer: seq<Entry>, bound: int, dbClosed: bool)
    reads t.Repr()
  {
    t.Valid() && t.maxSize == bound && (!dbClosed ==> !t.closed) && t.data.Contents() == layer
  }

  /** The tables `ts` with their layers `ls`: each held and owned within `R`, and no two sharing an object. */
  ghost predicate Owns(ts: seq<Memtable>, ls: seq<seq<Entry>>, R: set<object>, bound: int, dbClosed: bool)
    reads R
  {
    && |ts| == |ls|
    && (forall i :: 0 <= i < |ts| ==> ts[i].Repr() <= R)
    && (forall i :: 0 <= i < |ts| ==> Held(ts[i], ls[i], bound, dbClosed))
    && Separate(ts)
  }

  /** A further table that shares nothing with the others joins them at the end. */
  lemma OwnsSnoc(ts: seq<Memtable>, ls: seq<seq<Entry>>, R: set<object>, bound: int, dbClosed: bool,
                 t: Memtable, l: seq<Entry>)
    requires Owns(ts, ls, R, bound, dbClosed) && t.Repr() !! R && Held(t, l, bound, dbClosed)
    ensures Owns(ts + [t], ls + [l], R + t.Repr(), bound, dbClosed)
  {
    var ts', ls' := ts + [t], ls + [l];
    assert forall i :: 0 <= i < |ts| ==> ts'[i] == ts[i] && ls'[i] == ls[i];
    assert forall i :: 0 <= i < |ts| ==> ts'[i].Repr() !! t.Repr();
  }

  /** Tables held by an open database are held by a closed one. */
  lemma OwnsClosing(ts: seq<Memtable>, ls: seq<seq<Entry>>, R: set<object>, bound: int)
    requires Owns(ts, ls, R, bound, false)
    ensures Owns(ts, ls, R, bound, true)
  {
  }

  /** The state of the log of `t`. */
  ghost function LogOf(t: Memtable): (bool, Bytes, nat, Bytes, bool)
    reads t.wal
  {
    (t.wal.open, t.wal.data, t.wal.synced, t.wal.pending, t.wal.broken)
  }

  /** The log of `t` is flushed, synced to its end and closed. */
  ghost predicate LogClosed(t: Memtable)
    reads t.wal
  {
    !t.wal.open && t.wal.pending == [] && t.wal.synced == |t.wal.data|
  }

  /** The errors a memtable's Close returns. */
  ghost predicate CloseFailure(e: Error)
  {
    e in {Wrapped(WalFlush, IO(Write)), Wrapped(WalSync, IO(IOStep.Sync)), IO(CloseFile)}
  }

  class DB {
    const name: Bytes
    /** The memtable size of the options. */
    const memtableSize: int
    var current: Memtable?
    /** The tables replaced so far, oldest first. */
    var immutable: seq<Memtable>
    var closed: bool
    /** The entries of every table, oldest first: the immutable ones, then the current one. */
    ghost var layers: seq<seq<Entry>>
    ghost var Repr: set<object>

    /** Every table, oldest first. */
    ghost function Tables(): seq<Memtable>
      reads this
    {
      immutable + if current == null then [] else [current]
    }

    /** The shape a database has from its creation on; only before the first rotation is there no current table. */
    ghost predicate Inv()
      reads this, Repr
    {
      this in Repr && Owns(Tables(), layers, Repr - {this}, TableBound(memtableSize), closed)
    }

    ghost predicate Valid()
      reads this, Repr
    {
      Inv() && current != null
    }

    /** Inv table by table: the immutable tables, then the current one. */
    lemma Parts()
      requires Inv()
      ensures |layers| == |immutable| + (if current == null then 0 else 1)
      ensures forall i :: 0 <= i < |immutable| ==>
        immutable[i].Repr() <= Repr - {this} && Held(immutable[i], layers[i], TableBound(memtableSize), closed)
      ensures Separate(immutable)
      ensures current != null ==>
        && current.Repr() <= Repr - {this} && Held(current, layers[|immutable|], TableBound(memtableSize), closed)
        && forall i :: 0 <= i < |immutable| ==> immutable[i].Repr() !! current.Repr()
    {
      var ts := Tables();
      assert forall i :: 0 <= i < |immutable| ==> ts[i] == immutable[i];
      if current != null {
        assert ts[|immutable|] == current;
        assert forall i :: 0 <= i < |immutable| ==> ts[i].Repr() !! ts[|immutable|].Repr();
      }
    }

    /** What Inv says of table `i`, oldest first. */
    lemma TableAt(i: nat)
      requires Inv() && i < |Tables()|
      ensures i < |immutable| ==> Tables()[i] == immutable[i]
      ensures i == |immutable| ==> Tables()[i] == current
      ensures Tables()[i].Repr() <= Repr - {this}
      ensures Held(Tables()[i], layers[i], TableBound(memtableSize), closed)
    {
    }

    /** In an open database no table is closed. */
    lemma OpenTables()
      requires Inv() && !closed
      ensures forall j :: 0 <= j < |immutable| ==> !immutable[j].closed
    {
      forall j | 0 <= j < |immutable|
        ensures !immutable[j].closed
      {
        TableAt(j);
      }
    }

    /** Inv from its parts, for a database with a current table. */
    lemma Pack()
      requires this in Repr && current != null && |layers| == |immutable| + 1
      requires forall i :: 0 <= i < |immutable| ==>
        immutable[i].Repr() <= Repr - {this} && Held(immutable[i], layers[i], TableBound(memtableSize), closed)
      requires Separate(immutable)
      requires current.Repr() <= Repr - {this} && Held(current, layers[|immutable|], TableBound(memtableSize), closed)
      requires forall i :: 0 <= i < |immutable| ==> immutable[i].Repr() !! current.Repr()
      ensures Valid()
    {
      var ts := Tables();
      assert forall i :: 0 <= i < |immutable| ==> ts[i] == immutable[i];
      assert ts[|immutable|] == current;
    }

    /** A database with no table yet. */
    constructor (name: Bytes, memtableSize: int)
      ensures Inv() && fresh(Repr) && Repr == {this}
      ensures this.name == name && this.memtableSize == memtableSize
      ensures current == null && immutable == [] && !closed && layers == []
    {
      this.name := name;
      this.memtableSize := memtableSize;
      current := null;
      immutable := [];
      closed := false;
      layers := [];
      Repr := {this};
    }

    /**
     * Open a fresh memtable over a new, empty log whose directory is of kind
     * `dir` and make it the current table; the one it replaces joins the end
     * of the immutable list. When the new table cannot be made nothing
     * changes, and it cannot be made outside a directory.
     */
    method RotateMemtable(dir: PathKind) returns (err: Status)
      requires Inv()
      modifies this
      ensures Inv() && closed == old(closed)
      ensures dir != Directory ==> err.Some?
      ensures err.Some? ==>
        && err.value.Wrapped? && err.value.context == RotateCreate
        && current == old(current) && immutable == old(immutable) && layers == old(layers) && Repr == old(Repr)
      ensures err.None? ==>
        && current != null && fresh(current.Repr()) && Repr == old(Repr) + current.Repr()
        && immutable == old(immutable) + (if old(current) == null then [] else [old(current)])
        && layers == old(layers) + [[]]
        && !current.closed && current.size == 0
    {
      var m, merr := InitMemtable(dir, [], memtableSize);
      if merr.Some? {
        return Some(Wrapped(RotateCreate, merr.value));
      }
      assert Lines([]) == [];
      RepresentsNothing(m.data.Contents());
      OwnsSnoc(Tables(), layers, Repr - {this}, TableBound(memtableSize), closed, m, []);
      if current != null {
        immutable := immutable + [current];
      }
      current := m;
      layers := layers + [[]];
      Repr := Repr + m.Repr();
      assert Tables() == old(Tables()) + [m];
      assert Repr - {this} == (old(Repr) - {this}) + m.Repr();
      return None;
    }

    /**
     * Refuse an empty key, then a closed database; otherwise write into the
     * current table. When that table is full, rotate once and retry, and
     * return what the retry returns. Looking newest first, a successful Set
     * makes `key` read `value` and changes no other key, and a failed one
     * changes nothing.
     */
    method Set(key: Bytes, value: Bytes) returns (err: Status)
      requires Valid()
      modifies Repr
      ensures Valid() && closed == old(closed) && fresh(Repr - old(Repr))
      ensures (err == Some(KeyEmpty)) == (key == [])
      ensures (err == Some(DBClosed)) == (key != [] && closed)
      ensures err.Some? ==> err.value in {KeyEmpty, DBClosed, MemtableFull} || err.value.Wrapped?
      ensures err.Some? && err.value.Wrapped? ==> err.value.context in {MemtableWrite, SetRotate}
      ensures || (current == old(current) && immutable == old(immutable))
              || (immutable == old(immutable) + [old(current)] && fresh(current.Repr()))
      ensures current != old(current) ==> old(current.size) + |key| + |value| > TableBound(memtableSize)
      ensures key != [] && !closed && old(current.size) + |key| + |value| > TableBound(memtableSize) ==>
        current != old(current) || (err.Some? && err.value.Wrapped? && err.value.context == SetRotate)
      ensures current != old(current) ==> (err == Some(MemtableFull)) == (|key| + |value| > TableBound(memtableSize))
      ensures var base := if current == old(current) then old(layers) else old(layers) + [[]];
        layers == if err.None? then WriteCurrent(base, key, value) else base
      ensures forall k :: FirstHit(Reverse(layers), k) ==
                          (if err.None? && k == key then Some(value) else FirstHit(Reverse(old(layers)), k))
      ensures err.None? ==> FirstHit(GetOrder(layers), key) == Some(value)
      ensures err == Some(KeyEmpty) || err == Some(DBClosed) ==>
        current == old(current) && immutable == old(immutable) && layers == old(layers) && Repr == old(Repr)
      ensures key != [] && Colon in key ==> err.Some?
    {
      if key == [] {
        return Some(KeyEmpty);
      }
      if closed {
        return Some(DBClosed);
      }
      TableAt(|immutable|);
      err := SetCurrent(key, value);
      if err == Some(MemtableFull) {
        ghost var before := layers;
        var rerr := RotateMemtable(Directory);
        if rerr.Some? {
          return Some(Wrapped(SetRotate, rerr.value));
        }
        RotatedLayers(before);
        TableAt(|immutable|);
        err := SetCurrent(key, value);
        NewestAfter(before + [[]], layers, key, value, err);
        if err.None? {
          WriteSeen(before + [[]], key, value);
        }
      } else {
        NewestAfter(old(layers), layers, key, value, err);
        if err.None? {
          WriteSeen(old(layers), key, value);
        }
      }
    }

    /** The current table's Set, seen from the database. */
    method SetCurrent(key: Bytes, value: Bytes) returns (err: Status)
      requires Valid() && !closed
      modifies this, current.Repr()
      ensures Valid() && closed == old(closed)
      ensures current == old(current) && immutable == old(immutable) && Repr == old(Repr)
      ensures (err == Some(MemtableFull)) == (old(current.size) + |key| + |value| > TableBound(memtableSize))
      ensures err.Some? ==> err == Some(MemtableFull) || (err.value.Wrapped? && err.value.context == MemtableWrite)
      ensures layers == if err.None? then WriteCurrent(old(layers), key, value) else old(layers)
      ensures old(current.size) + |key| + |value| <= TableBound(memtableSize) && (key == [] || Colon in key) ==>
        err == Some(Wrapped(MemtableWrite, if key == [] then KeyEmpty else KeyHasColon))
    {
      Parts();
      err := current.Set(key, value);
      if err.None? {
        layers := WriteCurrent(layers, key, value);
        assert forall i :: 0 <= i < |immutable| ==> layers[i] == old(layers)[i];
      }
      Pack();
    }

    /**
     * Set as storage/db.go:115-141 runs it: the test at line 130 compares the
     * error with its sentinel by identity, and the full error of
     * storage/memtable.go:69 is a value made afresh on each call, so the test
     * never holds. A full current table's error is returned as it is, and no
     * rotation takes place.
     */
    method SetAsWritten(key: Bytes, value: Bytes) returns (err: Status)
      requires Valid()
      modifies Repr
      ensures Valid() && closed == old(closed)
      ensures current == old(current) && immutable == old(immutable) && Repr == old(Repr)
      ensures (err == Some(KeyEmpty)) == (key == [])
      ensures (err == Some(DBClosed)) == (key != [] && closed)
      ensures key != [] && !closed ==>
        (err == Some(MemtableFull)) == (old(current.size) + |key| + |value| > TableBound(memtableSize))
      ensures layers == if err.None? then WriteCurrent(old(layers), key, value) else old(layers)
    {
      if key == [] {
        return Some(KeyEmpty);
      }
      if closed {
        return Some(DBClosed);
      }
      TableAt(|immutable|);
      err := SetCurrent(key, value);
    }

    /**
     * The as-written lookup: a miss for the empty key or a closed database;
     * otherwise the current table, then the immutable ones oldest first.
     */
    method Get(key: Bytes) returns (value: Bytes, found: bool)
      requires Valid()
      ensures found == (key != [] && !closed && FirstHit(GetOrder(layers), key).Some?)
      ensures value == if found then FirstHit(GetOrder(layers), key).value else []
    {
      if key == [] || closed {
        return [], false;
      }
      var i := |immutable|;
      ghost var older := layers[..i];
      assert GetOrder(layers) == [layers[i]] + older && ([layers[i]] + older)[1..] == older;
      TableAt(i);
      value, found := current.Get(key);
      if found {
        return;
      }
      i := 0;
      while i < |immutable|
        invariant 0 <= i <= |immutable|
        invariant FirstHit(GetOrder(layers), key) == FirstHit(older[i..], key)
      {
        TableAt(i);
        value, found := immutable[i].Get(key);
        OldestStep(older, key, i);
        if found {
          return;
        }
        i := i + 1;
      }
      assert older[i..] == [];
      return [], false;
    }

    /**
     * The lookup with the immutable tables searched newest first, which
     * sees every key's last successful Set.
     */
    method GetNewest(key: Bytes) returns (value: Bytes, found: bool)
      requires Valid()
      ensures found == (key != [] && !closed && FirstHit(Reverse(layers), key).Some?)
      ensures value == if found then FirstHit(Reverse(layers), key).value else []
    {
      if key == [] || closed {
        return [], false;
      }
      var i := |immutable|;
      TableAt(i);
      value, found := current.Get(key);
      NewestStep(layers, key, i);
      assert layers[..i + 1] == layers;
      if found {
        return;
      }
      while i > 0
        invariant 0 <= i <= |immutable|
        invariant FirstHit(Reverse(layers), key) == FirstHit(Reverse(layers[..i]), key)
      {
        i := i - 1;
        TableAt(i);
        value, found := immutable[i].Get(key);
        NewestStep(layers, key, i);
        if found {
          return;
        }
      }
      assert layers[..i] == [];
      return [], false;
    }

    /** A tombstone is the empty value: Delete is Set with it. */
    method Delete(key: Bytes) returns (err: Status)
      requires Valid()
      modifies Repr
      ensures Valid() && closed == old(closed) && fresh(Repr - old(Repr))
      ensures (err == Some(KeyEmpty)) == (key == [])
      ensures (err == Some(DBClosed)) == (key != [] && closed)
      ensures forall k :: FirstHit(Reverse(layers), k) ==
                          (if err.None? && k == key then Some([]) else FirstHit(Reverse(old(layers)), k))
      ensures err.None? ==> FirstHit(GetOrder(layers), key) == Some([])
    {
      err := Set(key, []);
    }

    /**
     * The first Close marks the database closed, closes the current table
     * and then the immutable ones in order, and stops at the first table
     * that fails to close. Later calls do nothing.
     */
    method Close() returns (err: Status)
      requires Valid()
      modifies Repr
      ensures Valid() && closed && current == old(current) && immutable == old(immutable)
      ensures layers == old(layers) && Repr == old(Repr)
      ensures old(closed) ==> err.None?
      ensures !old(closed) ==> current.closed
      ensures !old(closed) && err.None? ==> forall j :: 0 <= j < |immutable| ==> immutable[j].closed
      ensures err.Some? ==> err.value.Wrapped? && err.value.context in {CloseCurrent, CloseImmutable}
      ensures !old(closed) && err.Some? && err.value.context == CloseCurrent ==>
        forall j :: 0 <= j < |immutable| ==> !immutable[j].closed
      ensures !old(closed) && err.Some? && err.value.context == CloseImmutable ==>
        exists n :: 0 <= n < |immutable| && immutable[n].closed &&
          (forall j :: 0 <= j < n ==> immutable[j].closed && LogClosed(immutable[j])) &&
          (forall j :: n < j < |immutable| ==> !immutable[j].closed)
      ensures !old(closed) && err.Some? ==> CloseFailure(err.value.cause)
      ensures !old(closed) && err.None? ==> LogClosed(current) && forall j :: 0 <= j < |immutable| ==> LogClosed(immutable[j])
      ensures !old(closed) && old(current.wal.broken) ==> err == Some(Wrapped(CloseCurrent, Wrapped(WalFlush, IO(Write))))
      ensures !old(closed) ==> forall j :: 0 <= j < |immutable| && old(immutable[j].wal.broken) ==> err.Some?
    {
      if closed {
        return None;
      }
      err := Shut();
    }

    /** The first Close of a database: mark it closed, then close the current table and the immutable ones. */
    method Shut() returns (err: Status)
      requires Valid() && !closed
      modifies Repr
      ensures Valid() && closed && current == old(current) && immutable == old(immutable)
      ensures layers == old(layers) && Repr == old(Repr)
      ensures current.closed
      ensures err.None? ==> forall j :: 0 <= j < |immutable| ==> immutable[j].closed
      ensures err.Some? ==> err.value.Wrapped? && err.value.context in {CloseCurrent, CloseImmutable}
      ensures err.Some? && err.value.context == CloseCurrent ==>
        forall j :: 0 <= j < |immutable| ==> !immutable[j].closed
      ensures err.Some? && err.value.context == CloseImmutable ==>
        exists n :: 0 <= n < |immutable| && immutable[n].closed &&
          (forall j :: 0 <= j < n ==> immutable[j].closed && LogClosed(immutable[j])) &&
          (forall j :: n < j < |immutable| ==> !immutable[j].closed)
      ensures err.Some? ==> CloseFailure(err.value.cause)
      ensures err.None? ==> LogClosed(current) && forall j :: 0 <= j < |immutable| ==> LogClosed(immutable[j])
      ensures old(current.wal.broken) ==> err == Some(Wrapped(CloseCurrent, Wrapped(WalFlush, IO(Write))))
      ensures forall j :: 0 <= j < |immutable| && old(immutable[j].wal.broken) ==> err.Some?
    {
      OpenTables();
      OwnsClosing(Tables(), layers, Repr - {this}, TableBound(memtableSize));
      closed := true;
      TableAt(|immutable|);
      err := CloseTable(|immutable|);
      if err.Some? {
        return Some(Wrapped(CloseCurrent, err.value));
      }
      err := CloseImmutables();
    }

    /** Close the immutable tables of a closed database in order, stopping at the first that fails. */
    method CloseImmutables() returns (err: Status)
      requires Valid() && closed && current.closed
      requires forall j :: 0 <= j < |immutable| ==> !immutable[j].closed
      modifies Repr - {this}
      ensures Valid() && current.closed
      ensures err.None? ==> forall j :: 0 <= j < |immutable| ==> immutable[j].closed
      ensures err.Some? ==>
        && err.value.Wrapped? && err.value.context == CloseImmutable && CloseFailure(err.value.cause)
        && exists n :: 0 <= n < |immutable| && immutable[n].closed &&
             (forall j :: 0 <= j < n ==> immutable[j].closed && LogClosed(immutable[j])) &&
             (forall j :: n < j < |immutable| ==> !immutable[j].closed)
      ensures err.None? ==> forall j :: 0 <= j < |immutable| ==> LogClosed(immutable[j])
      ensures forall j :: 0 <= j < |immutable| && old(immutable[j].wal.broken) ==> err.Some?
      ensures LogOf(current) == old(LogOf(current))
    {
      var i := 0;
      while i < |immutable|
        invariant 0 <= i <= |immutable|
        invariant Valid() && current.closed
        invariant forall j :: 0 <= j < i ==> immutable[j].closed && LogClosed(immutable[j]) && !old(immutable[j].wal.broken)
        invariant forall j :: i <= j < |immutable| ==> !immutable[j].closed && LogOf(immutable[j]) == old(LogOf(immutable[j]))
        invariant LogOf(current) == old(LogOf(current))
      {
        TableAt(i);
        var e := CloseTable(i);
        if e.Some? {
          return Some(Wrapped(CloseImmutable, e.value));
        }
        i := i + 1;
      }
      return None;
    }

    /** Close table `i` of a closed database, the current one when `i` is past the immutable ones. */
    method CloseTable(i: nat) returns (err: Status)
      requires Valid() && closed && i <= |immutable|
      modifies if i < |immutable| then immutable[i].Repr() else current.Repr()
      ensures Valid() && current == old(current) && immutable == old(immutable)
      ensures layers == old(layers) && Repr == old(Repr)
      ensures if i < |immutable| then immutable[i].closed else current.closed
      ensures i < |immutable| ==> current.closed == old(current.closed)
      ensures forall j :: 0 <= j < |immutable| && j != i ==> immutable[j].closed == old(immutable[j].closed)
      ensures forall j :: 0 <= j < |immutable| && j != i ==> LogOf(immutable[j]) == old(LogOf(immutable[j]))
      ensures i < |immutable| ==> LogOf(current) == old(LogOf(current))
      ensures var t := if i < |immutable| then immutable[i] else current;
        && (!old(t.closed) && err.None? ==> LogClosed(t))
        && (!old(t.closed) && err.Some? ==> CloseFailure(err.value))
        && (!old(t.closed) && old(t.wal.broken) ==> err == Some(Wrapped(WalFlush, IO(Write))))
    {
      Parts();
      var t := if i < |immutable| then immutable[i] else current;
      err := t.Close();
      Pack();
    }

    /**
     * The end of the background flush: every immutable table is dropped.
     * Writing them out and removing their logs is not part of the model.
     */
    method FlushImmutableMemtables()
      requires Valid()
      modifies this
      ensures Valid() && closed == old(closed) && current == old(current) && Repr == old(Repr)
      ensures immutable == [] && layers == [old(layers)[|old(layers)| - 1]]
    {
      ghost var last := |immutable|;
      assert Tables()[last] == current;
      immutable := [];
      layers := [layers[last]];
      assert Tables() == [current];
    }
  }

  /**
   * Open a database: refuse an empty name, make its directories, recover
   * one memtable, in order, from each log file in the log directory, then
   * rotate in a fresh current table. `logs` holds the contents of those log
   * files in directory order; the first failure ends the open.
   */
  method Open(name: Bytes, memtableSize: int, logs: seq<Bytes>) returns (db: DB?, err: Status)
    ensures err.None? <==> db != null
    ensures name == [] ==> err == Some(KeyEmpty)
    ensures err.Some? ==> err.value == KeyEmpty || err.value.Wrapped?
    ensures err.Some? && err.value.Wrapped? ==>
      err.value.context in {OpenCreateDir, OpenReadDir, OpenRecover, OpenInitial}
    ensures (exists i :: 0 <= i < |logs| && Decode(Lines(logs[i])).Failure?) ==> db == null
    ensures db != null ==>
      && fresh(db.Repr) && db.Valid() && !db.closed && db.name == name && db.memtableSize == memtableSize
      && |db.immutable| == |logs| && |db.layers| == |logs| + 1 && db.layers[|logs|] == []
      && forall i :: 0 <= i < |logs| ==> Recovers(db.layers[i], logs[i])
  {
    if name == [] {
      return null, Some(KeyEmpty);
    }
    // The database directory and its log and table directories.
    var d := 0;
    while d < 3
      invariant 0 <= d <= 3
    {
      var made: bool :| true;
      if !made {
        return null, Some(Wrapped(OpenCreateDir, IO(MakeDir)));
      }
      d := d + 1;
    }
    db := new DB(name, memtableSize);
    var listed: bool :| true;
    if !listed {
      return null, Some(Wrapped(OpenReadDir, IO(ReadDir)));
    }
    var i := 0;
    ghost var recovered: seq<seq<Entry>> := [];
    while i < |logs|
      invariant 0 <= i <= |logs|
      invariant db.Inv() && fresh(db.Repr) && db.current == null && !db.closed
      invariant db.name == name && db.memtableSize == memtableSize
      invariant db.layers == recovered && |recovered| == i
      invariant forall j :: 0 <= j < i ==> Recovers(recovered[j], logs[j])
    {
      var mt, merr := InitMemtable(Directory, logs[i], memtableSize);
      if merr.Some? {
        return null, Some(Wrapped(OpenRecover, merr.value));
      }
      Recovered(db, mt);
      RecoversSnoc(recovered, logs, mt.data.Contents());
      recovered := recovered + [mt.data.Contents()];
      i := i + 1;
    }
    var rerr := db.RotateMemtable(Directory);
    if rerr.Some? {
      return null, Some(Wrapped(OpenInitial, rerr.value));
    }
    assert forall j :: 0 <= j < |logs| ==> db.layers[j] == recovered[j];
    return db, None;
  }

  /**
   * Open as storage/db.go:48-94 names the logs: InitMemtable makes its log
   * inside the path it is given (storage/memtable.go:29), but recovery hands
   * it the path of a log file (storage/db.go:80) and the rotation a path
   * below the log directory that nothing creates (storage/db.go:98-99). The
   * first log, or else the initial rotation, fails, so no Open succeeds.
   */
  method OpenAsWritten(name: Bytes, memtableSize: int, logs: seq<Bytes>) returns (db: DB?, err: Status)
    ensures db == null && err.Some?
    ensures name != [] ==> err.value.Wrapped? && err.value.context in {OpenCreateDir, OpenReadDir, OpenRecover, OpenInitial}
    ensures name != [] && err.value.context in {OpenRecover, OpenInitial} ==>
      err.value.cause.Wrapped? && err.value.cause.context in {MemtableInitWal, RotateCreate}
  {
    if name == [] {
      return null, Some(KeyEmpty);
    }
    var d := 0;
    while d < 3
      invariant 0 <= d <= 3
    {
      var made: bool :| true;
      if !made {
        return null, Some(Wrapped(OpenCreateDir, IO(MakeDir)));
      }
      d := d + 1;
    }
    var shell := new DB(name, memtableSize);
    var listed: bool :| true;
    if !listed {
      return null, Some(Wrapped(OpenReadDir, IO(ReadDir)));
    }
    if |logs| > 0 {
      var mt, merr := InitMemtable(RegularFile, logs[0], memtableSize);
      return null, Some(Wrapped(OpenRecover, merr.value));
    }
    var rerr := shell.RotateMemtable(Missing);
    return null, Some(Wrapped(OpenInitial, rerr.value));
  }

  /** A layer holds what the strict decoding of its log gives. */
  ghost predicate Recovers(l: seq<Entry>, log: Bytes)
  {
    Decode(Lines(log)).Success? && Represents(l, Decode(Lines(log)).value)
  }

  /** One more recovered log extends the recovered layers by its layer. */
  lemma RecoversSnoc(ls: seq<seq<Entry>>, logs: seq<Bytes>, l: seq<Entry>)
    requires |ls| < |logs| && forall j :: 0 <= j < |ls| ==> Recovers(ls[j], logs[j])
    requires Recovers(l, logs[|ls|])
    ensures forall j :: 0 <= j < |ls| + 1 ==> Recovers((ls + [l])[j], logs[j])
  {
    forall j | 0 <= j < |ls| + 1
      ensures Recovers((ls + [l])[j], logs[j])
    {
      if j < |ls| {
        assert (ls + [l])[j] == ls[j];
      }
    }
  }

  /** Append a recovered memtable to the immutable list of a database still being opened. */
  method Recovered(db: DB, mt: Memtable)
    requires db.Inv() && db.current == null && !db.closed
    requires mt.Repr() !! db.Repr && mt.Valid() && !mt.closed && mt.maxSize == TableBound(db.memtableSize)
    modifies db
    ensures db.Inv() && db.current == null && !db.closed && db.Repr == old(db.Repr) + mt.Repr()
    ensures db.immutable == old(db.immutable) + [mt] && db.layers == old(db.layers) + [mt.data.Contents()]
  {
    OwnsSnoc(db.Tables(), db.layers, db.Repr - {db}, TableBound(db.memtableSize), false, mt, mt.data.Contents());
    db.immutable := db.immutable + [mt];
    db.layers := db.layers + [mt.data.Contents()];
    db.Repr := db.Repr + mt.Repr();
    assert db.Tables() == old(db.Tables()) + [mt];
    assert db.Repr - {db} == (old(db.Repr) - {db}) + mt.Repr();
  }

  /** Newest first, a rotation's fresh empty table changes no lookup. */
  lemma RotatedLayers(before: seq<seq<Entry>>)
    ensures forall k :: FirstHit(Reverse(before + [[]]), k) == FirstHit(Reverse(before), k)
  {
    forall k ensures FirstHit(Reverse(before + [[]]), k) == FirstHit(Reverse(before), k) {
      RotateNewest(before, k);
    }
  }

  /** Newest first, a write into the current layer shows the new value and nothing else, and a failed one nothing. */
  lemma NewestAfter(before: seq<seq<Entry>>, after: seq<seq<Entry>>, key: Bytes, value: Bytes, err: Status)
    requires before != []
    requires after == if err.None? then WriteCurrent(before, key, value) else before
    ensures forall k :: FirstHit(Reverse(after), k) ==
                        (if err.None? && k == key then Some(value) else FirstHit(Reverse(before), k))
  {
    forall k ensures FirstHit(Reverse(after), k) ==
                     (if err.None? && k == key then Some(value) else FirstHit(Reverse(before), k))
    {
      if err.None? {
        WriteNewest(before, key, value, k);
      }
    }
  }
}
