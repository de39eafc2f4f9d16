/**
 * The abstract value of a skip list: its level-0 chain read as a sequence of
 * entries, with the operations the list performs on it.
 */
module Ordered {
  import opened Keys
  import opened Wrappers
  import opened Seqs

  /** Keys never decrease along the sequence (equal keys may repeat). */
  ghost predicate Sorted(c: seq<Entry>)
  {
    forall a, b :: 0 <= a < b < |c| ==> LessEq(c[a].key, c[b].key)
  }

  /** How many leading entries have a key below `k`: where a descent for `k` stops. */
  function Position(c: seq<Entry>, k: Bytes): (n: nat)
    ensures n <= |c|
    ensures forall a :: 0 <= a < n ==> Less(c[a].key, k)
    ensures n < |c| ==> !Less(c[n].key, k)
  {
    if c == [] || !Less(c[0].key, k) then 0 else 1 + Position(c[1..], k)
  }

  /** `(k, v)` placed right after the last leading entry whose key is below `k`. */
  function Insert(c: seq<Entry>, k: Bytes, v: Bytes): seq<Entry>
  {
    var p := Position(c, k);
    c[..p] + [Entry(k, v)] + c[p..]
  }

  /** The value of the first entry whose key is `k`. */
  function Find(c: seq<Entry>, k: Bytes): Option<Bytes>
  {
    if c == [] then None
    else if c[0].key == k then Some(c[0].value)
    else Find(c[1..], k)
  }

  /** `c` without its first entry whose key is `k`. */
  function RemoveFirst(c: seq<Entry>, k: Bytes): seq<Entry>
  {
    if c == [] then []
    else if c[0].key == k then c[1..]
    else [c[0]] + RemoveFirst(c[1..], k)
  }

  /** `m` read as a lookup table: every non-empty key in `m` is found with its value, nothing else is. */
  ghost predicate Represents(c: seq<Entry>, m: map<Bytes, Bytes>)
  {
    forall k :: Find(c, k) == if k != [] && k in m then Some(m[k]) else None
  }

  /** No entry has the empty key. */
  ghost predicate NoEmptyKey(c: seq<Entry>)
  {
    forall j :: 0 <= j < |c| ==> c[j].key != []
  }

  /** The prefix and the stopping point determine Position. */
  lemma {:induction false} PositionUnique(c: seq<Entry>, k: Bytes, n: nat)
    requires n <= |c|
    requires forall a :: 0 <= a < n ==> Less(c[a].key, k)
    requires n < |c| ==> !Less(c[n].key, k)
    ensures Position(c, k) == n
  {
    if n > 0 {
      PositionUnique(c[1..], k, n - 1);
    }
  }

  lemma {:induction false} FindAppend(a: seq<Entry>, b: seq<Entry>, k: Bytes)
    ensures Find(a + b, k) == if Find(a, k).Some? then Find(a, k) else Find(b, k)
  {
    if a != [] {
      AppendCons(a, b);
      FindAppend(a[1..], b, k);
    } else {
      AppendEmpty(b);
    }
  }

  lemma {:induction false} FindNone(c: seq<Entry>, k: Bytes)
    requires forall a :: 0 <= a < |c| ==> c[a].key != k
    ensures Find(c, k) == None
  {
    if c != [] {
      FindNone(c[1..], k);
    }
  }

  lemma {:induction false} RemoveFirstAppend(a: seq<Entry>, b: seq<Entry>, k: Bytes)
    requires Find(a, k) == None
    ensures RemoveFirst(a + b, k) == a + RemoveFirst(b, k)
  {
    if a != [] {
      AppendCons(a, b);
      RemoveFirstAppend(a[1..], b, k);
      AppendAssoc([a[0]], a[1..], RemoveFirst(b, k));
      Cons(a);
    } else {
      AppendEmpty(b);
      AppendEmpty(RemoveFirst(b, k));
    }
  }

  /** An entry placed by Insert is found, and no other key's lookup changes. */
  lemma FindInsert(c: seq<Entry>, k: Bytes, v: Bytes, k': Bytes)
    ensures Find(Insert(c, k, v), k') == if k' == k then Some(v) else Find(c, k')
  {
    var p := Position(c, k);
    var e := Entry(k, v);
    AppendAssoc(c[..p], [e], c[p..]);
    PrefixMissing(c, k);
    FindAppend(c[..p], [e] + c[p..], k');
    ConsParts(e, c[p..]);
    Split(c, p);
    FindAppend(c[..p], c[p..], k');
  }

  /** No entry before Position has key `k`. */
  lemma PrefixMissing(c: seq<Entry>, k: Bytes)
    ensures Find(c[..Position(c, k)], k) == None
  {
    var p := Position(c, k);
    forall a | 0 <= a < p ensures c[..p][a].key != k {
      LessIrreflexive(k);
    }
    FindNone(c[..p], k);
  }

  /** Insert keeps the keys in order. */
  lemma InsertSorted(c: seq<Entry>, k: Bytes, v: Bytes)
    requires Sorted(c)
    ensures Sorted(Insert(c, k, v)) && |Insert(c, k, v)| == |c| + 1
  {
    var p := Position(c, k);
    var r := Insert(c, k, v);
    forall a, b | 0 <= a < b < |r| ensures LessEq(r[a].key, r[b].key) {
      if a < p && b == p {
      } else if a == p && b > p {
        if b - 1 > p {
          assert LessEq(c[p].key, c[b - 1].key);
        }
        NotLessMonotone(c[p].key, c[b - 1].key, k);
        LessTrichotomy(k, c[b - 1].key);
      } else if a < p && b > p {
        assert LessEq(c[a].key, c[b - 1].key);
      } else if a > p {
        assert LessEq(c[a - 1].key, c[b - 1].key);
      }
    }
  }

  /** In a sorted sequence the entry at Position is the first with key `k`, if any entry has it. */
  lemma FindAtPosition(c: seq<Entry>, k: Bytes)
    requires Sorted(c)
    ensures var p := Position(c, k);
      Find(c, k) == if p < |c| && c[p].key == k then Some(c[p].value) else None
  {
    var p := Position(c, k);
    Split(c, p);
    PrefixMissing(c, k);
    FindAppend(c[..p], c[p..], k);
    if p < |c| && c[p].key != k {
      forall a | 0 <= a < |c[p..]| ensures c[p..][a].key != k {
        if a > 0 {
          assert LessEq(c[p].key, c[p + a].key);
        }
      }
      FindNone(c[p..], k);
    }
  }

  /** At Position in a sorted sequence, RemoveFirst cuts out exactly that entry. */
  lemma RemoveAtPosition(c: seq<Entry>, k: Bytes)
    requires Sorted(c)
    requires Position(c, k) < |c| && c[Position(c, k)].key == k
    ensures var p := Position(c, k); RemoveFirst(c, k) == c[..p] + c[p + 1..]
  {
    var p := Position(c, k);
    Split(c, p);
    PrefixMissing(c, k);
    RemoveFirstAppend(c[..p], c[p..], k);
    SplitAround(c, p);
  }

  /** Removing the first entry with `k` from a sorted sequence keeps it sorted. */
  lemma {:induction false} RemoveFirstSorted(c: seq<Entry>, k: Bytes)
    requires Sorted(c)
    ensures Sorted(RemoveFirst(c, k))
  {
    if c != [] && c[0].key != k {
      RemoveFirstSorted(c[1..], k);
      RemoveFirstSubset(c[1..], k);
      var r := RemoveFirst(c, k);
      forall a, b | 0 <= a < b < |r| ensures LessEq(r[a].key, r[b].key) {
        if a == 0 {
          assert r[b] == RemoveFirst(c[1..], k)[b - 1];
          assert r[b] in RemoveFirst(c[1..], k);
          assert r[b] in c[1..];
          var j :| 0 <= j < |c[1..]| && c[1..][j] == r[b];
          assert LessEq(c[0].key, c[1 + j].key);
        }
      }
    }
  }

  /** Every entry left by RemoveFirst was in the input. */
  lemma {:induction false} RemoveFirstSubset(c: seq<Entry>, k: Bytes)
    ensures forall e :: e in RemoveFirst(c, k) ==> e in c
  {
    if c != [] && c[0].key != k {
      RemoveFirstSubset(c[1..], k);
    }
  }

  /** RemoveFirst leaves the lookups of other keys alone. */
  lemma {:induction false} FindRemoveOther(c: seq<Entry>, k: Bytes, k': Bytes)
    requires k' != k
    ensures Find(RemoveFirst(c, k), k') == Find(c, k')
  {
    if c != [] && c[0].key != k {
      FindRemoveOther(c[1..], k, k');
      assert RemoveFirst(c, k)[1..] == RemoveFirst(c[1..], k);
    }
  }

  /** Removing the first entry with `k` shortens the sequence exactly when `k` is found. */
  lemma {:induction false} RemoveFirstLength(c: seq<Entry>, k: Bytes)
    ensures |RemoveFirst(c, k)| == if Find(c, k).Some? then |c| - 1 else |c|
  {
    if c != [] && c[0].key != k {
      RemoveFirstLength(c[1..], k);
    }
  }

  /** RemoveFirst undoes an Insert of the same key, whatever entries with that key were already there. */
  lemma RemoveUndoesInsert(c: seq<Entry>, k: Bytes, v: Bytes)
    ensures RemoveFirst(Insert(c, k, v), k) == c
  {
    var p := Position(c, k);
    var e := Entry(k, v);
    PrefixMissing(c, k);
    AppendAssoc(c[..p], [e], c[p..]);
    RemoveFirstAppend(c[..p], [e] + c[p..], k);
    ConsParts(e, c[p..]);
    Split(c, p);
  }

  /**
   * Two puts of one key leave two entries: removing the first (the newer) brings
   * the older value back instead of a miss.
   */
  lemma DeleteAfterDuplicatePut(c: seq<Entry>, k: Bytes, v1: Bytes, v2: Bytes)
    ensures var c2 := Insert(Insert(c, k, v1), k, v2);
      |c2| == |c| + 2 && Find(c2, k) == Some(v2) && Find(RemoveFirst(c2, k), k) == Some(v1)
  {
    RemoveUndoesInsert(Insert(c, k, v1), k, v2);
    FindInsert(Insert(c, k, v1), k, v2, k);
    FindInsert(c, k, v1, k);
  }

  /** Insert adds exactly the new entry. */
  lemma InsertMembers(c: seq<Entry>, k: Bytes, v: Bytes)
    ensures forall e :: e in Insert(c, k, v) <==> e in c || e == Entry(k, v)
  {
    Split(c, Position(c, k));
  }

  /** Without an entry for `k`, RemoveFirst changes nothing. */
  lemma {:induction false} RemoveFirstMissing(c: seq<Entry>, k: Bytes)
    requires Find(c, k) == None
    ensures RemoveFirst(c, k) == c
  {
    if c != [] {
      RemoveFirstMissing(c[1..], k);
      Cons(c);
    }
  }

  /** Inserting an entry with a non-empty key keeps every key non-empty. */
  lemma InsertNoEmptyKey(c: seq<Entry>, k: Bytes, v: Bytes)
    requires NoEmptyKey(c) && k != []
    ensures NoEmptyKey(Insert(c, k, v))
  {
    var p := Position(c, k);
    var r := Insert(c, k, v);
    forall j | 0 <= j < |r| ensures r[j].key != [] {
      if j < p {
        assert r[j] == c[j];
      } else if j > p {
        assert r[j] == c[j - 1];
      }
    }
  }

  /** Removing an entry keeps every key non-empty. */
  lemma {:induction false} RemoveFirstNoEmptyKey(c: seq<Entry>, k: Bytes)
    requires NoEmptyKey(c)
    ensures NoEmptyKey(RemoveFirst(c, k))
  {
    if c != [] && c[0].key != k {
      RemoveFirstNoEmptyKey(c[1..], k);
      var r := RemoveFirst(c, k);
      forall j | 0 <= j < |r| ensures r[j].key != [] {
        if j > 0 {
          assert r[j] == RemoveFirst(c[1..], k)[j - 1];
        }
      }
    }
  }

  /** Inserting `(k, v)` makes the entries answer like the table with `k` set to `v`. */
  lemma RepresentsInsert(c: seq<Entry>, m: map<Bytes, Bytes>, k: Bytes, v: Bytes)
    requires Represents(c, m) && k != []
    ensures Represents(Insert(c, k, v), m[k := v])
  {
    forall k' ensures Find(Insert(c, k, v), k') == if k' != [] && k' in m[k := v] then Some(m[k := v][k']) else None {
      FindInsert(c, k, v, k');
    }
  }

  /** The table's entry for the empty key, which no entry can carry, does not matter. */
  lemma RepresentsEmptyKey(c: seq<Entry>, m: map<Bytes, Bytes>, v: Bytes)
    requires Represents(c, m)
    ensures Represents(c, m[[] := v])
  {
  }

  /** Entries that answer like the empty table hold nothing. */
  lemma RepresentsNothing(c: seq<Entry>)
    requires Represents(c, map[])
    ensures c == []
  {
    if c != [] {
      assert Find(c, c[0].key).Some?;
    }
  }
}
