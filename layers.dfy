/**
 * The database's tables read as a stack of layers, oldest first: each layer
 * is the entry sequence of one memtable, and the last one is the current
 * table that takes the writes. A lookup answers from the first layer, in
 * some search order, that holds the key.
 */
module Layers {
  import opened Wrappers
  import opened Keys
  import opened Ordered

  /** The value found in the first layer that holds `key`, if any does. */
  function FirstHit(ls: seq<seq<Entry>>, key: Bytes): (r: Option<Bytes>)
    ensures r.None? <==> forall i :: 0 <= i < |ls| ==> Find(ls[i], key).None?
    ensures r.Some? ==>
      exists i :: 0 <= i < |ls| && r == Find(ls[i], key) && forall j :: 0 <= j < i ==> Find(ls[j], key).None?
  {
    if ls == [] then None
    else if Find(ls[0], key).Some? then Find(ls[0], key)
    else
      var r := FirstHit(ls[1..], key);
      assert forall i :: 0 < i < |ls| ==> ls[i] == ls[1..][i - 1];
      r
  }

  /** The layers newest first. */
  function Reverse(ls: seq<seq<Entry>>): (r: seq<seq<Entry>>)
    ensures |r| == |ls| && forall i :: 0 <= i < |ls| ==> r[i] == ls[|ls| - 1 - i]
  {
    if ls == [] then [] else [ls[|ls| - 1]] + Reverse(ls[..|ls| - 1])
  }

  /** The order DB.Get searches: the current layer, then the older ones oldest first. */
  function GetOrder(ls: seq<seq<Entry>>): seq<seq<Entry>>
  {
    if ls == [] then [] else [ls[|ls| - 1]] + ls[..|ls| - 1]
  }

  /** The layers after a successful write of `(key, value)` into the current one. */
  function WriteCurrent(ls: seq<seq<Entry>>, key: Bytes, value: Bytes): seq<seq<Entry>>
    requires ls != []
  {
    ls[..|ls| - 1] + [Insert(ls[|ls| - 1], key, value)]
  }

  /** Searching oldest first from layer `i`: that layer answers when it holds `key`, the later ones otherwise. */
  lemma OldestStep(ls: seq<seq<Entry>>, key: Bytes, i: nat)
    requires i < |ls|
    ensures FirstHit(ls[i..], key) == if Find(ls[i], key).Some? then Find(ls[i], key) else FirstHit(ls[i + 1..], key)
  {
    assert ls[i..][1..] == ls[i + 1..];
  }

  /** Searching newest first from layer `i` down: that layer answers when it holds `key`, the older ones otherwise. */
  lemma NewestStep(ls: seq<seq<Entry>>, key: Bytes, i: nat)
    requires i < |ls|
    ensures FirstHit(Reverse(ls[..i + 1]), key) == if Find(ls[i], key).Some? then Find(ls[i], key) else FirstHit(Reverse(ls[..i]), key)
  {
    assert ls[..i + 1][..i] == ls[..i];
  }

  /** Looking newest first, a written key shows its new value and every other key shows what it did before. */
  lemma WriteNewest(ls: seq<seq<Entry>>, key: Bytes, value: Bytes, k: Bytes)
    requires ls != []
    ensures FirstHit(Reverse(WriteCurrent(ls, key, value)), k) == if k == key then Some(value) else FirstHit(Reverse(ls), k)
  {
    var w := WriteCurrent(ls, key, value);
    assert w[..|w| - 1] == ls[..|ls| - 1];
    assert Reverse(w) == [Insert(ls[|ls| - 1], key, value)] + Reverse(ls[..|ls| - 1]);
    assert Reverse(ls) == [ls[|ls| - 1]] + Reverse(ls[..|ls| - 1]);
    FindInsert(ls[|ls| - 1], key, value, k);
  }

  /** In DB.Get's order a key just written into the current layer reads its new value. */
  lemma WriteSeen(ls: seq<seq<Entry>>, key: Bytes, value: Bytes)
    requires ls != []
    ensures FirstHit(GetOrder(WriteCurrent(ls, key, value)), key) == Some(value)
  {
    var w := WriteCurrent(ls, key, value);
    assert GetOrder(w)[0] == Insert(ls[|ls| - 1], key, value);
    FindInsert(ls[|ls| - 1], key, value, key);
  }

  /** Looking newest first, a fresh empty current layer changes no lookup. */
  lemma RotateNewest(ls: seq<seq<Entry>>, k: Bytes)
    ensures FirstHit(Reverse(ls + [[]]), k) == FirstHit(Reverse(ls), k)
  {
    assert (ls + [[]])[..|ls|] == ls;
    assert Reverse(ls + [[]]) == [[]] + Reverse(ls);
  }

  /**
   * In DB.Get's order a rotation followed by a write of another key can
   * change what a key reads: with `k` written into an older layer and
   * again into the current one, the current value is seen before the
   * rotation and the older one after it.
   */
  lemma RotateHidesNewest(older: seq<Entry>, current: seq<Entry>, key: Bytes, value: Bytes, k: Bytes)
    requires Find(older, k).Some? && Find(current, k).Some? && k != key
    ensures FirstHit(GetOrder([older, current]), k) == Find(current, k)
    ensures FirstHit(GetOrder(WriteCurrent([older, current] + [[]], key, value)), k) == Find(older, k)
  {
    var w := WriteCurrent([older, current] + [[]], key, value);
    assert w == [older, current, Insert([], key, value)];
    assert GetOrder(w) == [Insert([], key, value), older, current];
    FindInsert([], key, value, k);
    assert GetOrder([older, current]) == [current, older];
  }
}
