/**
 * The skip list of the storage package: a sentinel head with `maxLevel`
 * forward pointers, nodes whose heights are drawn by coin flips, and a
 * level-0 chain kept in key order. Put never replaces a value: a key put
 * twice is held twice, the newer entry first.
 */
module StorageSkipList {
  import opened Wrappers
  import opened Errors
  import opened Keys
  import opened Ordered
  import opened Arena

  /** The invariant of the storage skip list, on the values of its fields. */
  ghost predicate Wellformed(nodes: seq<Node>, elems: seq<int>, currLevel: int, maxLevel: int, size: int, p: real)
  {
    && Shape(nodes, elems, currLevel, maxLevel)
    && nodes[Head].key == [] && nodes[Head].value == []
    && NoEmptyKey(Entries(nodes, elems))
    && size == |elems|
    && 0.0 < p < 1.0
  }

  /** The fields Put leaves behind keep the invariant and hold Insert of the old entries. */
  lemma PutKeeps(nodes: seq<Node>, elems: seq<int>, currLevel: int, maxLevel: int, size: int, p: real,
                 key: Bytes, value: Bytes, h: int, r: seq<Node>)
    requires Wellformed(nodes, elems, currLevel, maxLevel, size, p) && key != [] && 1 <= h <= maxLevel
    requires Shape(r, InsertAt(nodes, elems, key), if h > currLevel then h else currLevel, maxLevel)
    requires Entries(r, InsertAt(nodes, elems, key)) == Insert(Entries(nodes, elems), key, value)
    requires SameNodes(Grow(nodes, key, value, h), r)
    ensures Wellformed(r, InsertAt(nodes, elems, key), if h > currLevel then h else currLevel, maxLevel, size + 1, p)
  {
    InsertNoEmptyKey(Entries(nodes, elems), key, value);
    InsertSorted(Entries(nodes, elems), key, value);
  }

  /**
   * The second half of Put, after the descent and the coin flips: raise the
   * list to the new height if it grew, splice the new node in on each of its
   * levels, then the duplicate check on the level-0 stopping point.
   */
  method Link(nodes: seq<Node>, ghost elems: seq<int>, currLevel: int, maxLevel: int, ghost size: int, ghost p: real,
              track: seq<int>, currentNode: int, newLevel: int, key: Bytes, value: Bytes)
    returns (nodes': seq<Node>, level: int)
    requires Wellformed(nodes, elems, currLevel, maxLevel, size, p) && key != [] && 1 <= newLevel <= maxLevel
    requires track == Track(nodes, elems, currLevel, maxLevel, key, -1)
    requires currentNode == Pred(nodes, elems, 0, key)
    ensures level == if newLevel > currLevel then newLevel else currLevel
    ensures Wellformed(nodes', InsertAt(nodes, elems, key), level, maxLevel, size + 1, p)
    ensures Entries(nodes', InsertAt(nodes, elems, key)) == Insert(Entries(nodes, elems), key, value)
  {
    nodes', level := Place(nodes, elems, currLevel, maxLevel, track, newLevel, key, value);
    PutKeeps(nodes, elems, currLevel, maxLevel, size, p, key, value, newLevel, nodes');
    PredKey(nodes, elems, 0, key);
    if nodes'[currentNode].key == key {
      // The duplicate check: the node reached on level 0 is the head or holds
      // a smaller key, so this branch is never taken.
      assert false;
    }
  }

  /** The fields Delete leaves behind keep the invariant and hold RemoveFirst of the old entries. */
  lemma DeleteKeeps(nodes: seq<Node>, elems: seq<int>, currLevel: int, maxLevel: int, size: int, p: real,
                    key: Bytes, r: seq<Node>, level: int)
    requires Wellformed(nodes, elems, currLevel, maxLevel, size, p)
    requires Position(Entries(nodes, elems), key) < |elems|
    requires Entries(nodes, elems)[Position(Entries(nodes, elems), key)].key == key
    requires Shape(r, RemoveAt(nodes, elems, key), level, maxLevel)
    requires Entries(r, RemoveAt(nodes, elems, key)) == Entries(nodes, elems)[..Position(Entries(nodes, elems), key)]
      + Entries(nodes, elems)[Position(Entries(nodes, elems), key) + 1..]
    requires SameNodes(nodes, r)
    ensures Wellformed(r, RemoveAt(nodes, elems, key), level, maxLevel, size - 1, p)
    ensures Entries(r, RemoveAt(nodes, elems, key)) == RemoveFirst(Entries(nodes, elems), key)
  {
    RemoveAtPosition(Entries(nodes, elems), key);
    RemoveFirstNoEmptyKey(Entries(nodes, elems), key);
    RemoveFirstLength(Entries(nodes, elems), key);
    FindAtPosition(Entries(nodes, elems), key);
  }

  class SkipList {
    var nodes: seq<Node>
    var p: real
    var currLevel: int
    var maxLevel: int
    var size: int
    /** The nodes of the level-0 chain, in order. */
    ghost var elems: seq<int>

    ghost predicate Valid()
      reads this
    {
      Wellformed(nodes, elems, currLevel, maxLevel, size, p)
    }

    /** The entries in list order: sorted by key, duplicates newest first. */
    ghost function Contents(): seq<Entry>
      reads this
    {
      Entries(nodes, elems)
    }

    /** An empty list; a probability outside (0, 1) becomes 0.5 and a non-positive height 16. */
    constructor InitSL(p: real, maxLevel: int)
      ensures Valid() && Contents() == []
      ensures this.p == (if p <= 0.0 || p >= 1.0 then 0.5 else p)
      ensures this.maxLevel == (if maxLevel <= 0 then 16 else maxLevel)
      ensures currLevel == 1 && size == 0
    {
      var p' := if p <= 0.0 || p >= 1.0 then 0.5 else p;
      var maxLevel' := if maxLevel <= 0 then 16 else maxLevel;
      nodes := [Node([], [], Nils(maxLevel'))];
      this.p := p';
      this.maxLevel := maxLevel';
      currLevel := 1;
      size := 0;
      elems := [];
      new;
      EmptyShape(nodes[Head], maxLevel');
    }

    /**
     * Insert `(key, value)` after every entry with a smaller key and before any
     * entry with this key; the empty key is refused.
     */
    method Put(key: Bytes, value: Bytes) returns (err: Status)
      requires Valid()
      modifies this
      ensures Valid() && p == old(p) && maxLevel == old(maxLevel)
      ensures key == [] ==> err == Some(KeyEmpty) && unchanged(this)
      ensures key != [] ==> err == None && Contents() == Insert(old(Contents()), key, value)
      ensures key != [] ==> size == old(size) + 1
    {
      if key == [] {
        return Some(KeyEmpty);
      }
      if |nodes| == 0 {
        // The head is nil: InitSL always allocates it, so this cannot happen.
        assert false;
      }
      var levelTrack, currentNode := Descend(nodes, elems, currLevel, maxLevel, key);
      var newLevel := LevelUp();
      var nodes', level := Link(nodes, elems, currLevel, maxLevel, size, p, levelTrack, currentNode, newLevel, key, value);
      nodes, elems, currLevel, size := nodes', InsertAt(nodes, elems, key), level, size + 1;
      return None;
    }

    /** The value of the first entry with `key`, found by the descent. */
    method Get(key: Bytes) returns (value: Bytes, found: bool)
      requires Valid()
      ensures found == Find(Contents(), key).Some?
      ensures value == Find(Contents(), key).GetOr([])
    {
      var track, current := Descend(nodes, elems, currLevel, maxLevel, key);
      NextOnLevelZero(nodes, elems, currLevel, maxLevel, key);
      current := nodes[current].next[0];
      if current != Nil && nodes[current].key == key {
        return nodes[current].value, true;
      }
      return [], false;
    }

    /**
     * Remove the first entry with `key`: unlink its node on every level it
     * reaches, then drop empty top levels (never below 1).
     */
    method Delete(key: Bytes) returns (deleted: bool)
      requires Valid()
      modifies this
      ensures Valid() && p == old(p) && maxLevel == old(maxLevel)
      ensures deleted == Find(old(Contents()), key).Some?
      ensures Contents() == RemoveFirst(old(Contents()), key)
      ensures size == old(size) - if deleted then 1 else 0
      ensures !deleted ==> nodes == old(nodes) && currLevel == old(currLevel)
      ensures deleted ==> 1 <= currLevel <= old(currLevel) && (currLevel == 1 || nodes[Head].next[currLevel - 1] != Nil)
    {
      var update, current := Descend(nodes, elems, currLevel, maxLevel, key);
      NextOnLevelZero(nodes, elems, currLevel, maxLevel, key);
      current := nodes[current].next[0];
      if current == Nil || nodes[current].key != key {
        RemoveFirstMissing(Contents(), key);
        return false;
      }

      var nodes' := UnlinkNode(nodes, elems, currLevel, maxLevel, update, current, key);
      ghost var elems' := RemoveAt(nodes, elems, key);
      var level := DropLevels(nodes', elems', currLevel, maxLevel);
      DeleteKeeps(nodes, elems, currLevel, maxLevel, size, p, key, nodes', level);
      nodes, elems, currLevel, size := nodes', elems', level, size - 1;
      return true;
    }

    /** The height of a new node: one plus the number of heads thrown in a row, at most `maxLevel`. */
    method LevelUp() returns (level: int)
      requires 1 <= maxLevel
      ensures 1 <= level <= maxLevel
    {
      level := 1;
      var heads: bool :| true;
      while heads && level < maxLevel
        invariant 1 <= level <= maxLevel
        decreases maxLevel - level
      {
        level := level + 1;
        heads :| true;
      }
    }

    /** The number of successful Puts minus the number of successful Deletes: the number of entries. */
    function Size(): (n: int)
      reads this
      requires Valid()
      ensures n == |Contents()|
    {
      size
    }

    /** A cursor on the sentinel head, before the first entry. */
    method Iterator() returns (it: Cursor)
      requires Valid()
      ensures fresh(it) && it.Valid() && it.sl == this && it.pos == -1
    {
      it := new Cursor(this);
    }
  }

  /** The iterator of the storage skip list, walking level 0 from the head. */
  class Cursor {
    var current: int
    var sl: SkipList
    /** The position of `current` in the level-0 chain; -1 is the head. */
    ghost var pos: int

    ghost predicate Valid()
      reads this, sl
    {
      sl.Valid() && -1 <= pos < |sl.elems| && current == At(sl.elems, pos)
    }

    constructor (sl: SkipList)
      requires sl.Valid()
      ensures Valid() && this.sl == sl && pos == -1
    {
      current := Head;
      this.sl := sl;
      pos := -1;
    }

    /** Step to the next entry; false, without moving, at the end of the list. */
    method Next() returns (more: bool)
      requires Valid()
      modifies this
      ensures Valid() && sl == old(sl)
      ensures more == (old(pos) + 1 < |sl.elems|)
      ensures pos == if more then old(pos) + 1 else old(pos)
      ensures more && old(pos) >= 0 ==> LessEq(sl.Contents()[old(pos)].key, sl.Contents()[pos].key)
    {
      StepFacts(sl.nodes, sl.elems, sl.currLevel, sl.maxLevel, pos);
      if current == Nil || sl.nodes[current].next[0] == Nil {
        return false;
      }
      current := sl.nodes[current].next[0];
      pos := pos + 1;
      return true;
    }

    /** The key under the cursor: the empty key on the head, else that of entry `pos`. */
    function Key(): (k: Bytes)
      reads this, sl
      requires Valid()
      ensures k == if pos < 0 then [] else sl.Contents()[pos].key
    {
      sl.nodes[current].key
    }

    /** The value under the cursor: the empty value on the head, else that of entry `pos`. */
    function Value(): (v: Bytes)
      reads this, sl
      requires Valid()
      ensures v == if pos < 0 then [] else sl.Contents()[pos].value
    {
      sl.nodes[current].value
    }
  }
}
