/**
 * The prototype skip list of the utils package. It has no sentinel: the
 * first Put stores its entry in the head node itself, and every later entry
 * is linked in after the head whatever its key. The descent never compares
 * against the head's own key, so that first entry is never found again and
 * Delete cannot remove it. There is no size counter and no key check, and
 * InitSL keeps its arguments as given.
 */
module UtilsSkipList {
  import opened Wrappers
  import opened Keys
  import opened Ordered
  import opened Arena

  class SkipList {
    /** The arena; empty while the head is nil. */
    var nodes: seq<Node>
    var p: real
    var currLevel: int
    var maxLevel: int
    /** The nodes of the level-0 chain after the head, in order. */
    ghost var elems: seq<int>

    /**
     * Either the head is nil and the list has never been written, or the
     * arena has the skip-list shape, or a first Put with a height bound of 0
     * has left a head with no levels at all.
     */
    ghost predicate Valid()
      reads this
    {
      || (nodes == [] && elems == [] && currLevel == 0)
      || Shape(nodes, elems, currLevel, maxLevel)
      || (maxLevel == 0 && |nodes| == 1 && nodes[Head].next == [] && elems == [] && currLevel == 1)
    }

    /** The entries reachable after the head, in list order: sorted by key, duplicates newest first. */
    ghost function Contents(): seq<Entry>
      reads this
    {
      Entries(nodes, elems)
    }

    /** The entry held by the head node itself, none while the head is nil. */
    ghost function HeadEntry(): Option<Entry>
      reads this
    {
      if nodes == [] then None else Some(Entry(nodes[Head].key, nodes[Head].value))
    }

    /** A nil head and level 0; the probability and the height bound are kept as given. */
    constructor InitSL(p: real, maxLevel: int)
      ensures Valid() && nodes == [] && Contents() == [] && HeadEntry() == None
      ensures this.p == p && this.maxLevel == maxLevel && currLevel == 0
    {
      nodes := [];
      this.p := p;
      this.maxLevel := maxLevel;
      currLevel := 0;
      elems := [];
    }

    /**
     * The first Put fills the head and leaves nothing reachable after it;
     * every later Put links `(key, value)` in after the smaller keys and
     * before any entry with this key, without touching the head.
     */
    method Put(key: Bytes, value: Bytes)
      requires Valid() && 0 <= maxLevel && (nodes != [] ==> 1 <= maxLevel)
      modifies this
      ensures Valid() && p == old(p) && maxLevel == old(maxLevel)
      ensures old(nodes) == [] ==>
        Contents() == [] && HeadEntry() == Some(Entry(key, value)) && currLevel == 1
      ensures old(nodes) != [] ==>
        Contents() == Insert(old(Contents()), key, value) && HeadEntry() == old(HeadEntry())
    {
      if |nodes| == 0 {
        nodes := [Node(key, value, Nils(maxLevel))];
        currLevel := 1;
        if maxLevel > 0 {
          EmptyShape(nodes[Head], maxLevel);
        }
        return;
      }
      var levelTrack, currentNode := Descend(nodes, elems, currLevel, maxLevel, key);
      var newLevel := LevelUp();
      var nodes', level := Place(nodes, elems, currLevel, maxLevel, levelTrack, newLevel, key, value);
      nodes, elems, currLevel := nodes', InsertAt(nodes, elems, key), level;
    }

    /** The value of the first reachable entry with `key`; the head's own entry is never looked at. */
    method Get(key: Bytes) returns (value: Bytes, found: bool)
      requires Valid() && nodes != [] && 1 <= maxLevel
      ensures found == Find(Contents(), key).Some?
      ensures value == Find(Contents(), key).GetOr([])
    {
      var track, current := Descend(nodes, elems, currLevel, maxLevel, key);
      NextOnLevelZero(nodes, elems, currLevel, maxLevel, key);
      current := nodes[current].next[0];
      if current != Nil && nodes[current].key == key {
        return nodes[current].value, true;
      }
      return [], false;
    }

    /**
     * Remove the first reachable entry with `key` on every level its node
     * reaches, then drop empty top levels (never below 1); the head stays.
     */
    method Delete(key: Bytes) returns (deleted: bool)
      requires Valid() && nodes != [] && 1 <= maxLevel
      modifies this
      ensures Valid() && p == old(p) && maxLevel == old(maxLevel)
      ensures deleted == Find(old(Contents()), key).Some?
      ensures Contents() == RemoveFirst(old(Contents()), key)
      ensures HeadEntry() == old(HeadEntry())
      ensures !deleted ==> nodes == old(nodes) && currLevel == old(currLevel)
      ensures deleted ==> 1 <= currLevel <= old(currLevel) && (currLevel == 1 || nodes[Head].next[currLevel - 1] != Nil)
    {
      var update, current := Descend(nodes, elems, currLevel, maxLevel, key);
      NextOnLevelZero(nodes, elems, currLevel, maxLevel, key);
      current := nodes[current].next[0];
      if current == Nil || nodes[current].key != key {
        RemoveFirstMissing(Contents(), key);
        return false;
      }
      var nodes' := UnlinkNode(nodes, elems, currLevel, maxLevel, update, current, key);
      ghost var elems' := RemoveAt(nodes, elems, key);
      var level := DropLevels(nodes', elems', currLevel, maxLevel);
      CutIsRemoveFirst(nodes, elems, currLevel, maxLevel, key, nodes', level);
      nodes, elems, currLevel := nodes', elems', level;
      return true;
    }

    /** The height of a new node: one plus the number of heads thrown in a row, at most `maxLevel`. */
    method LevelUp() returns (level: int)
      requires 1 <= maxLevel
      ensures 1 <= level <= maxLevel
    {
      level := 1;
      var heads: bool :| true;
      while heads && level < maxLevel
        invariant 1 <= level <= maxLevel
        decreases maxLevel - level
      {
        level := level + 1;
        heads :| true;
      }
    }
  }

  /** After Delete's unlinking the reachable entries are RemoveFirst of the old ones, and the head is kept. */
  lemma CutIsRemoveFirst(nodes: seq<Node>, elems: seq<int>, currLevel: int, maxLevel: int, key: Bytes,
                         r: seq<Node>, level: int)
    requires Shape(nodes, elems, currLevel, maxLevel)
    requires Position(Entries(nodes, elems), key) < |elems|
    requires Entries(nodes, elems)[Position(Entries(nodes, elems), key)].key == key
    requires Entries(r, RemoveAt(nodes, elems, key)) == Entries(nodes, elems)[..Position(Entries(nodes, elems), key)]
      + Entries(nodes, elems)[Position(Entries(nodes, elems), key) + 1..]
    requires SameNodes(nodes, r)
    ensures Entries(r, RemoveAt(nodes, elems, key)) == RemoveFirst(Entries(nodes, elems), key)
    ensures r[Head].key == nodes[Head].key && r[Head].value == nodes[Head].value
  {
    RemoveAtPosition(Entries(nodes, elems), key);
  }

  /** The first key put into a fresh list is not found by Get, though the list holds it in its head. */
  method FirstKeyLost(maxLevel: int, key: Bytes, value: Bytes) returns (found: bool)
    requires 1 <= maxLevel
    ensures !found
  {
    var sl := new SkipList.InitSL(0.5, maxLevel);
    sl.Put(key, value);
    var v;
    v, found := sl.Get(key);
  }
}
