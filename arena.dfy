/**
 * Skip-list nodes held in an arena: a node is addressed by its index, a
 * forward pointer is an index or Nil, and node 0 is the head. The ghost list
 * `elems` names the nodes of the level-0 chain in order; the chain of level i
 * holds exactly those of them whose height (number of forward pointers)
 * exceeds i. This module states that shape, proves what splicing a node in or
 * unlinking it does to it, and holds the descent that both skip lists share.
 */
module Arena {
  import opened Keys
  import opened Ordered
  import opened Seqs
  import opened Wrappers

  const Nil: int := -1
  const Head: int := 0

  /** A node: its key, its value and one forward pointer per level it reaches. */
  datatype Node = Node(key: Bytes, value: Bytes, next: seq<int>)

  /** Every index of `L` names a node other than the head. */
  ghost predicate InArena(nodes: seq<Node>, L: seq<int>)
  {
    forall j :: 0 <= j < |L| ==> 0 < L[j] < |nodes|
  }

  ghost predicate Distinct(L: seq<int>)
  {
    forall a, b :: 0 <= a < b < |L| ==> L[a] != L[b]
  }

  /** The nodes of `elems` whose height exceeds `i`, in the order of `elems`. */
  ghost function Level(nodes: seq<Node>, elems: seq<int>, i: nat): seq<int>
    decreases |elems|
  {
    if elems == [] then []
    else
      var head := if 0 <= elems[0] < |nodes| && i < |nodes[elems[0]].next| then [elems[0]] else [];
      head + Level(nodes, elems[1..], i)
  }

  /** The entries stored in the nodes `L`, in that order. */
  ghost function Entries(nodes: seq<Node>, L: seq<int>): (c: seq<Entry>)
    ensures |c| == |L|
    ensures forall j :: 0 <= j < |L| && 0 <= L[j] < |nodes| ==> c[j] == Entry(nodes[L[j]].key, nodes[L[j]].value)
  {
    seq(|L|, j requires 0 <= j < |L| =>
      if 0 <= L[j] < |nodes| then Entry(nodes[L[j]].key, nodes[L[j]].value) else Entry([], []))
  }

  /** Position `j` of a chain, where -1 stands for the head. */
  function At(L: seq<int>, j: int): int
    requires -1 <= j < |L|
  {
    if j < 0 then Head else L[j]
  }

  /** What the pointer out of position `j` must hold: the next node, or Nil after the last. */
  function Succ(L: seq<int>, j: int): int
    requires -1 <= j
  {
    if j + 1 < |L| then L[j + 1] else Nil
  }

  /** Following level-`i` pointers from the head visits exactly `L`, then reaches Nil. */
  ghost predicate ChainAt(nodes: seq<Node>, i: nat, L: seq<int>)
  {
    && InArena(nodes, L)
    && 0 < |nodes| && i < |nodes[Head].next|
    && (forall j :: 0 <= j < |L| ==> i < |nodes[L[j]].next|)
    && (forall j :: -1 <= j < |L| ==> nodes[At(L, j)].next[i] == Succ(L, j))
  }

  /**
   * The skip-list shape: a head with `maxLevel` pointers, a level-0 chain of
   * distinct nodes sorted by key, every node at most `currLevel` high, and the
   * chain of every level the filter of the level-0 chain by height.
   */
  ghost predicate Shape(nodes: seq<Node>, elems: seq<int>, currLevel: int, maxLevel: int)
  {
    && Layout(nodes, elems, currLevel, maxLevel)
    && (forall i: nat :: i < maxLevel ==> ChainAt(nodes, i, Level(nodes, elems, i)))
  }

  /** The skip-list shape without the chains. */
  ghost predicate Layout(nodes: seq<Node>, elems: seq<int>, currLevel: int, maxLevel: int)
  {
    && 1 <= currLevel <= maxLevel
    && 0 < |nodes| && |nodes[Head].next| == maxLevel
    && InArena(nodes, elems) && Distinct(elems)
    && (forall j :: 0 <= j < |elems| ==> 1 <= |nodes[elems[j]].next| <= currLevel)
    && Sorted(Entries(nodes, elems))
  }

  /** The node a descent for `k` stops at on level `i`: the last one below `k`, or the head. */
  ghost function Pred(nodes: seq<Node>, elems: seq<int>, i: nat, k: Bytes): int
  {
    var L := Level(nodes, elems, i);
    At(L, Position(Entries(nodes, L), k) - 1)
  }

  /** Pred spelled out. */
  lemma PredAt(nodes: seq<Node>, elems: seq<int>, i: nat, k: Bytes)
    ensures var L := Level(nodes, elems, i);
      Pred(nodes, elems, i, k) == At(L, Position(Entries(nodes, L), k) - 1)
  {
  }

  /** `nodes` with the level-`i` pointer of node `x` set to `target`. */
  function SetNext(nodes: seq<Node>, x: int, i: nat, target: int): (r: seq<Node>)
    requires 0 <= x < |nodes| && i < |nodes[x].next|
    ensures |r| == |nodes|
    ensures forall y :: 0 <= y < |nodes| ==>
      r[y].key == nodes[y].key && r[y].value == nodes[y].value && |r[y].next| == |nodes[y].next|
    ensures forall y, l :: 0 <= y < |nodes| && 0 <= l < |nodes[y].next| && (y != x || l != i) ==>
      r[y].next[l] == nodes[y].next[l]
    ensures r[x].next[i] == target
  {
    nodes[x := nodes[x].(next := nodes[x].next[i := target])]
  }

  // ---------------------------------------------------------------- levels

  lemma {:induction false} LevelAppend(nodes: seq<Node>, a: seq<int>, b: seq<int>, i: nat)
    requires InArena(nodes, a) && InArena(nodes, b)
    ensures InArena(nodes, a + b)
    ensures Level(nodes, a + b, i) == Level(nodes, a, i) + Level(nodes, b, i)
  {
    if a == [] {
      AppendEmpty(b);
      AppendEmpty(Level(nodes, b, i));
    } else {
      AppendCons(a, b);
      LevelAppend(nodes, a[1..], b, i);
      var h := if 0 <= a[0] < |nodes| && i < |nodes[a[0]].next| then [a[0]] else [];
      assert Level(nodes, a + b, i) == h + (Level(nodes, a[1..], i) + Level(nodes, b, i));
      AppendAssoc(h, Level(nodes, a[1..], i), Level(nodes, b, i));
    }
  }

  lemma {:induction false} LevelMember(nodes: seq<Node>, elems: seq<int>, i: nat)
    requires InArena(nodes, elems)
    ensures InArena(nodes, Level(nodes, elems, i))
    ensures forall x :: x in Level(nodes, elems, i) <==> x in elems && i < |nodes[x].next|
    ensures |Level(nodes, elems, i)| <= |elems|
  {
    if elems != [] {
      LevelMember(nodes, elems[1..], i);
      assert elems == [elems[0]] + elems[1..];
    }
  }

  lemma {:induction false} LevelDistinct(nodes: seq<Node>, elems: seq<int>, i: nat)
    requires InArena(nodes, elems) && Distinct(elems)
    ensures Distinct(Level(nodes, elems, i))
  {
    if elems != [] {
      LevelDistinct(nodes, elems[1..], i);
      LevelMember(nodes, elems[1..], i);
      assert elems[0] !in elems[1..];
    }
  }

  /** The first node of a sorted chain has a key no larger than any other node of it. */
  lemma SortedFirstLeast(nodes: seq<Node>, elems: seq<int>)
    requires InArena(nodes, elems) && Sorted(Entries(nodes, elems)) && elems != []
    ensures forall y :: y in elems[1..] ==> LessEq(nodes[elems[0]].key, nodes[y].key)
  {
    forall y | y in elems[1..] ensures LessEq(nodes[elems[0]].key, nodes[y].key) {
      var j :| 0 <= j < |elems[1..]| && elems[1..][j] == y;
      assert Entries(nodes, elems)[j + 1].key == nodes[y].key;
    }
  }

  /** Putting a node no larger than all of a sorted list in front of it keeps it sorted. */
  lemma SortedCons(nodes: seq<Node>, x: int, R: seq<int>)
    requires 0 < x < |nodes| && InArena(nodes, R) && Sorted(Entries(nodes, R))
    requires forall j :: 0 <= j < |R| ==> LessEq(nodes[x].key, nodes[R[j]].key)
    ensures InArena(nodes, [x] + R) && Sorted(Entries(nodes, [x] + R))
  {
    var L := [x] + R;
    var E, ER := Entries(nodes, L), Entries(nodes, R);
    ConsParts(x, R);
    forall a, b | 0 <= a < b < |L| ensures LessEq(E[a].key, E[b].key) {
      assert L[b] == R[b - 1];
      if a > 0 {
        assert L[a] == R[a - 1];
        assert ER[a - 1] == E[a] && ER[b - 1] == E[b];
      }
    }
  }

  /** A level is a subsequence of a sorted chain, so it is sorted too. */
  lemma {:induction false} LevelSorted(nodes: seq<Node>, elems: seq<int>, i: nat)
    requires InArena(nodes, elems) && Sorted(Entries(nodes, elems))
    ensures Sorted(Entries(nodes, Level(nodes, elems, i)))
  {
    if elems != [] {
      var rest := elems[1..];
      assert Entries(nodes, rest) == Entries(nodes, elems)[1..];
      LevelSorted(nodes, rest, i);
      if i < |nodes[elems[0]].next| {
        LevelMember(nodes, rest, i);
        SortedFirstLeast(nodes, elems);
        var R := Level(nodes, rest, i);
        forall j | 0 <= j < |R| ensures LessEq(nodes[elems[0]].key, nodes[R[j]].key) {
          assert R[j] in R;
        }
        SortedCons(nodes, elems[0], R);
      } else {
        assert Level(nodes, elems, i) == Level(nodes, rest, i);
      }
    }
  }

  /** Every node of the level-0 chain reaches level 0. */
  lemma {:induction false} LevelZero(nodes: seq<Node>, elems: seq<int>)
    requires InArena(nodes, elems)
    requires forall j :: 0 <= j < |elems| ==> 1 <= |nodes[elems[j]].next|
    ensures Level(nodes, elems, 0) == elems
  {
    if elems != [] {
      LevelZero(nodes, elems[1..]);
      assert elems == [elems[0]] + elems[1..];
    }
  }

  /**
   * Walking level 0: the pointer out of position `pos` of the level-0 chain
   * (-1 is the head) leads to the next node of the chain, or is Nil at the end.
   */
  lemma StepFacts(nodes: seq<Node>, elems: seq<int>, currLevel: int, maxLevel: int, pos: int)
    requires Shape(nodes, elems, currLevel, maxLevel) && -1 <= pos < |elems|
    ensures 0 <= At(elems, pos) < |nodes| && 0 < |nodes[At(elems, pos)].next|
    ensures nodes[At(elems, pos)].next[0] == Succ(elems, pos)
    ensures pos + 1 < |elems| ==> Succ(elems, pos) == elems[pos + 1] != Nil
  {
    LevelZero(nodes, elems);
    ChainPointer(nodes, 0, elems, pos);
  }

  /** A level depends only on the heights of the chain's nodes. */
  lemma {:induction false} LevelFrame(nodes: seq<Node>, nodes': seq<Node>, elems: seq<int>, i: nat)
    requires InArena(nodes, elems) && InArena(nodes', elems)
    requires forall j :: 0 <= j < |elems| ==> |nodes'[elems[j]].next| == |nodes[elems[j]].next|
    ensures Level(nodes', elems, i) == Level(nodes, elems, i)
  {
    if elems != [] {
      LevelFrame(nodes, nodes', elems[1..], i);
    }
  }

  lemma {:induction false} LevelSingle(nodes: seq<Node>, x: int, i: nat)
    requires 0 < x < |nodes|
    ensures InArena(nodes, [x])
    ensures Level(nodes, [x], i) == if i < |nodes[x].next| then [x] else []
  {
    assert [x][1..] == [];
  }

  /** The parts of a chain around index `c` are chains of the arena too. */
  lemma InArenaSlices(nodes: seq<Node>, elems: seq<int>, c: nat)
    requires InArena(nodes, elems) && c <= |elems|
    ensures InArena(nodes, elems[..c]) && InArena(nodes, elems[c..])
    ensures c < |elems| ==> InArena(nodes, [elems[c]]) && InArena(nodes, elems[c + 1..])
  {
  }

  /** The entries of a list depend only on the keys and values of its nodes. */
  lemma EntriesFrame(nodes: seq<Node>, nodes': seq<Node>, L: seq<int>)
    requires InArena(nodes, L) && InArena(nodes', L)
    requires forall j :: 0 <= j < |L| ==> nodes'[L[j]].key == nodes[L[j]].key && nodes'[L[j]].value == nodes[L[j]].value
    ensures Entries(nodes', L) == Entries(nodes, L)
  {
  }

  lemma EntriesAppend(nodes: seq<Node>, a: seq<int>, b: seq<int>)
    requires InArena(nodes, a) && InArena(nodes, b)
    ensures InArena(nodes, a + b)
    ensures Entries(nodes, a + b) == Entries(nodes, a) + Entries(nodes, b)
  {
  }

  // ---------------------------------------------------------------- chains

  /** Distinct positions of a chain of distinct nodes hold distinct nodes (the head is not in it). */
  lemma AtInjective(L: seq<int>, a: int, b: int)
    requires (forall j :: 0 <= j < |L| ==> 0 < L[j]) && Distinct(L)
    requires -1 <= a < |L| && -1 <= b < |L| && a != b
    ensures At(L, a) != At(L, b)
  {
  }

  /** Setting a pointer on one level leaves the chains of the other levels as they were. */
  lemma SetNextOtherLevel(nodes: seq<Node>, x: int, i: nat, target: int, l: nat, L: seq<int>)
    requires 0 <= x < |nodes| && i < |nodes[x].next| && l != i
    requires ChainAt(nodes, l, L)
    ensures ChainAt(SetNext(nodes, x, i, target), l, L)
  {
    var r := SetNext(nodes, x, i, target);
    forall j | -1 <= j < |L| ensures r[At(L, j)].next[l] == Succ(L, j) {
    }
  }

  /** One pointer after SetNext: the one set, or the old one. */
  lemma SetNextAt(nodes: seq<Node>, x: int, i: nat, target: int, y: int)
    requires 0 <= x < |nodes| && i < |nodes[x].next|
    requires 0 <= y < |nodes| && i < |nodes[y].next|
    ensures SetNext(nodes, x, i, target)[y].next[i] == if y == x then target else nodes[y].next[i]
  {
  }

  /** The pointer out of position `j` of the chain after a splice at `q`. */
  lemma SplicePointer(nodes: seq<Node>, i: nat, L: seq<int>, q: int, N: int, j: int)
    requires ChainAt(nodes, i, L) && Distinct(L)
    requires 0 <= q <= |L|
    requires 0 < N < |nodes| && N !in L && i < |nodes[N].next|
    requires -1 <= j <= |L|
    ensures var L' := Splice(L, q, N);
      var n1 := SetNext(nodes, N, i, nodes[At(L, q - 1)].next[i]);
      var n2 := SetNext(n1, At(L, q - 1), i, N);
      |L'| == |L| + 1 && 0 <= At(L', j) < |nodes| && i < |nodes[At(L', j)].next| &&
      n2[At(L', j)].next[i] == Succ(L', j)
  {
    if j < q - 1 {
      SplicePointerBefore(nodes, i, L, q, N, j);
    } else if j == q - 1 {
      SplicePointerPred(nodes, i, L, q, N, j);
    } else if j == q {
      SplicePointerNew(nodes, i, L, q, N, j);
    } else {
      SplicePointerAfter(nodes, i, L, q, N, j);
    }
  }

  /** Before the predecessor nothing changes. */
  lemma SplicePointerBefore(nodes: seq<Node>, i: nat, L: seq<int>, q: int, N: int, j: int)
    requires ChainAt(nodes, i, L) && Distinct(L)
    requires 0 <= q <= |L|
    requires 0 < N < |nodes| && N !in L && i < |nodes[N].next|
    requires -1 <= j < q - 1
    ensures var L' := Splice(L, q, N);
      var n1 := SetNext(nodes, N, i, nodes[At(L, q - 1)].next[i]);
      var n2 := SetNext(n1, At(L, q - 1), i, N);
      |L'| == |L| + 1 && 0 <= At(L', j) < |nodes| && i < |nodes[At(L', j)].next| &&
      n2[At(L', j)].next[i] == Succ(L', j)
  {
    var pred := At(L, q - 1);
    var n1 := SetNext(nodes, N, i, nodes[pred].next[i]);
    var L' := Splice(L, q, N);
    SpliceIndex(L, q, N);
    ChainPointer(nodes, i, L, j);
    assert At(L', j) == At(L, j);
    AtInjective(L, j, q - 1);
    SetNextAt(n1, pred, i, N, At(L, j));
    SetNextAt(nodes, N, i, nodes[pred].next[i], At(L, j));
    assert Succ(L', j) == Succ(L, j);
  }

  /** The predecessor now points at the new node. */
  lemma SplicePointerPred(nodes: seq<Node>, i: nat, L: seq<int>, q: int, N: int, j: int)
    requires ChainAt(nodes, i, L) && Distinct(L)
    requires 0 <= q <= |L|
    requires 0 < N < |nodes| && N !in L && i < |nodes[N].next|
    requires j == q - 1
    ensures var L' := Splice(L, q, N);
      var n1 := SetNext(nodes, N, i, nodes[At(L, q - 1)].next[i]);
      var n2 := SetNext(n1, At(L, q - 1), i, N);
      |L'| == |L| + 1 && 0 <= At(L', j) < |nodes| && i < |nodes[At(L', j)].next| &&
      n2[At(L', j)].next[i] == Succ(L', j)
  {
    var pred := At(L, q - 1);
    var n1 := SetNext(nodes, N, i, nodes[pred].next[i]);
    var L' := Splice(L, q, N);
    SpliceIndex(L, q, N);
    ChainPointer(nodes, i, L, q - 1);
    assert At(L', j) == pred;
    SetNextAt(n1, pred, i, N, pred);
  }

  /** The new node took over the predecessor's old pointer. */
  lemma SplicePointerNew(nodes: seq<Node>, i: nat, L: seq<int>, q: int, N: int, j: int)
    requires ChainAt(nodes, i, L) && Distinct(L)
    requires 0 <= q <= |L|
    requires 0 < N < |nodes| && N !in L && i < |nodes[N].next|
    requires j == q
    ensures var L' := Splice(L, q, N);
      var n1 := SetNext(nodes, N, i, nodes[At(L, q - 1)].next[i]);
      var n2 := SetNext(n1, At(L, q - 1), i, N);
      |L'| == |L| + 1 && 0 <= At(L', j) < |nodes| && i < |nodes[At(L', j)].next| &&
      n2[At(L', j)].next[i] == Succ(L', j)
  {
    var pred := At(L, q - 1);
    var n1 := SetNext(nodes, N, i, nodes[pred].next[i]);
    var L' := Splice(L, q, N);
    SpliceIndex(L, q, N);
    ChainPointer(nodes, i, L, q - 1);
    assert At(L', j) == N;
    SetNextAt(n1, pred, i, N, N);
    SetNextAt(nodes, N, i, nodes[pred].next[i], N);
  }

  /** After the new node nothing changes, one position further on. */
  lemma SplicePointerAfter(nodes: seq<Node>, i: nat, L: seq<int>, q: int, N: int, j: int)
    requires ChainAt(nodes, i, L) && Distinct(L)
    requires 0 <= q <= |L|
    requires 0 < N < |nodes| && N !in L && i < |nodes[N].next|
    requires q < j <= |L|
    ensures var L' := Splice(L, q, N);
      var n1 := SetNext(nodes, N, i, nodes[At(L, q - 1)].next[i]);
      var n2 := SetNext(n1, At(L, q - 1), i, N);
      |L'| == |L| + 1 && 0 <= At(L', j) < |nodes| && i < |nodes[At(L', j)].next| &&
      n2[At(L', j)].next[i] == Succ(L', j)
  {
    var pred := At(L, q - 1);
    var n1 := SetNext(nodes, N, i, nodes[pred].next[i]);
    var L' := Splice(L, q, N);
    SpliceIndex(L, q, N);
    assert At(L', j) == L[j - 1];
    ChainPointer(nodes, i, L, j - 1);
    AtInjective(L, j - 1, q - 1);
    SetNextAt(n1, pred, i, N, L[j - 1]);
    SetNextAt(nodes, N, i, nodes[pred].next[i], L[j - 1]);
    assert Succ(L', j) == Succ(L, j - 1);
  }

  /**
   * Splicing node `N` in after position `q - 1` of the level-`i` chain:
   * first `N` takes over the predecessor's pointer, then the predecessor points at `N`.
   */
  lemma SpliceChain(nodes: seq<Node>, i: nat, L: seq<int>, q: int, N: int)
    requires ChainAt(nodes, i, L) && Distinct(L)
    requires 0 <= q <= |L|
    requires 0 < N < |nodes| && N !in L && i < |nodes[N].next|
    ensures var n1 := SetNext(nodes, N, i, nodes[At(L, q - 1)].next[i]);
      ChainAt(SetNext(n1, At(L, q - 1), i, N), i, Splice(L, q, N))
  {
    var pred := At(L, q - 1);
    var n1 := SetNext(nodes, N, i, nodes[pred].next[i]);
    var n2 := SetNext(n1, pred, i, N);
    var L' := Splice(L, q, N);
    SpliceIndex(L, q, N);
    forall j | 0 <= j < |L'| ensures 0 < L'[j] < |n2| && i < |n2[L'[j]].next| {
      SplicePointer(nodes, i, L, q, N, j);
    }
    forall j | -1 <= j < |L'| ensures n2[At(L', j)].next[i] == Succ(L', j) {
      SplicePointer(nodes, i, L, q, N, j);
    }
  }

  /** Unlinking the node at position `q` of the level-`i` chain: its predecessor takes over its pointer. */
  lemma UnlinkChain(nodes: seq<Node>, i: nat, L: seq<int>, q: int)
    requires ChainAt(nodes, i, L) && Distinct(L)
    requires 0 <= q < |L|
    ensures ChainAt(SetNext(nodes, At(L, q - 1), i, nodes[L[q]].next[i]), i, Cut(L, q))
  {
    var pred := At(L, q - 1);
    var r := SetNext(nodes, pred, i, nodes[L[q]].next[i]);
    var L' := Cut(L, q);
    CutIndex(L, q);
    forall j | 0 <= j < |L'| ensures 0 < L'[j] < |r| && i < |r[L'[j]].next| {
      if j < q {
        assert L'[j] == L[j];
      } else {
        assert L'[j] == L[j + 1];
      }
    }
    forall j | -1 <= j < |L'| ensures r[At(L', j)].next[i] == Succ(L', j) {
      if j < q - 1 {
        assert At(L', j) == At(L, j);
        AtInjective(L, j, q - 1);
        assert Succ(L', j) == Succ(L, j);
      } else if j == q - 1 {
        assert At(L', j) == pred;
        assert nodes[L[q]].next[i] == Succ(L, q);
        assert Succ(L', j) == Succ(L, q);
      } else {
        assert At(L', j) == L[j + 1];
        AtInjective(L, j + 1, q - 1);
        assert Succ(L', j) == Succ(L, j + 1);
      }
    }
  }

  /** A chain whose head pointer is Nil is empty. */
  lemma EmptyChain(nodes: seq<Node>, i: nat, L: seq<int>)
    requires ChainAt(nodes, i, L) && nodes[Head].next[i] == Nil
    ensures L == []
  {
    assert Succ(L, -1) == nodes[At(L, -1)].next[i];
  }

  // ---------------------------------------------------------------- descent

  /** Behind the stopping point of a descent for `k` no key of a sorted chain is below `k`. */
  lemma SuffixNotBelow(nodes: seq<Node>, elems: seq<int>, k: Bytes)
    requires InArena(nodes, elems) && Sorted(Entries(nodes, elems))
    ensures var S := elems[Position(Entries(nodes, elems), k)..];
      forall t :: 0 <= t < |S| ==> !Less(nodes[S[t]].key, k)
  {
    var E := Entries(nodes, elems);
    var c := Position(E, k);
    var S := elems[c..];
    forall t | 0 <= t < |S| ensures !Less(nodes[S[t]].key, k) {
      assert S[t] == elems[c + t];
      if t > 0 {
        assert LessEq(E[c].key, E[c + t].key);
      }
      NotLessMonotone(E[c].key, E[c + t].key, k);
    }
  }

  /** Before the stopping point every key is below `k`. */
  lemma PrefixBelow(nodes: seq<Node>, elems: seq<int>, k: Bytes)
    requires InArena(nodes, elems)
    ensures var P := elems[..Position(Entries(nodes, elems), k)];
      forall t :: 0 <= t < |P| ==> Less(nodes[P[t]].key, k)
  {
    var E := Entries(nodes, elems);
    var P := elems[..Position(E, k)];
    forall t | 0 <= t < |P| ensures Less(nodes[P[t]].key, k) {
      assert E[t].key == nodes[P[t]].key;
    }
  }

  /** A level keeps a property of the keys that all nodes of the chain share: being below `k`, or not. */
  lemma LevelKeys(nodes: seq<Node>, P: seq<int>, l: nat, k: Bytes, below: bool)
    requires InArena(nodes, P)
    requires forall t :: 0 <= t < |P| ==> Less(nodes[P[t]].key, k) == below
    ensures InArena(nodes, Level(nodes, P, l))
    ensures forall a :: 0 <= a < |Level(nodes, P, l)| ==> Less(nodes[Level(nodes, P, l)[a]].key, k) == below
  {
    var A := Level(nodes, P, l);
    LevelMember(nodes, P, l);
    forall a | 0 <= a < |A| ensures Less(nodes[A[a]].key, k) == below {
      assert A[a] in A;
      var t :| 0 <= t < |P| && P[t] == A[a];
    }
  }

  /**
   * On every level `l` of a sorted chain, a descent for `k` stops after the
   * nodes of that level lying before the level-0 stopping point `c`.
   */
  lemma LevelSplit(nodes: seq<Node>, elems: seq<int>, k: Bytes, l: nat)
    requires InArena(nodes, elems) && Sorted(Entries(nodes, elems))
    ensures var c := Position(Entries(nodes, elems), k);
      var L := Level(nodes, elems, l);
      && InArena(nodes, elems[..c])
      && Position(Entries(nodes, L), k) == |Level(nodes, elems[..c], l)|
      && |Level(nodes, elems[..c], l)| <= |L|
      && Pred(nodes, elems, l, k) == At(L, |Level(nodes, elems[..c], l)| - 1)
  {
    var c := Position(Entries(nodes, elems), k);
    Split(elems, c);
    InArenaSlices(nodes, elems, c);
    PrefixBelow(nodes, elems, k);
    SuffixNotBelow(nodes, elems, k);
    SplitLevel(nodes, elems[..c], elems[c..], k, l);
  }

  /**
   * A chain made of nodes below `k` followed by nodes not below `k`: on every
   * level a descent for `k` stops after the level's part of the first group.
   */
  lemma SplitLevel(nodes: seq<Node>, P: seq<int>, S: seq<int>, k: Bytes, l: nat)
    requires InArena(nodes, P) && InArena(nodes, S)
    requires forall t :: 0 <= t < |P| ==> Less(nodes[P[t]].key, k)
    requires forall t :: 0 <= t < |S| ==> !Less(nodes[S[t]].key, k)
    ensures var L := Level(nodes, P + S, l);
      && Position(Entries(nodes, L), k) == |Level(nodes, P, l)|
      && |Level(nodes, P, l)| <= |L|
      && Pred(nodes, P + S, l, k) == At(L, |Level(nodes, P, l)| - 1)
  {
    var A, B := Level(nodes, P, l), Level(nodes, S, l);
    LevelAppend(nodes, P, S, l);
    LevelKeys(nodes, P, l, k, true);
    LevelKeys(nodes, S, l, k, false);
    BelowThenNot(nodes, A, B, k);
    PredAt(nodes, P + S, l, k);
  }

  /** The stopping point of a descent along `A + B`, where `A` is below `k` and `B` starts with a node that is not. */
  lemma BelowThenNot(nodes: seq<Node>, A: seq<int>, B: seq<int>, k: Bytes)
    requires InArena(nodes, A) && InArena(nodes, B)
    requires forall a :: 0 <= a < |A| ==> Less(nodes[A[a]].key, k)
    requires forall a :: 0 <= a < |B| ==> !Less(nodes[B[a]].key, k)
    ensures Position(Entries(nodes, A + B), k) == |A|
  {
    var L := A + B;
    var EL := Entries(nodes, L);
    forall a | 0 <= a < |A| ensures Less(EL[a].key, k) {
      assert L[a] == A[a];
    }
    if |B| > 0 {
      assert L[|A|] == B[0];
    }
    PositionUnique(EL, k, |A|);
  }

  /** Where a descent enters level `i` from above: a position whose nodes are all below `k`. */
  lemma EnterLevel(nodes: seq<Node>, elems: seq<int>, i: nat, cur: int, k: Bytes) returns (j: int)
    requires InArena(nodes, elems) && Sorted(Entries(nodes, elems))
    requires cur == Head || (cur in elems && i < |nodes[cur].next| && Less(nodes[cur].key, k))
    ensures var L := Level(nodes, elems, i);
      InArena(nodes, L) && -1 <= j < |L| && At(L, j) == cur && forall a :: 0 <= a <= j ==> Less(nodes[L[a]].key, k)
  {
    var L := Level(nodes, elems, i);
    LevelMember(nodes, elems, i);
    if cur == Head {
      j := -1;
    } else {
      LevelMember(nodes, elems, i);
      j :| 0 <= j < |L| && L[j] == cur;
      LevelSorted(nodes, elems, i);
      var E := Entries(nodes, L);
      forall a | 0 <= a <= j ensures Less(nodes[L[a]].key, k) {
        if a < j {
          assert LessEq(E[a].key, E[j].key);
          if E[a].key != E[j].key {
            LessTransitive(E[a].key, E[j].key, k);
          }
        }
      }
    }
  }

  /** Where the scan on level `i` stops — the next node is Nil or not below `k` — is Pred. */
  lemma LeaveLevel(nodes: seq<Node>, elems: seq<int>, i: nat, j: int, k: Bytes)
    requires InArena(nodes, elems) && InArena(nodes, Level(nodes, elems, i))
    requires var L := Level(nodes, elems, i);
      -1 <= j < |L| && (forall a :: 0 <= a <= j ==> Less(nodes[L[a]].key, k)) &&
      (j + 1 < |L| ==> !Less(nodes[L[j + 1]].key, k))
    ensures At(Level(nodes, elems, i), j) == Pred(nodes, elems, i, k)
  {
    var L := Level(nodes, elems, i);
    PositionUnique(Entries(nodes, L), k, j + 1);
  }

  /**
   * One level of the descent: move right along level `i` while the next key is
   * below `key`, from the head or from a node of that level below `key`.
   */
  method ScanLevel(nodes: seq<Node>, ghost elems: seq<int>, ghost currLevel: int, ghost maxLevel: int, i: nat,
                   cur0: int, key: Bytes)
      returns (cur: int)
    requires Shape(nodes, elems, currLevel, maxLevel) && i < currLevel
    requires cur0 == Head || (cur0 in elems && i < |nodes[cur0].next| && Less(nodes[cur0].key, key))
    ensures cur == Pred(nodes, elems, i, key)
    ensures cur == Head || (cur in elems && i < |nodes[cur].next| && Less(nodes[cur].key, key))
  {
    ghost var L := Level(nodes, elems, i);
    assert ChainAt(nodes, i, L);
    ghost var j := EnterLevel(nodes, elems, i, cur0, key);
    cur := cur0;
    while nodes[cur].next[i] != Nil && Less(nodes[nodes[cur].next[i]].key, key)
      invariant -1 <= j < |L| && cur == At(L, j)
      invariant forall a :: 0 <= a <= j ==> Less(nodes[L[a]].key, key)
      decreases |L| - j
    {
      cur := nodes[cur].next[i];
      j := j + 1;
    }
    LeaveLevel(nodes, elems, i, j, key);
    LevelMember(nodes, elems, i);
  }

  /**
   * The descent shared by Put, Get and Delete: from level `currLevel - 1` down
   * to 0, move right while the next key is below `key`, and record the node
   * reached on each level.
   */
  method Descend(nodes: seq<Node>, ghost elems: seq<int>, currLevel: int, maxLevel: int, key: Bytes)
      returns (track: seq<int>, cur: int)
    requires Shape(nodes, elems, currLevel, maxLevel)
    ensures track == Track(nodes, elems, currLevel, maxLevel, key, -1)
    ensures cur == Pred(nodes, elems, 0, key)
  {
    track := Nils(maxLevel);
    cur := Head;
    var i := currLevel - 1;
    TrackStart(nodes, elems, currLevel, maxLevel, key);
    while i >= 0
      invariant -1 <= i < currLevel
      invariant track == Track(nodes, elems, currLevel, maxLevel, key, i)
      invariant i >= 0 ==> cur == Head || (cur in elems && i < |nodes[cur].next| && Less(nodes[cur].key, key))
      invariant i < currLevel - 1 ==> cur == track[i + 1]
    {
      cur := ScanLevel(nodes, elems, currLevel, maxLevel, i, cur, key);
      TrackStep(nodes, elems, currLevel, maxLevel, key, i);
      track := track[i := cur];
      i := i - 1;
    }
    assert Layout(nodes, elems, currLevel, maxLevel);
    assert cur == track[0];
    TrackDone(nodes, elems, currLevel, maxLevel, key);
  }

  /**
   * The track of a descent once the levels above `i` are done: their stopping
   * points, Nil elsewhere. When all levels are done (`i` is -1) the track
   * holds Pred on every level below `currLevel` and Nil from there up.
   */
  ghost function Track(nodes: seq<Node>, elems: seq<int>, currLevel: int, maxLevel: nat, key: Bytes, i: int): seq<int>
  {
    seq(maxLevel, l requires 0 <= l < maxLevel => if i < l < currLevel then Pred(nodes, elems, l, key) else Nil)
  }

  lemma TrackStart(nodes: seq<Node>, elems: seq<int>, currLevel: int, maxLevel: nat, key: Bytes)
    requires currLevel <= maxLevel
    ensures Track(nodes, elems, currLevel, maxLevel, key, currLevel - 1) == Nils(maxLevel)
  {
  }

  lemma TrackStep(nodes: seq<Node>, elems: seq<int>, currLevel: int, maxLevel: nat, key: Bytes, i: nat)
    requires i < currLevel <= maxLevel
    ensures Track(nodes, elems, currLevel, maxLevel, key, i)[i := Pred(nodes, elems, i, key)]
      == Track(nodes, elems, currLevel, maxLevel, key, i - 1)
  {
  }

  /** Recording the head on an empty level `i` extends the track by one level. */
  lemma TrackRaise(nodes: seq<Node>, elems: seq<int>, i: nat, maxLevel: nat, key: Bytes)
    requires i < maxLevel && Pred(nodes, elems, i, key) == Head
    ensures Track(nodes, elems, i, maxLevel, key, -1)[i := Head] == Track(nodes, elems, i + 1, maxLevel, key, -1)
  {
  }

  lemma TrackDone(nodes: seq<Node>, elems: seq<int>, currLevel: int, maxLevel: nat, key: Bytes)
    requires 0 <= currLevel
    ensures var t := Track(nodes, elems, currLevel, maxLevel, key, -1);
      && |t| == maxLevel
      && (forall i: nat :: i < currLevel && i < maxLevel ==> t[i] == Pred(nodes, elems, i, key))
      && (forall i :: currLevel <= i < maxLevel ==> t[i] == Nil)
  {
  }

  // ---------------------------------------------------------------- put

  /** The pointers of a fresh node of height `h`: all Nil. */
  function Nils(h: nat): (r: seq<int>)
    ensures |r| == h && forall j :: 0 <= j < h ==> r[j] == Nil
  {
    seq(h, _ => Nil)
  }

  /** `nodes` with a fresh node of height `h` for `(k, v)` at its end. */
  function Grow(nodes: seq<Node>, k: Bytes, v: Bytes, h: nat): (r: seq<Node>)
    ensures |r| == |nodes| + 1 && r[|nodes|] == Node(k, v, Nils(h))
    ensures forall y :: 0 <= y < |nodes| ==> r[y] == nodes[y]
  {
    nodes + [Node(k, v, Nils(h))]
  }

  /** The level-0 chain with the fresh node `|nodes|` where a descent for `k` stops. */
  ghost function InsertAt(nodes: seq<Node>, elems: seq<int>, k: Bytes): seq<int>
  {
    Splice(elems, Position(Entries(nodes, elems), k), |nodes|)
  }

  /** Two arenas that differ at most in their pointers. */
  ghost predicate SameNodes(a: seq<Node>, b: seq<Node>)
  {
    && |a| == |b|
    && forall y :: 0 <= y < |a| ==>
      a[y].key == b[y].key && a[y].value == b[y].value && |a[y].next| == |b[y].next|
  }

  /** Appending a node changes no level of a chain already there. */
  lemma AppendLevel(nodes: seq<Node>, x: Node, elems: seq<int>, l: nat)
    requires InArena(nodes, elems)
    ensures InArena(nodes + [x], elems)
    ensures Level(nodes + [x], elems, l) == Level(nodes, elems, l)
  {
    LevelFrame(nodes, nodes + [x], elems, l);
  }

  /** Appending a node changes no entry of a chain already there. */
  lemma AppendEntries(nodes: seq<Node>, x: Node, elems: seq<int>)
    requires InArena(nodes, elems)
    ensures InArena(nodes + [x], elems)
    ensures Entries(nodes + [x], elems) == Entries(nodes, elems)
  {
    EntriesFrame(nodes, nodes + [x], elems);
  }

  /** Appending a node changes no stopping point of a descent. */
  lemma AppendPred(nodes: seq<Node>, x: Node, elems: seq<int>, l: nat, k: Bytes)
    requires InArena(nodes, elems)
    ensures InArena(nodes + [x], elems)
    ensures Pred(nodes + [x], elems, l, k) == Pred(nodes, elems, l, k)
  {
    AppendLevel(nodes, x, elems, l);
    LevelMember(nodes, elems, l);
    AppendEntries(nodes, x, Level(nodes, elems, l));
  }

  lemma ChainAppend(nodes: seq<Node>, x: Node, i: nat, L: seq<int>)
    requires ChainAt(nodes, i, L)
    ensures ChainAt(nodes + [x], i, L)
  {
    var n := nodes + [x];
    forall j | -1 <= j < |L| ensures n[At(L, j)].next[i] == Succ(L, j) {
      assert n[At(L, j)] == nodes[At(L, j)];
    }
  }

  /** Pointers changed, the levels and entries of a chain are as before. */
  lemma SameNodesFrame(a: seq<Node>, b: seq<Node>, elems: seq<int>, l: nat)
    requires SameNodes(a, b) && InArena(a, elems)
    ensures InArena(b, elems)
    ensures Level(b, elems, l) == Level(a, elems, l)
    ensures Entries(b, elems) == Entries(a, elems)
  {
    LevelFrame(a, b, elems, l);
    EntriesFrame(a, b, elems);
  }

  /** A level above the height of every node of the chain is empty. */
  lemma {:induction false} LevelAbove(nodes: seq<Node>, elems: seq<int>, l: nat)
    requires InArena(nodes, elems)
    requires forall j :: 0 <= j < |elems| ==> |nodes[elems[j]].next| <= l
    ensures Level(nodes, elems, l) == []
  {
    if elems != [] {
      LevelAbove(nodes, elems[1..], l);
    }
  }

  /** A level no node reaches is empty, and a descent leaves it at the head. */
  lemma PredAbove(nodes: seq<Node>, elems: seq<int>, l: nat, k: Bytes)
    requires InArena(nodes, elems)
    requires forall j :: 0 <= j < |elems| ==> |nodes[elems[j]].next| <= l
    ensures Level(nodes, elems, l) == [] && Pred(nodes, elems, l, k) == Head
  {
    LevelAbove(nodes, elems, l);
  }

  /**
   * What inserting the fresh node `x` at index `c` of the level-0 chain does to
   * level `l`: it gains the node where its part of the prefix ends if `x`
   * reaches `l`, and is unchanged otherwise.
   */
  lemma PutLevel(nodes: seq<Node>, elems: seq<int>, c: nat, x: Node, l: nat)
    requires 0 < |nodes| && InArena(nodes, elems) && c <= |elems|
    ensures var n1 := nodes + [x];
      var L := Level(nodes, elems, l);
      var q := |Level(nodes, elems[..c], l)|;
      && InArena(n1, elems) && InArena(n1, Splice(elems, c, |nodes|))
      && Level(n1, elems, l) == L && q <= |L|
      && Level(n1, Splice(elems, c, |nodes|), l) == if l < |x.next| then Splice(L, q, |nodes|) else L
  {
    var n1 := nodes + [x];
    var N := |nodes|;
    var P, S := elems[..c], elems[c..];
    Split(elems, c);
    InArenaSlices(nodes, elems, c);
    LevelAppend(nodes, P, S, l);
    var A, B := Level(nodes, P, l), Level(nodes, S, l);
    AppendLevel(nodes, x, elems, l);
    AppendLevel(nodes, x, P, l);
    AppendLevel(nodes, x, S, l);
    LevelSingle(n1, N, l);
    LevelAppend(n1, P, [N], l);
    LevelAppend(n1, P + [N], S, l);
    assert Level(n1, Splice(elems, c, N), l) == A + Level(n1, [N], l) + B;
    if l < |x.next| {
      SpliceMiddle(A, B, N);
    } else {
      AppendEmpty(A);
    }
  }

  /**
   * The state of the splice loop of Put after levels `0 .. i-1`: pointers alone
   * changed, the levels below `i` hold the fresh node, those above are as before.
   */
  ghost predicate Spliced(n1: seq<Node>, cur: seq<Node>, elems: seq<int>, elems': seq<int>, i: nat, maxLevel: int)
  {
    && SameNodes(n1, cur) && InArena(n1, elems) && InArena(n1, elems')
    && (forall l: nat :: l < i ==> ChainAt(cur, l, Level(n1, elems', l)))
    && (forall l: nat :: i <= l < maxLevel ==> ChainAt(cur, l, Level(n1, elems, l)))
  }

  /** Before the splice loop, nothing is spliced. */
  lemma SpliceStart(nodes: seq<Node>, elems: seq<int>, currLevel: int, maxLevel: int, k: Bytes, v: Bytes, h: nat)
    requires Shape(nodes, elems, currLevel, maxLevel)
    ensures var n1 := Grow(nodes, k, v, h); Spliced(n1, n1, elems, InsertAt(nodes, elems, k), 0, maxLevel)
  {
    var x := Node(k, v, Nils(h));
    var n1 := Grow(nodes, k, v, h);
    assert n1 == nodes + [x];
    PutLevel(nodes, elems, Position(Entries(nodes, elems), k), x, 0);
    forall l: nat | l < maxLevel ensures ChainAt(n1, l, Level(n1, elems, l)) {
      AppendLevel(nodes, x, elems, l);
      ChainAppend(nodes, x, l, Level(nodes, elems, l));
    }
  }

  /** One round of the splice loop: the fresh node takes over the predecessor's pointer, the predecessor points at it. */
  lemma SpliceStep(nodes: seq<Node>, elems: seq<int>, maxLevel: int, k: Bytes, v: Bytes, h: nat,
                   cur: seq<Node>, i: nat)
    requires 0 < |nodes| && InArena(nodes, elems) && Distinct(elems) && Sorted(Entries(nodes, elems))
    requires h <= maxLevel && i < h
    requires Spliced(Grow(nodes, k, v, h), cur, elems, InsertAt(nodes, elems, k), i, maxLevel)
    ensures var N := |nodes|;
      var t := Pred(nodes, elems, i, k);
      && 0 <= t < |cur| && i < |cur[t].next| && N < |cur| && i < |cur[N].next|
      && Spliced(Grow(nodes, k, v, h), SetNext(SetNext(cur, N, i, cur[t].next[i]), t, i, N),
                 elems, InsertAt(nodes, elems, k), i + 1, maxLevel)
  {
    var x := Node(k, v, Nils(h));
    var n1 := Grow(nodes, k, v, h);
    assert n1 == nodes + [x];
    var N := |nodes|;
    var c := Position(Entries(nodes, elems), k);
    var elems' := InsertAt(nodes, elems, k);
    var L := Level(nodes, elems, i);
    LevelSplit(nodes, elems, k, i);
    var q: int := |Level(nodes, elems[..c], i)|;
    var t := Pred(nodes, elems, i, k);
    assert t == At(L, q - 1);
    PutLevel(nodes, elems, c, x, i);
    assert Level(n1, elems', i) == Splice(L, q, N);
    LevelMember(nodes, elems, i);
    LevelDistinct(nodes, elems, i);
    assert ChainAt(cur, i, L);
    SpliceChain(cur, i, L, q, N);
    SpliceFrame(n1, cur, elems, elems', i, maxLevel, N, t, cur[t].next[i]);
  }

  /** Two pointers set on level `i` that leave that level chaining the new list advance the splice loop. */
  lemma SpliceFrame(n1: seq<Node>, cur: seq<Node>, elems: seq<int>, elems': seq<int>, i: nat, maxLevel: int,
                    N: int, t: int, target: int)
    requires Spliced(n1, cur, elems, elems', i, maxLevel)
    requires 0 <= N < |cur| && i < |cur[N].next| && 0 <= t < |cur| && i < |cur[t].next|
    requires ChainAt(SetNext(SetNext(cur, N, i, target), t, i, N), i, Level(n1, elems', i))
    ensures Spliced(n1, SetNext(SetNext(cur, N, i, target), t, i, N), elems, elems', i + 1, maxLevel)
  {
    var m1 := SetNext(cur, N, i, target);
    var m2 := SetNext(m1, t, i, N);
    forall l: nat | l < i ensures ChainAt(m2, l, Level(n1, elems', l)) {
      SetNextOtherLevel(cur, N, i, target, l, Level(n1, elems', l));
      SetNextOtherLevel(m1, t, i, N, l, Level(n1, elems', l));
    }
    forall l: nat | i + 1 <= l < maxLevel ensures ChainAt(m2, l, Level(n1, elems, l)) {
      SetNextOtherLevel(cur, N, i, target, l, Level(n1, elems, l));
      SetNextOtherLevel(m1, t, i, N, l, Level(n1, elems, l));
    }
    assert SameNodes(n1, m2);
  }

  /** The entries of the chain with the fresh node are those of Insert. */
  lemma InsertAtEntries(nodes: seq<Node>, elems: seq<int>, k: Bytes, v: Bytes, h: nat, cur: seq<Node>)
    requires 0 < |nodes| && InArena(nodes, elems) && SameNodes(Grow(nodes, k, v, h), cur)
    ensures InArena(cur, InsertAt(nodes, elems, k))
    ensures Entries(cur, InsertAt(nodes, elems, k)) == Insert(Entries(nodes, elems), k, v)
  {
    var n1 := Grow(nodes, k, v, h);
    var N := |nodes|;
    var E := Entries(nodes, elems);
    var c := Position(E, k);
    var P, S := elems[..c], elems[c..];
    InArenaSlices(nodes, elems, c);
    AppendEntries(nodes, n1[N], P);
    AppendEntries(nodes, n1[N], S);
    EntriesAppend(n1, P, [N]);
    EntriesAppend(n1, P + [N], S);
    assert E[..c] == Entries(nodes, P) && E[c..] == Entries(nodes, S);
    assert Entries(n1, [N]) == [Entry(k, v)];
    assert InsertAt(nodes, elems, k) == P + [N] + S;
    SameNodesFrame(n1, cur, P + [N] + S, 0);
  }

  /** Inserting a new index into a list without repeats keeps it without repeats. */
  lemma DistinctInsert(L: seq<int>, c: nat, x: int)
    requires Distinct(L) && c <= |L| && x !in L
    ensures Distinct(Splice(L, c, x))
  {
    var L' := Splice(L, c, x);
    forall a, b | 0 <= a < b < |L'| ensures L'[a] != L'[b] {
      var a' := if a < c then a else a - 1;
      var b' := if b <= c then b else b - 1;
      if a != c && b != c {
        assert L'[a] == L[a'] && L'[b] == L[b'];
      } else if a == c {
        assert L'[b] == L[b'];
      } else {
        assert L'[a] == L[a'];
      }
    }
  }

  /** The fresh node is not in the chain yet, so the chain stays free of repeats. */
  lemma InsertAtDistinct(nodes: seq<Node>, elems: seq<int>, k: Bytes)
    requires InArena(nodes, elems) && Distinct(elems)
    ensures Distinct(InsertAt(nodes, elems, k))
  {
    DistinctInsert(elems, Position(Entries(nodes, elems), k), |nodes|);
  }

  /** With the fresh node of height `h`, every node is between 1 and `max(currLevel, h)` high. */
  lemma InsertAtHeights(nodes: seq<Node>, elems: seq<int>, currLevel: int, k: Bytes, v: Bytes, h: nat, cur: seq<Node>)
    requires 0 < |nodes| && InArena(nodes, elems) && SameNodes(Grow(nodes, k, v, h), cur) && 1 <= h
    requires forall j :: 0 <= j < |elems| ==> 1 <= |nodes[elems[j]].next| <= currLevel
    ensures var elems' := InsertAt(nodes, elems, k);
      InArena(cur, elems') &&
      forall j :: 0 <= j < |elems'| ==> 1 <= |cur[elems'[j]].next| <= if h > currLevel then h else currLevel
  {
    var n1 := Grow(nodes, k, v, h);
    var elems' := InsertAt(nodes, elems, k);
    var c := Position(Entries(nodes, elems), k);
    SpliceIndex(elems, c, |nodes|);
    forall j | 0 <= j < |elems'| ensures 0 < elems'[j] < |cur| {
      if j < c {
        assert elems'[j] == elems[j];
      } else if j > c {
        assert elems'[j] == elems[j - 1];
      }
    }
    forall j | 0 <= j < |elems'| ensures 1 <= |cur[elems'[j]].next| <= if h > currLevel then h else currLevel {
      if j < c {
        assert elems'[j] == elems[j];
      } else if j > c {
        assert elems'[j] == elems[j - 1];
      } else {
        assert |n1[elems'[j]].next| == h;
      }
    }
  }

  /** After the splice loop every level holds exactly the nodes of the new chain that reach it. */
  lemma SpliceChains(nodes: seq<Node>, elems: seq<int>, maxLevel: int, k: Bytes, v: Bytes, h: nat, cur: seq<Node>)
    requires 0 < |nodes| && InArena(nodes, elems)
    requires Spliced(Grow(nodes, k, v, h), cur, elems, InsertAt(nodes, elems, k), h, maxLevel)
    ensures var elems' := InsertAt(nodes, elems, k);
      InArena(cur, elems') && forall l: nat :: l < maxLevel ==> ChainAt(cur, l, Level(cur, elems', l))
  {
    var x := Node(k, v, Nils(h));
    var n1 := Grow(nodes, k, v, h);
    assert n1 == nodes + [x];
    var elems' := InsertAt(nodes, elems, k);
    SameNodesFrame(n1, cur, elems', 0);
    forall l: nat | l < maxLevel ensures ChainAt(cur, l, Level(cur, elems', l)) {
      SameNodesFrame(n1, cur, elems', l);
      PutLevel(nodes, elems, Position(Entries(nodes, elems), k), x, l);
    }
  }

  /** After the splice loop the arena has the skip-list shape, and its entries are those of Insert. */
  lemma SpliceDone(nodes: seq<Node>, elems: seq<int>, currLevel: int, maxLevel: int, k: Bytes, v: Bytes, h: nat,
                   cur: seq<Node>)
    requires Layout(nodes, elems, currLevel, maxLevel) && 1 <= h <= maxLevel
    requires Spliced(Grow(nodes, k, v, h), cur, elems, InsertAt(nodes, elems, k), h, maxLevel)
    ensures Shape(cur, InsertAt(nodes, elems, k), if h > currLevel then h else currLevel, maxLevel)
    ensures Entries(cur, InsertAt(nodes, elems, k)) == Insert(Entries(nodes, elems), k, v)
  {
    var n1 := Grow(nodes, k, v, h);
    InsertAtEntries(nodes, elems, k, v, h, cur);
    InsertSorted(Entries(nodes, elems), k, v);
    InsertAtDistinct(nodes, elems, k);
    InsertAtHeights(nodes, elems, currLevel, k, v, h, cur);
    SpliceChains(nodes, elems, maxLevel, k, v, h, cur);
    assert |cur[Head].next| == |n1[Head].next|;
  }

  /** The levels from `currLevel` up to `newLevel` have no nodes yet: a descent leaves them at the head. */
  method RaiseTrack(ghost nodes: seq<Node>, ghost elems: seq<int>, currLevel: int, newLevel: int, ghost maxLevel: int,
                    track: seq<int>, ghost key: Bytes)
      returns (t: seq<int>)
    requires Layout(nodes, elems, currLevel, maxLevel) && currLevel <= newLevel <= maxLevel
    requires track == Track(nodes, elems, currLevel, maxLevel, key, -1)
    ensures t == Track(nodes, elems, newLevel, maxLevel, key, -1)
  {
    t := track;
    var i := currLevel;
    while i < newLevel
      invariant currLevel <= i <= newLevel
      invariant t == Track(nodes, elems, i, maxLevel, key, -1)
    {
      PredAbove(nodes, elems, i, key);
      TrackRaise(nodes, elems, i, maxLevel, key);
      t := t[i := Head];
      i := i + 1;
    }
  }

  /**
   * The splice loop of Put: a fresh node of height `h` is appended to the
   * arena and linked in after the node recorded in `track` on each of its levels.
   */
  method SpliceIn(nodes: seq<Node>, ghost elems: seq<int>, ghost currLevel: int, ghost maxLevel: int,
                  track: seq<int>, ghost level: int, h: int, key: Bytes, value: Bytes)
      returns (r: seq<Node>)
    requires Shape(nodes, elems, currLevel, maxLevel) && 1 <= h <= level <= maxLevel
    requires track == Track(nodes, elems, level, maxLevel, key, -1)
    ensures Shape(r, InsertAt(nodes, elems, key), if h > currLevel then h else currLevel, maxLevel)
    ensures Entries(r, InsertAt(nodes, elems, key)) == Insert(Entries(nodes, elems), key, value)
    ensures SameNodes(Grow(nodes, key, value, h), r)
  {
    TrackDone(nodes, elems, level, maxLevel, key);
    var newNode := |nodes|;
    r := nodes + [Node(key, value, Nils(h))];
    SpliceStart(nodes, elems, currLevel, maxLevel, key, value, h);
    var i := 0;
    while i < h
      invariant 0 <= i <= h
      invariant Spliced(Grow(nodes, key, value, h), r, elems, InsertAt(nodes, elems, key), i, maxLevel)
    {
      SpliceStep(nodes, elems, maxLevel, key, value, h, r, i);
      r := SetNext(r, newNode, i, r[track[i]].next[i]);
      r := SetNext(r, track[i], i, newNode);
      i := i + 1;
    }
    SpliceDone(nodes, elems, currLevel, maxLevel, key, value, h, r);
  }

  // ---------------------------------------------------------------- get, delete

  /** On level 0 a descent for `k` stops just before the first node whose key is not below `k`. */
  lemma StopNext(nodes: seq<Node>, elems: seq<int>, currLevel: int, maxLevel: int, k: Bytes)
    requires Shape(nodes, elems, currLevel, maxLevel)
    ensures var t := Pred(nodes, elems, 0, k);
      var c := Position(Entries(nodes, elems), k);
      && 0 <= t < |nodes| && 0 < |nodes[t].next|
      && nodes[t].next[0] == (if c < |elems| then elems[c] else Nil)
  {
    LevelZero(nodes, elems);
    var c: int := Position(Entries(nodes, elems), k);
    assert ChainAt(nodes, 0, elems);
    assert nodes[At(elems, c - 1)].next[0] == Succ(elems, c - 1);
  }

  /**
   * What Get and Delete find after the descent for `k`: the node after the
   * level-0 stopping point holds `k` exactly when a lookup of `k` in the
   * entries succeeds, and then it is the node at the stopping point of the
   * level-0 chain and holds the value found.
   */
  lemma NextOnLevelZero(nodes: seq<Node>, elems: seq<int>, currLevel: int, maxLevel: int, k: Bytes)
    requires Shape(nodes, elems, currLevel, maxLevel)
    ensures var t := Pred(nodes, elems, 0, k);
      var c := Position(Entries(nodes, elems), k);
      && 0 <= t < |nodes| && 0 < |nodes[t].next|
      && var nx := nodes[t].next[0];
      && (nx == Nil || 0 < nx < |nodes|)
      && ((nx != Nil && nodes[nx].key == k) <==> Find(Entries(nodes, elems), k).Some?)
      && (nx != Nil && nodes[nx].key == k ==>
            c < |elems| && nx == elems[c] && Entries(nodes, elems)[c].key == k &&
            Find(Entries(nodes, elems), k) == Some(nodes[nx].value))
  {
    StopNext(nodes, elems, currLevel, maxLevel, k);
    FindAtPosition(Entries(nodes, elems), k);
  }

  /** The level-0 chain without the node where a descent for `k` stops. */
  ghost function RemoveAt(nodes: seq<Node>, elems: seq<int>, k: Bytes): seq<int>
  {
    var c := Position(Entries(nodes, elems), k);
    if c < |elems| then Cut(elems, c) else elems
  }

  lemma RemoveAtCut(nodes: seq<Node>, elems: seq<int>, k: Bytes)
    requires Position(Entries(nodes, elems), k) < |elems|
    ensures RemoveAt(nodes, elems, k) == Cut(elems, Position(Entries(nodes, elems), k))
  {
  }

  /**
   * What cutting the node `x` at index `c` out of the level-0 chain does to
   * level `l`: the level loses `x` if `x` reaches `l`, and is unchanged (and
   * without `x`) otherwise.
   */
  lemma DeleteLevel(nodes: seq<Node>, elems: seq<int>, c: nat, l: nat)
    requires InArena(nodes, elems) && c < |elems|
    ensures var x := elems[c];
      var L := Level(nodes, elems, l);
      var q := |Level(nodes, elems[..c], l)|;
      && InArena(nodes, Cut(elems, c)) && q <= |L|
      && (l < |nodes[x].next| ==> q < |L| && L[q] == x && Level(nodes, Cut(elems, c), l) == Cut(L, q))
      && (l >= |nodes[x].next| ==> x !in L && Level(nodes, Cut(elems, c), l) == L)
  {
    var P, x, S := elems[..c], elems[c], elems[c + 1..];
    SplitAround(elems, c);
    InArenaSlices(nodes, elems, c);
    LevelAppend(nodes, [x], S, l);
    LevelAppend(nodes, P, [x] + S, l);
    LevelAppend(nodes, P, S, l);
    LevelSingle(nodes, x, l);
    var A, Z := Level(nodes, P, l), Level(nodes, S, l);
    var L := Level(nodes, elems, l);
    if l < |nodes[x].next| {
      assert L == A + ([x] + Z);
      CutMiddle(A, x, Z);
    } else {
      AppendEmpty(Z);
      assert L == A + Z;
      LevelMember(nodes, elems, l);
    }
  }

  /**
   * The state of the unlink loop of Delete after levels `0 .. i-1`: pointers
   * alone changed, the levels below `i` skip the node, those above are as before.
   */
  ghost predicate Unlinked(n0: seq<Node>, cur: seq<Node>, elems: seq<int>, elems': seq<int>, i: nat, maxLevel: int)
  {
    && SameNodes(n0, cur) && InArena(n0, elems) && InArena(n0, elems')
    && (forall l: nat :: l < i ==> ChainAt(cur, l, Level(n0, elems', l)))
    && (forall l: nat :: i <= l < maxLevel ==> ChainAt(cur, l, Level(n0, elems, l)))
  }

  lemma UnlinkStart(nodes: seq<Node>, elems: seq<int>, currLevel: int, maxLevel: int, k: Bytes)
    requires Shape(nodes, elems, currLevel, maxLevel) && Position(Entries(nodes, elems), k) < |elems|
    ensures Unlinked(nodes, nodes, elems, RemoveAt(nodes, elems, k), 0, maxLevel)
  {
    DeleteLevel(nodes, elems, Position(Entries(nodes, elems), k), 0);
  }

  /**
   * Before round `i` of the unlink loop: the predecessor on level `i` points at
   * the node being deleted exactly when that node reaches level `i`.
   */
  lemma UnlinkPeek(nodes: seq<Node>, elems: seq<int>, maxLevel: int, k: Bytes, cur: seq<Node>, i: nat)
    requires InArena(nodes, elems) && Sorted(Entries(nodes, elems)) && i < maxLevel
    requires Position(Entries(nodes, elems), k) < |elems|
    requires Unlinked(nodes, cur, elems, RemoveAt(nodes, elems, k), i, maxLevel)
    ensures var t := Pred(nodes, elems, i, k);
      var x := elems[Position(Entries(nodes, elems), k)];
      && 0 <= t < |cur| && i < |cur[t].next|
      && (cur[t].next[i] == x <==> i < |nodes[x].next|)
  {
    var c := Position(Entries(nodes, elems), k);
    var x := elems[c];
    var L := Level(nodes, elems, i);
    LevelSplit(nodes, elems, k, i);
    var q: int := |Level(nodes, elems[..c], i)|;
    DeleteLevel(nodes, elems, c, i);
    assert ChainAt(cur, i, L);
    ChainPointer(cur, i, L, q - 1);
    if i >= |nodes[x].next| && q < |L| {
      assert L[q] in L;
    }
  }

  /** The level-`i` pointer out of position `j` of a chain. */
  lemma ChainPointer(nodes: seq<Node>, i: nat, L: seq<int>, j: int)
    requires ChainAt(nodes, i, L) && -1 <= j < |L|
    ensures 0 <= At(L, j) < |nodes| && i < |nodes[At(L, j)].next|
    ensures nodes[At(L, j)].next[i] == Succ(L, j)
  {
  }

  /** One round of the unlink loop: the predecessor on level `i` takes over the deleted node's pointer. */
  lemma UnlinkStep(nodes: seq<Node>, elems: seq<int>, maxLevel: int, k: Bytes, cur: seq<Node>, i: nat)
    requires InArena(nodes, elems) && Distinct(elems) && Sorted(Entries(nodes, elems)) && i < maxLevel
    requires Position(Entries(nodes, elems), k) < |elems|
    requires i < |nodes[elems[Position(Entries(nodes, elems), k)]].next|
    requires Unlinked(nodes, cur, elems, RemoveAt(nodes, elems, k), i, maxLevel)
    ensures var t := Pred(nodes, elems, i, k);
      var x := elems[Position(Entries(nodes, elems), k)];
      && 0 <= t < |cur| && i < |cur[t].next| && 0 <= x < |cur| && i < |cur[x].next|
      && Unlinked(nodes, SetNext(cur, t, i, cur[x].next[i]), elems, RemoveAt(nodes, elems, k), i + 1, maxLevel)
  {
    var c := Position(Entries(nodes, elems), k);
    var x := elems[c];
    var elems' := RemoveAt(nodes, elems, k);
    var L := Level(nodes, elems, i);
    LevelSplit(nodes, elems, k, i);
    var q: int := |Level(nodes, elems[..c], i)|;
    var t := Pred(nodes, elems, i, k);
    assert t == At(L, q - 1);
    DeleteLevel(nodes, elems, c, i);
    assert Level(nodes, elems', i) == Cut(L, q) && L[q] == x;
    LevelDistinct(nodes, elems, i);
    assert ChainAt(cur, i, L);
    UnlinkChain(cur, i, L, q);
    UnlinkFrame(nodes, cur, elems, elems', i, maxLevel, t, cur[x].next[i]);
  }

  /** A pointer set on level `i` that leaves that level chaining the new list advances the unlink loop. */
  lemma UnlinkFrame(n0: seq<Node>, cur: seq<Node>, elems: seq<int>, elems': seq<int>, i: nat, maxLevel: int,
                    t: int, target: int)
    requires Unlinked(n0, cur, elems, elems', i, maxLevel)
    requires 0 <= t < |cur| && i < |cur[t].next|
    requires ChainAt(SetNext(cur, t, i, target), i, Level(n0, elems', i))
    ensures Unlinked(n0, SetNext(cur, t, i, target), elems, elems', i + 1, maxLevel)
  {
    var m := SetNext(cur, t, i, target);
    forall l: nat | l < i ensures ChainAt(m, l, Level(n0, elems', l)) {
      SetNextOtherLevel(cur, t, i, target, l, Level(n0, elems', l));
    }
    forall l: nat | i + 1 <= l < maxLevel ensures ChainAt(m, l, Level(n0, elems, l)) {
      SetNextOtherLevel(cur, t, i, target, l, Level(n0, elems, l));
    }
    assert SameNodes(n0, m);
  }

  /** Once every level the deleted node reached skips it, every level holds the nodes of the new chain that reach it. */
  lemma UnlinkChains(nodes: seq<Node>, elems: seq<int>, currLevel: int, maxLevel: int, k: Bytes, cur: seq<Node>)
    requires InArena(nodes, elems)
    requires Position(Entries(nodes, elems), k) < |elems|
    requires var h := |nodes[elems[Position(Entries(nodes, elems), k)]].next|;
      Unlinked(nodes, cur, elems, RemoveAt(nodes, elems, k), h, maxLevel)
    requires Layout(cur, RemoveAt(nodes, elems, k), currLevel, maxLevel)
    ensures Shape(cur, RemoveAt(nodes, elems, k), currLevel, maxLevel)
  {
    var c := Position(Entries(nodes, elems), k);
    var elems' := RemoveAt(nodes, elems, k);
    SameNodesFrame(nodes, cur, elems', 0);
    forall l: nat | l < maxLevel ensures ChainAt(cur, l, Level(cur, elems', l)) {
      SameNodesFrame(nodes, cur, elems', l);
      DeleteLevel(nodes, elems, c, l);
    }
  }

  /** Once every level the deleted node reached skips it, the arena has the skip-list shape again. */
  lemma UnlinkDone(nodes: seq<Node>, elems: seq<int>, currLevel: int, maxLevel: int, k: Bytes, cur: seq<Node>)
    requires Layout(nodes, elems, currLevel, maxLevel)
    requires Position(Entries(nodes, elems), k) < |elems|
    requires var h := |nodes[elems[Position(Entries(nodes, elems), k)]].next|;
      Unlinked(nodes, cur, elems, RemoveAt(nodes, elems, k), h, maxLevel)
    ensures Shape(cur, RemoveAt(nodes, elems, k), currLevel, maxLevel)
    ensures Entries(cur, RemoveAt(nodes, elems, k)) == Entries(nodes, elems)[..Position(Entries(nodes, elems), k)]
      + Entries(nodes, elems)[Position(Entries(nodes, elems), k) + 1..]
  {
    var E := Entries(nodes, elems);
    var c := Position(E, k);
    RemoveAtCut(nodes, elems, k);
    CutLayout(nodes, elems, c, currLevel, maxLevel, cur);
    UnlinkChains(nodes, elems, currLevel, maxLevel, k, cur);
  }

  /** Cutting one node out of the chain, pointers changed or not, keeps the layout. */
  lemma CutLayout(nodes: seq<Node>, elems: seq<int>, c: nat, currLevel: int, maxLevel: int, cur: seq<Node>)
    requires Layout(nodes, elems, currLevel, maxLevel) && c < |elems| && SameNodes(nodes, cur)
    ensures var E := Entries(nodes, elems);
      Layout(cur, Cut(elems, c), currLevel, maxLevel) && Entries(cur, Cut(elems, c)) == E[..c] + E[c + 1..]
  {
    UnlinkEntries(nodes, elems, c, cur);
    RemoveCut(Entries(nodes, elems), c);
    DistinctRemove(elems, c);
    UnlinkHeights(nodes, elems, c, currLevel, cur);
  }

  /** Cutting index `c` out of the chain cuts its entry out of the entries. */
  lemma UnlinkEntries(nodes: seq<Node>, elems: seq<int>, c: nat, cur: seq<Node>)
    requires InArena(nodes, elems) && c < |elems| && SameNodes(nodes, cur)
    ensures var E := Entries(nodes, elems);
      InArena(cur, Cut(elems, c)) && Entries(cur, Cut(elems, c)) == E[..c] + E[c + 1..]
  {
    var E := Entries(nodes, elems);
    var P, S := elems[..c], elems[c + 1..];
    InArenaSlices(nodes, elems, c);
    EntriesAppend(nodes, P, S);
    assert E[..c] == Entries(nodes, P) && E[c + 1..] == Entries(nodes, S);
    SameNodesFrame(nodes, cur, Cut(elems, c), 0);
  }

  /** Cutting a node out of the chain keeps every remaining node between 1 and `currLevel` high. */
  lemma UnlinkHeights(nodes: seq<Node>, elems: seq<int>, c: nat, currLevel: int, cur: seq<Node>)
    requires InArena(nodes, elems) && c < |elems| && SameNodes(nodes, cur)
    requires forall j :: 0 <= j < |elems| ==> 1 <= |nodes[elems[j]].next| <= currLevel
    ensures var elems' := Cut(elems, c);
      forall j :: 0 <= j < |elems'| ==> 0 <= elems'[j] < |cur| && 1 <= |cur[elems'[j]].next| <= currLevel
  {
    var elems' := Cut(elems, c);
    CutIndex(elems, c);
    forall j | 0 <= j < |elems'| ensures 0 <= elems'[j] < |cur| && 1 <= |cur[elems'[j]].next| <= currLevel {
      assert elems'[j] == if j < c then elems[j] else elems[j + 1];
    }
  }

  /** Cutting one entry out of a sorted sequence keeps it sorted. */
  lemma RemoveCut(c: seq<Entry>, p: nat)
    requires Sorted(c) && p < |c|
    ensures Sorted(c[..p] + c[p + 1..])
  {
    var r := c[..p] + c[p + 1..];
    forall a, b | 0 <= a < b < |r| ensures LessEq(r[a].key, r[b].key) {
      var a' := if a < p then a else a + 1;
      var b' := if b < p then b else b + 1;
      assert r[a] == c[a'] && r[b] == c[b'];
    }
  }

  /** Cutting one index out of a list without repeats keeps it without repeats. */
  lemma DistinctRemove(L: seq<int>, p: nat)
    requires Distinct(L) && p < |L|
    ensures Distinct(Cut(L, p))
  {
    var r := Cut(L, p);
    forall a, b | 0 <= a < b < |r| ensures r[a] != r[b] {
      var a' := if a < p then a else a + 1;
      var b' := if b < p then b else b + 1;
      assert r[a] == L[a'] && r[b] == L[b'];
    }
  }

  /** When the head's pointer on the top level is Nil, that level is empty and can be dropped. */
  lemma ShrinkStep(nodes: seq<Node>, elems: seq<int>, currLevel: int, maxLevel: int)
    requires Shape(nodes, elems, currLevel, maxLevel) && currLevel > 1
    requires nodes[Head].next[currLevel - 1] == Nil
    ensures Shape(nodes, elems, currLevel - 1, maxLevel)
  {
    var L := Level(nodes, elems, currLevel - 1);
    EmptyChain(nodes, currLevel - 1, L);
    LevelMember(nodes, elems, currLevel - 1);
    forall j | 0 <= j < |elems| ensures |nodes[elems[j]].next| <= currLevel - 1 {
      assert elems[j] in elems && elems[j] !in L;
    }
  }

  /**
   * The insertion after the descent: if the new height exceeds the list's,
   * the levels in between start at the head; then the new node is spliced in
   * after the recorded node on each of its levels.
   */
  method Place(nodes: seq<Node>, ghost elems: seq<int>, currLevel: int, ghost maxLevel: int,
               track: seq<int>, newLevel: int, key: Bytes, value: Bytes)
      returns (r: seq<Node>, level: int)
    requires Shape(nodes, elems, currLevel, maxLevel) && 1 <= newLevel <= maxLevel
    requires track == Track(nodes, elems, currLevel, maxLevel, key, -1)
    ensures level == if newLevel > currLevel then newLevel else currLevel
    ensures Shape(r, InsertAt(nodes, elems, key), level, maxLevel)
    ensures Entries(r, InsertAt(nodes, elems, key)) == Insert(Entries(nodes, elems), key, value)
    ensures SameNodes(Grow(nodes, key, value, newLevel), r)
  {
    var levelTrack := track;
    level := currLevel;
    if newLevel > currLevel {
      levelTrack := RaiseTrack(nodes, elems, currLevel, newLevel, maxLevel, levelTrack, key);
      level := newLevel;
    }
    r := SpliceIn(nodes, elems, currLevel, maxLevel, levelTrack, level, newLevel, key, value);
  }

  /**
   * The unlink loop of Delete: on each level from the bottom, while the node
   * recorded in `update` points at `x`, it takes over `x`'s pointer.
   */
  method UnlinkNode(nodes: seq<Node>, ghost elems: seq<int>, currLevel: int, ghost maxLevel: int,
                    update: seq<int>, x: int, ghost key: Bytes)
      returns (r: seq<Node>)
    requires Shape(nodes, elems, currLevel, maxLevel)
    requires update == Track(nodes, elems, currLevel, maxLevel, key, -1)
    requires Position(Entries(nodes, elems), key) < |elems| && x == elems[Position(Entries(nodes, elems), key)]
    ensures Shape(r, RemoveAt(nodes, elems, key), currLevel, maxLevel)
    ensures Entries(r, RemoveAt(nodes, elems, key)) == Entries(nodes, elems)[..Position(Entries(nodes, elems), key)]
      + Entries(nodes, elems)[Position(Entries(nodes, elems), key) + 1..]
    ensures SameNodes(nodes, r)
  {
    TrackDone(nodes, elems, currLevel, maxLevel, key);
    ghost var h := |nodes[x].next|;
    assert h <= currLevel;
    UnlinkStart(nodes, elems, currLevel, maxLevel, key);
    r := nodes;
    var i := 0;
    while i < currLevel
      invariant 0 <= i <= h
      invariant Unlinked(nodes, r, elems, RemoveAt(nodes, elems, key), i, maxLevel)
    {
      UnlinkPeek(nodes, elems, maxLevel, key, r, i);
      if r[update[i]].next[i] != x {
        break;
      }
      UnlinkStep(nodes, elems, maxLevel, key, r, i);
      r := SetNext(r, update[i], i, r[x].next[i]);
      i := i + 1;
    }
    UnlinkDone(nodes, elems, currLevel, maxLevel, key, r);
  }

  /** Drop the top levels whose head pointer is Nil, never going below one level. */
  method DropLevels(nodes: seq<Node>, ghost elems: seq<int>, currLevel: int, ghost maxLevel: int) returns (c: int)
    requires Shape(nodes, elems, currLevel, maxLevel)
    ensures Shape(nodes, elems, c, maxLevel) && 1 <= c <= currLevel
    ensures c == 1 || nodes[Head].next[c - 1] != Nil
    ensures forall l :: c <= l < currLevel ==> nodes[Head].next[l] == Nil
  {
    c := currLevel;
    while c > 1 && nodes[Head].next[c - 1] == Nil
      invariant Shape(nodes, elems, c, maxLevel) && 1 <= c <= currLevel
      invariant forall l :: c <= l < currLevel ==> nodes[Head].next[l] == Nil
    {
      ShrinkStep(nodes, elems, c, maxLevel);
      c := c - 1;
    }
  }

  // ---------------------------------------------------------------- misc

  /** A head with `maxLevel` Nil pointers and nothing else is an empty skip list. */
  lemma EmptyShape(head: Node, maxLevel: int)
    requires 1 <= maxLevel && head.next == Nils(maxLevel)
    ensures Shape([head], [], 1, maxLevel) && Entries([head], []) == []
  {
    forall i: nat | i < maxLevel ensures ChainAt([head], i, Level([head], [], i)) {
      assert [head][At([], -1)].next[i] == Nil;
    }
  }

  /**
   * The node a descent for a non-empty `k` stops at never holds `k`: it is the
   * head, whose key is empty, or a node whose key is below `k`.
   */
  lemma PredKey(nodes: seq<Node>, elems: seq<int>, i: nat, k: Bytes)
    requires 0 < |nodes| && InArena(nodes, elems) && nodes[Head].key == [] && k != []
    ensures 0 <= Pred(nodes, elems, i, k) < |nodes| && nodes[Pred(nodes, elems, i, k)].key != k
  {
    var L := Level(nodes, elems, i);
    LevelMember(nodes, elems, i);
    var q: int := Position(Entries(nodes, L), k);
    if q > 0 {
      assert Entries(nodes, L)[q - 1].key == nodes[L[q - 1]].key;
      LessIrreflexive(k);
    }
  }
}
