/** Small facts about sequence concatenation and slicing, each proved on its own. */
module Seqs {

  lemma AppendAssoc<T>(x: seq<T>, y: seq<T>, z: seq<T>)
    ensures x + (y + z) == (x + y) + z
  {
  }

  lemma AppendEmpty<T>(x: seq<T>)
    ensures [] + x == x && x + [] == x
  {
  }

  /** The first element and the rest of a concatenation whose left part is not empty. */
  lemma AppendCons<T>(x: seq<T>, y: seq<T>)
    requires x != []
    ensures (x + y)[0] == x[0] && (x + y)[1..] == x[1..] + y
  {
  }

  /** The parts of an element put in front of a sequence. */
  lemma ConsParts<T>(x: T, y: seq<T>)
    ensures ([x] + y)[0] == x && ([x] + y)[1..] == y
  {
  }

  /** A sequence is its first element followed by the rest. */
  lemma Cons<T>(x: seq<T>)
    requires x != []
    ensures x == [x[0]] + x[1..]
  {
  }

  /** A sequence is its prefix followed by its suffix. */
  lemma Split<T>(x: seq<T>, c: nat)
    requires c <= |x|
    ensures x[..c] + x[c..] == x
  {
  }

  /** Splitting a sequence around its element at `c`. */
  lemma SplitAround<T>(x: seq<T>, c: nat)
    requires c < |x|
    ensures x[..c] + ([x[c]] + x[c + 1..]) == x && x[c..] == [x[c]] + x[c + 1..]
  {
  }

  /** The two halves of a concatenation. */
  lemma AppendHalves<T>(x: seq<T>, y: seq<T>)
    ensures (x + y)[..|x|] == x && (x + y)[|x|..] == y
  {
  }

  /** `x` with `e` inserted at index `c`. */
  function Splice<T>(x: seq<T>, c: nat, e: T): seq<T>
    requires c <= |x|
  {
    x[..c] + [e] + x[c..]
  }

  /** `x` without its element at index `c`. */
  function Cut<T>(x: seq<T>, c: nat): seq<T>
    requires c < |x|
  {
    x[..c] + x[c + 1..]
  }

  lemma SpliceIndex<T>(x: seq<T>, c: nat, e: T)
    requires c <= |x|
    ensures var r := Splice(x, c, e);
      && |r| == |x| + 1 && r[c] == e
      && (forall j :: 0 <= j < c ==> r[j] == x[j])
      && (forall j :: c < j < |r| ==> r[j] == x[j - 1])
  {
  }

  lemma CutIndex<T>(x: seq<T>, c: nat)
    requires c < |x|
    ensures var r := Cut(x, c);
      && |r| == |x| - 1
      && (forall j :: 0 <= j < c ==> r[j] == x[j])
      && (forall j :: c <= j < |r| ==> r[j] == x[j + 1])
  {
  }

  /** Inserting `e` between the two parts of a concatenation. */
  lemma SpliceMiddle<T>(a: seq<T>, b: seq<T>, e: T)
    ensures Splice(a + b, |a|, e) == a + [e] + b
  {
    AppendHalves(a, b);
  }

  /** Cutting the middle element out of `a + ([e] + b)`. */
  lemma CutMiddle<T>(a: seq<T>, e: T, b: seq<T>)
    ensures var r := a + ([e] + b);
      |a| < |r| && r[|a|] == e && Cut(r, |a|) == a + b
  {
    var r := a + ([e] + b);
    assert r[..|a|] == a;
    assert r[|a| + 1..] == b;
  }
}
