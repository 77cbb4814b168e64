/** Circular doubly linked lists threaded through an array of link pairs:
    the hash and free rings of the buffer cache and the buddy lists.
    A pointer is an index into the array. */
module Rings {

  const NULL := -1

  datatype Links = Links(next: int, prev: int)

  function SetNext(l: seq<Links>, i: int, v: int): (r: seq<Links>)
    requires 0 <= i < |l|
  {
    l[i := l[i].(next := v)]
  }

  function SetPrev(l: seq<Links>, i: int, v: int): (r: seq<Links>)
    requires 0 <= i < |l|
  {
    l[i := l[i].(prev := v)]
  }

  ghost predicate Distinct(s: seq<int>) {
    forall i, j :: 0 <= i < j < |s| ==> s[i] != s[j]
  }

  /** Neighbours in c point at each other. */
  ghost predicate IsChain(l: seq<Links>, c: seq<int>) {
    && (forall j :: 0 <= j < |c| ==> 0 <= c[j] < |l|)
    && (forall j {:trigger l[c[j]]} :: 0 <= j < |c| - 1 ==> l[c[j]].next == c[j+1])
    && (forall j {:trigger l[c[j]]} :: 1 <= j < |c| ==> l[c[j]].prev == c[j-1])
  }

  /** c is a chain of different nodes whose ends point at each other. */
  ghost predicate IsRing(l: seq<Links>, r: seq<int>) {
    && |r| > 0
    && Distinct(r)
    && IsChain(l, r)
    && l[r[|r|-1]].next == r[0]
    && l[r[0]].prev == r[|r|-1]
  }

  /** The ring a list head points at; NULL is the empty ring. */
  ghost predicate RingFrom(l: seq<Links>, head: int, r: seq<int>) {
    if r == [] then head == NULL else head == r[0] && IsRing(l, r)
  }

  lemma EmptyRing(l: seq<Links>, head: int, r: seq<int>)
    requires RingFrom(l, head, r)
    ensures head == NULL <==> r == []
  {
  }

  /** What is not linked to is not part of the ring. */
  lemma RingFrame(l: seq<Links>, l': seq<Links>, head: int, r: seq<int>)
    requires RingFrom(l, head, r)
    requires |l'| >= |l|
    requires forall j :: 0 <= j < |r| ==> 0 <= r[j] < |l| && l'[r[j]] == l[r[j]]
    ensures RingFrom(l', head, r)
  {
  }

  /** Relinking a node that is not on the ring leaves the ring alone. */
  lemma RingFrameAt(l: seq<Links>, head: int, r: seq<int>, p: int, x: Links)
    requires RingFrom(l, head, r) && 0 <= p < |l| && p !in r
    ensures RingFrom(l[p := x], head, r)
  {
    RingFrame(l, l[p := x], head, r);
  }

  /** l' is l with the chain c spliced in between the last and the first
      node of the ring r. */
  ghost predicate Spliced(l: seq<Links>, l': seq<Links>, r: seq<int>, c: seq<int>)
    requires |r| > 0 && |c| > 0
  {
    && |l'| == |l|
    && (forall i :: 0 <= i < |l| ==>
          l'[i].next == if i == r[|r|-1] then c[0] else if i == c[|c|-1] then r[0] else l[i].next)
    && (forall i :: 0 <= i < |l| ==>
          l'[i].prev == if i == c[0] then r[|r|-1] else if i == r[0] then c[|c|-1] else l[i].prev)
  }

  lemma AppendChain(l: seq<Links>, l': seq<Links>, r: seq<int>, c: seq<int>)
    requires IsRing(l, r) && |c| > 0 && IsChain(l, c) && Distinct(r + c)
    requires Spliced(l, l', r, c)
    ensures IsRing(l', r + c)
  {
    var s := r + c;
    forall j, k | 0 <= j < |r| && 0 <= k < |c| ensures r[j] != c[k] {
      assert s[j] == r[j] && s[|r| + k] == c[k];
    }
    forall j, k | 0 <= j < k < |c| ensures c[j] != c[k] {
      assert s[|r| + j] == c[j] && s[|r| + k] == c[k];
    }
  }

  /** l' is l with the segment r[a..b] bypassed. */
  ghost predicate Bypassed(l: seq<Links>, l': seq<Links>, r: seq<int>, a: int, b: int)
    requires 0 <= a < b <= |r|
    requires forall j :: 0 <= j < |r| ==> 0 <= r[j] < |l|
  {
    var x, y := l[r[a]].prev, l[r[b-1]].next;
    && |l'| == |l|
    && (forall i :: 0 <= i < |l| ==> l'[i].next == if i == x then y else l[i].next)
    && (forall i :: 0 <= i < |l| ==> l'[i].prev == if i == y then x else l[i].prev)
  }

  function Without(r: seq<int>, a: int, b: int): (s: seq<int>)
    requires 0 <= a < b <= |r|
    ensures |s| == |r| - (b - a)
    ensures forall j :: 0 <= j < a ==> s[j] == r[j]
    ensures forall j :: a <= j < |s| ==> s[j] == r[j + (b - a)]
  {
    r[..a] + r[b..]
  }

  /** r's links when the segment r[a..b] is bypassed: only those of the two
      nodes around it lead elsewhere. */
  ghost predicate Relinked(l: seq<Links>, r: seq<int>, a: int, b: int)
    requires 0 <= a < b <= |r| && forall j :: 0 <= j < |r| ==> 0 <= r[j] < |l|
  {
    var xi, yi := if a > 0 then a - 1 else |r| - 1, if b < |r| then b else 0;
    && l[r[xi]].next == r[yi] && l[r[yi]].prev == r[xi]
    && (forall j {:trigger l[r[j]]} :: 0 <= j < |r| && j != xi ==>
          l[r[j]].next == if j == |r| - 1 then r[0] else r[j+1])
    && (forall j {:trigger l[r[j]]} :: 0 <= j < |r| && j != yi ==>
          l[r[j]].prev == if j == 0 then r[|r|-1] else r[j-1])
  }

  lemma BypassedLinks(l: seq<Links>, l': seq<Links>, r: seq<int>, a: int, b: int)
    requires IsRing(l, r) && 0 <= a < b <= |r| && b - a < |r|
    requires Bypassed(l, l', r, a, b)
    ensures Relinked(l', r, a, b)
  {
    var xi, yi := if a > 0 then a - 1 else |r| - 1, if b < |r| then b else 0;
    assert l[r[a]].prev == r[xi] && l[r[b-1]].next == r[yi];
  }

  lemma RemoveChain(l: seq<Links>, l': seq<Links>, r: seq<int>, a: int, b: int)
    requires IsRing(l, r) && 0 <= a < b <= |r| && b - a < |r|
    requires Bypassed(l, l', r, a, b)
    ensures IsRing(l', Without(r, a, b))
  {
    BypassedLinks(l, l', r, a, b);
    WithoutDistinct(r, a, b);
    WithoutRing(l', r, a, b);
  }

  lemma WithoutRing(l: seq<Links>, r: seq<int>, a: int, b: int)
    requires 0 <= a < b <= |r| && b - a < |r| && forall j :: 0 <= j < |r| ==> 0 <= r[j] < |l|
    requires Relinked(l, r, a, b) && Distinct(Without(r, a, b))
    ensures IsRing(l, Without(r, a, b))
  {
    hide Distinct;
    var s := Without(r, a, b);
    forall j | 0 <= j < |s| - 1 ensures l[s[j]].next == s[j+1] && l[s[j+1]].prev == s[j] {
      WithoutStep(l, r, a, b, j);
    }
  }

  lemma WithoutStep(l: seq<Links>, r: seq<int>, a: int, b: int, j: int)
    requires 0 <= a < b <= |r| && forall j :: 0 <= j < |r| ==> 0 <= r[j] < |l|
    requires Relinked(l, r, a, b) && 0 <= j < |Without(r, a, b)| - 1
    ensures var s := Without(r, a, b);
            0 <= s[j] < |l| && 0 <= s[j+1] < |l| && l[s[j]].next == s[j+1] && l[s[j+1]].prev == s[j]
  {
    var k := if j < a then j else j + (b - a);
    var k' := if j + 1 < a then j + 1 else j + 1 + (b - a);
    assert Without(r, a, b)[j] == r[k] && Without(r, a, b)[j+1] == r[k'];
  }

  lemma WithoutDistinct(r: seq<int>, a: int, b: int)
    requires Distinct(r) && 0 <= a < b <= |r|
    ensures Distinct(Without(r, a, b))
  {
  }

  /** The bypassed segment still hangs together. */
  lemma RemovedChain(l: seq<Links>, l': seq<Links>, r: seq<int>, a: int, b: int)
    requires IsRing(l, r) && 0 <= a < b <= |r| && b - a < |r|
    requires Bypassed(l, l', r, a, b)
    ensures IsChain(l', r[a..b])
  {
    var c := r[a..b];
    BypassedLinks(l, l', r, a, b);
    assert forall j :: 0 <= j < |c| ==> c[j] == r[a + j];
    forall j | 0 <= j < |c| - 1 ensures l'[c[j]].next == c[j+1] && l'[c[j+1]].prev == c[j] {
    }
  }

  /** A node occurs once on its ring. */
  lemma OnceOnRing(l: seq<Links>, head: int, r: seq<int>, j: int)
    requires RingFrom(l, head, r) && 0 <= j < |r|
    ensures Distinct(r) && r[j] !in Without(r, j, j + 1)
  {
  }

  /** A node is its own successor iff it is alone on its ring. */
  lemma AloneOnRing(l: seq<Links>, r: seq<int>, j: int)
    requires IsRing(l, r) && 0 <= j < |r|
    ensures l[r[j]].next == r[j] <==> |r| == 1
    ensures 0 <= l[r[j]].next < |l| && 0 <= l[r[j]].prev < |l|
    ensures |r| > 1 ==> l[r[j]].next != r[j] && l[r[j]].prev != r[j]
    ensures |r| > 1 ==> l[r[j]].next == if j + 1 < |r| then r[j+1] else r[0]
  {
  }

  /** The two stores that unlink a node: its neighbours point at each other. */
  function Unlinked(l: seq<Links>, p: int): seq<Links>
    requires 0 <= p < |l| && 0 <= l[p].prev < |l| && 0 <= l[p].next < |l|
  {
    SetPrev(SetNext(l, l[p].prev, l[p].next), l[p].next, l[p].prev)
  }

  lemma UnlinkedBypasses(l: seq<Links>, r: seq<int>, j: int)
    requires IsRing(l, r) && 0 <= j < |r| && |r| > 1
    ensures 0 <= l[r[j]].prev < |l| && 0 <= l[r[j]].next < |l|
    ensures Bypassed(l, Unlinked(l, r[j]), r, j, j + 1)
  {
    AloneOnRing(l, r, j);
  }

  /** Taking node j out: the head moves on when it was the node taken. */
  lemma Unlink(l: seq<Links>, l': seq<Links>, head: int, r: seq<int>, j: int)
    requires RingFrom(l, head, r) && 0 <= j < |r| && |r| > 1
    requires Bypassed(l, l', r, j, j + 1)
    ensures RingFrom(l', if head == r[j] then l[r[j]].next else head, Without(r, j, j + 1))
    ensures l'[r[j]] == l[r[j]]
  {
    AloneOnRing(l, r, j);
    RemoveChain(l, l', r, j, j + 1);
    assert head == r[j] <==> j == 0;
  }
}
