/**
  * src/lib/base/PriorityQueue.h: a binary min-heap in a vector, with the sift
  * loops of the standard heap algorithms written out. The comparison of the
  * template becomes a key: an element is on top when its key is least.
  */
module PriorityQueues {

  function Parent(i: nat): nat
    requires i > 0
  {
    (i - 1) / 2
  }

  ghost predicate InOrder<T>(s: seq<T>, key: T -> real, j: nat)
    requires 0 < j < |s|
  {
    key(s[Parent(j)]) <= key(s[j])
  }

  /** Every element whose parent is at `lo` or later is in order with its parent. */
  ghost predicate OrderedFrom<T>(s: seq<T>, key: T -> real, lo: nat) {
    forall j :: 0 < j < |s| && Parent(j) >= lo ==> InOrder(s, key, j)
  }

  ghost predicate Heap<T>(s: seq<T>, key: T -> real) {
    OrderedFrom(s, key, 0)
  }

  /** In order but for `i` and its parent; the children of `i` are in order with that parent. */
  ghost predicate RisingAt<T>(s: seq<T>, key: T -> real, i: nat) {
    forall j :: 0 < j < |s| ==>
      (j != i ==> InOrder(s, key, j)) &&
      (Parent(j) == i && i > 0 ==> key(s[Parent(i)]) <= key(s[j]))
  }

  /** In order from `lo` on but for `i` and its children; those are in order with the parent of `i`. */
  ghost predicate SinkingAt<T>(s: seq<T>, key: T -> real, lo: nat, i: nat) {
    forall j :: 0 < j < |s| ==>
      (Parent(j) >= lo && Parent(j) != i ==> InOrder(s, key, j)) &&
      (Parent(j) == i && i > 0 && Parent(i) >= lo ==> key(s[Parent(i)]) <= key(s[j]))
  }

  function Swap<T>(s: seq<T>, i: nat, j: nat): (r: seq<T>)
    requires i < |s| && j < |s|
    ensures |r| == |s| && multiset(r) == multiset(s)
    ensures r[i] == s[j] && r[j] == s[i]
    ensures forall k :: 0 <= k < |s| && k != i && k != j ==> r[k] == s[k]
  {
    s[i := s[j]][j := s[i]]
  }

  lemma RiseStep<T>(s: seq<T>, key: T -> real, i: nat)
    requires 0 < i < |s| && RisingAt(s, key, i) && key(s[i]) < key(s[Parent(i)])
    ensures RisingAt(Swap(s, i, Parent(i)), key, Parent(i))
  {
    var p, r := Parent(i), Swap(s, i, Parent(i));
    forall j | 0 < j < |r|
      ensures j != p ==> InOrder(r, key, j)
      ensures Parent(j) == p && p > 0 ==> key(r[Parent(p)]) <= key(r[j])
    {
      assert j != i ==> InOrder(s, key, j);
      assert p > 0 ==> InOrder(s, key, p);
    }
  }

  /** `child` is a child of `i` and no other child has a smaller key. */
  ghost predicate LeastChild<T>(s: seq<T>, key: T -> real, i: nat, child: nat) {
    0 < child < |s| && Parent(child) == i &&
    forall j :: 0 < j < |s| && Parent(j) == i ==> key(s[child]) <= key(s[j])
  }

  lemma ChooseChild<T>(s: seq<T>, key: T -> real, i: nat, child: nat)
    requires 2 * i + 1 <= child <= 2 * i + 2 && child < |s|
    requires child == 2 * i + 1 ==> 2 * i + 2 >= |s| || key(s[2 * i + 1]) <= key(s[2 * i + 2])
    requires child == 2 * i + 2 ==> key(s[2 * i + 2]) <= key(s[2 * i + 1])
    ensures LeastChild(s, key, i, child)
  {
    forall j | 0 < j < |s| && Parent(j) == i ensures key(s[child]) <= key(s[j]) {
      assert j == 2 * i + 1 || j == 2 * i + 2;
    }
  }

  lemma SinkStart<T>(s: seq<T>, key: T -> real, lo: nat)
    requires OrderedFrom(s, key, lo + 1)
    ensures SinkingAt(s, key, lo, lo)
  {
  }

  lemma SinkDone<T>(s: seq<T>, key: T -> real, lo: nat, i: nat, child: nat)
    requires SinkingAt(s, key, lo, i)
    requires 2 * i + 1 >= |s| || (LeastChild(s, key, i, child) && key(s[i]) <= key(s[child]))
    ensures OrderedFrom(s, key, lo)
  {
    forall j | 0 < j < |s| && Parent(j) >= lo ensures InOrder(s, key, j) {
      assert Parent(j) == i ==> j >= 2 * i + 1;
    }
  }

  lemma SinkStep<T>(s: seq<T>, key: T -> real, lo: nat, i: nat, child: nat)
    requires lo <= i && SinkingAt(s, key, lo, i)
    requires LeastChild(s, key, i, child) && key(s[child]) < key(s[i])
    ensures SinkingAt(Swap(s, i, child), key, lo, child)
  {
    var r := Swap(s, i, child);
    forall j | 0 < j < |r|
      ensures Parent(j) >= lo && Parent(j) != child ==> InOrder(r, key, j)
      ensures Parent(j) == child ==> key(r[Parent(child)]) <= key(r[j])
    {
      assert Parent(j) >= lo && Parent(j) != i ==> InOrder(s, key, j);
      assert i > 0 && Parent(i) >= lo && Parent(j) == i ==> key(s[Parent(i)]) <= key(s[j]);
    }
  }

  /** The root of a heap has the least key of all. */
  lemma {:induction false} RootIsLeast<T>(s: seq<T>, key: T -> real, i: nat)
    requires Heap(s, key) && i < |s|
    ensures key(s[0]) <= key(s[i])
    decreases i
  {
    if i > 0 {
      RootIsLeast(s, key, Parent(i));
    }
  }

  /** Subtracting one number from every key keeps the heap order. */
  lemma ShiftKeepsHeap<T>(s: seq<T>, t: seq<T>, key: T -> real, d: real)
    requires Heap(s, key) && |t| == |s|
    requires forall i :: 0 <= i < |s| ==> key(t[i]) == key(s[i]) - d
    ensures Heap(t, key)
  {
  }

  class PriorityQueue<T(==)> {
    var c: seq<T>
    const key: T -> real

    constructor (key: T -> real)
      ensures this.key == key && c == [] && Valid()
    {
      this.key := key;
      c := [];
    }

    ghost predicate Valid()
      reads this
    {
      Heap(c, key)
    }

    /** `push`: append, then sift up. */
    method Push(v: T)
      requires Valid()
      modifies this
      ensures Valid()
      ensures multiset(c) == old(multiset(c)) + multiset{v}
    {
      c := c + [v];
      var i := |c| - 1;
      while i > 0 && key(c[i]) < key(c[Parent(i)])
        invariant 0 <= i < |c|
        invariant multiset(c) == old(multiset(c)) + multiset{v}
        invariant RisingAt(c, key, i)
      {
        RiseStep(c, key, i);
        c := Swap(c, i, Parent(i));
        i := Parent(i);
      }
    }

    /** One sift-down, from `lo` to where the element belongs. */
    method SiftDown(lo: nat)
      requires OrderedFrom(c, key, lo + 1)
      modifies this
      ensures OrderedFrom(c, key, lo)
      ensures multiset(c) == old(multiset(c)) && |c| == old(|c|)
    {
      hide Swap, SinkingAt, OrderedFrom, LeastChild;
      var i := lo;
      SinkStart(c, key, lo);
      while 2 * i + 1 < |c|
        invariant i >= lo && |c| == old(|c|)
        invariant multiset(c) == old(multiset(c))
        invariant SinkingAt(c, key, lo, i)
        decreases |c| - i
      {
        var child := 2 * i + 1;
        if child + 1 < |c| && key(c[child + 1]) < key(c[child]) {
          child := child + 1;
        }
        ChooseChild(c, key, i, child);
        if key(c[i]) <= key(c[child]) {
          SinkDone(c, key, lo, i, child);
          return;
        }
        SinkStep(c, key, lo, i, child);
        c := Swap(c, i, child);
        i := child;
      }
      SinkDone(c, key, lo, i, 0);
    }

    /** `pop`: the head goes to the back and is dropped, the rest is sifted. */
    method Pop()
      requires Valid() && c != []
      modifies this
      ensures Valid()
      ensures multiset(c) == old(multiset(c)) - multiset{old(c[0])}
      ensures |c| == old(|c|) - 1
    {
      c := Swap(c, 0, |c| - 1);
      assert c == c[..|c| - 1] + [c[|c| - 1]];
      c := c[..|c| - 1];
      SiftDown(0);
    }

    /** `make_heap`. */
    method MakeHeap()
      modifies this
      ensures Valid()
      ensures multiset(c) == old(multiset(c))
    {
      var lo: nat := |c| / 2;
      while lo > 0
        invariant OrderedFrom(c, key, lo)
        invariant multiset(c) == old(multiset(c))
      {
        lo := lo - 1;
        SiftDown(lo);
      }
    }

    /** `erase`: remove the addressed element and rebuild the heap. */
    method Erase(i: nat)
      requires i < |c|
      modifies this
      ensures Valid()
      ensures multiset(c) == old(multiset(c)) - multiset{old(c[i])}
    {
      assert c == c[..i] + [c[i]] + c[i + 1..];
      c := c[..i] + c[i + 1..];
      MakeHeap();
    }

    /** `swap` with a plain container: its elements come in and are made a heap. */
    method SwapContainer(c2: seq<T>) returns (taken: seq<T>)
      modifies this
      ensures Valid()
      ensures taken == old(c) && multiset(c) == multiset(c2)
    {
      taken := c;
      c := c2;
      MakeHeap();
    }

    /** `top`: an element no other element beats. */
    method Top() returns (v: T)
      requires Valid() && c != []
      ensures v == c[0]
      ensures forall w :: w in c ==> key(v) <= key(w)
    {
      v := c[0];
      forall w | w in c ensures key(v) <= key(w) {
        var i :| 0 <= i < |c| && c[i] == w;
        RootIsLeast(c, key, i);
      }
    }
  }
}
