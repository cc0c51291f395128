/** The timer min-heap of src/event_loop.c, sifted in place. */
module TimerHeap {

  datatype Timer = Timer(expiration: int, id: nat, active: bool)

  function Parent(j: int): int {
    (j - 1) / 2
  }

  /** No element of the first `n` expires before its parent, except perhaps `hole` before or after its own. */
  ghost predicate HeapButAbove(a: seq<Timer>, n: nat, hole: int)
    requires n <= |a|
  {
    forall j {:trigger Parent(j)} :: 0 < j < n && j != hole ==> a[Parent(j)].expiration <= a[j].expiration
  }

  ghost predicate HeapButBelow(a: seq<Timer>, n: nat, hole: int)
    requires n <= |a|
  {
    forall j {:trigger Parent(j)} :: 0 < j < n && Parent(j) != hole ==> a[Parent(j)].expiration <= a[j].expiration
  }

  /** The children of `hole` do not expire before its parent. */
  ghost predicate Bridged(a: seq<Timer>, n: nat, hole: int)
    requires n <= |a| && 0 <= hole < n
  {
    forall j {:trigger Parent(j)} :: 0 < hole && hole < j < n && Parent(j) == hole ==>
      a[Parent(hole)].expiration <= a[j].expiration
  }

  ghost predicate IsHeap(a: seq<Timer>, n: nat)
    requires n <= |a|
  {
    HeapButAbove(a, n, 0)
  }

  /** The root expires first. */
  lemma {:induction false} RootIsMinimal(a: seq<Timer>, n: nat, k: nat)
    requires n <= |a| && k < n && IsHeap(a, n)
    ensures a[0].expiration <= a[k].expiration
  {
    if k > 0 {
      RootIsMinimal(a, n, Parent(k));
    }
  }

  function Swapped(a: seq<Timer>, i: nat, j: nat): (r: seq<Timer>)
    requires i < |a| && j < |a|
    ensures |r| == |a|
  {
    a[i := a[j]][j := a[i]]
  }

  lemma SwapPrefix(a: seq<Timer>, i: nat, j: nat, n: nat)
    requires i < n <= |a| && j < n
    ensures multiset(Swapped(a, i, j)[..n]) == multiset(a[..n])
  {
    assert Swapped(a, i, j)[..n] == a[..n][i := a[j]][j := a[i]];
  }

  /** One upward exchange moves the hole to the parent. */
  lemma SwapUp(a: seq<Timer>, n: nat, i: nat)
    requires n <= |a| && 0 < i < n && HeapButAbove(a, n, i) && Bridged(a, n, i)
    requires a[i].expiration < a[Parent(i)].expiration
    ensures var b := Swapped(a, i, Parent(i));
            HeapButAbove(b, n, Parent(i)) && Bridged(b, n, Parent(i))
  {
    var p := Parent(i);
    var b := Swapped(a, i, p);
    forall j | 0 < j < n && j != p
      ensures b[Parent(j)].expiration <= b[j].expiration
    {
      var _ := Parent(j);
    }
    forall j | 0 < p && p < j < n && Parent(j) == p
      ensures b[Parent(p)].expiration <= b[j].expiration
    {
      assert a[Parent(p)].expiration <= a[p].expiration;
      if j != i {
        assert a[Parent(j)].expiration <= a[j].expiration;
      }
    }
  }

  lemma UpDone(a: seq<Timer>, n: nat, i: nat)
    requires n <= |a| && i < n && HeapButAbove(a, n, i)
    requires i == 0 || a[Parent(i)].expiration <= a[i].expiration
    ensures IsHeap(a, n)
  {
  }

  /** The child with which an element is exchanged on the way down. */
  ghost predicate SmallestChild(a: seq<Timer>, n: nat, i: nat, c: nat)
    requires n <= |a| && i < n
  {
    && c < n && c > i && Parent(c) == i
    && a[c].expiration < a[i].expiration
    && forall j {:trigger Parent(j)} :: i < j < n && Parent(j) == i ==> a[c].expiration <= a[j].expiration
  }

  /** One downward exchange moves the hole to the child. */
  lemma SwapDown(a: seq<Timer>, n: nat, i: nat, c: nat)
    requires n <= |a| && i < n && HeapButBelow(a, n, i) && Bridged(a, n, i) && SmallestChild(a, n, i, c)
    ensures var b := Swapped(a, i, c);
            HeapButBelow(b, n, c) && Bridged(b, n, c)
  {
    var b := Swapped(a, i, c);
    forall j | 0 < j < n && Parent(j) != c
      ensures b[Parent(j)].expiration <= b[j].expiration
    {
      if j == i {
        assert a[Parent(i)].expiration <= a[c].expiration;
      }
    }
    forall j | 0 < c && c < j < n && Parent(j) == c
      ensures b[Parent(c)].expiration <= b[j].expiration
    {
      assert a[Parent(j)].expiration <= a[j].expiration;
    }
  }

  ghost predicate NoEarlierChild(a: seq<Timer>, n: nat, i: nat)
    requires n <= |a| && i < n
  {
    && (2 * i + 1 < n ==> a[i].expiration <= a[2 * i + 1].expiration)
    && (2 * i + 2 < n ==> a[i].expiration <= a[2 * i + 2].expiration)
  }

  lemma DownDone(a: seq<Timer>, n: nat, i: nat)
    requires n <= |a| && i < n && HeapButBelow(a, n, i)
    requires NoEarlierChild(a, n, i)
    ensures IsHeap(a, n)
  {
    forall j | 0 < j < n
      ensures a[Parent(j)].expiration <= a[j].expiration
    {
      assert Parent(j) == i ==> j == 2 * i + 1 || j == 2 * i + 2;
    }
  }

  /** The exchange that both loops make. */
  method Exchange(a: array<Timer>, i: nat, j: nat, n: nat)
    requires i < n <= a.Length && j < n
    modifies a
    ensures a[..] == Swapped(old(a[..]), i, j)
    ensures multiset(a[..n]) == old(multiset(a[..n])) && a[n..] == old(a[n..])
  {
    ghost var before := a[..];
    SwapPrefix(before, i, j, n);
    a[i], a[j] := a[j], a[i];
    assert a[..] == Swapped(before, i, j);
    assert a[..n] == a[..][..n] && before[..n] == before[..][..n];
  }

  /** `timer_heap_up`: the element at `idx`, one past the heap, rises to its place. */
  method HeapUp(a: array<Timer>, idx: nat)
    requires idx < a.Length && IsHeap(a[..], idx)
    modifies a
    ensures IsHeap(a[..], idx + 1)
    ensures multiset(a[..idx + 1]) == old(multiset(a[..idx + 1]))
    ensures a[idx + 1..] == old(a[idx + 1..])
    // the root is displaced exactly by an element that expires before it
    ensures a[0] == if old(a[idx]).expiration < old(a[0]).expiration then old(a[idx]) else old(a[0])
  {
    var i: nat, n := idx, idx + 1;
    ghost var x := a[idx];
    LeafHole(a[..], idx);
    while i > 0
      invariant i <= idx && a[i] == x
      invariant HeapButAbove(a[..], n, i) && Bridged(a[..], n, i)
      invariant multiset(a[..n]) == old(multiset(a[..n]))
      invariant a[n..] == old(a[n..])
      invariant i > 0 ==> a[0] == old(a[0])
      invariant i == 0 && idx > 0 ==> x.expiration < old(a[0]).expiration
    {
      var parent := (i - 1) / 2;
      assert parent == Parent(i);
      if a[i].expiration >= a[parent].expiration {
        break;
      }
      ghost var before := a[..];
      SwapUp(before, n, i);
      Exchange(a, i, parent, n);
      assert a[parent] == before[i] && (parent > 0 ==> a[0] == before[0]);
      i := parent;
    }
    UpDone(a[..], n, i);
    if i > 0 {
      RootIsMinimal(a[..], n, i);
    }
  }

  lemma LeafHole(a: seq<Timer>, idx: nat)
    requires idx < |a| && IsHeap(a, idx)
    ensures HeapButAbove(a, idx + 1, idx) && Bridged(a, idx + 1, idx)
  {
  }

  /** Which of an element and its children expires first; the element, if it is not later than they are. */
  method Smallest(a: array<Timer>, n: nat, i: nat) returns (smallest: nat)
    requires i < n <= a.Length
    ensures smallest == i ==> NoEarlierChild(a[..], n, i)
    ensures smallest != i ==> SmallestChild(a[..], n, i, smallest)
  {
    var left, right := 2 * i + 1, 2 * i + 2;
    smallest := i;
    if left < n && a[left].expiration < a[smallest].expiration {
      smallest := left;
    }
    if right < n && a[right].expiration < a[smallest].expiration {
      smallest := right;
    }
    if smallest != i {
      Chosen(a[..], n, i, smallest);
    }
  }

  /** `timer_heap_down`: the element at `idx` sinks to its place among the first `n`. */
  method HeapDown(a: array<Timer>, n: nat, idx: nat)
    requires idx < n <= a.Length && HeapButBelow(a[..], n, idx) && Bridged(a[..], n, idx)
    modifies a
    ensures IsHeap(a[..], n)
    ensures multiset(a[..n]) == old(multiset(a[..n]))
    ensures a[n..] == old(a[n..])
    // comparisons are strict: a last element that does not expire before the sinking one stays put
    ensures idx < n - 1 && old(a[idx]).expiration <= old(a[n - 1]).expiration ==> a[n - 1] == old(a[n - 1])
  {
    var i := idx;
    ghost var x, last := a[idx], a[n - 1];
    while true
      invariant idx <= i < n && a[i] == x
      invariant HeapButBelow(a[..], n, i) && Bridged(a[..], n, i)
      invariant multiset(a[..n]) == old(multiset(a[..n]))
      invariant a[n..] == old(a[n..])
      invariant idx < n - 1 && x.expiration <= last.expiration ==> i < n - 1 && a[n - 1] == last
      decreases n - i
    {
      var smallest := Smallest(a, n, i);
      if smallest == i {
        break;
      }
      ghost var before := a[..];
      SwapDown(before, n, i, smallest);
      Exchange(a, i, smallest, n);
      assert a[i] == before[smallest] && a[smallest] == before[i];
      i := smallest;
    }
    DownDone(a[..], n, i);
  }

  lemma Chosen(a: seq<Timer>, n: nat, i: nat, c: nat)
    requires i < n <= |a| && c < n && (c == 2 * i + 1 || c == 2 * i + 2)
    requires a[c].expiration < a[i].expiration
    requires 2 * i + 1 < n ==> a[c].expiration <= a[2 * i + 1].expiration
    requires 2 * i + 2 < n ==> a[c].expiration <= a[2 * i + 2].expiration
    ensures SmallestChild(a, n, i, c)
  {
    forall j | i < j < n && Parent(j) == i
      ensures a[c].expiration <= a[j].expiration
    {
      assert j == 2 * i + 1 || j == 2 * i + 2;
    }
  }
}
