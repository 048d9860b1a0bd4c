/** The array heap of container/heap, as the virtual clock uses it, on plain values.

    A slot holds a timer's identity and its trigger time; only the trigger time is compared.
    Up, Down, Push, Pop and Remove are the library's algorithms over the clock's Swap and Less.
    Every result here is about those algorithms, so it fixes the pop order even among equal
    trigger times. */
module TimerHeap {

  datatype Entry = Entry(id: nat, at: int)

  type Heap = seq<Entry>

  function Parent(k: nat): (p: nat)
    requires k > 0
    ensures p < k && (k == 2 * p + 1 || k == 2 * p + 2)
  {
    (k - 1) / 2
  }

  // Slot k does not come before its parent.
  predicate InPlace(h: Heap, k: nat)
    requires 0 < k < |h|
  {
    h[Parent(k)].at <= h[k].at
  }

  // Slot k does not come before its grandparent.
  predicate BelowGrandparent(h: Heap, k: nat)
    requires 0 < k < |h| && Parent(k) > 0
  {
    h[Parent(Parent(k))].at <= h[k].at
  }

  ghost predicate Ordered(h: Heap) {
    forall k :: 0 < k < |h| ==> InPlace(h, k)
  }

  function Swap(h: Heap, i: nat, j: nat): (r: Heap)
    requires i < |h| && j < |h|
    ensures |r| == |h|
  {
    h[i := h[j]][j := h[i]]
  }

  function Up(h: Heap, j: nat): (r: Heap)
    requires j < |h|
    ensures |r| == |h|
    decreases j
  {
    if j == 0 || InPlace(h, j) then h
    else Up(Swap(h, Parent(j), j), Parent(j))
  }

  // The child that Down compares with slot i: the right one only when it is strictly smaller.
  function SmallerChild(h: Heap, i: nat, n: nat): (c: nat)
    requires 2 * i + 1 < n <= |h|
    ensures c < n && (c == 2 * i + 1 || c == 2 * i + 2)
    ensures h[c].at <= h[2 * i + 1].at && (2 * i + 2 < n ==> h[c].at <= h[2 * i + 2].at)
  {
    if 2 * i + 2 < n && h[2 * i + 2].at < h[2 * i + 1].at then 2 * i + 2 else 2 * i + 1
  }

  // True when Down moves slot i at all.
  predicate Sinks(h: Heap, i: nat, n: nat)
    requires n <= |h|
  {
    2 * i + 1 < n && h[SmallerChild(h, i, n)].at < h[i].at
  }

  function Down(h: Heap, i: nat, n: nat): (r: Heap)
    requires n <= |h|
    ensures |r| == |h|
    decreases n - i
  {
    if !Sinks(h, i, n) then h
    else var c := SmallerChild(h, i, n); Down(Swap(h, i, c), c, n)
  }

  function Push(h: Heap, e: Entry): (r: Heap) {
    Up(h + [e], |h|)
  }

  function Pop(h: Heap): (r: Heap)
    requires |h| > 0
    ensures |r| == |h| - 1
  {
    Down(Swap(h, 0, |h| - 1), 0, |h| - 1)[..|h| - 1]
  }

  function Remove(h: Heap, i: nat): (r: Heap)
    requires i < |h|
  {
    var n := |h| - 1;
    if n == i then h[..n]
    else Refill(Swap(h, i, n), i, n)[..n]
  }

  // The library's Fix on the first n slots: slot i sinks, or else rises.
  function Refill(s: Heap, i: nat, n: nat): (r: Heap)
    requires i < n <= |s|
    ensures |r| == |s|
  {
    if Sinks(s, i, n) then Down(s, i, n) else Up(s, i)
  }

  // ---- Permutation ----------------------------------------------------------------------

  lemma SwapPermutes(h: Heap, i: nat, j: nat)
    requires i < |h| && j < |h|
    ensures multiset(Swap(h, i, j)) == multiset(h)
  {
  }

  lemma {:induction false} UpPermutes(h: Heap, j: nat)
    requires j < |h|
    ensures multiset(Up(h, j)) == multiset(h)
    decreases j
  {
    if j > 0 && !InPlace(h, j) {
      SwapPermutes(h, Parent(j), j);
      hide Swap;
      UpPermutes(Swap(h, Parent(j), j), Parent(j));
    }
  }

  lemma {:induction false} DownPermutes(h: Heap, i: nat, n: nat)
    requires n <= |h|
    ensures multiset(Down(h, i, n)) == multiset(h) && Down(h, i, n)[n..] == h[n..]
    decreases n - i
  {
    if Sinks(h, i, n) {
      var c := SmallerChild(h, i, n);
      SwapPermutes(h, i, c);
      assert Swap(h, i, c)[n..] == h[n..];
      hide Swap;
      DownPermutes(Swap(h, i, c), c, n);
    }
  }

  // ---- Heap order -----------------------------------------------------------------------

  // The first n slots are in place, except perhaps slot j against its parent.
  ghost predicate OrderedButUp(h: Heap, j: nat, n: nat)
    requires n <= |h|
  {
    && (forall k :: 0 < k < n && k != j ==> InPlace(h, k))
    && (forall k :: 0 < k < n && Parent(k) == j && j > 0 ==> BelowGrandparent(h, k))
  }

  // The first n slots are in place, except perhaps slot i against its children.
  ghost predicate OrderedButDown(h: Heap, i: nat, n: nat)
    requires n <= |h|
  {
    && (forall k :: 0 < k < n && Parent(k) != i ==> InPlace(h, k))
    && (forall k :: 0 < k < n && Parent(k) == i && i > 0 ==> BelowGrandparent(h, k))
  }

  lemma UpStep(h: Heap, j: nat, n: nat)
    requires 0 < j < n <= |h| && OrderedButUp(h, j, n) && !InPlace(h, j)
    ensures OrderedButUp(Swap(h, Parent(j), j), Parent(j), n)
  {
    var p, s := Parent(j), Swap(h, Parent(j), j);
    forall k | 0 < k < n && k != p ensures InPlace(s, k) {
      if k != j { assert InPlace(h, k); }
      if k != j && Parent(k) == j { assert BelowGrandparent(h, k); }
    }
    forall k | 0 < k < n && Parent(k) == p && p > 0 ensures BelowGrandparent(s, k) {
      assert InPlace(h, p);
      if k != j { assert InPlace(h, k); }
    }
  }

  lemma {:induction false} UpRestores(h: Heap, j: nat, n: nat)
    requires j < n <= |h| && OrderedButUp(h, j, n)
    ensures Ordered(Up(h, j)[..n]) && Up(h, j)[n..] == h[n..]
    decreases j
  {
    if j == 0 || InPlace(h, j) {
      forall k | 0 < k < n ensures InPlace(h[..n], k) { assert k == j || InPlace(h, k); }
    } else {
      UpStep(h, j, n);
      UpRestores(Swap(h, Parent(j), j), Parent(j), n);
      assert Swap(h, Parent(j), j)[n..] == h[n..];
    }
  }

  lemma DownStep(h: Heap, i: nat, n: nat)
    requires n <= |h| && OrderedButDown(h, i, n) && Sinks(h, i, n)
    ensures OrderedButDown(Swap(h, i, SmallerChild(h, i, n)), SmallerChild(h, i, n), n)
  {
    var c := SmallerChild(h, i, n);
    var s := Swap(h, i, c);
    forall k | 0 < k < n && Parent(k) != c ensures InPlace(s, k) {
      if Parent(k) != i { assert InPlace(h, k); }
      if k == i { assert BelowGrandparent(h, c); }
    }
    forall k | 0 < k < n && Parent(k) == c ensures BelowGrandparent(s, k) {
      assert InPlace(h, k);
    }
  }

  lemma {:induction false} DownRestores(h: Heap, i: nat, n: nat)
    requires n <= |h| && OrderedButDown(h, i, n)
    ensures Ordered(Down(h, i, n)[..n])
    decreases n - i
  {
    if Sinks(h, i, n) {
      DownStep(h, i, n);
      DownRestores(Swap(h, i, SmallerChild(h, i, n)), SmallerChild(h, i, n), n);
    } else {
      forall k | 0 < k < n ensures InPlace(h[..n], k) { assert Parent(k) == i || InPlace(h, k); }
    }
  }

  lemma {:induction false} RootIsLeast(h: Heap, k: nat)
    requires Ordered(h) && k < |h|
    ensures h[0].at <= h[k].at
  {
    if k > 0 { assert InPlace(h, k); RootIsLeast(h, Parent(k)); }
  }

  lemma PushKeepsOrder(h: Heap, e: Entry)
    requires Ordered(h)
    ensures Ordered(Push(h, e)) && multiset(Push(h, e)) == multiset(h) + multiset{e}
  {
    var g := h + [e];
    forall k | 0 < k < |g| && k != |h| ensures InPlace(g, k) { assert InPlace(h, k); }
    UpRestores(g, |h|, |g|);
    UpPermutes(g, |h|);
    assert Push(h, e)[..|g|] == Push(h, e);
  }

  // What sits in the first n slots once the last slot is cut off.
  lemma CutLast(r: Heap, h: Heap, e: Entry)
    requires |r| > 0 && multiset(r) == multiset(h) && r[|r| - 1] == e
    ensures multiset(r[..|r| - 1]) == multiset(h) - multiset{e}
  {
    assert r == r[..|r| - 1] + [e];
  }

  lemma PopKeepsOrder(h: Heap)
    requires |h| > 0 && Ordered(h)
    ensures Ordered(Pop(h)) && multiset(Pop(h)) == multiset(h) - multiset{h[0]}
  {
    var n := |h| - 1;
    var s := Swap(h, 0, n);
    forall k | 0 < k < n && Parent(k) != 0 ensures InPlace(s, k) { assert InPlace(h, k); }
    DownRestores(s, 0, n);
    var d := Down(s, 0, n);
    SwapPermutes(h, 0, n);
    DownPermutes(s, 0, n);
    assert d[n] == d[n..][0] == s[n..][0] == h[0];
    CutLast(d, h, h[0]);
  }

  // Removing from the middle: the last slot takes the hole and either sinks or rises, never both.
  lemma RemoveKeepsOrder(h: Heap, i: nat)
    requires i < |h| && Ordered(h)
    ensures Ordered(Remove(h, i)) && multiset(Remove(h, i)) == multiset(h) - multiset{h[i]}
  {
    hide *;
    if i == |h| - 1 {
      RemoveLastKeepsOrder(h);
    } else {
      RemoveMiddleKeepsOrder(h, i);
    }
  }

  lemma RemoveLastKeepsOrder(h: Heap)
    requires h != [] && Ordered(h)
    ensures Ordered(Remove(h, |h| - 1)) && multiset(Remove(h, |h| - 1)) == multiset(h) - multiset{h[|h| - 1]}
  {
    var n := |h| - 1;
    forall k | 0 < k < n ensures InPlace(h[..n], k) { assert InPlace(h, k); }
    CutLast(h, h, h[n]);
  }

  lemma RemoveMiddleKeepsOrder(h: Heap, i: nat)
    requires i < |h| - 1 && Ordered(h)
    ensures Ordered(Remove(h, i)) && multiset(Remove(h, i)) == multiset(h) - multiset{h[i]}
  {
    var n := |h| - 1;
    var s := Swap(h, i, n);
    assert Remove(h, i) == Refill(s, i, n)[..n] && s[n] == h[i] && |s| == |h|;
    hide *;
    var r := Refill(s, i, n);
    RefillKeepsOrder(h, i);
    LastOfTail(r, s, n);
    CutLast(r, h, h[i]);
  }

  lemma LastOfTail(r: Heap, s: Heap, n: nat)
    requires |r| == |s| == n + 1 && r[n..] == s[n..]
    ensures r[n] == s[n]
  {
    assert r[n] == r[n..][0] && s[n] == s[n..][0];
  }

  lemma RefillKeepsOrder(h: Heap, i: nat)
    requires i < |h| - 1 && Ordered(h)
    ensures var n, s := |h| - 1, Swap(h, i, |h| - 1);
      && Ordered(Refill(s, i, n)[..n]) && Refill(s, i, n)[n..] == s[n..]
      && multiset(Refill(s, i, n)) == multiset(h)
  {
    var n, s := |h| - 1, Swap(h, i, |h| - 1);
    SwapPermutes(h, i, n);
    if Sinks(s, i, n) {
      FilledHoleMaySink(h, i);
      DownRestores(s, i, n);
      DownPermutes(s, i, n);
    } else {
      FilledHoleMayRise(h, i);
      UpRestores(s, i, n);
      UpPermutes(s, i);
    }
  }

  lemma FilledHoleMaySink(h: Heap, i: nat)
    requires i < |h| - 1 && Ordered(h)
    requires Sinks(Swap(h, i, |h| - 1), i, |h| - 1)
    ensures OrderedButDown(Swap(h, i, |h| - 1), i, |h| - 1)
  {
    var n := |h| - 1;
    var s := Swap(h, i, n);
    var c := SmallerChild(s, i, n);
    assert InPlace(h, c) && h[i].at <= s[c].at < s[i].at;
    hide Sinks, SmallerChild;
    forall k | 0 < k < n && Parent(k) == i && i > 0 ensures BelowGrandparent(s, k) {
      assert InPlace(h, i) && InPlace(h, k);
    }
    forall k | 0 < k < n && Parent(k) != i ensures InPlace(s, k) {
      assert InPlace(h, k);
    }
  }

  lemma FilledHoleMayRise(h: Heap, i: nat)
    requires i < |h| - 1 && Ordered(h)
    requires !Sinks(Swap(h, i, |h| - 1), i, |h| - 1)
    ensures OrderedButUp(Swap(h, i, |h| - 1), i, |h| - 1)
  {
    var n := |h| - 1;
    var s := Swap(h, i, n);
    forall k | 0 < k < n && k != i ensures InPlace(s, k) {
      assert InPlace(h, k);
    }
    forall k | 0 < k < n && Parent(k) == i && i > 0 ensures BelowGrandparent(s, k) {
      assert InPlace(h, i) && InPlace(h, k);
    }
  }

  // ---- Popping everything that is due ---------------------------------------------------

  // The slots popped, in pop order, by popping while the root is due at t.
  function Fired(h: Heap, t: int): (f: seq<Entry>)
    decreases |h|
  {
    if h == [] || h[0].at > t then [] else [h[0]] + Fired(Pop(h), t)
  }

  // The array left behind.
  function Left(h: Heap, t: int): (r: Heap)
    decreases |h|
  {
    if h == [] || h[0].at > t then h else Left(Pop(h), t)
  }

  lemma FiredStep(h: Heap, t: int)
    ensures h != [] && h[0].at <= t ==> Fired(h, t) == [h[0]] + Fired(Pop(h), t) && Left(h, t) == Left(Pop(h), t)
    ensures h == [] || h[0].at > t ==> Fired(h, t) == [] && Left(h, t) == h
  {
  }

  ghost predicate InFiringOrder(f: seq<Entry>) {
    forall i, j :: 0 <= i < j < |f| ==> f[i].at <= f[j].at
  }

  lemma {:induction false} FiredAndLeftAreAll(h: Heap, t: int)
    requires Ordered(h)
    ensures multiset(h) == multiset(Fired(h, t)) + multiset(Left(h, t))
    ensures Ordered(Left(h, t))
    decreases |h|
  {
    hide Pop, Ordered;
    if h != [] && h[0].at <= t {
      PopKeepsOrder(h);
      FiredAndLeftAreAll(Pop(h), t);
      assert Fired(h, t) == [h[0]] + Fired(Pop(h), t) && Left(h, t) == Left(Pop(h), t);
      assert h[0] in multiset(h) && multiset(h) == multiset(Pop(h)) + multiset{h[0]};
    } else {
      assert Fired(h, t) == [] && Left(h, t) == h;
    }
  }

  lemma {:induction false} LeftIsNotDue(h: Heap, t: int, e: Entry)
    requires Ordered(h) && e in Left(h, t)
    ensures e.at > t
    decreases |h|
  {
    hide Pop, Ordered;
    if h != [] && h[0].at <= t {
      PopKeepsOrder(h);
      LeftIsNotDue(Pop(h), t, e);
    } else {
      var k :| 0 <= k < |h| && h[k] == e;
      RootIsLeast(h, k);
    }
  }

  lemma NextRootIsNoSooner(h: Heap)
    requires Ordered(h) && |h| > 1
    ensures h[0].at <= Pop(h)[0].at
  {
    hide Pop, Ordered;
    var p := Pop(h);
    PopKeepsOrder(h);
    assert p[0] in multiset(p) && p[0] in multiset(h);
    var m :| 0 <= m < |h| && h[m] == p[0];
    RootIsLeast(h, m);
  }

  lemma {:induction false} FiredIsDueInOrder(h: Heap, t: int)
    requires Ordered(h)
    ensures InFiringOrder(Fired(h, t))
    ensures forall k :: 0 <= k < |Fired(h, t)| ==> h[0].at <= Fired(h, t)[k].at <= t
    decreases |h|
  {
    hide Pop, Ordered;
    if h != [] && h[0].at <= t {
      var p, f := Pop(h), Fired(Pop(h), t);
      PopKeepsOrder(h);
      FiredIsDueInOrder(p, t);
      assert Fired(h, t) == [h[0]] + f;
      if p != [] { NextRootIsNoSooner(h); }
    }
  }

  /** Exactly the due slots are popped, each as often as it was there, in trigger order. */
  lemma FiredExactly(h: Heap, t: int)
    requires Ordered(h)
    ensures multiset(h) == multiset(Fired(h, t)) + multiset(Left(h, t))
    ensures forall e :: e in Fired(h, t) ==> e.at <= t
    ensures forall e :: e in Left(h, t) ==> e.at > t
    ensures InFiringOrder(Fired(h, t))
    ensures Ordered(Left(h, t))
  {
    hide Fired, Left, Ordered;
    FiredAndLeftAreAll(h, t);
    FiredIsDueInOrder(h, t);
    forall e | e in Left(h, t) ensures e.at > t { LeftIsNotDue(h, t, e); }
  }

  /** Popping up to t and then up to u >= t is popping up to u at once: same slots, same order,
      same array. This needs no heap order. */
  lemma {:induction false} FiredInTwoStages(h: Heap, t: int, u: int)
    requires t <= u
    ensures Fired(h, u) == Fired(h, t) + Fired(Left(h, t), u)
    ensures Left(h, u) == Left(Left(h, t), u)
    decreases |h|
  {
    hide Pop;
    if h != [] && h[0].at <= t {
      var p := Pop(h);
      FiredInTwoStages(p, t, u);
      var f, g := Fired(p, t), Fired(Left(p, t), u);
      assert Fired(h, t) == [h[0]] + f && Left(h, t) == Left(p, t);
      assert [h[0]] + (f + g) == ([h[0]] + f) + g;
    } else {
      assert Fired(h, t) == [] && Left(h, t) == h;
    }
  }
}
