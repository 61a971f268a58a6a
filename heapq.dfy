/** The binary min-heap of Python's `heapq`, over a list of products ordered by
    `Products.Less`. The list is the implicit tree in which the parent of
    position `i > 0` is position `(i - 1) / 2`. Each operation takes the list and
    returns the list as `heapq` leaves it. */
module HeapQ {
  import opened Products

  /** The edge into position `i` is in heap order: the parent of `i` has no
      more stock than `i`. Positions outside `1 .. |h| - 1` have no edge. */
  ghost predicate EdgeOrdered(h: seq<Product>, i: int)
  {
    0 < i < |h| ==> h[(i - 1) / 2].stock <= h[i].stock
  }

  /** Every parent has no more stock than its children. */
  ghost predicate IsHeap(h: seq<Product>)
  {
    forall i :: EdgeOrdered(h, i)
  }

  /** The parent of `pos` has no more stock than any child of `pos`. */
  ghost predicate ParentBelowChildren(h: seq<Product>, pos: nat)
    requires pos < |h|
  {
    0 < pos ==> forall c :: 0 < c < |h| && (c - 1) / 2 == pos ==> h[(pos - 1) / 2].stock <= h[c].stock
  }

  /** Heap order on every edge except the one from the parent of `pos` to `pos`,
      and the parent of `pos` has no more stock than the children of `pos`:
      the state `_siftdown` repairs. */
  ghost predicate HeapExceptAbove(h: seq<Product>, pos: nat)
  {
    && pos < |h|
    && (forall i :: i != pos ==> EdgeOrdered(h, i))
    && ParentBelowChildren(h, pos)
  }

  /** Heap order on every edge that does not touch position `pos`, and the
      parent of `pos` has no more stock than the children of `pos`: the state
      `_siftup` keeps while it moves the hole at `pos` down to a leaf. */
  ghost predicate HeapAroundHole(h: seq<Product>, pos: nat)
  {
    && pos < |h|
    && (forall i :: i != pos && (i - 1) / 2 != pos ==> EdgeOrdered(h, i))
    && ParentBelowChildren(h, pos)
  }

  /** One step of `_siftdown`: with the item `x` in the hole at `p`, moving the
      parent, which has more stock, down into the hole moves the hole and the
      one edge out of order up by one level. */
  lemma SiftDownStep(h: seq<Product>, p: nat, x: Product)
    requires 0 < p < |h| && HeapExceptAbove(h[p := x], p)
    requires x.stock < h[(p - 1) / 2].stock
    ensures HeapExceptAbove(h[p := h[(p - 1) / 2]][(p - 1) / 2 := x], (p - 1) / 2)
  {
    var q := (p - 1) / 2;
    var v := h[p := x];
    var g := h[p := h[q]][q := x];
    forall i | i != q ensures EdgeOrdered(g, i) {
      if 0 < i < |g| && i != p {
        assert EdgeOrdered(v, i);
        var pi := (i - 1) / 2;
        if pi == q {
          assert g[pi] == x && v[pi] == h[q] && g[i] == v[i];
        } else if pi == p {
          assert g[pi] == h[q] && v[pi] == x && g[i] == v[i];
        }
      }
    }
    if 0 < q {
      forall c | 0 < c < |g| && (c - 1) / 2 == q ensures g[(q - 1) / 2].stock <= g[c].stock {
        assert EdgeOrdered(v, q);
        if c != p {
          assert EdgeOrdered(v, c);
        }
      }
    }
  }

  /** `_siftdown` stops when the item has reached the root or a parent with no
      more stock: the list is then a heap. */
  lemma SiftDownDone(h: seq<Product>, p: nat)
    requires HeapExceptAbove(h, p)
    requires 0 < p ==> h[(p - 1) / 2].stock <= h[p].stock
    ensures IsHeap(h)
  {
    forall i ensures EdgeOrdered(h, i) {
    }
  }

  /** One step of `_siftup`: pulling the child with less stock up into the hole
      moves the hole down to that child. */
  lemma SiftUpStep(h: seq<Product>, p: nat, c: nat)
    requires HeapAroundHole(h, p)
    requires c < |h| && (c == 2 * p + 1 || c == 2 * p + 2)
    requires h[c].stock <= h[2 * p + 1].stock
    requires 2 * p + 2 < |h| ==> h[c].stock <= h[2 * p + 2].stock
    ensures HeapAroundHole(h[p := h[c]], c)
  {
    var g := h[p := h[c]];
    assert (c - 1) / 2 == p;
    forall s | 0 < s < |h| && (s - 1) / 2 == p ensures h[c].stock <= h[s].stock {
      assert s == 2 * p + 1 || s == 2 * p + 2;
    }
    forall i | i != c && (i - 1) / 2 != c ensures EdgeOrdered(g, i) {
      if 0 < i < |g| {
        var pi := (i - 1) / 2;
        if i == p {
        } else if pi == p {
        } else {
          assert EdgeOrdered(h, i);
        }
      }
    }
    forall d | 0 < d < |g| && (d - 1) / 2 == c ensures g[(c - 1) / 2].stock <= g[d].stock {
      assert EdgeOrdered(h, d);
    }
  }

  /** When the hole of `_siftup` is a leaf, writing any item into it leaves at
      most the edge above the leaf out of order. */
  lemma SiftUpLeaf(h: seq<Product>, p: nat, x: Product)
    requires HeapAroundHole(h, p) && |h| <= 2 * p + 1
    ensures HeapExceptAbove(h[p := x], p)
  {
    var g := h[p := x];
    forall i | i != p ensures EdgeOrdered(g, i) {
      if 0 < i < |g| {
        assert (i - 1) / 2 != p;
        assert EdgeOrdered(h, i);
      }
    }
  }

  /** `x` is an element of `m` with no more stock than any element of `m`. */
  ghost predicate IsMinimum(x: Product, m: multiset<Product>)
  {
    x in m && forall y | y in m :: x.stock <= y.stock
  }

  /** When one element of `m` has strictly less stock than every other, it is
      the only minimum, so extract-min is bound to return it. */
  lemma UniqueMinimum(x: Product, m: multiset<Product>, a: Product)
    requires IsMinimum(x, m) && a in m
    requires forall y | y in m && y != a :: a.stock < y.stock
    ensures x == a
  {
    assert x.stock <= a.stock;
  }

  /** A minimum followed by a drain of the rest is a drain of the whole. */
  lemma DrainStep(x: Product, rest: seq<Product>, m: multiset<Product>)
    requires IsMinimum(x, m) && IsDrain(rest, m - multiset{x})
    ensures IsDrain([x] + rest, m)
  {
    assert ([x] + rest)[1..] == rest;
  }

  /** `out` is the start of a drain of `m` that leaves `left` to drain: any
      drain of `left` completes it to a drain of `m`. */
  ghost predicate DrainPrefix(out: seq<Product>, left: multiset<Product>, m: multiset<Product>)
  {
    forall rest :: IsDrain(rest, left) ==> IsDrain(out + rest, m)
  }

  /** Nothing drained yet: every drain of `m` completes the empty start. */
  lemma DrainPrefixStart(m: multiset<Product>)
    ensures DrainPrefix([], m, m)
  {
    forall rest | IsDrain(rest, m) ensures IsDrain([] + rest, m) {
      assert [] + rest == rest;
    }
  }

  /** Taking a minimum `x` of what is left extends the start of a drain by `x`. */
  lemma DrainPrefixStep(out: seq<Product>, left: multiset<Product>, m: multiset<Product>, x: Product)
    requires DrainPrefix(out, left, m) && IsMinimum(x, left)
    ensures DrainPrefix(out + [x], left - multiset{x}, m)
  {
    forall rest | IsDrain(rest, left - multiset{x}) ensures IsDrain(out + [x] + rest, m) {
      DrainStep(x, rest, left);
      assert out + [x] + rest == out + ([x] + rest);
    }
  }

  /** With nothing left, the start of a drain is a whole drain. */
  lemma DrainPrefixDone(out: seq<Product>, m: multiset<Product>)
    requires DrainPrefix(out, multiset{}, m)
    ensures IsDrain(out, m)
  {
    assert IsDrain([], multiset{});
    assert out + [] == out;
  }

  /** Swapping two positions keeps the multiset of elements. */
  lemma SwapKeepsElements(s: seq<Product>, i: nat, j: nat)
    requires i < |s| && j < |s|
    ensures multiset(s[i := s[j]][j := s[i]]) == multiset(s)
  {
  }

  /** Moving the item at `c` into the hole at `p` moves the hole to `c`: with
      `x` written into the hole, the list holds the same items before and after. */
  lemma HoleMove(s: seq<Product>, p: nat, c: nat, x: Product)
    requires p < |s| && c < |s| && p != c
    ensures multiset(s[p := s[c]][c := x]) == multiset(s[p := x])
  {
    var t := s[p := x];
    SwapKeepsElements(t, p, c);
    assert t[p := t[c]][c := t[p]] == s[p := s[c]][c := x];
  }

  /** In a heap every element has at least the stock of the root. */
  lemma {:induction false} RootBelowAll(h: seq<Product>, i: nat)
    requires IsHeap(h) && i < |h|
    ensures h[0].stock <= h[i].stock
    decreases i
  {
    if 0 < i {
      assert EdgeOrdered(h, i);
      RootBelowAll(h, (i - 1) / 2);
    }
  }

  /** The root of a non-empty heap is a minimum of its elements. */
  lemma RootIsMinimum(h: seq<Product>)
    requires IsHeap(h) && 0 < |h|
    ensures IsMinimum(h[0], multiset(h))
  {
    forall y | y in multiset(h) ensures h[0].stock <= y.stock {
      var i :| 0 <= i < |h| && h[i] == y;
      RootBelowAll(h, i);
    }
  }

  /** `_siftdown(heap, 0, pos)`: the item at `pos` moves up past every parent
      with more stock; the parents move down into the hole it leaves. */
  method SiftDown(h: seq<Product>, pos: nat) returns (r: seq<Product>)
    requires HeapExceptAbove(h, pos)
    ensures |r| == |h|
    ensures IsHeap(r)
    ensures multiset(r) == multiset(h)
  {
    var heap := h;
    var p := pos;
    var newitem := heap[p];
    assert heap[p := newitem] == h;
    while 0 < p
      invariant p < |heap| == |h|
      invariant multiset(heap[p := newitem]) == multiset(h)
      invariant HeapExceptAbove(heap[p := newitem], p)
      decreases p
    {
      var parentpos := (p - 1) / 2;
      var parent := heap[parentpos];
      if Less(newitem, parent) {
        SiftDownStep(heap, p, newitem);
        HoleMove(heap, p, parentpos, newitem);
        heap := heap[p := parent];
        p := parentpos;
      } else {
        break;
      }
    }
    SiftDownDone(heap[p := newitem], p);
    heap := heap[p := newitem];
    r := heap;
  }

  /** `_siftup(heap, 0)`: the hole at the root moves down to a leaf, each step
      pulling up the child with less stock (the right child on a tie), and the
      displaced item is put in the leaf and sifted back up. */
  method SiftUp(h: seq<Product>) returns (r: seq<Product>)
    requires 0 < |h| && HeapAroundHole(h, 0)
    ensures |r| == |h|
    ensures IsHeap(r)
    ensures multiset(r) == multiset(h)
  {
    var heap := h;
    var endpos := |heap|;
    var p := 0;
    var newitem := heap[p];
    var childpos := 2 * p + 1;
    while childpos < endpos
      invariant |heap| == endpos == |h|
      invariant p < endpos && childpos == 2 * p + 1
      invariant multiset(heap[p := newitem]) == multiset(h)
      invariant HeapAroundHole(heap, p)
      decreases endpos - p
    {
      var rightpos := childpos + 1;
      if rightpos < endpos && !Less(heap[childpos], heap[rightpos]) {
        childpos := rightpos;
      }
      SiftUpStep(heap, p, childpos);
      HoleMove(heap, p, childpos, newitem);
      heap := heap[p := heap[childpos]];
      p := childpos;
      childpos := 2 * p + 1;
    }
    SiftUpLeaf(heap, p, newitem);
    heap := heap[p := newitem];
    r := SiftDown(heap, p);
  }

  /** `heapq.heappush`: append the item and sift it up. */
  method HeapPush(h: seq<Product>, item: Product) returns (r: seq<Product>)
    requires IsHeap(h)
    ensures IsHeap(r)
    ensures multiset(r) == multiset(h) + multiset{item}
  {
    var heap := h + [item];
    forall i | i != |h| ensures EdgeOrdered(heap, i) {
      assert EdgeOrdered(h, i);
    }
    r := SiftDown(heap, |heap| - 1);
  }

  /** `heapq.heappop`: take the last item off; if items remain, return the root
      and sift the last item down from the root in its place. The caller checks
      that the heap is not empty (Python raises `IndexError` otherwise). */
  method HeapPop(h: seq<Product>) returns (item: Product, r: seq<Product>)
    requires IsHeap(h) && 0 < |h|
    ensures item == h[0]
    ensures IsMinimum(item, multiset(h))
    ensures IsHeap(r)
    ensures multiset(r) == multiset(h) - multiset{item}
  {
    RootIsMinimum(h);
    var lastelt := h[|h| - 1];
    var heap := h[..|h| - 1];
    assert h == heap + [lastelt];
    if heap != [] {
      item := heap[0];
      heap := heap[0 := lastelt];
      forall i | i != 0 && (i - 1) / 2 != 0 ensures EdgeOrdered(heap, i) {
        assert EdgeOrdered(h, i);
      }
      r := SiftUp(heap);
    } else {
      item := lastelt;
      r := heap;
    }
  }

  /** `out` lists the items of `m` in the order repeated extract-min calls can
      return them: each is a minimum of what is left before it is removed. */
  ghost predicate IsDrain(out: seq<Product>, m: multiset<Product>)
    decreases |out|
  {
    if out == [] then m == multiset{}
    else IsMinimum(out[0], m) && IsDrain(out[1..], m - multiset{out[0]})
  }

  /** Products in non-decreasing order of stock. */
  ghost predicate SortedByStock(s: seq<Product>)
  {
    forall i, j :: 0 <= i < j < |s| ==> s[i].stock <= s[j].stock
  }

  /** Draining a heap by repeated extract-min returns every item exactly once. */
  lemma {:induction false} DrainIsPermutation(out: seq<Product>, m: multiset<Product>)
    requires IsDrain(out, m)
    ensures multiset(out) == m
    decreases |out|
  {
    if out != [] {
      var x, tail := out[0], out[1..];
      assert x in m && IsDrain(tail, m - multiset{x});
      DrainIsPermutation(tail, m - multiset{x});
      assert out == [x] + tail;
    }
  }

  /** Draining a heap by repeated extract-min returns its items in
      non-decreasing order of stock. */
  lemma {:induction false} DrainIsSorted(out: seq<Product>, m: multiset<Product>)
    requires IsDrain(out, m)
    ensures SortedByStock(out)
    decreases |out|
  {
    if out != [] {
      var x, tail := out[0], out[1..];
      var rest := m - multiset{x};
      assert IsMinimum(x, m) && IsDrain(tail, rest);
      DrainIsPermutation(tail, rest);
      DrainIsSorted(tail, rest);
      forall i, j | 0 <= i < j < |out| ensures out[i].stock <= out[j].stock {
        assert out[j] == tail[j - 1];
        if i == 0 {
          assert tail[j - 1] in multiset(tail);
        } else {
          assert out[i] == tail[i - 1];
        }
      }
    }
  }
}
