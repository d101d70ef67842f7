/**
 * The intrusive doubly-linked list of internal/cache/list.go, used by both
 * caches as their recency queue.
 *
 * Items live in an arena owned by the list (`heap`), and a pointer to an item
 * is its address there. The sentinel `Info` holds the front in `Info.Next` and
 * the back in `Info.Prev`; inside the list an item's `Next` points one step
 * toward the front and its `Prev` one step toward the back, so the front's
 * `Next` and the back's `Prev` are `Nil`. The ghost sequence `Items` lists the
 * addresses of the items from the back to the front, the order in which
 * following `Next` from the back visits them.
 */
module LinkedList {

  /** A `*ListItem`: `nil`, or the address of an item in the list's arena. */
  datatype Ptr = Nil | Ref(addr: nat)

  /** `ListItem`: a value and its two links. */
  datatype ListItem<T> = ListItem(Value: T, Next: Ptr, Prev: Ptr)

  /** The links of the sentinel `List.Info`, whose own value is never read. */
  datatype Links = Links(Next: Ptr, Prev: Ptr)

  ghost predicate Distinct<X>(s: seq<X>) {
    forall a, b :: 0 <= a < b < |s| ==> s[a] != s[b]
  }

  /** `s` with every occurrence of `x` taken out, the rest in their order. */
  function Without<X(==)>(s: seq<X>, x: X): (r: seq<X>)
    ensures x !in r
    ensures |r| <= |s|
    decreases |s|
  {
    if |s| == 0 then []
    else if s[0] == x then Without(s[1..], x)
    else [s[0]] + Without(s[1..], x)
  }

  /** In a sequence without repetitions, `Without` cuts out exactly one position. */
  lemma {:induction false} WithoutAt<X>(s: seq<X>, j: nat)
    requires Distinct(s) && j < |s|
    ensures Without(s, s[j]) == s[..j] + s[j + 1..]
    decreases |s|
  {
    if j == 0 {
      WithoutAbsent(s[1..], s[0]);
    } else {
      WithoutAt(s[1..], j - 1);
      assert s[1..][j - 1] == s[j];
      assert s[1..][..j - 1] + s[1..][j..] == s[1..j] + s[j + 1..];
      assert s[..j] == [s[0]] + s[1..j];
    }
  }

  lemma {:induction false} WithoutAbsent<X>(s: seq<X>, x: X)
    requires x !in s
    ensures Without(s, x) == s
    decreases |s|
  {
    if |s| > 0 {
      WithoutAbsent(s[1..], x);
      assert s == [s[0]] + s[1..];
    }
  }

  /** Cutting one position out of a sequence without repetitions keeps it so. */
  lemma CutDistinct<X>(s: seq<X>, j: nat)
    requires Distinct(s) && j < |s|
    ensures Distinct(s[..j] + s[j + 1..])
  {
    var r := s[..j] + s[j + 1..];
    forall a, b | 0 <= a < b < |r|
      ensures r[a] != r[b]
    {
      assert r[a] == s[if a < j then a else a + 1];
      assert r[b] == s[if b < j then b else b + 1];
    }
  }

  /**
   * Taking one member out of a sequence without repetitions shortens it by one
   * and keeps it free of repetitions.
   */
  lemma WithoutMember<X>(s: seq<X>, x: X)
    requires Distinct(s) && x in s
    ensures |Without(s, x)| == |s| - 1
    ensures Distinct(Without(s, x))
  {
    var j :| 0 <= j < |s| && s[j] == x;
    WithoutAt(s, j);
    CutDistinct(s, j);
  }

  /** The members left after taking `x` out are exactly the others. */
  lemma WithoutKeeps<X>(s: seq<X>, x: X, y: X)
    requires Distinct(s)
    ensures y in Without(s, x) <==> y in s && y != x
  {
    if x in s {
      var j :| 0 <= j < |s| && s[j] == x;
      WithoutAt(s, j);
      var r := s[..j] + s[j + 1..];
      if y in r {
        var k :| 0 <= k < |r| && r[k] == y;
        assert y == s[if k < j then k else k + 1];
      }
      if y in s && y != x {
        var k :| 0 <= k < |s| && s[k] == y;
        assert y == r[if k < j then k else k - 1];
      }
    } else {
      WithoutAbsent(s, x);
    }
  }

  /** Moving the last member of a sequence to the end changes nothing. */
  lemma WithoutLast<X>(s: seq<X>)
    requires Distinct(s) && |s| > 0
    ensures Without(s, s[|s| - 1]) + [s[|s| - 1]] == s
  {
    var n := |s| - 1;
    var w := Without(s, s[n]);
    WithoutAt(s, n);
    assert w == s[..n] + s[n + 1..];
    assert s[n + 1..] == [];
    assert w == s[..n];
    assert s == s[..n] + [s[n]];
  }

  /** Appending a new element keeps a sequence free of repetitions. */
  lemma AppendDistinct<X>(s: seq<X>, x: X)
    requires Distinct(s) && x !in s
    ensures Distinct(s + [x])
  {
    var r := s + [x];
    forall a, b | 0 <= a < b < |r|
      ensures r[a] != r[b]
    {
      if b == |s| {
        assert r[a] == s[a];
      } else {
        assert r[a] == s[a] && r[b] == s[b];
      }
    }
  }

  /** Dropping the first element keeps a sequence free of repetitions. */
  lemma TailDistinct<X>(s: seq<X>)
    requires Distinct(s) && |s| > 0
    ensures Distinct(s[1..])
  {
    var r := s[1..];
    forall a, b | 0 <= a < b < |r|
      ensures r[a] != r[b]
    {
      assert r[a] == s[a + 1] && r[b] == s[b + 1];
    }
  }

  /**
   * The shape of a list whose items, from the back to the front, sit at the
   * addresses `items` of `heap`: no item appears twice, the sentinel links
   * point at the two ends, the front's `Next` and the back's `Prev` are nil,
   * and every other `Next`/`Prev` link points at the neighbour.
   */
  ghost predicate Shape<T>(heap: seq<ListItem<T>>, items: seq<nat>, info: Links) {
    && (forall k :: 0 <= k < |items| ==> items[k] < |heap|)
    && Distinct(items)
    && info.Next == (if |items| == 0 then Nil else Ref(items[|items| - 1]))
    && info.Prev == (if |items| == 0 then Nil else Ref(items[0]))
    && (forall k :: 0 <= k < |items| ==> LinkedAt(heap, items, k))
  }

  /** The item at position `k` is allocated and linked to its two neighbours. */
  ghost predicate LinkedAt<T>(heap: seq<ListItem<T>>, items: seq<nat>, k: nat)
    requires k < |items|
  {
    && items[k] < |heap|
    && heap[items[k]].Next == (if k + 1 < |items| then Ref(items[k + 1]) else Nil)
    && heap[items[k]].Prev == (if k == 0 then Nil else Ref(items[k - 1]))
  }

  /** The links of the item at position `m` of a list with the list shape. */
  lemma ShapeAt<T>(heap: seq<ListItem<T>>, items: seq<nat>, info: Links, m: nat)
    requires Shape(heap, items, info) && m < |items|
    ensures items[m] < |heap|
    ensures heap[items[m]].Next == (if m + 1 < |items| then Ref(items[m + 1]) else Nil)
    ensures heap[items[m]].Prev == (if m == 0 then Nil else Ref(items[m - 1]))
  {
    assert LinkedAt(heap, items, m);
  }

  /**
   * Unlinking the item at position `j`: when only its two neighbours have new
   * links, each pointing past it, and every other item is as before, the rest
   * keep the list shape.
   */
  lemma UnlinkShape<T>(h0: seq<ListItem<T>>, s: seq<nat>, info0: Links,
                       h: seq<ListItem<T>>, j: nat, info: Links)
    requires Shape(h0, s, info0) && j < |s| && |h| >= |h0|
    requires forall m :: 0 <= m < |s| && m != j && m + 1 != j && m != j + 1 ==>
      h[s[m]] == h0[s[m]]
    requires j > 0 ==>
      h[s[j - 1]].Prev == h0[s[j - 1]].Prev &&
      h[s[j - 1]].Next == (if j + 1 < |s| then Ref(s[j + 1]) else Nil)
    requires j + 1 < |s| ==>
      h[s[j + 1]].Next == h0[s[j + 1]].Next &&
      h[s[j + 1]].Prev == (if j > 0 then Ref(s[j - 1]) else Nil)
    requires var r := s[..j] + s[j + 1..];
      info == Links(if |r| == 0 then Nil else Ref(r[|r| - 1]), if |r| == 0 then Nil else Ref(r[0]))
    ensures Shape(h, s[..j] + s[j + 1..], info)
  {
    var r: seq<nat> := s[..j] + s[j + 1..];
    CutDistinct(s, j);
    forall k | 0 <= k < |r|
      ensures LinkedAt(h, r, k)
    {
      var m: nat := if k < j then k else k + 1;
      assert r[k] == s[m];
      if k + 1 < |r| {
        assert r[k + 1] == s[if k + 1 < j then k + 1 else k + 2];
      }
      if k > 0 {
        assert r[k - 1] == s[if k - 1 < j then k - 1 else k];
      }
      ShapeAt(h0, s, info0, m);
      if m != j - 1 && m != j + 1 {
        assert h[s[m]] == h0[s[m]];
      }
    }
    assert |r| == |s| - 1;
    assert info.Next == (if |r| == 0 then Nil else Ref(r[|r| - 1]));
    assert info.Prev == (if |r| == 0 then Nil else Ref(r[0]));
    assert Distinct(r);
  }

  /**
   * Moving the item at position `j` (not the front) to the front: its old
   * neighbours point past it, it points back at the old front, the old front
   * points at it, and every other item is as before.
   */
  lemma MoveShape<T>(h0: seq<ListItem<T>>, s: seq<nat>, info0: Links,
                     h: seq<ListItem<T>>, j: nat, info: Links)
    requires Shape(h0, s, info0) && j + 1 < |s| && |h| == |h0|
    requires forall m :: 0 <= m < |s| && m != j && m + 1 != j && m != j + 1 && m != |s| - 1 ==>
      h[s[m]] == h0[s[m]]
    requires j > 0 ==>
      h[s[j - 1]].Prev == h0[s[j - 1]].Prev && h[s[j - 1]].Next == Ref(s[j + 1])
    requires h[s[j + 1]].Prev == (if j > 0 then Ref(s[j - 1]) else Nil)
    requires j + 2 < |s| ==> h[s[j + 1]].Next == h0[s[j + 1]].Next
    requires h[s[|s| - 1]].Next == Ref(s[j])
    requires j + 2 < |s| ==> h[s[|s| - 1]].Prev == h0[s[|s| - 1]].Prev
    requires h[s[j]].Next == Nil && h[s[j]].Prev == Ref(s[|s| - 1])
    requires info == Links(Ref(s[j]), Ref(if j == 0 then s[1] else s[0]))
    ensures Shape(h, s[..j] + s[j + 1..] + [s[j]], info)
  {
    var r: seq<nat> := s[..j] + s[j + 1..] + [s[j]];
    assert |r| == |s|;
    CutDistinct(s, j);
    assert Distinct(r) by {
      forall a, b | 0 <= a < b < |r|
        ensures r[a] != r[b]
      {
        assert r[a] == s[if a < j then a else a + 1];
        if b + 1 < |r| {
          assert r[b] == s[if b < j then b else b + 1];
        }
      }
    }
    forall k | 0 <= k < |r|
      ensures LinkedAt(h, r, k)
    {
      if k + 1 < |r| {
        var m: nat := if k < j then k else k + 1;
        assert r[k] == s[m];
        ShapeAt(h0, s, info0, m);
        if k + 2 < |r| {
          assert r[k + 1] == s[if k + 1 < j then k + 1 else k + 2];
        } else {
          assert r[k + 1] == s[j];
        }
        if k > 0 {
          assert r[k - 1] == s[if k - 1 < j then k - 1 else k];
        }
        if m != j - 1 && m != j + 1 && m != |s| - 1 {
          assert h[s[m]] == h0[s[m]];
        }
      } else {
        assert r[k] == s[j];
        assert r[k - 1] == s[|s| - 1];
      }
    }
  }

  /** Overwriting the value of an allocated item leaves every link as it was. */
  lemma ValueWriteShape<T>(h: seq<ListItem<T>>, items: seq<nat>, info: Links, a: nat, v: T)
    requires Shape(h, items, info) && a < |h|
    ensures Shape(h[a := h[a].(Value := v)], items, info)
  {
    var h' := h[a := h[a].(Value := v)];
    forall k | 0 <= k < |items|
      ensures LinkedAt(h', items, k)
    {
      ShapeAt(h, items, info, k);
    }
  }

  /** `h` extends `h0` and differs from it at most at address `i`. */
  ghost predicate SameExcept<T>(h0: seq<ListItem<T>>, h: seq<ListItem<T>>, i: nat) {
    |h0| <= |h| && forall a :: 0 <= a < |h0| && a != i ==> h[a] == h0[a]
  }

  /** `h` extends `h0` and keeps the value of every item `h0` holds. */
  ghost predicate KeepsValues<T>(h0: seq<ListItem<T>>, h: seq<ListItem<T>>) {
    |h0| <= |h| && forall a :: 0 <= a < |h0| ==> h[a].Value == h0[a].Value
  }

  /**
   * What the first half of `Remove` leaves: the item `i` points at `P` and
   * `N`, which are its old neighbours or, in place of a nil link, fresh blank
   * items; the sentinel has already moved past `i` where `i` was an end; and
   * nothing else has changed.
   */
  ghost predicate DetachedAt<T>(h0: seq<ListItem<T>>, info0: Links, i: nat,
                                h2: seq<ListItem<T>>, P: nat, N: nat, info2: Links)
    requires i < |h0|
  {
    && SameExcept(h0, h2, i)
    && (if h0[i].Prev == Nil then P == |h0| < |h2| else Ref(P) == h0[i].Prev)
    && (if h0[i].Next == Nil then |h0| <= N == |h2| - 1 && (h0[i].Prev == Nil ==> N != P)
        else Ref(N) == h0[i].Next)
    && h2[i] == ListItem(h0[i].Value, Ref(N), Ref(P))
    && info2.Prev == (if h0[i].Prev == Nil then h0[i].Next else info0.Prev)
    && info2.Next == (if h0[i].Next == Nil then Ref(P) else info0.Next)
  }

  /**
   * After the first half of `Remove` on the item at position `j`, its two
   * neighbours are distinct from it and from each other, and when more than
   * one item was in the list the sentinel points at real items.
   */
  lemma DetachedNeighbours<T>(h0: seq<ListItem<T>>, s: seq<nat>, info0: Links, j: nat,
                              h2: seq<ListItem<T>>, P: nat, N: nat, info2: Links)
    requires Shape(h0, s, info0) && j < |s|
    requires DetachedAt(h0, info0, s[j], h2, P, N, info2)
    ensures P < |h2| && N < |h2| && P != s[j] && N != s[j] && P != N
    ensures if j > 0 then P == s[j - 1] else P >= |h0|
    ensures if j + 1 < |s| then N == s[j + 1] else N >= |h0|
    ensures info2.Next == (if j + 1 < |s| then info0.Next else Ref(P))
    ensures info2.Prev == (if j > 0 then info0.Prev else if j + 1 < |s| then Ref(N) else Nil)
    ensures |s| > 1 ==> info2.Next.Ref? && info2.Prev.Ref?
    ensures |s| > 1 ==> info2.Next.addr < |h2| && info2.Prev.addr < |h2|
  {
    ShapeAt(h0, s, info0, j);
    ShapeAt(h0, s, info0, 0);
    ShapeAt(h0, s, info0, |s| - 1);
    if j > 0 {
      ShapeAt(h0, s, info0, j - 1);
    }
    if j + 1 < |s| {
      ShapeAt(h0, s, info0, j + 1);
    }
  }

  /** The relinking writes and the clearing of the new ends give the list shape. */
  lemma RelinkedShape<T>(h0: seq<ListItem<T>>, s: seq<nat>, info0: Links, j: nat,
                         h2: seq<ListItem<T>>, P: nat, N: nat, info2: Links,
                         h3: seq<ListItem<T>>, h: seq<ListItem<T>>, info: Links)
    requires Shape(h0, s, info0) && j < |s|
    requires DetachedAt(h0, info0, s[j], h2, P, N, info2) && P < |h2| && N < |h2|
    requires var hp := h2[P := h2[P].(Next := h2[s[j]].Next)];
      h3 == hp[N := hp[N].(Prev := hp[s[j]].Prev)]
    requires |s| > 1 ==>
      && info == info2 && info2.Next.Ref? && info2.Prev.Ref?
      && info2.Next.addr < |h3| && info2.Prev.addr < |h3|
      && var hf := h3[info2.Next.addr := h3[info2.Next.addr].(Next := Nil)];
         h == hf[info2.Prev.addr := hf[info2.Prev.addr].(Prev := Nil)]
    requires |s| <= 1 ==> h == h3 && info == Links(Nil, Nil)
    ensures Shape(h, s[..j] + s[j + 1..], info)
    ensures |h| == |h2| && KeepsValues(h0, h)
  {
    DetachedNeighbours(h0, s, info0, j, h2, P, N, info2);
    ShapeAt(h0, s, info0, 0);
    ShapeAt(h0, s, info0, |s| - 1);
    if j > 0 {
      ShapeAt(h0, s, info0, j - 1);
    }
    if j + 1 < |s| {
      ShapeAt(h0, s, info0, j + 1);
    }
    forall m | 0 <= m < |s| && m != j && m + 1 != j && m != j + 1
      ensures h[s[m]] == h0[s[m]]
    {
      ShapeAt(h0, s, info0, m);
      assert s[m] != s[j];
    }
    UnlinkShape(h0, s, info0, h, j, info);
    forall a | 0 <= a < |h0|
      ensures h[a].Value == h0[a].Value
    {
      assert h[a].Value == h2[a].Value;
    }
  }

  /**
   * `MoveToFront` of the item at position `j`, not the front: the writes that
   * unlink it (the first pair when it has a `Prev`, the second otherwise),
   * then the writes that hang it in front of the old front, give the list
   * shape with the item moved to the front end.
   */
  lemma MovedShape<T>(h0: seq<ListItem<T>>, s: seq<nat>, info0: Links, j: nat,
                      h1: seq<ListItem<T>>, info1: Links, h: seq<ListItem<T>>, info: Links)
    requires Shape(h0, s, info0) && j + 1 < |s|
    requires j > 0 ==>
      && h1 == h0[s[j - 1] := h0[s[j - 1]].(Next := Ref(s[j + 1]))]
                 [s[j + 1] := h0[s[j + 1]].(Prev := Ref(s[j - 1]))]
      && info1 == info0
    requires j == 0 ==>
      && h1 == h0[s[j + 1] := h0[s[j + 1]].(Prev := Nil)]
      && info1 == info0.(Prev := Ref(s[j + 1]))
    requires var f := s[|s| - 1];
      var hp := h1[s[j] := h1[s[j]].(Prev := Ref(f))];
      var hf := hp[f := hp[f].(Next := Ref(s[j]))];
      h == hf[s[j] := hf[s[j]].(Next := Nil)]
    requires info == info1.(Next := Ref(s[j]))
    ensures Shape(h, s[..j] + s[j + 1..] + [s[j]], info)
    ensures |h| == |h0| && KeepsValues(h0, h)
  {
    var last := |s| - 1;
    ShapeAt(h0, s, info0, j);
    ShapeAt(h0, s, info0, j + 1);
    ShapeAt(h0, s, info0, last);
    if j > 0 {
      ShapeAt(h0, s, info0, j - 1);
      assert s[j - 1] != s[last] && s[j - 1] != s[j];
    }
    assert s[j + 1] != s[j] && s[last] != s[j];
    forall m | 0 <= m < |s| && m != j && m + 1 != j && m != j + 1 && m != last
      ensures h[s[m]] == h0[s[m]]
    {
      ShapeAt(h0, s, info0, m);
      assert s[m] != s[j] && s[m] != s[last] && s[m] != s[j + 1];
      assert j > 0 ==> s[m] != s[j - 1];
    }
    MoveShape(h0, s, info0, h, j, info);
    forall a | 0 <= a < |h0|
      ensures h[a].Value == h0[a].Value
    {
      assert h[a].Value == h1[a].Value;
    }
  }

  /** The values of the items at the addresses `items`, in the same order. */
  function ValuesOf<T>(heap: seq<ListItem<T>>, items: seq<nat>): (vs: seq<T>)
    requires forall k :: 0 <= k < |items| ==> items[k] < |heap|
    ensures |vs| == |items|
    ensures forall k :: 0 <= k < |items| ==> vs[k] == heap[items[k]].Value
  {
    seq(|items|, k requires 0 <= k < |items| => heap[items[k]].Value)
  }

  class List<T(0)> {
    /** The sentinel: `Info.Next` is the front, `Info.Prev` the back. */
    var Info: Links
    var len: int
    /** Every item this list ever allocated, addressed by position. */
    var heap: seq<ListItem<T>>
    /** The items in the list, from the back to the front. */
    ghost var Items: seq<nat>

    /** `len` counts the items, and the links have the list shape. */
    ghost predicate Valid()
      reads this
    {
      len == |Items| && Shape(heap, Items, Info)
    }

    /** The values in the list from the back to the front. */
    ghost function Values(): seq<T>
      reads this
      requires Valid()
    {
      ValuesOf(heap, Items)
    }

    /** `NewList`: an empty list. */
    constructor ()
      ensures Valid()
      ensures Items == [] && heap == []
    {
      Info := Links(Nil, Nil);
      len := 0;
      heap := [];
      Items := [];
    }

    function Len(): (n: int)
      reads this
      requires Valid()
      ensures n == |Items|
    {
      len
    }

    /** The most recently pushed-to-front item, nil on an empty list. */
    function Front(): (p: Ptr)
      reads this
      requires Valid()
      ensures p == (if |Items| == 0 then Nil else Ref(Items[|Items| - 1]))
    {
      Info.Next
    }

    /** The item at the far end from the front, nil on an empty list. */
    function Back(): (p: Ptr)
      reads this
      requires Valid()
      ensures p == (if |Items| == 0 then Nil else Ref(Items[0]))
    {
      Info.Prev
    }

    /** Allocates a new item with the given value and no links. */
    method NewItem(v: T) returns (e: nat)
      modifies this
      ensures e == old(|heap|) && heap == old(heap) + [ListItem(v, Nil, Nil)]
      ensures Info == old(Info) && len == old(len) && Items == old(Items)
    {
      e := |heap|;
      heap := heap + [ListItem(v, Nil, Nil)];
    }

    /** Adds `v` as the new front. */
    method PushFront(v: T) returns (e: nat)
      requires Valid()
      modifies this
      ensures Valid()
      ensures Items == old(Items) + [e]
      ensures e == old(|heap|) && |heap| == e + 1 && heap[e].Value == v
      ensures KeepsValues(old(heap), heap)
    {
      ghost var s, h0, info0 := Items, heap, Info;
      e := NewItem(v);
      if len != 0 {
        var f := Info.Next.addr;
        heap := heap[e := heap[e].(Prev := Info.Next)];
        heap := heap[f := heap[f].(Next := Ref(e))];
      } else {
        Info := Info.(Prev := Ref(e));
      }
      Info := Info.(Next := Ref(e));
      len := len + 1;
      Items := Items + [e];
      forall k | 0 <= k < |Items|
        ensures LinkedAt(heap, Items, k)
      {
        if k < |s| {
          ShapeAt(h0, s, info0, k);
        }
      }
      assert Distinct(Items) by {
        forall a, b | 0 <= a < b < |Items|
          ensures Items[a] != Items[b]
        {
          if b < |s| { ShapeAt(h0, s, info0, a); } else { ShapeAt(h0, s, info0, a); }
        }
      }
    }

    /** Adds `v` as the new back. */
    method PushBack(v: T) returns (e: nat)
      requires Valid()
      modifies this
      ensures Valid()
      ensures Items == [e] + old(Items)
      ensures e == old(|heap|) && |heap| == e + 1 && heap[e].Value == v
      ensures KeepsValues(old(heap), heap)
    {
      ghost var s, h0, info0 := Items, heap, Info;
      e := NewItem(v);
      if len != 0 {
        var b := Info.Prev.addr;
        heap := heap[e := heap[e].(Next := Info.Prev)];
        heap := heap[b := heap[b].(Prev := Ref(e))];
      } else {
        Info := Info.(Next := Ref(e));
      }
      Info := Info.(Prev := Ref(e));
      len := len + 1;
      Items := [e] + Items;
      forall k | 0 <= k < |Items|
        ensures LinkedAt(heap, Items, k)
      {
        if k > 0 {
          ShapeAt(h0, s, info0, k - 1);
          assert Items[k] == s[k - 1];
          if k + 1 < |Items| {
            assert Items[k + 1] == s[k];
          }
        }
      }
      assert Distinct(Items) by {
        forall a, b | 0 <= a < b < |Items|
          ensures Items[a] != Items[b]
        {
          ShapeAt(h0, s, info0, b - 1);
          assert Items[b] == s[b - 1];
          if a > 0 {
            assert Items[a] == s[a - 1];
          }
        }
      }
    }

    /**
     * Unlinks the item `i`. An end item first gets a freshly allocated blank
     * neighbour in place of its nil link, so that the two relinking writes
     * need no case split; the new ends then get their outer links cleared.
     */
    method Remove(i: nat)
      requires Valid() && i in Items
      modifies this
      ensures Valid()
      ensures Items == Without(old(Items), i)
      ensures KeepsValues(old(heap), heap)
    {
      ghost var s, h0, info0 := Items, heap, Info;
      ghost var j :| 0 <= j < |s| && s[j] == i;
      WithoutAt(s, j);
      assert i < |heap|;
      // the addresses of the two neighbours, real or blank
      // the writes go to a working copy of the arena and the sentinel
      var h, info := heap, Info;
      // the addresses of the two neighbours, real or blank
      ghost var P: nat, N: nat := (if h[i].Prev.Ref? then h[i].Prev.addr else 0), (if h[i].Next.Ref? then h[i].Next.addr else 0);
      if h[i].Prev == Nil {
        var blank: T := *;
        var d := |h|;
        h := h + [ListItem(blank, Nil, Nil)];
        P := d;
        h := h[i := h[i].(Prev := Ref(d))];
        info := info.(Prev := h[i].Next);
      }
      if h[i].Next == Nil {
        var blank: T := *;
        var d := |h|;
        h := h + [ListItem(blank, Nil, Nil)];
        N := d;
        h := h[i := h[i].(Next := Ref(d))];
        info := info.(Next := h[i].Prev);
      }
      ghost var h2, info2 := h, info;
      assert DetachedAt(h0, info0, i, h2, P, N, info2);
      DetachedNeighbours(h0, s, info0, j, h2, P, N, info2);
      var p := h[i].Prev.addr;
      h := h[p := h[p].(Next := h[i].Next)];
      var n := h[i].Next.addr;
      h := h[n := h[n].(Prev := h[i].Prev)];
      ghost var h3 := h;
      if len > 1 {
        var f := info.Next.addr;
        h := h[f := h[f].(Next := Nil)];
        var b := info.Prev.addr;
        h := h[b := h[b].(Prev := Nil)];
      } else {
        info := Links(Nil, Nil);
      }
      RelinkedShape(h0, s, info0, j, h2, P, N, info2, h3, h, info);
      heap, Info := h, info;
      len := len - 1;
      Items := s[..j] + s[j + 1..];
    }

    /** Makes `i` the front; the other items keep their order. */
    method MoveToFront(i: nat)
      requires Valid() && i in Items
      modifies this
      ensures Valid()
      ensures Items == Without(old(Items), i) + [i]
      ensures |heap| == old(|heap|) && KeepsValues(old(heap), heap)
      ensures old(Info.Next) == Ref(i) ==> Info == old(Info) && heap == old(heap)
    {
      ghost var s, h0, info0 := Items, heap, Info;
      ghost var j :| 0 <= j < |s| && s[j] == i;
      if Info.Next == Ref(i) {
        WithoutLast(s);
        return;
      }
      WithoutAt(s, j);
      ShapeAt(h0, s, info0, j);
      ShapeAt(h0, s, info0, j + 1);
      if j > 0 {
        ShapeAt(h0, s, info0, j - 1);
      }
      // the writes go to a working copy of the arena and the sentinel
      var h, info := heap, Info;
      if h[i].Prev != Nil {
        var p := h[i].Prev.addr;
        h := h[p := h[p].(Next := h[i].Next)];
        var n := h[i].Next.addr;
        h := h[n := h[n].(Prev := h[i].Prev)];
      } else {
        var n := h[i].Next.addr;
        h := h[n := h[n].(Prev := h[i].Prev)];
        info := info.(Prev := h[i].Next);
      }
      ghost var h1, info1 := h, info;
      var f := info.Next.addr;
      h := h[i := h[i].(Prev := info.Next)];
      h := h[f := h[f].(Next := Ref(i))];
      h := h[i := h[i].(Next := Nil)];
      info := info.(Next := Ref(i));
      MovedShape(h0, s, info0, j, h1, info1, h, info);
      heap, Info := h, info;
      Items := s[..j] + s[j + 1..] + [i];
    }

    /**
     * Walks the list from the back along `Next` links, collecting values; the
     * walk visits exactly `Len()` items and stops after the front.
     */
    method Transpond() returns (vals: seq<T>)
      requires Valid()
      ensures vals == Values()
      ensures |vals| == Len()
    {
      vals := [];
      var p := Info.Prev;
      ghost var k := 0;
      while p != Nil
        invariant 0 <= k <= |Items|
        invariant p == (if k < |Items| then Ref(Items[k]) else Nil)
        invariant vals == ValuesOf(heap, Items[..k])
        decreases |Items| - k
      {
        ShapeAt(heap, Items, Info, k);
        vals := vals + [heap[p.addr].Value];
        p := heap[p.addr].Next;
        k := k + 1;
      }
      assert Items[..k] == Items;
    }
  }
}
