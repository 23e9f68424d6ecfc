/** The positional result store that `run` keeps inline: a buffer of optional
    items indexed by item id, grown by doubling, read once in ascending order. */
module Store {
  import opened Wrappers
  import opened Todo

  /** Slots allocated before the first item arrives. */
  const InitialCapacity: nat := 64

  /** A slot is `None` while no item has been placed there (a nil pointer). */
  type Buffer = seq<Option<Item>>

  /** A fresh slice of `n` nil pointers, as `make` allocates it. */
  function Empty(n: nat): (b: Buffer)
    ensures |b| == n
    ensures forall i :: 0 <= i < n ==> b[i] == None
  {
    seq(n, _ => None)
  }

  /** Go's built-in `copy(dst, src)`: the first min(len(dst), len(src)) slots
      of `dst` take the values of `src`, the rest of `dst` is untouched. */
  function Copy(dst: Buffer, src: Buffer): (r: Buffer)
    ensures |r| == |dst|
    ensures forall i :: 0 <= i < |r| ==> r[i] == if i < |src| then src[i] else dst[i]
  {
    if |dst| <= |src| then src[..|dst|] else src + dst[|src|..]
  }

  /** `n` doubled `j` times, that is n * 2^j. */
  function Doubled(n: nat, j: nat): (d: nat)
    ensures d >= n
  {
    if j == 0 then n else 2 * Doubled(n, j - 1)
  }

  /** `m` is `n` doubled some number of times. */
  ghost predicate IsDoubling(n: nat, m: nat) {
    exists j: nat :: m == Doubled(n, j)
  }

  lemma {:induction false} DoubledShift(n: nat, j: nat)
    ensures Doubled(2 * n, j) == Doubled(n, j + 1)
  {
    if j > 0 {
      DoubledShift(n, j - 1);
    }
  }

  lemma {:induction false} DoubledAdd(n: nat, a: nat, b: nat)
    ensures Doubled(Doubled(n, a), b) == Doubled(n, a + b)
  {
    if b > 0 {
      DoubledAdd(n, a, b - 1);
    }
  }

  lemma DoublingTransitive(n: nat, m: nat, k: nat)
    requires IsDoubling(n, m) && IsDoubling(m, k)
    ensures IsDoubling(n, k)
  {
    var a: nat :| m == Doubled(n, a);
    var b: nat :| k == Doubled(m, b);
    DoubledAdd(n, a, b);
  }

  /** The capacity the grow loop reaches from `n` slots before writing slot `id`:
      the first of n, 2n, 4n, ... that exceeds `id`. */
  function Fit(n: nat, id: int): (c: nat)
    requires n > 0
    ensures c > id && c >= n
    ensures c == n || c <= 2 * id
    decreases if id < n then 0 else id - n + 1
  {
    if id < n then n else Fit(2 * n, id)
  }

  lemma {:induction false} FitIsDoubling(n: nat, id: int)
    requires n > 0
    ensures IsDoubling(n, Fit(n, id))
    decreases if id < n then 0 else id - n + 1
  {
    if id < n {
      assert Fit(n, id) == Doubled(n, 0);
    } else {
      FitIsDoubling(2 * n, id);
      var j: nat :| Fit(2 * n, id) == Doubled(2 * n, j);
      DoubledShift(n, j);
    }
  }

  /** Growing for `a` and then for `b` ends where growing once for the larger does. */
  lemma {:induction false} FitOfFit(n: nat, a: int, b: int)
    requires n > 0
    ensures Fit(Fit(n, a), b) == Fit(n, if a < b then b else a)
    decreases if a < n then 0 else a - n + 1
  {
    if a >= n {
      FitOfFit(2 * n, a, b);
    }
  }

  /** The buffer after `buf[item.ID] = item`, stated slot by slot: items with a
      non-positive id are discarded, otherwise the buffer is first widened to
      `Fit` slots and only slot `item.id` changes. */
  function Placed(buf: Buffer, item: Item): (r: Buffer)
    requires |buf| > 0
  {
    if item.id <= 0 then buf
    else
      seq(Fit(|buf|, item.id),
          i requires 0 <= i => if i == item.id then Some(item) else if i < |buf| then buf[i] else None)
  }

  /** The place step of a task as written: discard ids <= 0, double the buffer
      (allocate, copy) until the id fits, then write the slot. */
  method Place(buf: Buffer, item: Item) returns (r: Buffer)
    requires |buf| > 0
    ensures r == Placed(buf, item)
    ensures item.id <= 0 ==> r == buf
    ensures item.id > 0 ==> |r| > item.id && r[item.id] == Some(item) && IsDoubling(|buf|, |r|)
    ensures forall i :: 0 <= i < |buf| && i != item.id ==> r[i] == buf[i]
    ensures forall i :: |buf| <= i < |r| && i != item.id ==> r[i] == None
  {
    if item.id <= 0 {
      return buf;
    }
    var b := buf;
    ghost var j: nat := 0;
    while item.id >= |b|
      invariant |b| == Doubled(|buf|, j)
      invariant |buf| <= |b|
      invariant Fit(|b|, item.id) == Fit(|buf|, item.id)
      invariant forall i :: 0 <= i < |b| ==> b[i] == if i < |buf| then buf[i] else None
      decreases item.id - |b|
    {
      var grown := Empty(2 * |b|);
      grown := Copy(grown, b);
      b := grown;
      j := j + 1;
    }
    r := b[item.id := Some(item)];
  }

  /** A later item with the same id overwrites the earlier one. */
  lemma PlacedOverwrites(buf: Buffer, a: Item, b: Item)
    requires |buf| > 0
    requires a.id == b.id
    ensures Placed(Placed(buf, a), b) == Placed(buf, b)
  {
  }

  /** Every occupied slot holds the item whose id is that slot's index. */
  ghost predicate WellPlaced(b: Buffer) {
    forall i :: 0 <= i < |b| && b[i].Some? ==> b[i].value.id == i
  }

  /** The store invariant: 64 doubled some number of times, every item at its
      own index. The first conjunct follows from the second; it is stated so
      that callers get a non-empty buffer without unpacking the existential. */
  ghost predicate Valid(b: Buffer) {
    InitialCapacity <= |b| && IsDoubling(InitialCapacity, |b|) && WellPlaced(b)
  }

  /** The store `run` allocates before dispatching: 64 empty slots. */
  function NewStore(): (s: Buffer)
    ensures Valid(s)
    ensures |s| == InitialCapacity
    ensures forall i :: 0 <= i < |s| ==> s[i] == None
  {
    assert InitialCapacity == Doubled(InitialCapacity, 0);
    Empty(InitialCapacity)
  }

  /** Placement keeps the store invariant, so the length stays 64 times a power
      of two and exceeds every placed id. */
  lemma PlacedKeepsValid(b: Buffer, item: Item)
    requires Valid(b)
    ensures Valid(Placed(b, item))
  {
    if item.id > 0 {
      FitIsDoubling(|b|, item.id);
      DoublingTransitive(InitialCapacity, |b|, |Placed(b, item)|);
    }
  }

  /** The items in slots `lo` onward, in slot order, empty slots skipped. */
  function RenderFrom(b: Buffer, lo: nat): (out: seq<Item>)
    requires lo <= |b|
    ensures forall x :: x in out <==> exists i :: lo <= i < |b| && b[i] == Some(x)
    decreases |b| - lo
  {
    if lo == |b| then []
    else if b[lo].Some? then [b[lo].value] + RenderFrom(b, lo + 1)
    else RenderFrom(b, lo + 1)
  }

  /** The final pass of `run`: every non-empty slot in ascending index order. */
  function Render(b: Buffer): (out: seq<Item>)
    ensures forall x :: x in out <==> exists i :: 0 <= i < |b| && b[i] == Some(x)
  {
    RenderFrom(b, 0)
  }

  ghost predicate StrictlyAscending(items: seq<Item>) {
    forall i, j :: 0 <= i < j < |items| ==> items[i].id < items[j].id
  }

  lemma {:induction false} RenderFromAscending(b: Buffer, lo: nat)
    requires lo <= |b|
    requires WellPlaced(b)
    ensures StrictlyAscending(RenderFrom(b, lo))
    ensures forall x :: x in RenderFrom(b, lo) ==> x.id >= lo
    decreases |b| - lo
  {
    if lo < |b| {
      var rest := RenderFrom(b, lo + 1);
      RenderFromAscending(b, lo + 1);
      if b[lo].Some? {
        var out := [b[lo].value] + rest;
        assert out == RenderFrom(b, lo);
        forall i, j | 0 <= i < j < |out|
          ensures out[i].id < out[j].id
        {
          assert out[j] == rest[j - 1];
          if i > 0 {
            assert out[i] == rest[i - 1];
          } else {
            assert rest[j - 1] in rest;
          }
        }
      }
    }
  }

  /** Rendering a well-placed store lists the items in strictly ascending id
      order, with no sort step. */
  lemma RenderAscending(b: Buffer)
    requires WellPlaced(b)
    ensures StrictlyAscending(Render(b))
  {
    RenderFromAscending(b, 0);
  }

  lemma HeadIsMember(c: seq<Item>)
    requires |c| > 0
    ensures c[0] in c
  {
  }

  /** Two strictly ascending listings of the same items are the same listing. */
  lemma {:induction false} AscendingListingUnique(a: seq<Item>, c: seq<Item>)
    requires StrictlyAscending(a) && StrictlyAscending(c)
    requires forall x :: x in a <==> x in c
    ensures a == c
    decreases |a|
  {
    if |a| == 0 {
      if |c| > 0 {
        HeadIsMember(c);
      }
    } else {
      assert a[0] in c;
      assert c != [];
      assert c[0] in a;
      var k :| 0 <= k < |c| && c[k] == a[0];
      var m :| 0 <= m < |a| && a[m] == c[0];
      assert a[0].id <= a[m].id;
      assert c[0].id <= c[k].id;
      assert k == 0;
      forall x
        ensures x in a[1..] <==> x in c[1..]
      {
        if x in a[1..] {
          var p :| 1 <= p < |a| && a[p] == x;
          assert a[0].id < a[p].id;
          assert x in a && x in c;
          var q :| 0 <= q < |c| && c[q] == x;
          assert q != 0;
          assert c[1..][q - 1] == x;
        }
        if x in c[1..] {
          var p :| 1 <= p < |c| && c[p] == x;
          assert c[0].id < c[p].id;
          assert x in c && x in a;
          var q :| 0 <= q < |a| && a[q] == x;
          assert q != 0;
          assert a[1..][q - 1] == x;
        }
      }
      AscendingListingUnique(a[1..], c[1..]);
      assert a == [a[0]] + a[1..];
      assert c == [c[0]] + c[1..];
    }
  }

  /** Render is THE ascending listing of the placed items: any strictly
      ascending sequence holding exactly the occupied slots' items equals it. */
  lemma RenderIsSortedListing(b: Buffer, out: seq<Item>)
    requires WellPlaced(b)
    requires StrictlyAscending(out)
    requires forall x :: x in out <==> exists i :: 0 <= i < |b| && b[i] == Some(x)
    ensures out == Render(b)
  {
    RenderAscending(b);
    AscendingListingUnique(out, Render(b));
  }

  /** A sequence of placements in completion order. */
  function PlaceAll(b: Buffer, items: seq<Item>): (r: Buffer)
    requires |b| > 0
    ensures |r| >= |b|
    decreases |items|
  {
    if items == [] then b else PlaceAll(Placed(b, items[0]), items[1..])
  }

  /** Placing one more item after a sequence is one more `Placed` step. */
  lemma {:induction false} PlaceAllSnoc(b: Buffer, items: seq<Item>, x: Item)
    requires |b| > 0
    ensures PlaceAll(b, items + [x]) == Placed(PlaceAll(b, items), x)
    decreases |items|
  {
    if items != [] {
      assert (items + [x])[1..] == items[1..] + [x];
      PlaceAllSnoc(Placed(b, items[0]), items[1..], x);
    }
  }

  lemma {:induction false} PlaceAllKeepsValid(b: Buffer, items: seq<Item>)
    requires Valid(b)
    ensures Valid(PlaceAll(b, items))
    decreases |items|
  {
    if items != [] {
      PlacedKeepsValid(b, items[0]);
      PlaceAllKeepsValid(Placed(b, items[0]), items[1..]);
    }
  }

  /** The item a sequence of placements leaves in slot `i`: the last one whose
      id is `i`, provided `i` is positive. */
  function Latest(items: seq<Item>, i: int): (r: Option<Item>)
    ensures r.Some? ==> r.value in items && r.value.id == i && i > 0
    ensures i > 0 && (exists k :: 0 <= k < |items| && items[k].id == i) ==> r.Some?
    decreases |items|
  {
    if items == [] then None
    else
      var later := Latest(items[1..], i);
      if later.Some? then later
      else if items[0].id == i && i > 0 then Some(items[0])
      else None
  }

  /** The largest id among the items, or 0 when none is positive. */
  function MaxId(items: seq<Item>): (m: int)
    ensures m >= 0
    ensures forall k :: 0 <= k < |items| ==> items[k].id <= m
    ensures m == 0 || exists k :: 0 <= k < |items| && items[k].id == m
    decreases |items|
  {
    if items == [] then 0
    else
      var rest := MaxId(items[1..]);
      if items[0].id > rest then items[0].id else rest
  }

  /** The slot-by-slot outcome of a sequence of placements: the length is the
      one growth for the largest id would reach, each slot holds the last item
      placed there, or what it held before. */
  lemma {:induction false} PlaceAllClosedForm(b: Buffer, items: seq<Item>)
    requires |b| > 0
    ensures |PlaceAll(b, items)| == Fit(|b|, MaxId(items))
    ensures forall i :: 0 <= i < |PlaceAll(b, items)| ==>
              PlaceAll(b, items)[i] == if Latest(items, i).Some? then Latest(items, i)
                                       else if i < |b| then b[i] else None
    decreases |items|
  {
    if items != [] {
      var x := items[0];
      var rest := items[1..];
      var p := Placed(b, x);
      PlaceAllClosedForm(p, rest);
      assert |p| == Fit(|b|, if x.id > 0 then x.id else 0);
      FitOfFit(|b|, if x.id > 0 then x.id else 0, MaxId(rest));
    }
  }

  /** No two distinct items share an id. */
  ghost predicate UniqueIds(items: seq<Item>) {
    forall j, k :: 0 <= j < |items| && 0 <= k < |items| && items[j].id == items[k].id ==> items[j] == items[k]
  }

  lemma MaxIdDeterminedByMembers(a: seq<Item>, c: seq<Item>)
    requires forall x :: x in a <==> x in c
    ensures MaxId(a) == MaxId(c)
  {
    if MaxId(a) != 0 {
      var k :| 0 <= k < |a| && a[k].id == MaxId(a);
      assert a[k] in c;
    }
    if MaxId(c) != 0 {
      var k :| 0 <= k < |c| && c[k].id == MaxId(c);
      assert c[k] in a;
    }
  }

  lemma LatestDeterminedByMembers(a: seq<Item>, c: seq<Item>, i: int)
    requires UniqueIds(a)
    requires forall x :: x in a <==> x in c
    ensures Latest(a, i) == Latest(c, i)
  {
  }

  /** Completion order does not matter: when ids are unique, any two orders in
      which the same items complete leave the same store. */
  lemma CompletionOrderIrrelevant(b: Buffer, a: seq<Item>, c: seq<Item>)
    requires |b| > 0
    requires UniqueIds(a)
    requires forall x :: x in a <==> x in c
    ensures PlaceAll(b, a) == PlaceAll(b, c)
  {
    PlaceAllClosedForm(b, a);
    PlaceAllClosedForm(b, c);
    MaxIdDeterminedByMembers(a, c);
    forall i | 0 <= i < |PlaceAll(b, a)|
      ensures PlaceAll(b, a)[i] == PlaceAll(b, c)[i]
    {
      LatestDeterminedByMembers(a, c, i);
    }
  }

  /** After any sequence of placements into a new store, the rendered items
      are exactly the placed items with a positive id (ids being unique). */
  lemma RenderAfterPlacements(items: seq<Item>)
    requires UniqueIds(items)
    ensures forall x :: x in Render(PlaceAll(NewStore(), items)) <==> x in items && x.id > 0
  {
    var s := PlaceAll(NewStore(), items);
    PlaceAllClosedForm(NewStore(), items);
    forall x | x in items && x.id > 0
      ensures x in Render(s)
    {
      var k :| 0 <= k < |items| && items[k] == x;
      assert x.id <= MaxId(items);
      var y := Latest(items, x.id).value;
      var j :| 0 <= j < |items| && items[j] == y;
      assert s[x.id] == Some(x);
    }
  }

  /** Whatever the ids, every rendered item was placed and has a positive id. */
  lemma RenderedWerePlaced(items: seq<Item>)
    ensures forall x :: x in Render(PlaceAll(NewStore(), items)) ==> x in items && x.id > 0
  {
    var s := PlaceAll(NewStore(), items);
    PlaceAllClosedForm(NewStore(), items);
    forall x | x in Render(s)
      ensures x in items && x.id > 0
    {
      var i :| 0 <= i < |s| && s[i] == Some(x);
      assert Latest(items, i).Some?;
    }
  }
}
