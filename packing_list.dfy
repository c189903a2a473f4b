/** The order in which `PackingList` shows the entries (src/App.js:91-106).
    The stored list is never reordered: every view is a new sequence. */
module PackingList {
  import opened Items
  import StableSort

  /** The three values of the sort selector; the initial one is `Input`. */
  datatype SortBy = Input | Description | Packed

  /** `a.description.localeCompare(b.description)`, for a host string
      comparison `localeCompare`. */
  function DescriptionCompare(localeCompare: (string, string) -> int): (r: (Item, Item) -> int)
    ensures forall a: Item, b: Item, c: Item, d: Item ::
              a.description == c.description && b.description == d.description ==> r(a, b) == r(c, d)
    ensures ConsistentStringCompare(localeCompare) ==> StableSort.Consistent(r)
  {
    (a: Item, b: Item) => localeCompare(a.description, b.description)
  }

  /** `Number(a.packed) - Number(b.packed)`: only a packed entry followed by
      an unpacked one is out of order; entries with the same `packed` tie. */
  function PackedCompare(a: Item, b: Item): (r: int)
    ensures -1 <= r <= 1
    ensures r > 0 <==> a.packed && !b.packed
    ensures r == 0 <==> a.packed == b.packed
  {
    (if a.packed then 1 else 0) - (if b.packed then 1 else 0)
  }

  /** `localeCompare` orders strings consistently (a total preorder). */
  ghost predicate ConsistentStringCompare(localeCompare: (string, string) -> int) {
    && (forall s, t :: localeCompare(s, t) <= 0 || localeCompare(t, s) <= 0)
    && (forall s, t, u :: localeCompare(s, t) <= 0 && localeCompare(t, u) <= 0 ==> localeCompare(s, u) <= 0)
  }

  /** The entries as shown for the selected order. Every view holds the same
      entries as the list; the input view is the list itself. */
  function SortedItems(items: seq<Item>, sortBy: SortBy, localeCompare: (string, string) -> int): (r: seq<Item>)
    ensures multiset(r) == multiset(items)
    ensures sortBy == Input ==> r == items
  {
    match sortBy
    case Input => items
    case Description => StableSort.Sort(DescriptionCompare(localeCompare), items)
    case Packed => StableSort.Sort(PackedCompare, items)
  }

  lemma DescriptionCompareConsistent(localeCompare: (string, string) -> int)
    requires ConsistentStringCompare(localeCompare)
    ensures StableSort.Consistent(DescriptionCompare(localeCompare))
  {
    var compare := DescriptionCompare(localeCompare);
    forall a: Item, b: Item ensures StableSort.InOrder(compare, a, b) || StableSort.InOrder(compare, b, a) {
      assert localeCompare(a.description, b.description) <= 0 || localeCompare(b.description, a.description) <= 0;
    }
    forall a: Item, b: Item, c: Item | StableSort.InOrder(compare, a, b) && StableSort.InOrder(compare, b, c)
      ensures StableSort.InOrder(compare, a, c)
    {
      assert localeCompare(a.description, b.description) <= 0 && localeCompare(b.description, c.description) <= 0;
    }
  }

  /** The description view is a stable sort by description: a permutation of
      the list, ascending under `localeCompare`, entries with equal
      descriptions in list order; and it is the only such sequence. */
  lemma DescriptionView(items: seq<Item>, localeCompare: (string, string) -> int, other: seq<Item>)
    requires ConsistentStringCompare(localeCompare)
    ensures var r := SortedItems(items, Description, localeCompare);
            && multiset(r) == multiset(items)
            && (forall i, j :: 0 <= i < j < |r| ==> localeCompare(r[i].description, r[j].description) <= 0)
            && StableSort.IsStableSortOf(DescriptionCompare(localeCompare), r, items)
    ensures StableSort.IsStableSortOf(DescriptionCompare(localeCompare), other, items)
            ==> other == SortedItems(items, Description, localeCompare)
  {
    var compare := DescriptionCompare(localeCompare);
    DescriptionCompareConsistent(localeCompare);
    StableSort.SortIsStableSort(compare, items);
    var r := SortedItems(items, Description, localeCompare);
    forall i, j | 0 <= i < j < |r| ensures localeCompare(r[i].description, r[j].description) <= 0 {
      assert StableSort.InOrder(compare, r[i], r[j]);
    }
    if StableSort.IsStableSortOf(compare, other, items) {
      StableSort.StableSortIsUnique(compare, other, items);
    }
  }

  /** Inserting a packed entry into "unpacked, then packed" puts it at the
      head of the packed part. */
  lemma {:induction false} InsertPacked(x: Item, unpacked: seq<Item>, packed: seq<Item>)
    requires x.packed
    requires forall y :: y in unpacked ==> !y.packed
    requires forall y :: y in packed ==> y.packed
    ensures StableSort.Insert(PackedCompare, x, unpacked + packed) == unpacked + [x] + packed
  {
    if unpacked == [] {
      assert unpacked + packed == packed;
      if packed != [] {
        assert packed[0] in packed;
      }
    } else {
      var y, rest := unpacked[0], unpacked[1..];
      assert y in unpacked;
      assert (unpacked + packed)[0] == y && (unpacked + packed)[1..] == rest + packed;
      InsertPacked(x, rest, packed);
      assert unpacked == [y] + rest;
      ConcatAssociative([y], rest + [x], packed);
      ConcatAssociative([y], rest, [x]);
    }
  }

  /** The packed view shows every unpacked entry, in list order, followed by
      every packed entry, in list order. */
  lemma {:induction false} PackedView(items: seq<Item>, localeCompare: (string, string) -> int)
    ensures SortedItems(items, Packed, localeCompare) == UnpackedItems(items) + PackedItems(items)
  {
    if items != [] {
      var x, rest := items[0], items[1..];
      assert items == [x] + rest;
      PackedView(rest, localeCompare);
      PackedViewStep(x, rest, items);
    }
  }

  lemma PackedViewStep(x: Item, rest: seq<Item>, items: seq<Item>)
    requires items == [x] + rest
    requires StableSort.Sort(PackedCompare, rest) == UnpackedItems(rest) + PackedItems(rest)
    ensures StableSort.Sort(PackedCompare, items) == UnpackedItems(items) + PackedItems(items)
  {
    var u, p := UnpackedItems(rest), PackedItems(rest);
    SortCons(x, rest, items);
    if x.packed {
      InsertPacked(x, u, p);
      FiltersOfPackedHead(x, rest, items);
      ConcatAssociative(u, [x], p);
    } else {
      InsertUnpacked(x, u + p);
      FiltersOfUnpackedHead(x, rest, items);
      ConcatAssociative([x], u, p);
    }
  }

  lemma InsertUnpacked(x: Item, s: seq<Item>)
    requires !x.packed
    ensures StableSort.Insert(PackedCompare, x, s) == [x] + s
  {
  }

  lemma SortCons(x: Item, rest: seq<Item>, items: seq<Item>)
    requires items == [x] + rest
    ensures StableSort.Sort(PackedCompare, items) == StableSort.Insert(PackedCompare, x, StableSort.Sort(PackedCompare, rest))
  {
    assert items[0] == x && items[1..] == rest;
  }

  lemma FiltersOfPackedHead(x: Item, rest: seq<Item>, items: seq<Item>)
    requires items == [x] + rest && x.packed
    ensures PackedItems(items) == [x] + PackedItems(rest)
    ensures UnpackedItems(items) == UnpackedItems(rest)
  {
    assert items[0] == x && items[1..] == rest;
  }

  lemma FiltersOfUnpackedHead(x: Item, rest: seq<Item>, items: seq<Item>)
    requires items == [x] + rest && !x.packed
    ensures PackedItems(items) == PackedItems(rest)
    ensures UnpackedItems(items) == [x] + UnpackedItems(rest)
  {
    assert items[0] == x && items[1..] == rest;
  }

  /** In the packed view every unpacked entry comes before every packed one. */
  lemma PackedViewUnpackedFirst(items: seq<Item>, localeCompare: (string, string) -> int)
    ensures var r := SortedItems(items, Packed, localeCompare);
            forall i, j :: 0 <= i < j < |r| && r[i].packed ==> r[j].packed
  {
    PackedView(items, localeCompare);
    UnpackedThenPacked(UnpackedItems(items), PackedItems(items));
  }

  lemma UnpackedThenPacked(u: seq<Item>, p: seq<Item>)
    requires forall y :: y in u ==> !y.packed
    requires forall y :: y in p ==> y.packed
    ensures forall i, j :: 0 <= i < j < |u + p| && (u + p)[i].packed ==> (u + p)[j].packed
  {
    var r := u + p;
    forall k | 0 <= k < |r| ensures r[k].packed <==> k >= |u| {
      if k < |u| {
        assert r[k] == u[k] && u[k] in u;
      } else {
        assert r[k] == p[k - |u|] && p[k - |u|] in p;
      }
    }
  }
}
