/** The packing list itself: its entries and the three ways the handlers of
    `App` compute a new list from the current one (spread, `filter`, `map`). */
module Items {

  /** One entry of the list: `{ id, description, quantity, packed }`. */
  datatype Item = Item(id: int, description: string, quantity: int, packed: bool)

  /** No two entries of `s` share an id. */
  ghost predicate UniqueIds(s: seq<Item>) {
    forall i, j :: 0 <= i < j < |s| ==> s[i].id != s[j].id
  }

  /** No entry of `s` carries `id`. */
  ghost predicate Fresh(id: int, s: seq<Item>) {
    forall x :: x in s ==> x.id != id
  }

  /** `a` can be obtained from `b` by deleting entries: same relative order. */
  ghost predicate IsSubsequence<T>(a: seq<T>, b: seq<T>)
    decreases |b|
  {
    a == [] || (b != [] && if a[0] == b[0] then IsSubsequence(a[1..], b[1..]) else IsSubsequence(a, b[1..]))
  }

  // ---------------------------------------------------------------------------
  // Add: `[...items, newItem]`

  /** The list after adding `item`: it is appended as the last entry. */
  function Added(items: seq<Item>, item: Item): (r: seq<Item>)
    ensures |r| == |items| + 1 && r[|items|] == item
    ensures forall i :: 0 <= i < |items| ==> r[i] == items[i]
  {
    items + [item]
  }

  /** Adding an entry with a fresh id keeps the ids unique. */
  lemma AddedKeepsUniqueIds(items: seq<Item>, item: Item)
    requires UniqueIds(items) && Fresh(item.id, items)
    ensures UniqueIds(Added(items, item))
  {
    var r := Added(items, item);
    forall i, j | 0 <= i < j < |r| ensures r[i].id != r[j].id {
      if j == |items| {
        assert r[i] in items;
      }
    }
  }

  // ---------------------------------------------------------------------------
  // Remove: `items.filter((item) => item.id !== id)`

  /** The list after removing `id`: exactly the entries whose id differs. */
  function Removed(items: seq<Item>, id: int): (r: seq<Item>)
    ensures forall x :: x in r <==> x in items && x.id != id
    ensures |r| <= |items|
  {
    if items == [] then []
    else if items[0].id != id then [items[0]] + Removed(items[1..], id)
    else Removed(items[1..], id)
  }

  /** Removing keeps every entry with another id as often as it occurred and
      drops every entry with `id`. */
  lemma {:induction false} RemovedMultiplicity(items: seq<Item>, id: int, x: Item)
    ensures multiset(Removed(items, id))[x] == if x.id == id then 0 else multiset(items)[x]
  {
    if items != [] {
      RemovedMultiplicity(items[1..], id, x);
      assert items == [items[0]] + items[1..];
    }
  }

  /** The entries that remain keep their relative order. */
  lemma {:induction false} RemovedIsSubsequence(items: seq<Item>, id: int)
    ensures IsSubsequence(Removed(items, id), items)
  {
    if items != [] {
      RemovedIsSubsequence(items[1..], id);
      if items[0].id == id {
        SubsequenceOfTail(Removed(items[1..], id), items);
      }
    }
  }

  lemma {:induction false} SubsequenceOfTail<T>(a: seq<T>, b: seq<T>)
    requires b != [] && IsSubsequence(a, b[1..])
    ensures IsSubsequence(a, b)
    decreases |b|, 0
  {
    if a != [] && a[0] == b[0] {
      DropFirst(a, b[1..]);
    }
  }

  lemma {:induction false} DropFirst<T>(a: seq<T>, b: seq<T>)
    requires a != [] && IsSubsequence(a, b)
    ensures IsSubsequence(a[1..], b)
    decreases |b|, 1
  {
    if a[0] != b[0] {
      DropFirst(a, b[1..]);
    }
    SubsequenceOfTail(a[1..], b);
  }

  /** Removing an id that no entry carries is a no-op. */
  lemma {:induction false} RemovedAbsent(items: seq<Item>, id: int)
    requires Fresh(id, items)
    ensures Removed(items, id) == items
  {
    if items != [] {
      assert items[0] in items;
      RemovedAbsent(items[1..], id);
      assert items == [items[0]] + items[1..];
    }
  }

  /** Removing the same id twice is the same as removing it once. */
  lemma RemovedIdempotent(items: seq<Item>, id: int)
    ensures Removed(Removed(items, id), id) == Removed(items, id)
  {
    RemovedAbsent(Removed(items, id), id);
  }

  /** Filtering distributes over concatenation. */
  lemma {:induction false} RemovedAppend(a: seq<Item>, b: seq<Item>, id: int)
    ensures Removed(a + b, id) == Removed(a, id) + Removed(b, id)
  {
    if a == [] {
      assert a + b == b;
    } else {
      var x := a[0];
      assert (a + b)[0] == x && (a + b)[1..] == a[1..] + b;
      RemovedAppend(a[1..], b, id);
      if x.id != id {
        ConcatAssociative([x], Removed(a[1..], id), Removed(b, id));
      }
    }
  }

  lemma ConcatAssociative<T>(a: seq<T>, b: seq<T>, c: seq<T>)
    ensures a + b + c == a + (b + c)
  {
  }

  /** Removing the id of an entry that was just added with a fresh id gives
      back the list as it was before the addition. */
  lemma RemovedUndoesAdded(items: seq<Item>, item: Item)
    requires Fresh(item.id, items)
    ensures Removed(Added(items, item), item.id) == items
  {
    RemovedAppend(items, [item], item.id);
    RemovedAbsent(items, item.id);
    assert Removed([item], item.id) == [];
  }

  /** Removing never creates a duplicate id. */
  lemma {:induction false} RemovedKeepsUniqueIds(items: seq<Item>, id: int)
    requires UniqueIds(items)
    ensures UniqueIds(Removed(items, id))
  {
    if items != [] {
      var rest := Removed(items[1..], id);
      RemovedKeepsUniqueIds(items[1..], id);
      if items[0].id != id {
        forall y | y in rest ensures y.id != items[0].id {
          var k :| 0 <= k < |items[1..]| && items[1..][k] == y;
          assert items[k + 1] == y;
        }
        ConsKeepsUniqueIds(items[0], rest);
      }
    }
  }

  lemma ConsKeepsUniqueIds(x: Item, s: seq<Item>)
    requires UniqueIds(s) && Fresh(x.id, s)
    ensures UniqueIds([x] + s)
  {
    var r := [x] + s;
    forall i, j | 0 <= i < j < |r| ensures r[i].id != r[j].id {
      if i == 0 {
        assert r[j] == s[j - 1] && s[j - 1] in s;
      } else {
        assert r[i] == s[i - 1] && r[j] == s[j - 1];
      }
    }
  }

  // ---------------------------------------------------------------------------
  // Toggle: `items.map((item) => item.id === id ? { ...item, packed: !item.packed } : item)`

  /** The list after toggling `id`: same length, order, ids, descriptions and
      quantities; `packed` is flipped exactly on the entries carrying `id`. */
  function Toggled(items: seq<Item>, id: int): (r: seq<Item>)
    ensures |r| == |items|
    ensures forall i :: 0 <= i < |items| ==>
              && r[i].id == items[i].id
              && r[i].description == items[i].description
              && r[i].quantity == items[i].quantity
              && (r[i].packed <==> (items[i].packed != (items[i].id == id)))
  {
    if items == [] then []
    else
      var item := items[0];
      [if item.id == id then item.(packed := !item.packed) else item] + Toggled(items[1..], id)
  }

  /** Toggling the same id twice restores the list. */
  lemma ToggledTwice(items: seq<Item>, id: int)
    ensures Toggled(Toggled(items, id), id) == items
  {
    var r := Toggled(Toggled(items, id), id);
    assert forall i :: 0 <= i < |items| ==> r[i] == items[i];
  }

  /** Toggling an id that no entry carries is a no-op. */
  lemma ToggledAbsent(items: seq<Item>, id: int)
    requires Fresh(id, items)
    ensures Toggled(items, id) == items
  {
    var r := Toggled(items, id);
    forall i | 0 <= i < |items| ensures r[i] == items[i] {
      assert items[i] in items;
    }
  }

  /** Toggling never creates a duplicate id. */
  lemma ToggledKeepsUniqueIds(items: seq<Item>, id: int)
    requires UniqueIds(items)
    ensures UniqueIds(Toggled(items, id))
  {
  }

  // ---------------------------------------------------------------------------
  // Packed / unpacked entries: `items.filter((item) => item.packed)`

  /** The packed entries, in list order. */
  function PackedItems(items: seq<Item>): (r: seq<Item>)
    ensures forall x :: x in r <==> x in items && x.packed
    ensures |r| <= |items|
    ensures |r| == |items| <==> forall x :: x in items ==> x.packed
    ensures |r| == 0 <==> forall x :: x in items ==> !x.packed
  {
    if items == [] then []
    else if items[0].packed then [items[0]] + PackedItems(items[1..])
    else
      assert items[0] in items;
      PackedItems(items[1..])
  }

  /** The entries not yet packed, in list order. */
  function UnpackedItems(items: seq<Item>): (r: seq<Item>)
    ensures forall x :: x in r <==> x in items && !x.packed
    ensures |r| + |PackedItems(items)| == |items|
  {
    if items == [] then []
    else if items[0].packed then UnpackedItems(items[1..])
    else [items[0]] + UnpackedItems(items[1..])
  }

  /** Every packed entry is kept as many times as it occurs, and no unpacked
      one is kept, so `|PackedItems(items)|` is the number of packed entries. */
  lemma {:induction false} PackedMultiplicity(items: seq<Item>, x: Item)
    ensures multiset(PackedItems(items))[x] == if x.packed then multiset(items)[x] else 0
  {
    if items != [] {
      var h, t := items[0], items[1..];
      PackedMultiplicity(t, x);
      assert items == [h] + t;
      if h.packed {
        assert PackedItems(items) == [h] + PackedItems(t);
      } else {
        assert PackedItems(items) == PackedItems(t);
      }
    }
  }

  /** Every unpacked entry is kept as many times as it occurs, and no packed
      one is kept. */
  lemma {:induction false} UnpackedMultiplicity(items: seq<Item>, x: Item)
    ensures multiset(UnpackedItems(items))[x] == if x.packed then 0 else multiset(items)[x]
  {
    if items != [] {
      var h, t := items[0], items[1..];
      UnpackedMultiplicity(t, x);
      assert items == [h] + t;
      if !h.packed {
        assert UnpackedItems(items) == [h] + UnpackedItems(t);
      } else {
        assert UnpackedItems(items) == UnpackedItems(t);
      }
    }
  }

  /** The packed entries keep their relative order. */
  lemma {:induction false} PackedIsSubsequence(items: seq<Item>)
    ensures IsSubsequence(PackedItems(items), items)
  {
    if items != [] {
      PackedIsSubsequence(items[1..]);
      if !items[0].packed {
        SubsequenceOfTail(PackedItems(items[1..]), items);
      }
    }
  }

  /** The unpacked entries keep their relative order. */
  lemma {:induction false} UnpackedIsSubsequence(items: seq<Item>)
    ensures IsSubsequence(UnpackedItems(items), items)
  {
    if items != [] {
      UnpackedIsSubsequence(items[1..]);
      if items[0].packed {
        SubsequenceOfTail(UnpackedItems(items[1..]), items);
      }
    }
  }

  // ---------------------------------------------------------------------------
  // Sequences of commands

  /** The four events the list reacts to. `window.confirm`'s answer is the
      `confirmed` argument of `Reset`. */
  datatype Command = Add(item: Item) | Remove(id: int) | Toggle(id: int) | Reset(confirmed: bool)

  /** The list after one command. */
  function Apply(items: seq<Item>, c: Command): (r: seq<Item>)
    ensures c.Add? ==> multiset(r) == multiset(items) + multiset{c.item}
    ensures c.Remove? ==> |r| <= |items| && forall x :: x in r <==> x in items && x.id != c.id
    ensures c.Toggle? ==> |r| == |items| && forall i :: 0 <= i < |r| ==> r[i].id == items[i].id
    ensures c.Reset? ==> (r == [] <==> c.confirmed || items == []) && (!c.confirmed ==> r == items)
  {
    match c
    case Add(item) => Added(items, item)
    case Remove(id) => Removed(items, id)
    case Toggle(id) => Toggled(items, id)
    case Reset(confirmed) => if confirmed then [] else items
  }

  /** A command keeps ids unique unless it adds an entry whose id is in use. */
  lemma ApplyKeepsUniqueIds(items: seq<Item>, c: Command)
    requires UniqueIds(items) && (c.Add? ==> Fresh(c.item.id, items))
    ensures UniqueIds(Apply(items, c))
  {
    match c
    case Add(item) => AddedKeepsUniqueIds(items, item);
    case Remove(id) => RemovedKeepsUniqueIds(items, id);
    case Toggle(id) => ToggledKeepsUniqueIds(items, id);
    case Reset(confirmed) =>
  }

  /** The list after a sequence of commands, applied first to last. */
  function Run(items: seq<Item>, cs: seq<Command>): seq<Item>
    decreases |cs|
  {
    if cs == [] then items else Run(Apply(items, cs[0]), cs[1..])
  }

  /** Every `Add` in `cs` brings an id that is not in the list at that moment. */
  ghost predicate AddsFreshIds(items: seq<Item>, cs: seq<Command>)
    decreases |cs|
  {
    cs == [] ||
    ((cs[0].Add? ==> Fresh(cs[0].item.id, items)) && AddsFreshIds(Apply(items, cs[0]), cs[1..]))
  }

  /** From any list with unique ids, a run of commands whose additions bring
      fresh ids never holds two entries with the same id. */
  lemma {:induction false} RunKeepsUniqueIds(items: seq<Item>, cs: seq<Command>)
    requires UniqueIds(items) && AddsFreshIds(items, cs)
    ensures UniqueIds(Run(items, cs))
    decreases |cs|
  {
    if cs != [] {
      ApplyKeepsUniqueIds(items, cs[0]);
      RunKeepsUniqueIds(Apply(items, cs[0]), cs[1..]);
    }
  }
}
