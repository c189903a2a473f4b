/** The state the components keep: `App` owns the list and its four handlers
    (src/App.js:10-34, repeated in src/components/App.js:7-31); `Form` owns the
    two fields of the add form (src/App.js:51-65). */
module TravelApp {
  import opened Items
  import Stats

  /** The largest quantity the select offers; its options are 1 to 20. */
  const MaxQuantity := 20

  class App {
    /** The `items` state. */
    var items: seq<Item>

    /** `useState([])`: the list starts empty. */
    constructor ()
      ensures items == []
    {
      items := [];
    }

    /** `handleAddItem`: append the new entry. */
    method HandleAddItem(newItem: Item)
      modifies this
      ensures items == Added(old(items), newItem)
      ensures UniqueIds(old(items)) && Fresh(newItem.id, old(items)) ==> UniqueIds(items)
    {
      ghost var before := items;
      items := Added(items, newItem);
      if UniqueIds(before) && Fresh(newItem.id, before) {
        AddedKeepsUniqueIds(before, newItem);
      }
    }

    /** `handleRemoveItem`: keep the entries whose id differs. */
    method HandleRemoveItem(id: int)
      modifies this
      ensures items == Removed(old(items), id)
      ensures Fresh(id, old(items)) ==> items == old(items)
      ensures UniqueIds(old(items)) ==> UniqueIds(items)
    {
      ghost var before := items;
      items := Removed(items, id);
      if Fresh(id, before) {
        RemovedAbsent(before, id);
      }
      if UniqueIds(before) {
        RemovedKeepsUniqueIds(before, id);
      }
    }

    /** `handleToggleItem`: flip `packed` on the entries carrying `id`. */
    method HandleToggleItem(id: int)
      modifies this
      ensures items == Toggled(old(items), id)
      ensures Fresh(id, old(items)) ==> items == old(items)
      ensures UniqueIds(old(items)) ==> UniqueIds(items)
    {
      ghost var before := items;
      items := Toggled(items, id);
      if Fresh(id, before) {
        ToggledAbsent(before, id);
      }
      if UniqueIds(before) {
        ToggledKeepsUniqueIds(before, id);
      }
    }

    /** `handleResetItem`: empty the list if the user confirmed the dialog;
        `confirmed` is the answer of `window.confirm`. */
    method HandleResetItem(confirmed: bool)
      modifies this
      ensures items == if confirmed then [] else old(items)
    {
      if confirmed {
        items := [];
      }
    }
  }

  class Form {
    /** The text field. */
    var description: string
    /** The quantity select. */
    var quantity: int

    ghost predicate Valid()
      reads this
    {
      1 <= quantity <= MaxQuantity
    }

    /** `useState("")` and `useState(1)`. */
    constructor ()
      ensures Valid() && description == "" && quantity == 1
    {
      description, quantity := "", 1;
    }

    /** The select's `onChange`: one of its options. */
    method SelectQuantity(q: int)
      requires 1 <= q <= MaxQuantity
      modifies this
      ensures Valid() && quantity == q && description == old(description)
    {
      quantity := q;
    }

    /** The text field's `onChange`. */
    method TypeDescription(d: string)
      requires Valid()
      modifies this
      ensures Valid() && description == d && quantity == old(quantity)
    {
      description := d;
    }

    /** `handleSubmit`: an empty description is ignored; any other one, even
        one made of spaces, becomes an unpacked entry with the current
        quantity and the id `now` (the value of `Date.now()`), handed to
        `app.HandleAddItem`, and the form goes back to `""` and 1. */
    method HandleSubmit(app: App, now: int) returns (added: bool)
      requires Valid()
      modifies this, app
      ensures Valid()
      ensures added <==> old(description) != ""
      ensures !added ==> description == old(description) && quantity == old(quantity) && app.items == old(app.items)
      ensures added ==>
                && app.items == Added(old(app.items), Item(now, old(description), old(quantity), false))
                && 1 <= app.items[|app.items| - 1].quantity <= MaxQuantity
                && description == "" && quantity == 1
    {
      if description == "" {
        return false;
      }
      var newItem := Item(now, description, quantity, false);
      app.HandleAddItem(newItem);
      description, quantity := "", 1;
      added := true;
    }
  }

  /** Two entries, "Passport" and "Socks", the second one packed: the footer
      reads 2 items, 1 packed, 50%. */
  method PassportAndSocks()
  {
    var app := new App();
    var form := new Form();
    form.TypeDescription("Passport");
    form.SelectQuantity(2);
    var added := form.HandleSubmit(app, 1);
    var passport := Item(1, "Passport", 2, false);
    assert app.items == [passport];
    form.TypeDescription("Socks");
    form.SelectQuantity(12);
    added := form.HandleSubmit(app, 2);
    var socks := Item(2, "Socks", 12, false);
    assert app.items == [passport, socks];
    app.HandleToggleItem(2);
    var items := app.items;
    assert items[0] == passport && items[1] == socks.(packed := true) && |items| == 2;
    assert items == [passport, socks.(packed := true)];
    assert PackedItems(items) == [socks.(packed := true)] by {
      assert items[1..] == [socks.(packed := true)];
    }
    Stats.OneOfTwoPacked(items);
    assert Stats.Stats(items) == Stats.Progress(2, "items", 1, "item", 50);
  }

  /** Submitting an empty form adds nothing; adding "Shoes" twice gives two
      entries with the same description and different ids. */
  method ShoesTwice()
  {
    var app := new App();
    var form := new Form();
    var added := form.HandleSubmit(app, 1);
    assert !added && app.items == [];
    form.TypeDescription("Shoes");
    added := form.HandleSubmit(app, 2);
    form.TypeDescription("Shoes");
    added := form.HandleSubmit(app, 3);
    assert |app.items| == 2 && app.items[0].description == app.items[1].description == "Shoes";
    assert app.items[0].id != app.items[1].id;
  }
}
