/** The footer `Stats` derives from the list (src/components/Stats.js, and the
    same code at src/App.js:151-183). */
module Stats {
  import opened Items

  /** What the footer says. `StartAdventure` is the empty-list message;
      `ReadyToGo` is "You got everything!"; `Progress` is the sentence with
      both counts, their nouns and the percentage. */
  datatype Footer =
    | StartAdventure
    | ReadyToGo
    | Progress(total: nat, totalNoun: string, packed: nat, packedNoun: string, percentage: nat)

  /** `Math.round((packed / total) * 100)`: the percentage rounded to the
      nearest integer, halves rounded up, computed exactly. */
  function RoundedPercentage(packed: nat, total: nat): (r: nat)
    requires total > 0
    ensures 2 * total * r <= 200 * packed + total < 2 * total * (r + 1)
    ensures packed <= total ==> r <= 100
    ensures packed <= total ==> (r == 100 <==> 199 * total <= 200 * packed)
    ensures r == 0 <==> 200 * packed < total
  {
    var q := (200 * packed + total) / (2 * total);
    QuotientBounds(packed, total, q);
    q
  }

  lemma QuotientBounds(packed: nat, total: nat, q: int)
    requires total > 0 && q == (200 * packed + total) / (2 * total)
    ensures 2 * total * q <= 200 * packed + total < 2 * total * (q + 1)
    ensures packed <= total ==> q <= 100
    ensures packed <= total ==> (q == 100 <==> 199 * total <= 200 * packed)
    ensures q == 0 <==> 200 * packed < total
  {
    var n, d := 200 * packed + total, 2 * total;
    DivisionBounds(n, d);
    MulMonotone(d, 101, q);
    MulMonotone(d, q + 1, 100);
    MulMonotone(d, 1, q);
    assert d * (q + 1) == d * q + d;
  }

  lemma DivisionBounds(n: nat, d: nat)
    requires d > 0
    ensures d * (n / d) <= n < d * (n / d) + d
  {
  }

  lemma MulMonotone(d: nat, a: int, b: int)
    ensures a <= b ==> d * a <= d * b
  {
  }

  /** `n > 1 ? "items" : "item"`. */
  function Noun(n: nat): (r: string)
    ensures r == "items" <==> n > 1
    ensures r == "item" <==> n <= 1
  {
    if n > 1 then "items" else "item"
  }

  /** The footer `Stats` renders for `items`. */
  function Stats(items: seq<Item>): (f: Footer)
    ensures f.StartAdventure? <==> items == []
    ensures f.ReadyToGo? <==> items != [] && RoundedPercentage(|PackedItems(items)|, |items|) == 100
    ensures f.Progress? ==>
              && f.total == |items| > 0
              && f.packed == |PackedItems(items)| < f.total
              && f.percentage == RoundedPercentage(f.packed, f.total) < 100
              && (f.totalNoun == "items" <==> f.total > 1)
              && (f.totalNoun == "item" <==> f.total == 1)
              && (f.packedNoun == "items" <==> f.packed > 1)
              && (f.packedNoun == "item" <==> f.packed <= 1)
  {
    var totalItems := |items|;
    if totalItems == 0 then StartAdventure
    else
      var packedItems := |PackedItems(items)|;
      var packedItemsPercentage := if totalItems != 0 then RoundedPercentage(packedItems, totalItems) else 0;
      if packedItemsPercentage == 100 then ReadyToGo
      else Progress(totalItems, Noun(totalItems), packedItems, Noun(packedItems), packedItemsPercentage)
  }

  /** When every entry is packed the footer says "You got everything!". */
  lemma AllPackedReadyToGo(items: seq<Item>)
    requires items != [] && forall x :: x in items ==> x.packed
    ensures Stats(items) == ReadyToGo
  {
  }

  /** When no entry is packed the footer shows 0%. */
  lemma NonePackedIsZero(items: seq<Item>)
    requires items != [] && forall x :: x in items ==> !x.packed
    ensures Stats(items).Progress? && Stats(items).packed == 0 && Stats(items).percentage == 0
  {
  }

  /** The footer says "You got everything!" exactly when at least 99.5% of the
      entries are packed, so also with one entry of 200 unpacked. */
  lemma ReadyToGoThreshold(items: seq<Item>)
    requires items != []
    ensures Stats(items).ReadyToGo? <==> 199 * |items| <= 200 * |PackedItems(items)|
    ensures |items| == 200 && |PackedItems(items)| == 199 ==> Stats(items).ReadyToGo?
  {
  }

  /** Two entries, one of them packed: "2 items", "1 item", 50%. */
  lemma OneOfTwoPacked(items: seq<Item>)
    requires |items| == 2 && |PackedItems(items)| == 1
    ensures Stats(items) == Progress(2, "items", 1, "item", 50)
  {
    var percentage := RoundedPercentage(1, 2);
    assert 4 * percentage <= 202 < 4 * (percentage + 1);
  }
}
