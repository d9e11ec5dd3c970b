/**
 * components/InventoryPanel.tsx: the low-stock rule and the quantities the
 * two buttons ask the app to store. Quantities are whole numbers here.
 */
module InventoryPanel {
  import opened Types

  /** `isLow`: the stock is at or below its minimum. */
  predicate IsLow(item: InventoryItem) {
    item.currentQuantity <= item.minThreshold
  }

  /** The "-" button: `Math.max(0, q - 1)`. */
  function DecrementRequest(q: int): (r: int)
    ensures r >= 0
    ensures r <= q || q < 0
  {
    if q - 1 > 0 then q - 1 else 0
  }

  /** The "+" button: `q + 1`. */
  function IncrementRequest(q: int): (r: int)
    ensures r > q
  {
    q + 1
  }

  /** What one card of the panel shows and dispatches. */
  datatype ItemCard = ItemCard(
    id: string,
    restockAlert: bool,
    decrementTo: int,
    incrementTo: int)

  function Card(item: InventoryItem): ItemCard {
    ItemCard(item.id, IsLow(item), DecrementRequest(item.currentQuantity), IncrementRequest(item.currentQuantity))
  }

  /**
   * The panel: one card per item, in inventory order. The "REPÔR!" alert is
   * on a card exactly when its item is low, and the buttons ask for q - 1
   * (not below 0) and q + 1.
   */
  function Cards(inventory: seq<InventoryItem>): (cards: seq<ItemCard>)
    ensures |cards| == |inventory|
    ensures forall i :: 0 <= i < |inventory| ==> cards[i].id == inventory[i].id
    ensures forall i :: 0 <= i < |inventory| ==>
      (cards[i].restockAlert <==> inventory[i].currentQuantity <= inventory[i].minThreshold)
    ensures forall i :: 0 <= i < |inventory| ==>
      cards[i].decrementTo == if inventory[i].currentQuantity >= 1 then inventory[i].currentQuantity - 1 else 0
    ensures forall i :: 0 <= i < |inventory| ==> cards[i].incrementTo == inventory[i].currentQuantity + 1
  {
    seq(|inventory|, i requires 0 <= i < |inventory| => Card(inventory[i]))
  }

  /** The decrement never asks for a negative quantity: an empty stock stays at 0. */
  lemma DecrementAtZero()
    ensures DecrementRequest(0) == 0
  {
  }

  /** "+" then "-" comes back to a non-negative quantity. */
  lemma IncrementThenDecrement(q: int)
    requires q >= 0
    ensures DecrementRequest(IncrementRequest(q)) == q
  {
  }

  /** "-" then "+" comes back to a positive quantity; at 0 it ends at 1. */
  lemma DecrementThenIncrement(q: int)
    ensures q > 0 ==> IncrementRequest(DecrementRequest(q)) == q
    ensures q <= 0 ==> IncrementRequest(DecrementRequest(q)) == 1
  {
  }

  /** Decrementing a low item keeps it low, as long as its minimum is not negative. */
  lemma LowStaysLow(item: InventoryItem)
    requires IsLow(item) && item.minThreshold >= 0
    ensures IsLow(item.(currentQuantity := DecrementRequest(item.currentQuantity)))
  {
  }
}
