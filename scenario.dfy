/** The scenario of `test_inventory`, and its continuation: restocking in
    enqueue order, a refused duplicate SKU, and the heap drained after a removal. */
module InventoryTest {
  import opened Results
  import opened Products
  import opened Inventories
  import HeapQ

  const A100 := Product("A100", 20.5, "Electronics", 15)
  const B200 := Product("B200", 10.0, "Groceries", 5)
  const C300 := Product("C300", 50.0, "Clothing", 2)

  /** An inventory holding A100 and B200, added in that order. */
  method StockedTwo() returns (inventory: Inventory)
    ensures fresh(inventory) && inventory.Valid()
    ensures inventory.skus == ["A100", "B200"]
    ensures inventory.products == map["A100" := A100, "B200" := B200]
    ensures multiset(inventory.priorityHeap) == multiset{A100, B200}
    ensures inventory.restockQueue == []
  {
    inventory := new Inventory();
    var added := inventory.AddProduct(A100);
    added := inventory.AddProduct(B200);
  }

  /** An inventory holding A100, B200 and C300, added in that order. */
  method Stocked() returns (inventory: Inventory)
    ensures fresh(inventory) && inventory.Valid()
    ensures inventory.skus == ["A100", "B200", "C300"]
    ensures inventory.products == map["A100" := A100, "B200" := B200, "C300" := C300]
    ensures multiset(inventory.priorityHeap) == multiset{A100, B200, C300}
    ensures inventory.restockQueue == []
  {
    inventory := StockedTwo();
    var added := inventory.AddProduct(C300);
  }

  /** `test_inventory`: the listing after the three additions, the lookup of
      B200, the listing after removing A100, the restocked product and the
      product of least stock. */
  method TestInventory()
    returns (listed: seq<Product>, fetched: Option<Product>, remaining: seq<Product>,
             restocked: Option<Product>, lowest: Option<Product>)
    ensures listed == [A100, B200, C300]
    ensures fetched == Some(B200)
    ensures remaining == [B200, C300]
    ensures restocked == Some(B200)
    ensures lowest == Some(C300)
  {
    var inventory := Stocked();
    listed := inventory.DisplayInventory();
    fetched := inventory.GetProduct("B200");
    var found := inventory.RemoveProduct("A100");
    remaining := inventory.DisplayInventory();
    inventory.EnqueueRestock(B200);
    restocked := inventory.ProcessRestock();
    lowest := inventory.GetLowStockProduct();
  }

  /** Restocking returns products in the order they were enqueued, then reports
      an empty queue. */
  method RestockInOrder() returns (first: Option<Product>, second: Option<Product>, third: Option<Product>)
    ensures first == Some(A100) && second == Some(B200) && third == None
  {
    var inventory := new Inventory();
    inventory.EnqueueRestock(A100);
    inventory.EnqueueRestock(B200);
    first := inventory.ProcessRestock();
    second := inventory.ProcessRestock();
    third := inventory.ProcessRestock();
  }

  /** Adding a second product under a known SKU is refused and leaves the
      listing and the stored product as they were. */
  method DuplicateRefused() returns (outcome: Outcome<InventoryError>, listed: seq<Product>, fetched: Option<Product>)
    ensures outcome == Fail(DuplicateSku("B200"))
    ensures listed == [A100, B200, C300]
    ensures fetched == Some(B200)
  {
    var inventory := Stocked();
    outcome := inventory.AddProduct(Product("B200", 1.0, "Toys", 0));
    listed := inventory.DisplayInventory();
    fetched := inventory.GetProduct("B200");
  }

  /** The inventory of `test_inventory` after A100 is removed: A100 is no
      longer in the table but all three products are still on the heap. */
  method StockedWithoutA100() returns (inventory: Inventory)
    ensures fresh(inventory) && inventory.Valid()
    ensures inventory.GetProduct("A100") == None
    ensures multiset(inventory.priorityHeap) == multiset{A100, B200, C300}
  {
    inventory := Stocked();
    var found := inventory.RemoveProduct("A100");
  }

  /** Extract-min on an inventory whose heap holds `a` and `others`, all of
      them with more stock than `a`, returns `a` and leaves `others`. */
  method PopUniqueLowest(inventory: Inventory, a: Product, others: multiset<Product>) returns (r: Option<Product>)
    requires inventory.Valid()
    requires multiset(inventory.priorityHeap) == others + multiset{a}
    requires forall y | y in others :: a.stock < y.stock
    modifies inventory
    ensures inventory.Valid()
    ensures r == Some(a)
    ensures multiset(inventory.priorityHeap) == others
  {
    ghost var before := multiset(inventory.priorityHeap);
    r := inventory.GetLowStockProduct();
    HeapQ.UniqueMinimum(r.value, before, a);
  }

  /** After removing A100 the heap still holds it: repeated extract-min returns
      C300, B200 and the removed A100, by increasing stock, then reports an
      empty heap. */
  method DrainAfterRemoval() returns (drained: seq<Product>, last: Option<Product>)
    ensures drained == [C300, B200, A100]
    ensures last == None
  {
    var inventory := StockedWithoutA100();
    var r1 := PopUniqueLowest(inventory, C300, multiset{A100, B200});
    var r2 := PopUniqueLowest(inventory, B200, multiset{A100});
    var r3 := PopUniqueLowest(inventory, A100, multiset{});
    last := inventory.GetLowStockProduct();
    drained := [r1.value, r2.value, r3.value];
  }
}
