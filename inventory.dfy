/** The `Inventory` of Phase_2.py: a product table keyed by SKU that keeps
    insertion order, a FIFO restock queue and a min-heap of products by stock.
    Removing a product from the table does not remove it from the queue or the
    heap. */
module Inventories {
  import opened Results
  import opened Products
  import HeapQ

  /** The `ValueError("SKU already exists.")` of `add_product`. */
  datatype InventoryError = DuplicateSku(sku: string)

  /** No SKU occurs twice. */
  ghost predicate Distinct(keys: seq<string>)
  {
    forall i, j :: 0 <= i < j < |keys| ==> keys[i] != keys[j]
  }

  /** Appending a new key keeps the keys distinct. */
  lemma AppendFreshKey(keys: seq<string>, k: string)
    requires Distinct(keys) && k !in keys
    ensures Distinct(keys + [k])
    ensures forall x :: x in keys + [k] <==> x in keys || x == k
  {
    var r := keys + [k];
    forall i, j | 0 <= i < j < |r| ensures r[i] != r[j] {
      if j == |keys| {
        assert r[i] == keys[i];
      }
    }
  }

  /** The position of the first occurrence of `k` in `keys`. */
  function IndexOf(keys: seq<string>, k: string): (i: nat)
    requires k in keys
    ensures i < |keys| && keys[i] == k
    ensures k !in keys[..i]
  {
    if keys[0] == k then 0 else 1 + IndexOf(keys[1..], k)
  }

  /** The values of `table` listed in the order of `keys`. */
  function InOrder(keys: seq<string>, table: map<string, Product>): (r: seq<Product>)
    requires forall k | k in keys :: k in table
    ensures |r| == |keys|
    ensures forall i :: 0 <= i < |keys| ==> r[i] == table[keys[i]]
  {
    if keys == [] then [] else [table[keys[0]]] + InOrder(keys[1..], table)
  }

  /** Adding a key with a fresh SKU at the end of the order lists its product last. */
  lemma InOrderAppend(keys: seq<string>, table: map<string, Product>, p: Product)
    requires forall k | k in keys :: k in table
    requires p.sku !in keys
    ensures InOrder(keys + [p.sku], table[p.sku := p]) == InOrder(keys, table) + [p]
  {
    var a := InOrder(keys + [p.sku], table[p.sku := p]);
    var b := InOrder(keys, table) + [p];
    forall i | 0 <= i < |a| ensures a[i] == b[i] {
      if i < |keys| {
        assert keys[i] != p.sku;
      }
    }
  }

  /** `s` without its element at position `i`, the others in their order. */
  function RemoveAt<T>(s: seq<T>, i: nat): (r: seq<T>)
    requires i < |s|
    ensures |r| == |s| - 1
    ensures forall j :: 0 <= j < |r| ==> r[j] == if j < i then s[j] else s[j + 1]
  {
    s[..i] + s[i + 1..]
  }

  /** Deleting the key at position `i` of distinct keys leaves distinct keys:
      all the old ones except `keys[i]`. */
  lemma RemoveAtKeys(keys: seq<string>, i: nat)
    requires Distinct(keys) && i < |keys|
    ensures Distinct(RemoveAt(keys, i))
    ensures forall k :: k in RemoveAt(keys, i) <==> k in keys && k != keys[i]
  {
    var rest := RemoveAt(keys, i);
    forall a, b | 0 <= a < b < |rest| ensures rest[a] != rest[b] {
      var a' := if a < i then a else a + 1;
      var b' := if b < i then b else b + 1;
      assert rest[a] == keys[a'] && rest[b] == keys[b'];
    }
    forall k | k in rest ensures k in keys && k != keys[i] {
      var j :| 0 <= j < |rest| && rest[j] == k;
      var j' := if j < i then j else j + 1;
      assert keys[j'] == k;
    }
    forall k | k in keys && k != keys[i] ensures k in rest {
      var j :| 0 <= j < |keys| && keys[j] == k;
      var j' := if j < i then j else j - 1;
      assert rest[j'] == k;
    }
  }

  /** Deleting the key at position `i` drops the product at position `i` and
      keeps the others in order. */
  lemma InOrderRemove(keys: seq<string>, table: map<string, Product>, i: nat)
    requires forall k | k in keys :: k in table
    requires Distinct(keys) && i < |keys|
    ensures forall k | k in RemoveAt(keys, i) :: k in table - {keys[i]}
    ensures InOrder(RemoveAt(keys, i), table - {keys[i]}) == RemoveAt(InOrder(keys, table), i)
  {
    RemoveAtKeys(keys, i);
    var a := InOrder(RemoveAt(keys, i), table - {keys[i]});
    var b := RemoveAt(InOrder(keys, table), i);
    assert |a| == |b|;
    forall j | 0 <= j < |a| ensures a[j] == b[j] {
    }
  }

  /** `keys` lists each key of `table` exactly once, and every product is
      stored under its own SKU. */
  ghost predicate IsTable(keys: seq<string>, table: map<string, Product>)
  {
    && Distinct(keys)
    && (forall k :: k in table <==> k in keys)
    && (forall k | k in table :: table[k].sku == k)
  }

  /** Storing a product under a fresh SKU, with the SKU appended to the key
      order, keeps a table and appends the product to its listing. */
  lemma TableInsert(keys: seq<string>, table: map<string, Product>, p: Product)
    requires IsTable(keys, table) && p.sku !in table
    ensures IsTable(keys + [p.sku], table[p.sku := p])
    ensures InOrder(keys + [p.sku], table[p.sku := p]) == InOrder(keys, table) + [p]
  {
    AppendFreshKey(keys, p.sku);
    InOrderAppend(keys, table, p);
  }

  /** Deleting the key at position `i` from the table and from the key order
      keeps a table and drops the product at position `i` from its listing. */
  lemma TableDelete(keys: seq<string>, table: map<string, Product>, i: nat)
    requires IsTable(keys, table) && i < |keys|
    ensures IsTable(RemoveAt(keys, i), table - {keys[i]})
    ensures InOrder(RemoveAt(keys, i), table - {keys[i]}) == RemoveAt(InOrder(keys, table), i)
  {
    RemoveAtKeys(keys, i);
    InOrderRemove(keys, table, i);
  }

  class Inventory {
    /** The keys of `products` in the order they were inserted, which a Python
        dict remembers and `display_inventory` reports. */
    var skus: seq<string>
    /** `products`: SKU to product. */
    var products: map<string, Product>
    /** `restock_queue`: appended at the tail, taken from the head. */
    var restockQueue: seq<Product>
    /** `priority_heap`: the list `heapq` keeps in heap order. */
    var priorityHeap: seq<Product>

    /** The object invariant: `skus` lists each key of `products` once, every
        product is stored under its own SKU, and the heap list is in heap order. */
    ghost predicate Valid()
      reads this
    {
      && IsTable(skus, products)
      && HeapQ.IsHeap(priorityHeap)
    }

    /** `__init__`: all three containers start empty. */
    constructor ()
      ensures Valid()
      ensures skus == [] && products == map[]
      ensures restockQueue == [] && priorityHeap == []
    {
      skus := [];
      products := map[];
      restockQueue := [];
      priorityHeap := [];
    }

    /** `get_product`: the product stored under `sku`, or `None` for
        "Product not found". */
    function GetProduct(sku: string): (r: Option<Product>)
      reads this
      requires Valid()
      ensures r.Some? <==> sku in skus
      ensures r.Some? ==> sku in products && r.value == products[sku] && r.value.sku == sku
    {
      if sku in products then Some(products[sku]) else None
    }

    /** `display_inventory`: the stored products, in the order their SKUs were
        added. */
    function DisplayInventory(): (r: seq<Product>)
      reads this
      requires Valid()
      ensures |r| == |skus|
      ensures forall i :: 0 <= i < |r| ==> r[i].sku == skus[i] && r[i] == products[skus[i]]
    {
      InOrder(skus, products)
    }

    /** `add_product`: a product with a new SKU is stored under its SKU and
        pushed on the heap; a known SKU is refused and nothing changes. */
    method AddProduct(product: Product) returns (r: Outcome<InventoryError>)
      requires Valid()
      modifies this
      ensures Valid()
      ensures r.Fail? <==> product.sku in old(products)
      ensures r.Fail? ==> r.error == DuplicateSku(product.sku) && unchanged(this)
      ensures r.Pass? ==>
        && products == old(products)[product.sku := product]
        && skus == old(skus) + [product.sku]
        && GetProduct(product.sku) == Some(product)
        && DisplayInventory() == old(DisplayInventory()) + [product]
        && multiset(priorityHeap) == multiset(old(priorityHeap)) + multiset{product}
        && restockQueue == old(restockQueue)
    {
      if product.sku !in products {
        TableInsert(skus, products, product);
        products := products[product.sku := product];
        skus := skus + [product.sku];
        priorityHeap := HeapQ.HeapPush(priorityHeap, product);
        r := Pass;
      } else {
        r := Fail(DuplicateSku(product.sku));
      }
    }

    /** `remove_product`: deletes `sku` from the table, keeping the order of
        the others. `found` is false where the source prints "Product not
        found." and changes nothing. The queue and the heap are never touched. */
    method RemoveProduct(sku: string) returns (found: bool)
      requires Valid()
      modifies this
      ensures Valid()
      ensures found <==> sku in old(products)
      ensures !found ==> unchanged(this)
      ensures found ==>
        && products == old(products) - {sku}
        && var i := IndexOf(old(skus), sku);
        && skus == RemoveAt(old(skus), i)
        && DisplayInventory() == RemoveAt(old(DisplayInventory()), i)
      ensures GetProduct(sku) == None
      ensures restockQueue == old(restockQueue) && priorityHeap == old(priorityHeap)
    {
      if sku in products {
        var i := IndexOf(skus, sku);
        TableDelete(skus, products, i);
        skus := RemoveAt(skus, i);
        products := products - {sku};
        found := true;
      } else {
        found := false;
      }
    }

    /** `enqueue_restock`: appends to the tail, with no check against the table
        and no deduplication. */
    method EnqueueRestock(product: Product)
      requires Valid()
      modifies this
      ensures Valid()
      ensures restockQueue == old(restockQueue) + [product]
      ensures skus == old(skus) && products == old(products) && priorityHeap == old(priorityHeap)
    {
      restockQueue := restockQueue + [product];
    }

    /** `process_restock`: removes and returns the head of the queue, or `None`
        for "No products to restock." when it is empty. */
    method ProcessRestock() returns (r: Option<Product>)
      requires Valid()
      modifies this
      ensures Valid()
      ensures r.None? <==> old(restockQueue) == []
      ensures r.None? ==> unchanged(this)
      ensures r.Some? ==> r.value == old(restockQueue)[0] && restockQueue == old(restockQueue)[1..]
      ensures skus == old(skus) && products == old(products) && priorityHeap == old(priorityHeap)
    {
      if restockQueue != [] {
        r := Some(restockQueue[0]);
        restockQueue := restockQueue[1..];
      } else {
        r := None;
      }
    }

    /** `get_low_stock_product`: pops a product of least stock off the heap, or
        returns `None` for "No low-stock products." when it is empty. The table
        is not consulted, so a removed product can still come out. */
    method GetLowStockProduct() returns (r: Option<Product>)
      requires Valid()
      modifies this
      ensures Valid()
      ensures r.None? <==> old(priorityHeap) == []
      ensures r.None? ==> unchanged(this)
      ensures r.Some? ==>
        && HeapQ.IsMinimum(r.value, multiset(old(priorityHeap)))
        && multiset(priorityHeap) == multiset(old(priorityHeap)) - multiset{r.value}
      ensures skus == old(skus) && products == old(products) && restockQueue == old(restockQueue)
    {
      if priorityHeap != [] {
        var item, rest := HeapQ.HeapPop(priorityHeap);
        priorityHeap := rest;
        r := Some(item);
      } else {
        r := None;
      }
    }
  }

  /** `display_inventory` lists exactly the products stored in the table: a
      product is listed if and only if it is the one stored under its SKU. */
  lemma DisplayListsTable(inventory: Inventory)
    requires inventory.Valid()
    ensures forall p: Product :: p in inventory.DisplayInventory() <==>
                        p.sku in inventory.products && inventory.products[p.sku] == p
  {
    var r := inventory.DisplayInventory();
    forall p | p in r ensures p.sku in inventory.products && inventory.products[p.sku] == p {
      var i :| 0 <= i < |r| && r[i] == p;
    }
    forall p: Product | p.sku in inventory.products && inventory.products[p.sku] == p ensures p in r {
      var i :| 0 <= i < |inventory.skus| && inventory.skus[i] == p.sku;
      assert r[i] == p;
    }
  }

  /** Calls `get_low_stock_product` until the heap is empty. The products come
      out as a drain of the heap: each is a least-stock product of what is left,
      so together they are every product on the heap, once each, in
      non-decreasing order of stock. The table and the queue are untouched. */
  method DrainLowStock(inventory: Inventory) returns (out: seq<Product>)
    requires inventory.Valid()
    modifies inventory
    ensures inventory.Valid() && inventory.priorityHeap == []
    ensures HeapQ.IsDrain(out, multiset(old(inventory.priorityHeap)))
    ensures HeapQ.SortedByStock(out)
    ensures multiset(out) == multiset(old(inventory.priorityHeap))
    ensures inventory.skus == old(inventory.skus) && inventory.products == old(inventory.products)
    ensures inventory.restockQueue == old(inventory.restockQueue)
  {
    ghost var m0 := multiset(inventory.priorityHeap);
    out := [];
    HeapQ.DrainPrefixStart(m0);
    while inventory.priorityHeap != []
      invariant inventory.Valid()
      invariant HeapQ.DrainPrefix(out, multiset(inventory.priorityHeap), m0)
      invariant inventory.skus == old(inventory.skus) && inventory.products == old(inventory.products)
      invariant inventory.restockQueue == old(inventory.restockQueue)
      decreases |inventory.priorityHeap|
    {
      ghost var left := multiset(inventory.priorityHeap);
      var r := inventory.GetLowStockProduct();
      HeapQ.DrainPrefixStep(out, left, m0, r.value);
      out := out + [r.value];
    }
    HeapQ.DrainPrefixDone(out, m0);
    HeapQ.DrainIsSorted(out, m0);
    HeapQ.DrainIsPermutation(out, m0);
  }
}
