# Inventory management core (Phase_2.py) in Dafny

This project models the inventory system of `Phase_2.py`:

- a `Product` record whose `<` compares stock levels;
- an `Inventory` object that holds four structures:
  - a hash table from SKU to product. It keeps insertion order, as a Python dict does;
  - a FIFO restock queue;
  - a min-heap of products keyed by stock, maintained with Python's `heapq`;
  - a price tree that is declared but never used.

The operations are add, get, remove, enqueue-restock, process-restock, get-low-stock and display. Each one is modelled in the form the source gives it:

- `Inventory` is a Dafny `class` whose methods update its fields in place.
- The `heapq` routines it calls take a list and return the list as `heapq` leaves it. They are `while` loops that follow CPython's `_siftdown` and `_siftup` and are proved against the heap invariant and the multiset of items.
- The scenario of `test_inventory` is written as methods whose postconditions give what each step returns.

Modules:

- `Results`: `Option` (the value or the "not found" sentinel) and `Outcome` (success or a raised error).
- `Products`: the product record and its stock order.
- `HeapQ`: heap order, `heappush` and `heappop` with their sift loops. It also defines a drain of a heap (a sequence in which each item is a least-stock item of what is left) and proves that a drain lists the items once each, sorted by stock.
- `Inventories`: the `Inventory` class and its object invariant `Valid()`:
  - `skus` lists each key of the table exactly once;
  - each product is stored under its own SKU;
  - the heap list is in heap order.

  `Valid()` does not say that `skus` is in insertion order. The method contracts keep that order: `AddProduct` appends the new SKU and `RemoveProduct` deletes one position with `RemoveAt`. `DrainLowStock` calls `get_low_stock_product` until the heap is empty, and proves that what comes out is a drain of the heap.
- `InventoryTest`: `test_inventory` and three further scenarios built from its products.

Removing a product deletes it from the table only. It stays in the restock queue and on the heap, so `get_low_stock_product` can still return it. `DrainAfterRemoval` proves this: after A100 is removed, the pops are C300, B200, A100. That is increasing stock (2, 5, 15); the order of insertion and removal plays no part.

Two calls to `display_inventory` on an unchanged inventory return equal lists, because `DisplayInventory` is a function of the object's state.

## Model

| member | source | states |
|---|---|---|
| Products.LessIsStrictWeakOrder | Phase_2.py:11-13 | `__lt__` by stock is irreflexive and transitive, and two products are incomparable exactly when their stock is equal |
| HeapQ.RootBelowAll | Phase_2.py:24 | in a list in heap order, no element has less stock than the root (induction up the parent chain) |
| HeapQ.RootIsMinimum | Phase_2.py:53-55 | the root of a non-empty heap is an element of it with no more stock than any other |
| HeapQ.SiftDownStep | Phase_2.py:30 | one step of `_siftdown`: moving a parent with more stock down into the hole moves the one out-of-order edge up a level |
| HeapQ.SiftDownDone | Phase_2.py:30 | `_siftdown` stops at the root or below a parent with no more stock, and the list is then a heap |
| HeapQ.SiftUpLeaf | Phase_2.py:55 | when the hole of `_siftup` has reached a leaf, writing the pending item there breaks at most the edge above the leaf, which `_siftdown` then repairs |
| HeapQ.SiftUpStep | Phase_2.py:55 | one step of `_siftup`: pulling the child with less stock up into the hole keeps heap order around the hole, which moves down to that child |
| HeapQ.HoleMove | Phase_2.py:30 | moving an item into the hole and the pending item into the vacated slot keeps the multiset of items |
| HeapQ.SiftDown | Phase_2.py:30 | from heap order broken only above `pos`, the result is a heap of the same length and the same items |
| HeapQ.SiftUp | Phase_2.py:55 | from heap order broken only around the root, the result is a heap of the same length and the same items |
| HeapQ.HeapPush | Phase_2.py:30 | `heappush` on a heap gives a heap whose items are the old ones plus the pushed product |
| HeapQ.HeapPop | Phase_2.py:55 | `heappop` on a non-empty heap returns the root, which is a minimum by stock, and leaves a heap of the remaining items |
| HeapQ.UniqueMinimum | Phase_2.py:53-55 | when one item has strictly less stock than all others, every extract-min returns that item |
| HeapQ.DrainStep | Phase_2.py:53-56 | a minimum followed by a drain of the rest is a drain of the whole heap |
| HeapQ.DrainPrefixStart | Phase_2.py:53-56 | before any pop, every drain of the heap completes the empty output to a drain of the whole heap |
| HeapQ.DrainPrefixStep | Phase_2.py:53-56 | popping a least-stock item of what is left extends the output so far, which stays the start of a drain of the original heap |
| HeapQ.DrainPrefixDone | Phase_2.py:53-56 | once nothing is left, the output so far is a whole drain of the original heap |
| HeapQ.DrainIsPermutation | Phase_2.py:53-56 | a drain of a heap lists every item on it exactly once |
| HeapQ.DrainIsSorted | Phase_2.py:53-56 | a drain of a heap lists its items in non-decreasing order of stock |
| Inventories.DrainLowStock | Phase_2.py:53-56 | calling `get_low_stock_product` until the heap is empty returns a drain of the heap: every product on it once, in non-decreasing order of stock. The heap ends empty, and the table and queue are untouched |
| Inventories.AppendFreshKey | Phase_2.py:28-29 | inserting a SKU not yet in the table keeps the key order free of duplicates and adds exactly that key |
| Inventories.IndexOf | Phase_2.py:39 | the position of a present SKU in the key order: it holds that SKU and no earlier position does |
| Inventories.InOrder | Phase_2.py:60 | the listing of the table in key order has one entry per key, the product stored under that key |
| Inventories.InOrderAppend | Phase_2.py:29 | inserting a product under a fresh SKU appends it at the end of the listing |
| Inventories.RemoveAt | Phase_2.py:39 | deleting position `i` keeps the elements before it and shifts those after it down by one |
| Inventories.RemoveAtKeys | Phase_2.py:39 | deleting a key keeps the key order free of duplicates, and it holds exactly the other keys |
| Inventories.InOrderRemove | Phase_2.py:39 | deleting a key from the table deletes its product from the listing and keeps the others in order |
| Inventories.TableInsert | Phase_2.py:28-29 | storing a product under a fresh SKU keeps each key listed once with its product stored under its own SKU, and appends the product to the listing |
| Inventories.TableDelete | Phase_2.py:38-39 | deleting a present SKU keeps each remaining key listed once with its product stored under its own SKU, and drops just that product from the listing |
| Inventories.Inventory.constructor | Phase_2.py:20-24 | a new inventory has an empty table, an empty queue and an empty heap, and satisfies the object invariant |
| Inventories.Inventory.GetProduct | Phase_2.py:34-35 | a product is returned exactly when the SKU is in the table, and it is the product stored under that SKU; otherwise "not found" |
| Inventories.Inventory.DisplayInventory | Phase_2.py:59-60 | one entry per SKU in the order of `skus` (insertion order, as `AddProduct` and `RemoveProduct` keep it), each the product stored under that SKU |
| Inventories.DisplayListsTable | Phase_2.py:59-60 | a product appears in the listing exactly when it is the one stored under its SKU |
| Inventories.Inventory.AddProduct | Phase_2.py:27-32 | fails with a duplicate-SKU error exactly when the SKU is present, then changing nothing; otherwise stores the product, appends it to the listing, makes it retrievable, pushes it on the heap and keeps the invariant |
| Inventories.Inventory.RemoveProduct | Phase_2.py:37-41 | reports whether the SKU was present. If it was, the SKU leaves the table and the listing, with the others kept in order, and the queue and heap are untouched; if not, nothing changes |
| Inventories.Inventory.EnqueueRestock | Phase_2.py:44-45 | the product is appended at the tail of the restock queue; nothing else changes |
| Inventories.Inventory.ProcessRestock | Phase_2.py:47-50 | an empty queue reports "no products" and changes nothing; otherwise the head is returned and removed, keeping the rest in order |
| Inventories.Inventory.GetLowStockProduct | Phase_2.py:53-56 | an empty heap reports "no low-stock products" and changes nothing; otherwise it returns a product of least stock on the heap and removes exactly that one; the table and queue are untouched |
| InventoryTest.TestInventory | Phase_2.py:64-95 | `test_inventory` lists A100, B200, C300, fetches B200, lists B200, C300 after removing A100, restocks B200 and reports C300 as lowest stock |
| InventoryTest.RestockInOrder | Phase_2.py:44-50 | two enqueued products are restocked in enqueue order, then the queue reports empty |
| InventoryTest.DuplicateRefused | Phase_2.py:27-32 | adding a product under a known SKU raises the duplicate error and leaves the listing and the stored product as they were |
| InventoryTest.DrainAfterRemoval | Phase_2.py:37-56 | after removing A100, the pops are C300, B200 and the removed A100, then the heap reports empty |

## Left out

- `remove_product` prints "Product not found." for an absent SKU (Phase_2.py:41). The model returns a `found` flag instead, because console output is not modelled.
- `Product.__repr__` (Phase_2.py:15-16), the `print` calls in `test_inventory` and the module-level call at Phase_2.py:98 are left out. They are I/O. The scenario methods return the printed values instead.
- `price_tree` (Phase_2.py:22) is left out because no operation reads or writes it.
- `price` is modelled as a Dafny `real`, not a binary float. `category` is a string. No operation inspects either one.
- The string sentinels "Product not found", "No products to restock." and "No low-stock products." are modelled as `None`. `ValueError("SKU already exists.")` is modelled as `Fail(DuplicateSku(sku))`.
- Products are immutable values, so aliasing is not modelled. In Python the same mutable `Product` object can sit in the table, the queue and the heap at once, and changing its stock would break heap order unseen.
- The `heapq` module's own source is not part of this model. The sift loops follow CPython's pure-Python `_siftdown` (with `startpos` 0, the only value `heappush` and `heappop` pass) and `_siftup`. CPython normally runs its C accelerator, which uses the same algorithm.
- `heapq` mutates its list argument in place. The model passes the list in and assigns the result back to the `priorityHeap` field.
- HeapQ.HeapPop requires a non-empty heap. Python raises `IndexError` on an empty one, but `get_low_stock_product`, the only caller, checks for that first.
- Inventories.Inventory.GetLowStockProduct promises a product of least stock, not which of several equal-stock products comes out. The exact choice depends on the list layout, and the source makes no promise about ties. Products.LessIsStrictWeakOrder states why: `__lt__` treats two products as tied exactly when their stock is equal.
- The hash table is modelled as a `map` plus the sequence `skus` of its keys in insertion order. Hashing, resizing and running time (for example `pop(0)` being O(n)) are not modelled.
