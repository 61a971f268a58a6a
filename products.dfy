/** The product record of the inventory and the order the priority heap uses. */
module Products {

  /** A product. `price` and `category` are carried along but never inspected;
      `stock` is the quantity on hand and the only field that orders products. */
  datatype Product = Product(sku: string, price: real, category: string, stock: int)

  /** `Product.__lt__`: one product sorts before another when it has less stock. */
  predicate Less(a: Product, b: Product)
  {
    a.stock < b.stock
  }

  /** `Less` is a strict weak order whose ties are exactly the products with
      equal stock, so the heap's order is well defined but says nothing about
      which of several equally stocked products comes first. */
  lemma LessIsStrictWeakOrder(a: Product, b: Product, c: Product)
    ensures !Less(a, a)
    ensures Less(a, b) && Less(b, c) ==> Less(a, c)
    ensures !Less(a, b) && !Less(b, a) <==> a.stock == b.stock
  {
  }
}
