/** Result values that replace the string sentinels and the exception of the inventory. */
module Results {

  /** A value that may be missing: `None` stands for "Product not found",
      "No products to restock." and "No low-stock products." */
  datatype Option<+T> = None | Some(value: T)

  /** The outcome of an operation that returns nothing but may fail. */
  datatype Outcome<+E> = Pass | Fail(error: E)
}
