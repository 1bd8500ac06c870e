/** The cart provider's single state slot, `products`, which each operation
    overwrites wholesale with the result of its updater. */
module CartProvider {
  import opened CartState

  class CartStore {
    /** The current cart, as the UI reads it. */
    var products: Cart

    /** The invariant every updater keeps. */
    ghost predicate Valid()
      reads this
    {
      WellFormed(products)
    }

    /** The slot starts as the empty cart. */
    constructor ()
      ensures products == [] && Valid()
    {
      products := [];
    }

    method AddToCart(product: Product)
      modifies this
      ensures products == CartState.AddToCart(old(products), product)
      ensures old(Valid()) ==> Valid()
    {
      if Valid() {
        AddToCartPreservesWellFormed(products, product);
      }
      products := CartState.AddToCart(products, product);
    }

    method Increment(id: string)
      modifies this
      ensures products == CartState.Increment(old(products), id)
      ensures old(Valid()) ==> Valid()
    {
      if Valid() {
        IncrementPreservesWellFormed(products, id);
      }
      products := CartState.Increment(products, id);
    }

    method Decrement(id: string)
      modifies this
      ensures products == CartState.Decrement(old(products), id)
      ensures old(Valid()) ==> Valid()
    {
      if Valid() {
        DecrementPreservesWellFormed(products, id);
      }
      products := CartState.Decrement(products, id);
    }
  }
}
