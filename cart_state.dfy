/** The shopping-cart state transformer: the three updaters that each take the
    current list of cart entries and return the next one.  Every operation is a
    pure function over `seq<Product>`; `CartProvider` holds the single mutable
    slot that these functions overwrite. */
module CartState {

  datatype Option<T> = None | Some(value: T)

  /** One cart entry.  `price` is a floating-point number in the application
      that is only ever copied, so any carried value will do here. */
  datatype Product = Product(id: string, title: string, imageUrl: string, price: real, quantity: int)

  /** The cart: entries in the order in which they were first added. */
  type Cart = seq<Product>

  /** The ids of the cart, in order. */
  function Ids(s: Cart): seq<string> {
    seq(|s|, i requires 0 <= i < |s| => s[i].id)
  }

  predicate HasId(s: Cart, id: string) {
    exists i :: 0 <= i < |s| && s[i].id == id
  }

  /** No two entries share an id. */
  predicate UniqueIds(s: Cart) {
    forall i, j :: 0 <= i < j < |s| ==> s[i].id != s[j].id
  }

  predicate NonNegative(s: Cart) {
    forall i :: 0 <= i < |s| ==> s[i].quantity >= 0
  }

  /** The invariant the application relies on: unique ids, no negative quantity. */
  predicate WellFormed(s: Cart) {
    UniqueIds(s) && NonNegative(s)
  }

  /** The entries whose id differs from `id`, in order. */
  function Without(s: Cart, id: string): Cart {
    if s == [] then []
    else Without(s[..|s| - 1], id) + (if s[|s| - 1].id == id then [] else [s[|s| - 1]])
  }

  // ---------------------------------------------------------------------------
  // The array primitives the updaters are built from.

  /** `Array.prototype.find` by id, as the index of the FIRST matching entry. */
  function FindIndex(s: Cart, id: string): (r: Option<nat>)
    ensures r.Some? ==> r.value < |s| && s[r.value].id == id
    ensures r.Some? ==> forall j :: 0 <= j < r.value ==> s[j].id != id
    ensures r.None? ==> forall j :: 0 <= j < |s| ==> s[j].id != id
  {
    if s == [] then None
    else if s[0].id == id then Some(0)
    else match FindIndex(s[1..], id)
      case None => None
      case Some(k) => Some(k + 1)
  }

  /** `map` that gives every entry with this id the quantity `q`. */
  function WithQuantity(s: Cart, id: string, q: int): Cart {
    seq(|s|, i requires 0 <= i < |s| => if s[i].id == id then s[i].(quantity := q) else s[i])
  }

  /** `map` that adds `delta` to the quantity of every entry with this id. */
  function ShiftQuantity(s: Cart, id: string, delta: int): Cart {
    seq(|s|, i requires 0 <= i < |s| => if s[i].id == id then s[i].(quantity := s[i].quantity + delta) else s[i])
  }

  // ---------------------------------------------------------------------------
  // The three updaters.

  /** addToCart: append the product with quantity 1 when its id is absent;
      otherwise set the matching entry's quantity to the found quantity + 1. */
  function AddToCart(s: Cart, product: Product): (r: Cart)
    ensures !HasId(s, product.id) ==>
      |r| == |s| + 1 && r[..|s|] == s && r[|s|] == product.(quantity := 1)
    ensures HasId(s, product.id) ==> |r| == |s| && Ids(r) == Ids(s)
    ensures forall i :: 0 <= i < |s| && s[i].id != product.id ==> r[i] == s[i]
  {
    match FindIndex(s, product.id)
    case None => s + [product.(quantity := 1)]
    case Some(k) => WithQuantity(s, product.id, s[k].quantity + 1)
  }

  /** increment: one more of every entry with this id. */
  function Increment(s: Cart, id: string): (r: Cart)
    ensures |r| == |s| && Ids(r) == Ids(s)
    ensures forall i :: 0 <= i < |s| && s[i].id != id ==> r[i] == s[i]
    ensures forall i :: 0 <= i < |s| && s[i].id == id ==>
      r[i].quantity == s[i].quantity + 1 && r[i].(quantity := s[i].quantity) == s[i]
    ensures !HasId(s, id) ==> r == s
  {
    ShiftQuantity(s, id, 1)
  }

  /** decrement: unchanged when the first entry with this id is already at
      quantity 0 or below; otherwise one fewer of every entry with this id.
      An entry is never removed. */
  function Decrement(s: Cart, id: string): (r: Cart)
    ensures |r| == |s| && Ids(r) == Ids(s)
    ensures forall i :: 0 <= i < |s| && s[i].id != id ==> r[i] == s[i]
    ensures !HasId(s, id) ==> r == s
    ensures forall k ::
      (0 <= k < |s| && s[k].id == id && s[k].quantity <= 0 && forall j :: 0 <= j < k ==> s[j].id != id)
      ==> r == s
  {
    match FindIndex(s, id)
    case Some(k) => if s[k].quantity <= 0 then s else ShiftQuantity(s, id, -1)
    case None => ShiftQuantity(s, id, -1)
  }

  // ---------------------------------------------------------------------------
  // Properties of the updaters under the unique-id invariant.

  /** In a cart with unique ids, the entry at `k` is the one `find` returns. */
  lemma FindIndexUnique(s: Cart, k: nat)
    requires UniqueIds(s) && k < |s|
    ensures FindIndex(s, s[k].id) == Some(k)
  {
  }

  /** addToCart on a present id bumps that one entry and keeps its place and
      its other fields. */
  lemma AddToCartPresent(s: Cart, product: Product, k: nat)
    requires UniqueIds(s) && k < |s| && s[k].id == product.id
    ensures |AddToCart(s, product)| == |s|
    ensures AddToCart(s, product)[k] == s[k].(quantity := s[k].quantity + 1)
    ensures forall j :: 0 <= j < |s| && j != k ==> AddToCart(s, product)[j] == s[j]
  {
    FindIndexUnique(s, k);
  }

  /** With a present id and unique ids, addToCart does what increment does. */
  lemma AddToCartIsIncrementWhenPresent(s: Cart, product: Product)
    requires UniqueIds(s) && HasId(s, product.id)
    ensures AddToCart(s, product) == Increment(s, product.id)
  {
    var k :| 0 <= k < |s| && s[k].id == product.id;
    FindIndexUnique(s, k);
    var r, t := AddToCart(s, product), Increment(s, product.id);
    forall j | 0 <= j < |s| ensures r[j] == t[j] {
      if s[j].id == product.id {
        assert j == k;
      }
    }
  }

  lemma AddToCartPreservesUniqueIds(s: Cart, product: Product)
    requires UniqueIds(s)
    ensures UniqueIds(AddToCart(s, product))
  {
    var r := AddToCart(s, product);
    if !HasId(s, product.id) {
      forall i, j | 0 <= i < j < |r| ensures r[i].id != r[j].id {
        if j == |s| {
          assert r[i] == s[i];
        } else {
          assert r[i] == s[i] && r[j] == s[j];
        }
      }
    } else {
      forall i, j | 0 <= i < j < |r| ensures r[i].id != r[j].id {
        assert Ids(r)[i] == Ids(s)[i] && Ids(r)[j] == Ids(s)[j];
      }
    }
  }

  lemma AddToCartPreservesNonNegative(s: Cart, product: Product)
    requires NonNegative(s)
    ensures NonNegative(AddToCart(s, product))
  {
    match FindIndex(s, product.id)
    case None =>
    case Some(k) => assert s[k].quantity >= 0;
  }

  lemma AddToCartPreservesWellFormed(s: Cart, product: Product)
    requires WellFormed(s)
    ensures WellFormed(AddToCart(s, product))
  {
    AddToCartPreservesUniqueIds(s, product);
    AddToCartPreservesNonNegative(s, product);
  }

  /** increment on a present id in a cart with unique ids adds exactly one to
      that entry and changes nothing else. */
  lemma IncrementAt(s: Cart, k: nat)
    requires UniqueIds(s) && k < |s|
    ensures |Increment(s, s[k].id)| == |s|
    ensures Increment(s, s[k].id)[k] == s[k].(quantity := s[k].quantity + 1)
    ensures forall j :: 0 <= j < |s| && j != k ==> Increment(s, s[k].id)[j] == s[j]
  {
  }

  lemma IncrementPreservesWellFormed(s: Cart, id: string)
    requires WellFormed(s)
    ensures WellFormed(Increment(s, id))
  {
    var r := Increment(s, id);
    forall i, j | 0 <= i < j < |r| ensures r[i].id != r[j].id {
      assert Ids(r)[i] == Ids(s)[i] && Ids(r)[j] == Ids(s)[j];
    }
  }

  /** decrement on a present id with quantity at least 1 removes exactly one
      from that entry, leaves it non-negative and changes nothing else. */
  lemma DecrementAt(s: Cart, k: nat)
    requires UniqueIds(s) && k < |s| && s[k].quantity >= 1
    ensures |Decrement(s, s[k].id)| == |s|
    ensures Decrement(s, s[k].id)[k] == s[k].(quantity := s[k].quantity - 1)
    ensures Decrement(s, s[k].id)[k].quantity >= 0
    ensures forall j :: 0 <= j < |s| && j != k ==> Decrement(s, s[k].id)[j] == s[j]
  {
    FindIndexUnique(s, k);
  }

  /** decrement never takes a quantity below zero. */
  lemma DecrementPreservesWellFormed(s: Cart, id: string)
    requires WellFormed(s)
    ensures WellFormed(Decrement(s, id))
  {
    var r := Decrement(s, id);
    forall i, j | 0 <= i < j < |r| ensures r[i].id != r[j].id {
      assert Ids(r)[i] == Ids(s)[i] && Ids(r)[j] == Ids(s)[j];
    }
    match FindIndex(s, id)
    case None =>
    case Some(k) =>
      if s[k].quantity > 0 {
        forall i | 0 <= i < |r| ensures r[i].quantity >= 0 {
          if s[i].id == id {
            assert i == k;
          }
        }
      }
  }

  /** decrement undoes increment in a well-formed cart. */
  lemma DecrementUndoesIncrement(s: Cart, id: string)
    requires WellFormed(s)
    ensures Decrement(Increment(s, id), id) == s
  {
    var t := Increment(s, id);
    match FindIndex(s, id)
    case None =>
    case Some(k) =>
      assert t[k].id == id;
      assert UniqueIds(t) by {
        forall i, j | 0 <= i < j < |t| ensures t[i].id != t[j].id {
          assert Ids(t)[i] == Ids(s)[i] && Ids(t)[j] == Ids(s)[j];
        }
      }
      FindIndexUnique(t, k);
      assert t[k].quantity >= 1;
  }

  /** increment undoes a decrement that took effect. */
  lemma IncrementUndoesDecrement(s: Cart, k: nat)
    requires UniqueIds(s) && k < |s| && s[k].quantity >= 1
    ensures Increment(Decrement(s, s[k].id), s[k].id) == s
  {
    FindIndexUnique(s, k);
  }

  /** `n` decrements in a row. */
  function DecrementTimes(s: Cart, id: string, n: nat): Cart {
    if n == 0 then s else Decrement(DecrementTimes(s, id, n - 1), id)
  }

  /** Repeated decrements stop at zero and keep the entry in the cart: after
      `n` of them the quantity q of the entry at `k` is max(q - n, 0), and no
      other entry has changed. */
  lemma {:induction false} DecrementTimesStopsAtZero(s: Cart, k: nat, n: nat)
    requires UniqueIds(s) && k < |s| && s[k].quantity >= 0
    ensures |DecrementTimes(s, s[k].id, n)| == |s|
    ensures DecrementTimes(s, s[k].id, n)[k] ==
      s[k].(quantity := if s[k].quantity >= n then s[k].quantity - n else 0)
    ensures forall j :: 0 <= j < |s| && j != k ==> DecrementTimes(s, s[k].id, n)[j] == s[j]
  {
    if n > 0 {
      DecrementTimesStopsAtZero(s, k, n - 1);
      var t := DecrementTimes(s, s[k].id, n - 1);
      assert UniqueIds(t) by {
        forall i, j | 0 <= i < j < |t| ensures t[i].id != t[j].id {
          if i == k || j == k {
            assert t[i].id == s[i].id && t[j].id == s[j].id;
          } else {
            assert t[i] == s[i] && t[j] == s[j];
          }
        }
      }
      assert t[k].id == s[k].id;
      if t[k].quantity >= 1 {
        DecrementAt(t, k);
      } else {
        FindIndexUnique(t, k);
      }
    }
  }

  // ---------------------------------------------------------------------------
  // Order of the other entries.

  /** Any update that keeps every entry's id and leaves each entry whose id
      differs from `id` alone also leaves the other entries, in order, alone. */
  lemma {:induction false} WithoutUnchanged(s: Cart, r: Cart, id: string)
    requires |r| == |s|
    requires forall i :: 0 <= i < |s| ==> r[i].id == s[i].id
    requires forall i :: 0 <= i < |s| && s[i].id != id ==> r[i] == s[i]
    ensures Without(r, id) == Without(s, id)
  {
    if s != [] {
      var n := |s| - 1;
      WithoutUnchanged(s[..n], r[..n], id);
    }
  }

  /** Every updater leaves the entries with other ids unchanged and in order. */
  lemma UpdatersKeepOthers(s: Cart, product: Product, id: string)
    ensures Without(AddToCart(s, product), product.id) == Without(s, product.id)
    ensures Without(Increment(s, id), id) == Without(s, id)
    ensures Without(Decrement(s, id), id) == Without(s, id)
  {
    var a := AddToCart(s, product);
    if HasId(s, product.id) {
      forall i | 0 <= i < |s| ensures a[i].id == s[i].id {
        assert Ids(a)[i] == Ids(s)[i];
      }
      WithoutUnchanged(s, a, product.id);
    } else {
      assert a[..|a| - 1] == s;
    }
    var t := Increment(s, id);
    forall i | 0 <= i < |s| ensures t[i].id == s[i].id {
      assert Ids(t)[i] == Ids(s)[i];
    }
    WithoutUnchanged(s, t, id);
    var d := Decrement(s, id);
    forall i | 0 <= i < |s| ensures d[i].id == s[i].id {
      assert Ids(d)[i] == Ids(s)[i];
    }
    WithoutUnchanged(s, d, id);
  }

  /** The walk-through of an empty cart: add "a", increment it, decrement it
      twice, and it stays in the cart at quantity 0. */
  lemma Walkthrough(product: Product)
    requires product.id == "a"
    ensures AddToCart([], product) == [product.(quantity := 1)]
    ensures Increment(AddToCart([], product), "a") == [product.(quantity := 2)]
    ensures Decrement(Decrement(Increment(AddToCart([], product), "a"), "a"), "a") == [product.(quantity := 0)]
  {
    var s1 := AddToCart([], product);
    var s2 := Increment(s1, "a");
    assert s2[0] == product.(quantity := 2);
    var s3 := Decrement(s2, "a");
    assert s3[0] == product.(quantity := 1);
    var s4 := Decrement(s3, "a");
    assert s4[0] == product.(quantity := 0);
  }
}
