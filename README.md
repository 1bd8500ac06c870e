# Shopping-cart state model

A Dafny model of the cart store of a React Native marketplace app. The store keeps
one state slot, `products`. This is an ordered list of cart entries (`Product`: id,
title, image URL, price, quantity). The UI changes it through three updaters:

- `addToCart` appends a new product with quantity 1, or bumps the quantity of the
  entry that already has the product's id.
- `increment` adds one to the quantity of the entry with a given id.
- `decrement` takes one away from that quantity, unless it is already 0 or below.
  It never removes an entry.

The model lives in two files:

- `cart_state.dfy` (module `CartState`). The `Product` datatype and the three
  updaters as pure functions over `seq<Product>`. They are built, as in the code,
  from `find` (`FindIndex`, the first index with a matching id) and `map`
  (`WithQuantity`, `ShiftQuantity`). The `map` step applies to EVERY entry with the
  id, as the code does. Properties about "the one matching entry" are proved under
  the unique-id invariant `UniqueIds`. `WellFormed` adds non-negative quantities to
  it. The file also has the lemmas: each updater keeps the invariant, decrement and
  increment undo each other, addToCart on a present id equals increment, repeated
  decrements stop at 0, and the entries with other ids keep their values and order.
- `cart_provider.dfy` (module `CartProvider`). Class `CartStore`, whose `products`
  field is the state slot. Each method overwrites the field with its updater's
  result and keeps `Valid()`.

## Model

| member | source | states |
|---|---|---|
| CartState.FindIndex | src/hooks/cart.tsx:58 | `find` by id: a returned index holds the id and no earlier entry does; no index means no entry has the id |
| CartState.AddToCart | src/hooks/cart.tsx:57-69 | absent id: the old cart plus one entry at the end, which is the product with quantity 1; present id: same length and same ids; entries with other ids unchanged in place |
| CartState.Increment | src/hooks/cart.tsx:73-79 | same length and ids; each entry with the id gains exactly 1 and keeps its other fields; other entries unchanged; identity when the id is absent |
| CartState.Decrement | src/hooks/cart.tsx:83-95 | same length and ids (nothing removed); other entries unchanged; identity when the id is absent or when the first entry with the id has quantity 0 or below |
| CartState.FindIndexUnique | src/hooks/cart.tsx:58 | with unique ids, `find` returns the one entry that has the id |
| CartState.AddToCartPresent | src/hooks/cart.tsx:64-68 | present id, unique ids: that entry's quantity becomes old + 1 at the same position and with the same other fields; every other entry unchanged |
| CartState.AddToCartIsIncrementWhenPresent | src/hooks/cart.tsx:64-68 | present id, unique ids: addToCart gives the same cart as increment |
| CartState.AddToCartPreservesUniqueIds | src/hooks/cart.tsx:58-68 | addToCart keeps ids unique |
| CartState.AddToCartPreservesNonNegative | src/hooks/cart.tsx:58-68 | addToCart keeps all quantities at or above 0 |
| CartState.AddToCartPreservesWellFormed | src/hooks/cart.tsx:57-69 | addToCart keeps unique ids and non-negative quantities |
| CartState.IncrementAt | src/hooks/cart.tsx:73-78 | unique ids: the entry with the id gets quantity + 1; every other entry unchanged |
| CartState.IncrementPreservesWellFormed | src/hooks/cart.tsx:73-79 | increment keeps unique ids and non-negative quantities |
| CartState.DecrementAt | src/hooks/cart.tsx:86-93 | unique ids, quantity at least 1: that entry loses exactly 1 and stays non-negative; every other entry unchanged |
| CartState.DecrementPreservesWellFormed | src/hooks/cart.tsx:84-94 | decrement keeps unique ids and never makes a quantity negative |
| CartState.DecrementUndoesIncrement | src/hooks/cart.tsx:73-95 | in a well-formed cart, decrement after increment on the same id gives back the original cart |
| CartState.IncrementUndoesDecrement | src/hooks/cart.tsx:73-95 | unique ids and quantity at least 1: increment after decrement gives back the original cart |
| CartState.DecrementTimesStopsAtZero | src/hooks/cart.tsx:86-94 | after n decrements an entry with quantity q has quantity max(q - n, 0) and is still in the cart; other entries unchanged |
| CartState.UpdatersKeepOthers | src/hooks/cart.tsx:61-93 | each updater leaves the entries with other ids as they were, in the same order |
| CartState.Walkthrough | src/hooks/cart.tsx:57-95 | empty cart, add "a", increment, decrement twice: one entry "a" at quantity 0 |
| CartProvider.CartStore.constructor | src/hooks/cart.tsx:29 | the slot starts as the empty cart, which is well formed |
| CartProvider.CartStore.AddToCart | src/hooks/cart.tsx:56-70 | the slot becomes addToCart of its old value; the invariant is kept |
| CartProvider.CartStore.Increment | src/hooks/cart.tsx:72-80 | the slot becomes increment of its old value; the invariant is kept |
| CartProvider.CartStore.Decrement | src/hooks/cart.tsx:82-96 | the slot becomes decrement of its old value; the invariant is kept |

## Left out

- Loading from and saving to AsyncStorage (src/hooks/cart.tsx:31-54). This is
  external key-value I/O, with fire-and-forget asynchronous writes that can race.
  The JSON encoding is library code with no visible schema, so the round trip
  through storage is not modelled.
- React wiring: `createContext`, `useCallback`, `useMemo`, the provider element
  (src/hooks/cart.tsx:26, 98-103). It has no cart logic.
- The `useCart` error raised outside a provider (src/hooks/cart.tsx:106-114). This
  is a React context lookup, not cart logic.
- `price` is a JavaScript floating-point number. It is only copied, so it is a
  `real` here and no arithmetic is modelled on it.
- `quantity` is a JavaScript number, modelled as an unbounded `int`. Fractional or
  NaN quantities and the loss of precision above 2^53 are not modelled.
- Duplicate ids. The functions follow the code for any cart: `find` sees only the
  first match, and `map` updates every match. Still, no lemma describes what
  happens with duplicate ids. For example, decrement can take a later duplicate
  below 0. The per-entry properties are proved only under `UniqueIds`.
