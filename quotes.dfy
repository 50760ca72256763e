/**
  The one domain entity both scripts share, a quote, and the random draw
  both of their showRandomQuote functions make.
 */
module Quotes {

  /** A value that may be missing. */
  datatype Option<T> = None | Some(value: T)

  /** A `{ text, category }` record. Nothing in the record type itself
      forbids empty fields: only the add form checks them. */
  datatype Quote = Quote(text: string, category: string)

  /** What showRandomQuote ends up displaying: nothing, when the pool it draws
      from is empty, or the quote at the drawn position of that pool. */
  datatype Pick = NoQuotes | Picked(index: nat, quote: Quote)

  /** `Math.floor(Math.random() * n)`: the value Math.random returned is
      passed in as `roll`, which ECMAScript guarantees to lie in [0, 1). */
  function RandomIndex(roll: real, n: nat): (i: nat)
    requires 0.0 <= roll < 1.0
    requires n > 0
    ensures i < n
    ensures i as real <= roll * n as real < (i + 1) as real
  {
    var x := roll * n as real;
    assert x < n as real;
    x.Floor
  }
}
