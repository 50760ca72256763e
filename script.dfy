/**
  The state of script.js: a global `quotes` array that starts with four
  quotes and that addQuote extends with `push`; showRandomQuote only reads
  it.
 */
module Script {
  import opened Quotes
  import opened JsText

  const InitialQuotes: seq<Quote> := [
    Quote("The only way to do great work is to love what you do.", "Inspiration"),
    Quote("Strive not to be a success, but rather to be of value.", "Life"),
    Quote("The mind is everything. What you think you become.", "Philosophy"),
    Quote("JavaScript is the future of web development.", "Technology")
  ]

  /** The reasons addQuote refuses, checked in this order. */
  datatype AddOutcome = Added | EmptyText | EmptyCategory

  class QuoteList {
    /** The global `quotes` array. */
    var quotes: seq<Quote>

    /** Every quote in the list has a non-empty text and category. */
    ghost predicate Valid()
      reads this
    {
      forall i :: 0 <= i < |quotes| ==> quotes[i].text != "" && quotes[i].category != ""
    }

    /** The list the script starts with. */
    constructor ()
      ensures Valid()
      ensures quotes == InitialQuotes && |quotes| == 4
    {
      quotes := InitialQuotes;
    }

    /** addQuote: an empty trimmed text is refused first, then an empty
        trimmed category; either way the list is unchanged and nothing is
        shown (None). Otherwise exactly the trimmed quote is pushed at the
        end, so the list only grows and what was there stays as it was, and
        showRandomQuote then always finds a quote to show: a random one of
        the new list, not necessarily the one just added. */
    method AddQuote(rawText: string, rawCategory: string, roll: real) returns (outcome: AddOutcome, shown: Option<Pick>)
      requires Valid()
      requires 0.0 <= roll < 1.0
      modifies this
      ensures Valid()
      ensures outcome == EmptyText <==> Trim(rawText) == ""
      ensures outcome == EmptyCategory <==> Trim(rawText) != "" && Trim(rawCategory) == ""
      ensures outcome != Added ==> quotes == old(quotes) && shown == None
      ensures outcome == Added ==> quotes == old(quotes) + [Quote(Trim(rawText), Trim(rawCategory))]
      ensures outcome == Added ==>
        && shown.Some? && shown.value.Picked?
        && shown.value.index == RandomIndex(roll, |quotes|)
        && shown.value.quote == quotes[shown.value.index]
      ensures old(quotes) <= quotes
    {
      var text := Trim(rawText);
      var category := Trim(rawCategory);
      shown := None;
      if text == "" {
        return EmptyText, shown;
      }
      if category == "" {
        return EmptyCategory, shown;
      }
      quotes := quotes + [Quote(text, category)];
      outcome := Added;
      var pick := ShowRandomQuote(roll);
      shown := Some(pick);
    }

    /** showRandomQuote: nothing to show for an empty list; otherwise a
        position inside the list, chosen as `Math.floor(Math.random() *
        quotes.length)`. */
    method ShowRandomQuote(roll: real) returns (pick: Pick)
      requires 0.0 <= roll < 1.0
      ensures pick == NoQuotes <==> quotes == []
      ensures pick.Picked? ==>
        && pick.index < |quotes|
        && pick.index == RandomIndex(roll, |quotes|)
        && pick.quote == quotes[pick.index]
    {
      if |quotes| == 0 {
        pick := NoQuotes;
      } else {
        var i := RandomIndex(roll, |quotes|);
        pick := Picked(i, quotes[i]);
      }
    }
  }
}
