/**
  The state of dom-manipulation/script.js: the global `quotes` array and the
  two localStorage keys it writes, `quotes` and `lastFilter`.

  Everything the script reads from the page enters as a parameter: the two
  form fields, the value the category drop-down reports, the value
  Math.random returned, and the already parsed contents of an imported file.
 */
module DomManipulation {
  import opened Quotes
  import opened JsText
  import opened QuoteViews
  import QuoteJson

  const QuotesKey := "quotes"
  const LastFilterKey := "lastFilter"

  datatype AddOutcome = Added | MissingField

  /** The outcome of loading the stored list: restored from `quotes`,
      nothing (or the empty string) stored, or stored text that is not a
      list of quotes. */
  datatype LoadOutcome = Restored | NothingStored | Unreadable

  /** An import file, after the file reader and `JSON.parse` are done with
      it. */
  datatype ImportInput =
    | NoFileChosen
    | Unparsable
    | NotAnArray
    | AnArray(items: seq<Quote>)

  datatype ImportOutcome = NothingRead | ParseError | NotAnArrayError | Imported(count: nat)

  /** Writing the same value to a key twice is writing it once. */
  lemma UpdateTwice(m: map<string, string>, k: string, v: string)
    ensures m[k := v][k := v] == m[k := v]
  {
  }

  class QuoteStore {
    /** The global `quotes` array. */
    var quotes: seq<Quote>
    /** localStorage, key by key. */
    var storage: map<string, string>

    /** The page loading: `quotes` starts as `[]`, loadQuotes runs, then
        populateCategories; `selected` is what the drop-down reports once
        populateCategories has tried to select the saved preference. A
        stored list that cannot be read stops the handler (JSON.parse
        throws) before populateCategories runs. */
    constructor Load(persisted: map<string, string>, selected: string)
      ensures QuotesKey !in persisted || persisted[QuotesKey] == "" ==>
        quotes == [] && storage == persisted[LastFilterKey := selected]
      ensures QuotesKey in persisted && persisted[QuotesKey] != "" && QuoteJson.Decode(persisted[QuotesKey]).Some? ==>
        quotes == QuoteJson.Decode(persisted[QuotesKey]).value && storage == persisted[LastFilterKey := selected]
      ensures QuotesKey in persisted && persisted[QuotesKey] != "" && QuoteJson.Decode(persisted[QuotesKey]).None? ==>
        quotes == [] && storage == persisted
    {
      quotes := [];
      storage := persisted;
      new;
      var outcome := LoadQuotes();
      if outcome != Unreadable {
        var options, restored, shown := PopulateCategories(selected);
      }
    }

    /** saveQuotes: `quotes` now holds JSON.stringify of the list (which
        QuoteJson.DecodeEncode shows reads back as the same list); no other
        key changes. */
    method SaveQuotes()
      modifies this`storage
      ensures storage == old(storage)[QuotesKey := QuoteJson.Encode(quotes)]
    {
      storage := storage[QuotesKey := QuoteJson.Encode(quotes)];
    }

    /** loadQuotes: replaces the list by the stored one when something is
        stored; otherwise (or when the stored text is not a list of quotes)
        the list stays as it is. Loading what SaveQuotes stored gives back
        the list that was saved. */
    method LoadQuotes() returns (outcome: LoadOutcome)
      modifies this`quotes
      ensures outcome == NothingStored <==> QuotesKey !in storage || storage[QuotesKey] == ""
      ensures outcome == Unreadable <==>
        QuotesKey in storage && storage[QuotesKey] != "" && QuoteJson.Decode(storage[QuotesKey]).None?
      ensures outcome == Restored ==> QuotesKey in storage && QuoteJson.Decode(storage[QuotesKey]) == Some(quotes)
      ensures outcome == Restored ==> storage[QuotesKey] == QuoteJson.Encode(quotes)
      ensures outcome != Restored ==> quotes == old(quotes)
      ensures QuotesKey in storage && storage[QuotesKey] == QuoteJson.Encode(old(quotes)) ==>
        outcome == Restored && quotes == old(quotes)
    {
      if QuotesKey in storage && storage[QuotesKey] != "" {
        var text := storage[QuotesKey];
        match QuoteJson.Decode(text)
        case Some(qs) =>
          QuoteJson.EncodeDecode(text);
          quotes := qs;
          outcome := Restored;
        case None =>
          outcome := Unreadable;
      } else {
        outcome := NothingStored;
      }
      if QuotesKey in storage && storage[QuotesKey] == QuoteJson.Encode(old(quotes)) {
        QuoteJson.DecodeEncode(old(quotes));
      }
    }

    /** saveFilterPreference: records the selected drop-down value; loading
        the preference afterwards gives it back, or "all" for the empty
        string. */
    method SaveFilterPreference(category: string)
      modifies this`storage
      ensures storage == old(storage)[LastFilterKey := category]
      ensures LoadFilterPreference() == if category == "" then All else category
    {
      storage := storage[LastFilterKey := category];
    }

    /** loadFilterPreference: `localStorage.getItem('lastFilter') || 'all'`.
        The result is never empty: an absent key and a stored empty string
        both fall back to "all". */
    function LoadFilterPreference(): (f: string)
      reads this
      ensures f != ""
      ensures LastFilterKey in storage && storage[LastFilterKey] != "" ==> f == storage[LastFilterKey]
      ensures LastFilterKey !in storage || storage[LastFilterKey] == "" ==> f == All
    {
      if LastFilterKey in storage && storage[LastFilterKey] != "" then storage[LastFilterKey] else All
    }

    /** populateCategories: the drop-down options and the preference it tries
        to select, followed by filterQuotes with the value the drop-down then
        reports. */
    method PopulateCategories(selected: string) returns (options: seq<string>, restored: string, shown: seq<Quote>)
      modifies this`storage
      ensures options == Categories(quotes)
      ensures restored == old(LoadFilterPreference())
      ensures storage == old(storage)[LastFilterKey := selected]
      ensures shown == Filtered(quotes, selected)
    {
      options := Categories(quotes);
      restored := LoadFilterPreference();
      shown := FilterQuotes(selected);
    }

    /** filterQuotes: saves the selection and returns the quotes listed for
        it: all of them, in order, for "all"; otherwise those of that exact
        category, in order. */
    method FilterQuotes(selected: string) returns (shown: seq<Quote>)
      modifies this`storage
      ensures storage == old(storage)[LastFilterKey := selected]
      ensures shown == Filtered(quotes, selected)
      ensures selected == All ==> shown == quotes
      ensures selected != All ==> forall q :: q in shown ==> q.category == selected
      ensures selected != All ==> (shown == [] <==> forall i :: 0 <= i < |quotes| ==> quotes[i].category != selected)
    {
      SaveFilterPreference(selected);
      shown := quotes;
      if selected != All {
        shown := Matching(quotes, selected);
        MatchingEmptyIff(quotes, selected);
      }
      FilteredSpec(quotes, selected);
    }

    /** showRandomQuote: draws from the quotes listed for the selection;
        refuses when there are none, and otherwise the position lies in the
        listed quotes and the quote drawn belongs to the selected category
        (any category for "all"). */
    method ShowRandomQuote(selected: string, roll: real) returns (pick: Pick)
      requires 0.0 <= roll < 1.0
      ensures pick == NoQuotes <==> Filtered(quotes, selected) == []
      ensures selected != All ==> (pick == NoQuotes <==> forall i :: 0 <= i < |quotes| ==> quotes[i].category != selected)
      ensures pick.Picked? ==>
        && pick.index < |Filtered(quotes, selected)|
        && pick.index == RandomIndex(roll, |Filtered(quotes, selected)|)
        && pick.quote == Filtered(quotes, selected)[pick.index]
        && pick.quote in quotes
        && (selected != All ==> pick.quote.category == selected)
    {
      var pool := quotes;
      if selected != All {
        pool := Matching(quotes, selected);
        MatchingEmptyIff(quotes, selected);
      }
      if |pool| == 0 {
        pick := NoQuotes;
      } else {
        var i := RandomIndex(roll, |pool|);
        FilteredInList(quotes, selected, i);
        pick := Picked(i, pool[i]);
      }
    }

    /** addQuote: both trimmed fields must be non-empty; if either is empty
        nothing changes. Otherwise exactly the trimmed quote is appended,
        the list is saved, and the drop-down and list are rebuilt (which
        records the drop-down's value as the preference). */
    method AddQuote(rawText: string, rawCategory: string, selected: string) returns (outcome: AddOutcome)
      modifies this
      ensures outcome == MissingField <==> Trim(rawText) == "" || Trim(rawCategory) == ""
      ensures outcome == MissingField ==> quotes == old(quotes) && storage == old(storage)
      ensures outcome == Added ==> quotes == old(quotes) + [Quote(Trim(rawText), Trim(rawCategory))]
      ensures outcome == Added ==> storage == old(storage)[QuotesKey := QuoteJson.Encode(quotes)][LastFilterKey := selected]
    {
      var text := Trim(rawText);
      var category := Trim(rawCategory);
      if text == "" || category == "" {
        outcome := MissingField;
      } else {
        quotes := quotes + [Quote(text, category)];
        SaveQuotes();
        ghost var saved := storage;
        var options, restored, shown := PopulateCategories(selected);
        shown := FilterQuotes(selected);
        UpdateTwice(saved, LastFilterKey, selected);
        outcome := Added;
      }
    }

    /** importFromJsonFile: only an array is taken; its elements are
        appended in order, the list is saved and the drop-down rebuilt.
        Anything else changes nothing. */
    method ImportQuotes(input: ImportInput, selected: string) returns (outcome: ImportOutcome)
      modifies this
      ensures outcome.Imported? <==> input.AnArray?
      ensures input.NoFileChosen? ==> outcome == NothingRead
      ensures input.Unparsable? ==> outcome == ParseError
      ensures input.NotAnArray? ==> outcome == NotAnArrayError
      ensures !input.AnArray? ==> quotes == old(quotes) && storage == old(storage)
      ensures input.AnArray? ==>
        && outcome.count == |input.items|
        && quotes == old(quotes) + input.items
        && |quotes| == |old(quotes)| + |input.items|
        && storage == old(storage)[QuotesKey := QuoteJson.Encode(quotes)][LastFilterKey := selected]
    {
      match input
      case NoFileChosen =>
        outcome := NothingRead;
      case Unparsable =>
        outcome := ParseError;
      case NotAnArray =>
        outcome := NotAnArrayError;
      case AnArray(items) =>
        quotes := quotes + items;
        SaveQuotes();
        var options, restored, shown := PopulateCategories(selected);
        outcome := Imported(|items|);
    }
  }
}
