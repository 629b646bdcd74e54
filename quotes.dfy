/** The quote generator of dom-manipulation/script.js: a module-level list of
    {text, category} records, a form handler that appends a validated record, and a
    button handler that shows a randomly chosen record. */
module QuoteGenerator {
  import opened JsTrim

  datatype Option<T> = None | Some(value: T)

  /** One record of the list. */
  datatype Quote = Quote(text: string, category: string)

  /** Outcome of a form submission; each case is the one the page announces with an alert. */
  datatype AddOutcome = QuoteAdded | MissingField

  /** A record as the form handler produces it: both fields non-empty and trimmed. */
  predicate WellFormed(q: Quote) {
    q.text != [] && q.category != [] && Trimmed(q.text) && Trimmed(q.category)
  }

  /** The list the page starts with. */
  function InitialQuotes(): (qs: seq<Quote>)
    ensures |qs| == 3
    ensures forall q <- qs :: WellFormed(q)
  {
    var q0 := Quote("Believe you can " + "and you're halfway there.", "Motivation");
    var q1 := Quote("Imagination is more " + "important than knowledge.", "Creativity");
    var q2 := Quote("The best way to predict " + "the future is to create it.", "Inspiration");
    // Each text above is written as two joined literals: the verifier cannot read the
    // first character of a literal this long, but reads it from the shorter first half.
    assert WellFormed(q0) by {
      assert q0.text[0] == 'B' && q0.text[|q0.text| - 1] == '.';
      assert q0.category[0] == 'M' && q0.category[|q0.category| - 1] == 'n';
    }
    assert WellFormed(q1) by {
      assert q1.text[0] == 'I' && q1.text[|q1.text| - 1] == '.';
      assert q1.category[0] == 'C' && q1.category[|q1.category| - 1] == 'y';
    }
    assert WellFormed(q2) by {
      assert q2.text[0] == 'T' && q2.text[|q2.text| - 1] == '.';
      assert q2.category[0] == 'I' && q2.category[|q2.category| - 1] == 'n';
    }
    [q0, q1, q2]
  }

  /** What holds of the list at every point of the page's life: it still begins with the
      three initial records and every record in it is well formed. */
  predicate StoreInvariant(qs: seq<Quote>) {
    InitialQuotes() <= qs && forall q <- qs :: WellFormed(q)
  }

  /** A store satisfying the invariant is never empty. */
  lemma InvariantNonEmpty(qs: seq<Quote>)
    requires StoreInvariant(qs)
    ensures |qs| >= 3 && qs[..3] == InitialQuotes()
  {
  }

  /** The record a submission of the two raw field values would append, if any:
      both values are trimmed, and only a pair of non-empty results is accepted. */
  function NewQuote(rawText: string, rawCategory: string): (r: Option<Quote>)
    ensures r.Some? <==> !AllWhitespace(rawText) && !AllWhitespace(rawCategory)
    ensures r.Some? ==> WellFormed(r.value)
    ensures r.Some? ==> r.value.text == Trim(rawText) && r.value.category == Trim(rawCategory)
  {
    TrimEmptyIff(rawText);
    TrimEmptyIff(rawCategory);
    var text, category := Trim(rawText), Trim(rawCategory);
    if text != [] && category != [] then Some(Quote(text, category)) else None
  }

  /** The list after one submission of the form: the old list, followed by the pair of
      trimmed values when neither value is blank. */
  function AfterAdd(qs: seq<Quote>, rawText: string, rawCategory: string): (qs': seq<Quote>)
    ensures qs <= qs'
    ensures |qs'| == |qs| + (if !AllWhitespace(rawText) && !AllWhitespace(rawCategory) then 1 else 0)
    ensures |qs'| > |qs| ==> qs'[|qs|] == Quote(Trim(rawText), Trim(rawCategory))
  {
    match NewQuote(rawText, rawCategory)
    case Some(q) => qs + [q]
    case None => qs
  }

  /** One submission keeps the invariant, never shrinks the list, keeps every earlier
      record in place, and grows the list by one exactly when both fields are not blank. */
  lemma AddPreservesInvariant(qs: seq<Quote>, rawText: string, rawCategory: string)
    requires StoreInvariant(qs)
    ensures var qs' := AfterAdd(qs, rawText, rawCategory);
      && StoreInvariant(qs')
      && qs <= qs'
      && |qs'| == |qs| + (if !AllWhitespace(rawText) && !AllWhitespace(rawCategory) then 1 else 0)
  {
    var qs' := AfterAdd(qs, rawText, rawCategory);
    if |qs'| > |qs| {
      assert qs' == qs + [NewQuote(rawText, rawCategory).value];
    } else {
      assert qs' == qs;
    }
  }

  /** Blanks typed around a field value are dropped: submitting a non-empty trimmed text
      and category with any whitespace before and after each appends exactly that pair. */
  lemma AddDropsPadding(qs: seq<Quote>, before: string, text: string, after: string,
                        before': string, category: string, after': string)
    requires AllWhitespace(before) && AllWhitespace(after) && text != [] && Trimmed(text)
    requires AllWhitespace(before') && AllWhitespace(after') && category != [] && Trimmed(category)
    ensures AfterAdd(qs, before + text + after, before' + category + after') == qs + [Quote(text, category)]
  {
    TrimOfPadded(before, text, after);
    TrimOfPadded(before', category, after');
    TrimEmptyIff(before + text + after);
    TrimEmptyIff(before' + category + after');
  }

  /** A submission with an empty or blank field leaves the list as it was. */
  lemma AddRejectsExamples(qs: seq<Quote>)
    ensures AfterAdd(qs, "", "x") == qs
    ensures AfterAdd(qs, "x", " \t ") == qs
    ensures AfterAdd(qs, "x", "") == qs
    ensures AfterAdd(qs, "", "") == qs
  {
    assert AllWhitespace("") && AllWhitespace(" \t ") by {
      var b := " \t ";
      assert b[0] == ' ' && b[1] == '\t' && b[2] == ' ';
    }
    assert NewQuote("", "x") == None && NewQuote("", "") == None;
    assert NewQuote("x", " \t ") == None && NewQuote("x", "") == None;
  }

  /** The list after a series of submissions, in order. */
  function AfterAdds(qs: seq<Quote>, inputs: seq<(string, string)>): seq<Quote>
    decreases |inputs|
  {
    if inputs == [] then qs
    else AfterAdds(AfterAdd(qs, inputs[0].0, inputs[0].1), inputs[1..])
  }

  /** How many of the submissions have both fields not blank. */
  function AcceptedCount(inputs: seq<(string, string)>): nat
  {
    if inputs == [] then 0
    else (if !AllWhitespace(inputs[0].0) && !AllWhitespace(inputs[0].1) then 1 else 0)
         + AcceptedCount(inputs[1..])
  }

  /** Over any session of submissions starting from a valid list, the invariant holds,
      the list only grows, earlier records stay where they were, and it ends up longer by
      exactly the number of accepted submissions. */
  lemma {:induction false} SessionPreservesInvariant(qs: seq<Quote>, inputs: seq<(string, string)>)
    requires StoreInvariant(qs)
    ensures var qs' := AfterAdds(qs, inputs);
      && StoreInvariant(qs')
      && qs <= qs'
      && |qs'| == |qs| + AcceptedCount(inputs)
    decreases |inputs|
  {
    if inputs != [] {
      var mid := AfterAdd(qs, inputs[0].0, inputs[0].1);
      AddPreservesInvariant(qs, inputs[0].0, inputs[0].1);
      SessionPreservesInvariant(mid, inputs[1..]);
    }
  }

  /** Every record of the page's list, whatever was submitted, is one of the initial
      records or the trimmed pair of some accepted submission. */
  lemma {:induction false} SessionRecordsOrigin(qs: seq<Quote>, inputs: seq<(string, string)>, q: Quote)
    requires q in AfterAdds(qs, inputs)
    ensures q in qs || exists k :: 0 <= k < |inputs| && NewQuote(inputs[k].0, inputs[k].1) == Some(q)
    decreases |inputs|
  {
    if inputs != [] {
      var mid := AfterAdd(qs, inputs[0].0, inputs[0].1);
      SessionRecordsOrigin(mid, inputs[1..], q);
      if q in mid && q !in qs {
        assert NewQuote(inputs[0].0, inputs[0].1) == Some(q);
      } else if q !in mid {
        var k :| 0 <= k < |inputs| - 1 && NewQuote(inputs[1..][k].0, inputs[1..][k].1) == Some(q);
        assert inputs[1..][k] == inputs[k + 1];
      }
    }
  }

  /** The index expression Math.floor(Math.random() * n), with the random number r drawn
      from [0, 1) and the product taken over exact reals. */
  function RandomIndex(r: real, n: nat): (i: nat)
    requires 0.0 <= r < 1.0
    ensures i as real <= r * n as real < i as real + 1.0
    ensures n > 0 ==> i < n
    ensures n == 0 ==> i == 0
  {
    var p := r * n as real;
    ProductBounds(r, n);
    var f := p.Floor;
    assert n > 0 ==> f < n;
    f
  }

  /** 0 <= r * n, and r * n < n when n is positive. */
  lemma {:induction false} ProductBounds(r: real, n: nat)
    requires 0.0 <= r < 1.0
    ensures 0.0 <= r * n as real
    ensures n > 0 ==> r * n as real < n as real
  {
    if n > 0 {
      ProductBounds(r, n - 1);
      assert r * n as real == r * (n - 1) as real + r;
    }
  }

  /** Every index of a list of n records is drawn for the random numbers in [i/n, (i+1)/n),
      so each record can be shown. */
  lemma RandomIndexReachesEvery(n: nat, i: nat)
    requires i < n
    ensures var r := i as real / n as real; 0.0 <= r < 1.0 && RandomIndex(r, n) == i
  {
    var r := i as real / n as real;
    assert r * n as real == i as real;
  }

  /** The page's list of quotes, updated in place by the form handler. */
  class QuoteStore {
    var quotes: seq<Quote>

    ghost predicate Valid()
      reads this
    {
      StoreInvariant(quotes)
    }

    /** The list literal the page starts with. */
    constructor ()
      ensures Valid()
      ensures quotes == InitialQuotes()
    {
      quotes := InitialQuotes();
    }

    /** The form handler: trims both fields; when both are non-empty, pushes the new
        record onto the end of the list, otherwise changes nothing. */
    method AddQuote(rawText: string, rawCategory: string) returns (outcome: AddOutcome)
      requires Valid()
      modifies this
      ensures Valid()
      ensures quotes == AfterAdd(old(quotes), rawText, rawCategory)
      ensures outcome == QuoteAdded <==> Trim(rawText) != [] && Trim(rawCategory) != []
      ensures outcome == QuoteAdded ==>
        && |quotes| == |old(quotes)| + 1
        && old(quotes) <= quotes
        && quotes[|quotes| - 1] == Quote(Trim(rawText), Trim(rawCategory))
      ensures outcome == MissingField ==> quotes == old(quotes)
    {
      var text := Trim(rawText);
      var category := Trim(rawCategory);
      AddPreservesInvariant(quotes, rawText, rawCategory);
      TrimEmptyIff(rawText);
      TrimEmptyIff(rawCategory);
      if text != [] && category != [] {
        quotes := quotes + [Quote(text, category)];
        outcome := QuoteAdded;
      } else {
        outcome := MissingField;
      }
    }

    /** The record the "show new quote" handler picks for the random number r: the index
        is Math.floor(r * quotes.length), which always names a record of the list. */
    method DisplayRandomQuote(r: real) returns (index: nat, quote: Quote)
      requires Valid()
      requires 0.0 <= r < 1.0
      ensures index < |quotes| && quote == quotes[index] && quote in quotes
      ensures index as real <= r * |quotes| as real < index as real + 1.0
    {
      index := RandomIndex(r, |quotes|);
      quote := quotes[index];
    }
  }
}
