/** The two prompts of `main`, driven by the lines the user types. At the
    filter prompt `h` (either case) shows the help, an empty line lists the
    whole catalogue and any other keyword filters it; a filter that lists
    nothing asks again. At the selection prompt `0` goes back to the filter
    prompt, a rejected reply asks again, and a valid reply ends both loops
    with the chosen entries. Running out of lines models the end of input,
    at which the program would stop with an error. */
module Session {

  import opened Text
  import opened Listing
  import opened Selection

  datatype Outcome = Confirmed(selection: seq<string>, rest: seq<string>) | OutOfInput

  /** `rest` is what is left of `lines` after some replies were read. */
  predicate Remainder(rest: seq<string>, lines: seq<string>)
  {
    |rest| < |lines| && rest == lines[|lines| - |rest|..]
  }

  /** Every name in `names` is a `model:param` entry of the catalogue. */
  predicate FromCatalogue(names: seq<string>, models: seq<string>, parameters: map<string, string>)
    requires Catalogued(models, parameters)
  {
    forall k :: 0 <= k < |names| ==> names[k] in FilteredKeys(models, parameters, "")
  }

  /** A filtered listing only lists catalogue entries. */
  lemma ListingWithinCatalogue(models: seq<string>, parameters: map<string, string>, keyword: string)
    requires Catalogued(models, parameters)
    ensures FromCatalogue(FilteredKeys(models, parameters, keyword), models, parameters)
  {
    var es := Expand(models, parameters);
    var f := ClassifyFilter(keyword);
    var kept := Select(f, es);
    SelectMembership(f, es);
    ShowAllKeepsEverything(es);
    assert ClassifyFilter("") == ShowAll;
    forall k | 0 <= k < |kept| ensures Key(kept[k]) in Keys(es) {
      assert kept[k] in es;
      var j :| 0 <= j < |es| && es[j] == kept[k];
      assert Keys(es)[j] == Key(kept[k]);
    }
  }

  lemma TailRemainder(rest: seq<string>, lines: seq<string>)
    requires lines != [] && (rest == lines[1..] || Remainder(rest, lines[1..]))
    ensures Remainder(rest, lines)
  {
  }

  lemma PickFromCatalogue(listing: seq<string>, ix: seq<nat>, models: seq<string>, parameters: map<string, string>)
    requires Catalogued(models, parameters)
    requires FromCatalogue(listing, models, parameters) && InRange(ix, |listing|)
    ensures FromCatalogue(Pick(listing, ix), models, parameters)
  {
    var picked := Pick(listing, ix);
    forall k | 0 <= k < |picked| ensures picked[k] in FilteredKeys(models, parameters, "") {
      assert picked[k] == listing[ix[k] - 1];
    }
  }

  /** The filter prompt, reading `lines` from the first. */
  function FilterPrompt(lines: seq<string>, models: seq<string>, parameters: map<string, string>): (r: Outcome)
    requires Catalogued(models, parameters)
    ensures r.Confirmed? ==> r.selection != [] && Remainder(r.rest, lines)
    ensures r.Confirmed? ==> FromCatalogue(r.selection, models, parameters)
    decreases |lines|
  {
    if lines == [] then OutOfInput
    else
      var keyword := Strip(lines[0]);
      var listing := FilteredKeys(models, parameters, keyword);
      var r :=
        if Lower(keyword) == "h" || listing == [] then
          FilterPrompt(lines[1..], models, parameters)
        else
          (ListingWithinCatalogue(models, parameters, keyword);
           SelectPrompt(lines[1..], models, parameters, listing));
      if r.Confirmed? then TailRemainder(r.rest, lines); r else r
  }

  /** The selection prompt for a non-empty `listing`. */
  function SelectPrompt(lines: seq<string>, models: seq<string>, parameters: map<string, string>,
                        listing: seq<string>): (r: Outcome)
    requires Catalogued(models, parameters)
    requires listing != [] && FromCatalogue(listing, models, parameters)
    ensures r.Confirmed? ==> r.selection != [] && Remainder(r.rest, lines)
    ensures r.Confirmed? ==> FromCatalogue(r.selection, models, parameters)
    decreases |lines|
  {
    if lines == [] then OutOfInput
    else
      var reply := ParseSelection(lines[0], |listing|);
      var r :=
        if reply == ChangeFilter then FilterPrompt(lines[1..], models, parameters)
        else if reply.Chosen? then
          (PickFromCatalogue(listing, reply.indices, models, parameters);
           Confirmed(Pick(listing, reply.indices), lines[1..]))
        else SelectPrompt(lines[1..], models, parameters, listing);
      if r.Confirmed? then TailRemainder(r.rest, lines); r else r
  }

  /** A rejected reply only moves on to the next line. */
  lemma RejectedReplyStep(lines: seq<string>, models: seq<string>, parameters: map<string, string>,
                          listing: seq<string>)
    requires Catalogued(models, parameters)
    requires listing != [] && FromCatalogue(listing, models, parameters)
    requires lines != [] && ParseSelection(lines[0], |listing|) in {Malformed, OutOfRange}
    ensures SelectPrompt(lines, models, parameters, listing) == SelectPrompt(lines[1..], models, parameters, listing)
  {
  }

  /** Rejected replies leave no trace: after any number of them the prompt
      behaves as if they had never been typed. */
  lemma {:induction false} RejectedRepliesAreSkipped(bad: seq<string>, rest: seq<string>, models: seq<string>,
                                                     parameters: map<string, string>, listing: seq<string>)
    requires Catalogued(models, parameters)
    requires listing != [] && FromCatalogue(listing, models, parameters)
    requires forall i :: 0 <= i < |bad| ==>
      ParseSelection(bad[i], |listing|) == Malformed || ParseSelection(bad[i], |listing|) == OutOfRange
    ensures SelectPrompt(bad + rest, models, parameters, listing) == SelectPrompt(rest, models, parameters, listing)
    decreases |bad|
  {
    if bad != [] {
      var lines := bad + rest;
      assert lines[0] == bad[0] && lines[1..] == bad[1..] + rest;
      RejectedReplyStep(lines, models, parameters, listing);
      RejectedRepliesAreSkipped(bad[1..], rest, models, parameters, listing);
    } else {
      assert bad + rest == rest;
    }
  }

  /** Typing the numbers of a valid choice at the selection prompt confirms
      exactly those entries, in the order typed. */
  lemma ChoosingConfirms(ix: seq<nat>, rest: seq<string>, models: seq<string>,
                         parameters: map<string, string>, listing: seq<string>)
    requires Catalogued(models, parameters)
    requires listing != [] && FromCatalogue(listing, models, parameters)
    requires |ix| >= 1 && InRange(ix, |listing|)
    ensures SelectPrompt([Render(ix)] + rest, models, parameters, listing) == Confirmed(Pick(listing, ix), rest)
  {
    ParseRendered(ix, |listing|);
    assert ([Render(ix)] + rest)[1..] == rest;
  }
}
