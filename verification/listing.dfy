/** `display_models`: the catalogue expanded into `model:param` entries in
    catalogue order, filtered by a size comparison or a case-insensitive
    substring, with a display colour handed to each model in the order its
    first entry appears. The terminal rendering is not modelled; the column
    arithmetic is in module Layout. */
module Listing {

  import opened Wrappers
  import opened Text
  import opened Seqs
  import opened Sizes

  /** One selectable pair; the program shows and selects it as `model:param`. */
  datatype Entry = Entry(model: string, param: string)

  function Key(e: Entry): string
  {
    e.model + ":" + e.param
  }

  /** The listing takes a key apart again with `entry.split(':')`: when
      neither half holds a colon, that gives back the model and the
      parameter. */
  lemma KeySplits(e: Entry)
    requires ':' !in e.model && ':' !in e.param
    ensures Split(Key(e), ':') == [e.model, e.param]
  {
    var halves := [e.model, e.param];
    assert Join(halves, ':') == Key(e) by {
      assert halves[1..] == [e.param];
    }
    SplitJoin(halves, ':');
  }

  function Keys(es: seq<Entry>): (keys: seq<string>)
    ensures |keys| == |es|
    ensures forall k :: 0 <= k < |es| ==> keys[k] == Key(es[k])
  {
    if es == [] then [] else Keys(es[..|es| - 1]) + [Key(es[|es| - 1])]
  }

  /** The filter a keyword from the prompt selects: none for an empty
      keyword, a size comparison when the keyword has the size-filter syntax,
      otherwise a substring. */
  datatype Filter = ShowAll | BySize(size: SizeFilter) | ByText(keyword: string)

  function ClassifyFilter(keyword: string): Filter
  {
    if keyword == [] then ShowAll
    else match ParseSizeFilter(keyword)
      case Some(size) => BySize(size)
      case None => ByText(keyword)
  }

  /** Whether an entry survives the filter. */
  predicate Keep(f: Filter, e: Entry)
  {
    match f
    case ShowAll => true
    case BySize(size) => MatchesSize(size, e.param)
    case ByText(keyword) => Contains(Lower(Key(e)), Lower(keyword))
  }

  /** Every model of the catalogue has a parameters field. */
  predicate Catalogued(models: seq<string>, parameters: map<string, string>)
  {
    forall i :: 0 <= i < |models| ==> models[i] in parameters
  }

  /** The entries of one model: one per comma-separated piece of its
      parameters field, the piece stripped of surrounding whitespace. */
  function ModelEntries(model: string, pieces: seq<string>): (es: seq<Entry>)
    ensures |es| == |pieces|
    ensures forall k :: 0 <= k < |pieces| ==> es[k] == Entry(model, Strip(pieces[k]))
  {
    seq(|pieces|, k requires 0 <= k < |pieces| => Entry(model, Strip(pieces[k])))
  }

  function Pieces(parameters: map<string, string>, model: string): seq<string>
    requires model in parameters
  {
    Split(parameters[model], ',')
  }

  /** `extract_parameters`: the size labels scraped from a model's block,
      each lower-cased and stripped, joined with commas; `latest` when the
      block is missing (`None`) or lists no size. The HTML scraping itself is
      not modelled: `spans` is what it found. */
  function ParametersField(spans: Option<seq<string>>): string
  {
    match spans
    case None => "latest"
    case Some(found) => if found == [] then "latest" else Join(CleanSizes(found), ',')
  }

  function CleanSizes(found: seq<string>): (params: seq<string>)
    ensures |params| == |found|
    ensures forall k :: 0 <= k < |found| ==> params[k] == Strip(Lower(found[k]))
  {
    seq(|found|, k requires 0 <= k < |found| => Strip(Lower(found[k])))
  }

  lemma NoCommaAfterCleaning(size: string)
    requires ',' !in size
    ensures ',' !in Strip(Lower(size))
  {
    var low := Lower(size);
    assert ',' !in low by {
      forall i | 0 <= i < |low| ensures low[i] != ',' {
        assert size[i] != ',';
      }
    }
    StripRemovesOnlyWhitespace(low);
  }

  lemma LatestEntries(model: string)
    ensures ModelEntries(model, Split("latest", ',')) == [Entry(model, "latest")]
  {
    var latest := "latest";
    assert ',' !in latest;
    SplitWithoutSeparator(latest, ',');
    assert Strip(latest) == latest by {
      assert !IsSpace(latest[0]) && !IsSpace(latest[|latest| - 1]);
    }
    var es := ModelEntries(model, [latest]);
    assert |es| == 1 && es[0] == Entry(model, latest);
  }

  lemma {:induction false} SizesSplit(found: seq<string>)
    requires found != []
    requires forall k :: 0 <= k < |found| ==> ',' !in found[k]
    ensures Split(ParametersField(Some(found)), ',') == CleanSizes(found)
  {
    var params := CleanSizes(found);
    forall k | 0 <= k < |params| ensures ',' !in params[k] {
      NoCommaAfterCleaning(found[k]);
    }
    SplitJoin(params, ',');
  }

  /** A model without sizes is listed once, as `model:latest`; otherwise it
      is listed once per scraped label, in page order, each label lower-cased
      and stripped (labels holding no comma). */
  lemma ScrapedEntries(model: string, spans: Option<seq<string>>)
    requires spans.Some? ==> forall k :: 0 <= k < |spans.value| ==> ',' !in spans.value[k]
    ensures spans.None? || spans.value == [] ==>
      ModelEntries(model, Split(ParametersField(spans), ',')) == [Entry(model, "latest")]
    ensures spans.Some? && spans.value != [] ==>
      |ModelEntries(model, Split(ParametersField(spans), ','))| == |spans.value| &&
      forall k :: 0 <= k < |spans.value| ==>
        ModelEntries(model, Split(ParametersField(spans), ','))[k] == Entry(model, Strip(Lower(spans.value[k])))
  {
    if spans.None? || spans.value == [] {
      LatestEntries(model);
    } else {
      var found := spans.value;
      assert Split(ParametersField(spans), ',') == CleanSizes(found) by {
        SizesSplit(found);
      }
      var es := ModelEntries(model, CleanSizes(found));
      forall k | 0 <= k < |found| ensures es[k] == Entry(model, Strip(Lower(found[k]))) {
        StripIdempotent(Lower(found[k]));
      }
    }
  }

  /** Every `model:param` pair of the catalogue, before filtering. */
  function Expand(models: seq<string>, parameters: map<string, string>): seq<Entry>
    requires Catalogued(models, parameters)
  {
    if models == [] then []
    else
      var last := models[|models| - 1];
      Expand(models[..|models| - 1], parameters) + ModelEntries(last, Pieces(parameters, last))
  }

  /** The entries that survive the filter, in their original order. */
  function Select(f: Filter, es: seq<Entry>): seq<Entry>
  {
    if es == [] then []
    else
      var last := es[|es| - 1];
      Select(f, es[..|es| - 1]) + (if Keep(f, last) then [last] else [])
  }

  /** The numbered list `display_models` returns for a keyword. */
  function FilteredKeys(models: seq<string>, parameters: map<string, string>, keyword: string): seq<string>
    requires Catalogued(models, parameters)
  {
    Keys(Select(ClassifyFilter(keyword), Expand(models, parameters)))
  }

  /* ---------------------------------------------------- selection by filter */

  lemma SelectSnoc(f: Filter, es: seq<Entry>, e: Entry)
    ensures Select(f, es + [e]) == Select(f, es) + (if Keep(f, e) then [e] else [])
  {
    assert (es + [e])[..|es|] == es;
  }

  /** Filtering distributes over concatenation, so it keeps the entries'
      relative order. */
  lemma {:induction false} SelectAppend(f: Filter, a: seq<Entry>, b: seq<Entry>)
    ensures Select(f, a + b) == Select(f, a) + Select(f, b)
    decreases |b|
  {
    if b == [] {
      assert a + b == a;
    } else {
      var init, last := b[..|b| - 1], b[|b| - 1];
      assert a + b == (a + init) + [last];
      SplitLast(b);
      SelectSnoc(f, a + init, last);
      SelectSnoc(f, init, last);
      SelectAppend(f, a, init);
      var tail := if Keep(f, last) then [last] else [];
      calc {
        Select(f, a + b);
        Select(f, (a + init) + [last]);
        Select(f, a + init) + tail;
        (Select(f, a) + Select(f, init)) + tail;
        Select(f, a) + (Select(f, init) + tail);
        Select(f, a) + Select(f, init + [last]);
      }
    }
  }

  /** An entry is listed exactly when it is in the catalogue and passes the
      filter. */
  lemma {:induction false} SelectMembership(f: Filter, es: seq<Entry>)
    ensures forall e :: e in Select(f, es) <==> e in es && Keep(f, e)
    decreases |es|
  {
    if es != [] {
      var init := es[..|es| - 1];
      SelectMembership(f, init);
      SplitLast(es);
    }
  }

  /** Without a keyword nothing is filtered out. */
  lemma {:induction false} ShowAllKeepsEverything(es: seq<Entry>)
    ensures Select(ShowAll, es) == es
    decreases |es|
  {
    if es != [] {
      ShowAllKeepsEverything(es[..|es| - 1]);
      SplitLast(es);
    }
  }

  /** With a size filter, every listed entry's parameter parses and its size
      satisfies the operator against the threshold; every catalogue entry
      that does so is listed. */
  lemma SizeFilterSelects(keyword: string, es: seq<Entry>, e: Entry)
    requires ClassifyFilter(keyword).BySize?
    ensures var size := ClassifyFilter(keyword).size;
      e in Select(ClassifyFilter(keyword), es) <==>
        && e in es
        && ParseParam(e.param).Some?
        && Holds(size.op, ParseParam(e.param).value, ParseParam(size.threshold).value)
  {
    SelectMembership(ClassifyFilter(keyword), es);
  }

  lemma ByTextSelects(keyword: string, es: seq<Entry>, e: Entry)
    ensures e in Select(ByText(keyword), es) <==> e in es && Contains(Lower(Key(e)), Lower(keyword))
  {
    var f := ByText(keyword);
    assert e in Select(f, es) <==> e in es && Keep(f, e) by {
      SelectMembership(f, es);
    }
  }

  /** With any other keyword, an entry is listed exactly when the lower-cased
      keyword occurs in the lower-cased `model:param`. */
  lemma TextFilterSelects(keyword: string, es: seq<Entry>, e: Entry)
    requires keyword != [] && ParseSizeFilter(keyword).None?
    ensures e in Select(ClassifyFilter(keyword), es) <==>
      e in es && exists i :: OccursAt(Lower(Key(e)), Lower(keyword), i)
  {
    assert ClassifyFilter(keyword) == ByText(keyword);
    ByTextSelects(keyword, es, e);
  }

  /* ---------------------------------------------------------- expansion */

  lemma ExpandSnoc(models: seq<string>, parameters: map<string, string>, m: string)
    requires Catalogued(models, parameters) && m in parameters
    ensures Catalogued(models + [m], parameters)
    ensures Expand(models + [m], parameters) == Expand(models, parameters) + ModelEntries(m, Pieces(parameters, m))
  {
    assert (models + [m])[..|models|] == models;
  }

  /** The catalogue expands model by model, in catalogue order. */
  lemma {:induction false} ExpandAppend(a: seq<string>, b: seq<string>, parameters: map<string, string>)
    requires Catalogued(a, parameters) && Catalogued(b, parameters)
    ensures Catalogued(a + b, parameters)
    ensures Expand(a + b, parameters) == Expand(a, parameters) + Expand(b, parameters)
    decreases |b|
  {
    if b == [] {
      assert a + b == a;
    } else {
      var init, last := b[..|b| - 1], b[|b| - 1];
      SplitLast(b);
      assert a + b == (a + init) + [last];
      assert Catalogued(init, parameters) by {
        forall i | 0 <= i < |init| ensures init[i] in parameters {
          assert init[i] == b[i];
        }
      }
      assert last in parameters by {
        assert last == b[|b| - 1];
      }
      ExpandAppend(a, init, parameters);
      ExpandSnoc(a + init, parameters, last);
      ExpandSnoc(init, parameters, last);
      var own := ModelEntries(last, Pieces(parameters, last));
      var front, middle := Expand(a, parameters), Expand(init, parameters);
      ConcatAssociative(front, middle, own);
      calc {
        Expand(a + b, parameters);
        Expand((a + init) + [last], parameters);
        Expand(a + init, parameters) + own;
        front + (middle + own);
        front + Expand(init + [last], parameters);
      }
    }
  }

  /** `e` pairs a catalogued model with one of its stripped parameter pieces. */
  predicate IsPieceOf(parameters: map<string, string>, e: Entry)
  {
    e.model in parameters && exists k :: 0 <= k < |Pieces(parameters, e.model)| && e.param == Strip(Pieces(parameters, e.model)[k])
  }

  lemma ModelEntriesContain(model: string, pieces: seq<string>, e: Entry)
    ensures e in ModelEntries(model, pieces) <==>
      e.model == model && exists k :: 0 <= k < |pieces| && e.param == Strip(pieces[k])
  {
    var own := ModelEntries(model, pieces);
    if e in own {
      var k :| 0 <= k < |own| && own[k] == e;
      assert e.param == Strip(pieces[k]);
    }
    if e.model == model && exists k :: 0 <= k < |pieces| && e.param == Strip(pieces[k]) {
      var k :| 0 <= k < |pieces| && e.param == Strip(pieces[k]);
      assert own[k] == e;
    }
  }

  lemma ModelEntriesMembership(parameters: map<string, string>, model: string, e: Entry)
    requires model in parameters
    ensures e in ModelEntries(model, Pieces(parameters, model)) <==> e.model == model && IsPieceOf(parameters, e)
  {
    ModelEntriesContain(model, Pieces(parameters, model), e);
  }

  /** The catalogue entries are exactly the pairs of a listed model with one
      of its stripped parameter pieces. */
  lemma {:induction false} ExpandMembership(models: seq<string>, parameters: map<string, string>, e: Entry)
    requires Catalogued(models, parameters)
    ensures e in Expand(models, parameters) <==> e.model in models && IsPieceOf(parameters, e)
    decreases |models|
  {
    if models != [] {
      var init, last := models[..|models| - 1], models[|models| - 1];
      SplitLast(models);
      ExpandMembership(init, parameters, e);
      ModelEntriesMembership(parameters, last, e);
    }
  }

  /** Every expanded entry belongs to a model of the catalogue. */
  lemma ExpandModelsListed(models: seq<string>, parameters: map<string, string>)
    requires Catalogued(models, parameters)
    ensures forall i :: 0 <= i < |Expand(models, parameters)| ==> Expand(models, parameters)[i].model in models
  {
    var es := Expand(models, parameters);
    forall i | 0 <= i < |es| ensures es[i].model in models {
      assert es[i] in es;
      ExpandMembership(models, parameters, es[i]);
    }
  }

  /** Entries of a model the catalogue has not listed yet cannot clash with
      the entries listed so far. */
  lemma ExpandDisjoint(models: seq<string>, parameters: map<string, string>, m: string, own: seq<Entry>)
    requires Catalogued(models, parameters) && m !in models
    requires forall j :: 0 <= j < |own| ==> own[j].model == m
    ensures forall i, j :: 0 <= i < |Expand(models, parameters)| && 0 <= j < |own| ==>
      Expand(models, parameters)[i] != own[j]
  {
    var before := Expand(models, parameters);
    ExpandModelsListed(models, parameters);
    forall i, j | 0 <= i < |before| && 0 <= j < |own|
      ensures before[i] != own[j]
    {
      assert before[i].model in models;
    }
  }

  /** Each model's stripped parameter pieces are pairwise distinct. */
  predicate PiecesDistinct(models: seq<string>, parameters: map<string, string>)
    requires Catalogued(models, parameters)
  {
    forall i :: 0 <= i < |models| ==> NoDup(ModelEntries(models[i], Pieces(parameters, models[i])))
  }

  lemma PrefixFacts(models: seq<string>, parameters: map<string, string>)
    requires models != [] && Catalogued(models, parameters) && PiecesDistinct(models, parameters)
    ensures Catalogued(models[..|models| - 1], parameters)
    ensures PiecesDistinct(models[..|models| - 1], parameters)
    ensures models[|models| - 1] in parameters
    ensures NoDup(ModelEntries(models[|models| - 1], Pieces(parameters, models[|models| - 1])))
  {
    var init := models[..|models| - 1];
    forall i | 0 <= i < |init|
      ensures init[i] in parameters
      ensures NoDup(ModelEntries(init[i], Pieces(parameters, init[i])))
    {
      assert init[i] == models[i];
    }
  }

  /** When the catalogue names each model once and each model's stripped
      pieces are distinct, every `model:param` pair appears exactly once. */
  lemma {:induction false} ExpandNoDuplicates(models: seq<string>, parameters: map<string, string>)
    requires Catalogued(models, parameters)
    requires NoDup(models) && PiecesDistinct(models, parameters)
    ensures NoDup(Expand(models, parameters))
    decreases |models|
  {
    if models != [] {
      var n := |models| - 1;
      var init, last := models[..n], models[n];
      PrefixFacts(models, parameters);
      NoDupInit(models);
      var before, own := Expand(init, parameters), ModelEntries(last, Pieces(parameters, last));
      assert NoDup(before) by {
        ExpandNoDuplicates(init, parameters);
      }
      assert forall i, j :: 0 <= i < |before| && 0 <= j < |own| ==> before[i] != own[j] by {
        ExpandDisjoint(init, parameters, last, own);
      }
      NoDupConcat(before, own);
      assert Expand(models, parameters) == before + own;
    }
  }

  /* -------------------------------------------------------------- colours */

  /** The colour codes handed out to models, in order (code 95 appears twice). */
  const Palette: seq<int> := [32, 92, 96, 95, 94, 91, 35, 34, 95, 36]

  function ModelsOf(es: seq<Entry>): (ms: seq<string>)
    ensures |ms| == |es|
    ensures forall k :: 0 <= k < |es| ==> ms[k] == es[k].model
  {
    if es == [] then [] else ModelsOf(es[..|es| - 1]) + [es[|es| - 1].model]
  }

  /** `colors` gives the k-th model in `order` the k-th palette colour,
      wrapping after ten, and has no other keys. */
  predicate ColoursFollow(colors: map<string, int>, order: seq<string>)
  {
    && (forall m :: m in colors ==> m in order)
    && (forall k :: 0 <= k < |order| ==> order[k] in colors && colors[order[k]] == Palette[k % |Palette|])
  }

  lemma KeysSnoc(es: seq<Entry>, e: Entry)
    ensures Keys(es + [e]) == Keys(es) + [Key(e)]
  {
    assert (es + [e])[..|es|] == es;
  }

  lemma KeysAppend(a: seq<Entry>, b: seq<Entry>)
    ensures Keys(a + b) == Keys(a) + Keys(b)
  {
    var joined, keys := a + b, Keys(a) + Keys(b);
    forall k | 0 <= k < |joined| ensures Keys(joined)[k] == keys[k] {
      if k < |a| {
        assert joined[k] == a[k];
      } else {
        assert joined[k] == b[k - |a|];
      }
    }
  }

  lemma ModelsOfSnoc(es: seq<Entry>, e: Entry)
    ensures ModelsOf(es + [e]) == ModelsOf(es) + [e.model]
  {
    assert (es + [e])[..|es|] == es;
  }

  lemma ModelEntriesSnoc(model: string, pieces: seq<string>, j: nat)
    requires j < |pieces|
    ensures ModelEntries(model, pieces[..j + 1]) == ModelEntries(model, pieces[..j]) + [Entry(model, Strip(pieces[j]))]
  {
    assert pieces[..j + 1][..j] == pieces[..j];
  }

  /** Listing another entry of a model already coloured changes nothing
      in the colouring. */
  lemma ColourStepSeen(kept: seq<Entry>, colors: map<string, int>, e: Entry)
    requires ColoursFollow(colors, Distinct(ModelsOf(kept)))
    requires e.model in colors
    ensures Distinct(ModelsOf(kept + [e])) == Distinct(ModelsOf(kept))
  {
    var ms := ModelsOf(kept);
    ModelsOfSnoc(kept, e);
    DistinctSnoc(ms, e.model);
    DistinctMember(ms, e.model);
  }

  /** The first entry of a new model gives that model the next palette
      colour. */
  lemma ColourStepNew(kept: seq<Entry>, colors: map<string, int>, e: Entry)
    requires ColoursFollow(colors, Distinct(ModelsOf(kept)))
    requires e.model !in colors
    ensures Distinct(ModelsOf(kept + [e])) == Distinct(ModelsOf(kept)) + [e.model]
    ensures ColoursFollow(colors[e.model := Palette[|Distinct(ModelsOf(kept))| % |Palette|]],
                          Distinct(ModelsOf(kept)) + [e.model])
  {
    var ms, m := ModelsOf(kept), e.model;
    var d := Distinct(ms);
    ModelsOfSnoc(kept, e);
    DistinctSnoc(ms, m);
    DistinctMember(ms, m);
    assert forall k :: 0 <= k < |d| ==> d[k] in colors;
    assert m !in d;
    var next := d + [m];
    var updated := colors[m := Palette[|d| % |Palette|]];
    forall x | x in updated ensures x in next {
      assert x == m || x in d;
    }
    forall k | 0 <= k < |next|
      ensures next[k] in updated && updated[next[k]] == Palette[k % |Palette|]
    {
      if k < |d| {
        assert next[k] == d[k] && d[k] != m;
        assert updated[next[k]] == colors[d[k]];
      } else {
        assert next[k] == m && k == |d|;
      }
    }
    assert ColoursFollow(updated, next);
  }

  /** The colour state after listing `kept`: `entries` are their keys, and
      `colors` holds the first-appearance colouring with `colorIndex` colours
      handed out so far. */
  ghost predicate ListedSoFar(kept: seq<Entry>, entries: seq<string>, colors: map<string, int>, colorIndex: int)
  {
    && entries == Keys(kept)
    && colorIndex == |Distinct(ModelsOf(kept))|
    && ColoursFollow(colors, Distinct(ModelsOf(kept)))
  }

  /** Listing one entry that passed the filter: its key is appended and
      its model keeps its colour or takes the next one. */
  lemma ListedStep(kept: seq<Entry>, entries: seq<string>, colors: map<string, int>, colorIndex: int, e: Entry)
    requires ListedSoFar(kept, entries, colors, colorIndex)
    ensures e.model in colors ==> ListedSoFar(kept + [e], entries + [Key(e)], colors, colorIndex)
    ensures e.model !in colors ==>
      ListedSoFar(kept + [e], entries + [Key(e)], colors[e.model := Palette[colorIndex % |Palette|]], colorIndex + 1)
  {
    KeysSnoc(kept, e);
    if e.model in colors {
      ColourStepSeen(kept, colors, e);
    } else {
      ColourStepNew(kept, colors, e);
    }
  }

  /** One more parameter piece of `model` tested against the filter. */
  lemma SelectedStep(f: Filter, model: string, pieces: seq<string>, j: nat, kept0: seq<Entry>, kept: seq<Entry>)
    requires j < |pieces| && kept == kept0 + Select(f, ModelEntries(model, pieces[..j]))
    ensures kept + (if Keep(f, Entry(model, Strip(pieces[j]))) then [Entry(model, Strip(pieces[j]))] else [])
      == kept0 + Select(f, ModelEntries(model, pieces[..j + 1]))
  {
    var e := Entry(model, Strip(pieces[j]));
    var listed := Select(f, ModelEntries(model, pieces[..j]));
    var added := if Keep(f, e) then [e] else [];
    assert Select(f, ModelEntries(model, pieces[..j + 1])) == listed + added by {
      ModelEntriesSnoc(model, pieces, j);
      SelectSnoc(f, ModelEntries(model, pieces[..j]), e);
    }
    ConcatAssociative(kept0, listed, added);
  }

  /** One entry at the heart of `display_models`: tested against the
      filter and, when it passes, listed, its model coloured on first sight. */
  method ListEntry(f: Filter, e: Entry, ghost kept0: seq<Entry>,
                   entries0: seq<string>, colors0: map<string, int>, colorIndex0: int)
    returns (ghost kept: seq<Entry>, entries: seq<string>, colors: map<string, int>, colorIndex: int)
    requires ListedSoFar(kept0, entries0, colors0, colorIndex0)
    ensures kept == kept0 + (if Keep(f, e) then [e] else [])
    ensures ListedSoFar(kept, entries, colors, colorIndex)
    ensures entries == entries0 + (if Keep(f, e) then [Key(e)] else [])
    ensures colorIndex == colorIndex0 + (if Keep(f, e) && e.model !in colors0 then 1 else 0)
  {
    kept, entries, colors, colorIndex := kept0, entries0, colors0, colorIndex0;
    // The size comparison or the substring test, whichever the keyword selected.
    if Keep(f, e) {
      ListedStep(kept, entries, colors, colorIndex, e);
      if e.model !in colors {
        colors := colors[e.model := Palette[colorIndex % |Palette|]];
        colorIndex := colorIndex + 1;
      }
      entries := entries + [Key(e)];
      kept := kept + [e];
    } else {
      assert kept0 + [] == kept0;
    }
  }

  /** The inner loop of `display_models`: one model's parameter pieces,
      each stripped, tested against the filter and listed when it passes. */
  method ListPieces(f: Filter, model: string, pieces: seq<string>, ghost kept0: seq<Entry>,
                    entries0: seq<string>, colors0: map<string, int>, colorIndex0: int)
    returns (ghost kept: seq<Entry>, entries: seq<string>, colors: map<string, int>, colorIndex: int)
    requires ListedSoFar(kept0, entries0, colors0, colorIndex0)
    ensures kept == kept0 + Select(f, ModelEntries(model, pieces))
    ensures ListedSoFar(kept, entries, colors, colorIndex)
    ensures entries == entries0 + Keys(Select(f, ModelEntries(model, pieces)))
  {
    kept, entries, colors, colorIndex := kept0, entries0, colors0, colorIndex0;
    var j := 0;
    assert pieces[..0] == [];
    assert kept0 + [] == kept0;
    while j < |pieces|
      invariant 0 <= j <= |pieces|
      invariant kept == kept0 + Select(f, ModelEntries(model, pieces[..j]))
      invariant ListedSoFar(kept, entries, colors, colorIndex)
    {
      var e := Entry(model, Strip(pieces[j]));
      SelectedStep(f, model, pieces, j, kept0, kept);
      kept, entries, colors, colorIndex := ListEntry(f, e, kept, entries, colors, colorIndex);
      j := j + 1;
      assert kept == kept0 + Select(f, ModelEntries(model, pieces[..j]));
    }
    TakeAll(pieces);
    KeysAppend(kept0, Select(f, ModelEntries(model, pieces)));
  }

  /** `display_models` as the program runs it: the loop over models and
      their parameter pieces, the size and substring checks, and the colour
      counter. Returns the listing and each listed model's colour. */
  method DisplayModels(models: seq<string>, parameters: map<string, string>, keyword: string)
    returns (entries: seq<string>, colors: map<string, int>)
    requires Catalogued(models, parameters)
    ensures entries == FilteredKeys(models, parameters, keyword)
    ensures ColoursFollow(colors, Distinct(ModelsOf(Select(ClassifyFilter(keyword), Expand(models, parameters)))))
  {
    var f := ClassifyFilter(keyword);
    entries, colors := [], map[];
    var colorIndex := 0;
    ghost var kept: seq<Entry> := [];
    var i := 0;
    while i < |models|
      invariant 0 <= i <= |models|
      invariant Catalogued(models[..i], parameters)
      invariant kept == Select(f, Expand(models[..i], parameters))
      invariant ListedSoFar(kept, entries, colors, colorIndex)
    {
      var model := models[i];
      var params := Split(parameters[model], ',');
      ghost var before := Expand(models[..i], parameters);
      kept, entries, colors, colorIndex := ListPieces(f, model, params, kept, entries, colors, colorIndex);
      TakeSnoc(models, i);
      ExpandSnoc(models[..i], parameters, model);
      SelectAppend(f, before, ModelEntries(model, params));
      i := i + 1;
    }
    TakeAll(models);
  }
}
