/** The selection prompt in `main`: the stripped reply `0` goes back to the
    filter prompt; otherwise the reply must match `^\d+(,\d+)*$` and every
    number in it must lie between 1 and the listing's length, or the prompt
    is repeated. The chosen entries are `model_params[i - 1]` for each
    number `i`, in the order typed, duplicates kept. */
module Selection {

  import opened Text

  datatype Reply = ChangeFilter | Malformed | OutOfRange | Chosen(indices: seq<nat>)

  /** `^\d+(,\d+)*$`: a run of digits, then either the end or a comma and
      another such list. */
  predicate IsIndexList(s: string)
    decreases |s|
  {
    var k := LeadingDigits(s);
    k > 0 && (k == |s| || (s[k] == ',' && IsIndexList(s[k + 1..])))
  }

  /** Every comma-separated piece is a non-empty run of digits. */
  predicate DigitPieces(pieces: seq<string>)
  {
    forall k :: 0 <= k < |pieces| ==> pieces[k] != [] && AllDigits(pieces[k])
  }

  lemma {:induction false} IndexListSplits(s: string)
    requires IsIndexList(s)
    ensures DigitPieces(Split(s, ','))
    decreases |s|
  {
    var k := LeadingDigits(s);
    assert ',' !in s[..k] by {
      assert forall i :: 0 <= i < k ==> IsDigit(s[..k][i]);
    }
    if k == |s| {
      assert s[..k] == s;
      SplitWithoutSeparator(s, ',');
    } else {
      IndexListSplits(s[k + 1..]);
      assert s == s[..k] + [','] + s[k + 1..];
      SplitAfterPiece(s[..k], ',', s[k + 1..]);
    }
  }

  lemma {:induction false} JoinedIsIndexList(pieces: seq<string>)
    requires |pieces| >= 1 && DigitPieces(pieces)
    ensures IsIndexList(Join(pieces, ','))
    decreases |pieces|
  {
    var p := pieces[0];
    if |pieces| == 1 {
      LeadingDigitsUnique(p, |p|);
      assert p[..|p|] == p;
    } else {
      var rest := Join(pieces[1..], ',');
      var s := p + [','] + rest;
      assert s[..|p|] == p;
      LeadingDigitsUnique(s, |p|);
      assert s[|p| + 1..] == rest;
      JoinedIsIndexList(pieces[1..]);
    }
  }

  /** The regular expression accepts exactly the replies whose
      comma-separated pieces are all non-empty digit runs. */
  lemma IndexListIff(s: string)
    ensures IsIndexList(s) <==> DigitPieces(Split(s, ','))
  {
    if IsIndexList(s) {
      IndexListSplits(s);
    }
    if DigitPieces(Split(s, ',')) {
      JoinedIsIndexList(Split(s, ','));
      JoinSplit(s, ',');
    }
  }

  lemma DigitPiecesAreStripped(pieces: seq<string>)
    requires DigitPieces(pieces)
    ensures forall k :: 0 <= k < |pieces| ==> Strip(pieces[k]) == pieces[k]
  {
    forall k | 0 <= k < |pieces| ensures Strip(pieces[k]) == pieces[k] {
      var p := pieces[k];
      assert IsDigit(p[0]) && IsDigit(p[|p| - 1]);
    }
  }

  /** `[int(index.strip()) for index in s.split(',')]` on a reply the
      regular expression accepted. */
  function Values(s: string): (ix: seq<nat>)
    requires IsIndexList(s)
    ensures |ix| == |Split(s, ',')| >= 1
    ensures DigitPieces(Split(s, ','))
    ensures forall k :: 0 <= k < |ix| ==> ix[k] == DigitsValue(Split(s, ',')[k])
  {
    var pieces := Split(s, ',');
    IndexListSplits(s);
    DigitPiecesAreStripped(pieces);
    seq(|pieces|, k requires 0 <= k < |pieces| => DigitsValue(Strip(pieces[k])))
  }

  predicate InRange(ix: seq<nat>, n: nat)
  {
    forall k :: 0 <= k < |ix| ==> 1 <= ix[k] <= n
  }

  /** One reply at the selection prompt, for a listing of `n` entries. */
  function ParseSelection(raw: string, n: nat): (r: Reply)
    ensures r == ChangeFilter <==> Strip(raw) == "0"
    ensures r == Malformed <==> Strip(raw) != "0" && !IsIndexList(Strip(raw))
    ensures r.Chosen? ==> IsIndexList(Strip(raw)) && r.indices == Values(Strip(raw))
    ensures r.Chosen? ==> |r.indices| >= 1 && InRange(r.indices, n)
    ensures r == OutOfRange ==> IsIndexList(Strip(raw)) && !InRange(Values(Strip(raw)), n)
  {
    var s := Strip(raw);
    if s == "0" then ChangeFilter
    else if !IsIndexList(s) then Malformed
    else
      var ix := Values(s);
      if InRange(ix, n) then Chosen(ix) else OutOfRange
  }

  /** A blank reply is rejected like any other malformed one; it does not
      go back to the filter prompt. */
  lemma BlankReplyIsMalformed(raw: string, n: nat)
    requires forall i :: 0 <= i < |raw| ==> IsSpace(raw[i])
    ensures ParseSelection(raw, n) == Malformed
  {
    StripEmpty(raw);
  }

  /** The entries a valid reply selects: in the order typed, duplicates
      kept, each one an entry of the listing. */
  function Pick(listing: seq<string>, ix: seq<nat>): (picked: seq<string>)
    requires InRange(ix, |listing|)
    ensures |picked| == |ix|
    ensures forall k :: 0 <= k < |ix| ==> picked[k] == listing[ix[k] - 1] && picked[k] in listing
  {
    seq(|ix|, k requires 0 <= k < |ix| => listing[ix[k] - 1])
  }

  /* ----------------------------------------------------------- round trip */

  function Decimals(ix: seq<nat>): (pieces: seq<string>)
    ensures |pieces| == |ix|
    ensures forall k :: 0 <= k < |ix| ==> pieces[k] == ToDecimal(ix[k])
  {
    seq(|ix|, k requires 0 <= k < |ix| => ToDecimal(ix[k]))
  }

  /** The reply a user types to pick `ix`: the numbers, comma-separated. */
  function Render(ix: seq<nat>): string
  {
    Join(Decimals(ix), ',')
  }

  lemma DecimalsSplit(ix: seq<nat>)
    requires |ix| >= 1
    ensures DigitPieces(Decimals(ix))
    ensures Split(Render(ix), ',') == Decimals(ix)
  {
    var pieces := Decimals(ix);
    forall k | 0 <= k < |pieces| ensures ',' !in pieces[k] {
      assert AllDigits(pieces[k]);
    }
    SplitJoin(pieces, ',');
  }

  /** Any non-empty list of numbers, written out with commas, is accepted
      by the regular expression and reads back as the same numbers. */
  lemma RenderReadsBack(ix: seq<nat>)
    requires |ix| >= 1
    ensures IsIndexList(Render(ix))
    ensures Values(Render(ix)) == ix
  {
    var s, pieces := Render(ix), Decimals(ix);
    assert Split(s, ',') == pieces && IsIndexList(s) by {
      DecimalsSplit(ix);
      JoinedIsIndexList(pieces);
    }
    var values := Values(s);
    forall k | 0 <= k < |ix| ensures values[k] == ix[k] {
      assert values[k] == DigitsValue(pieces[k]);
    }
  }

  lemma JoinStartsWithFirst(pieces: seq<string>, sep: char)
    requires |pieces| >= 1 && pieces[0] != []
    ensures Join(pieces, sep) != [] && Join(pieces, sep)[0] == pieces[0][0]
  {
  }

  /** A rendered reply begins and ends with a digit, so `strip()` keeps it. */
  lemma RenderIsStripped(ix: seq<nat>)
    requires |ix| >= 1
    ensures Strip(Render(ix)) == Render(ix)
  {
    var s := Render(ix);
    assert s != [] && IsDigit(s[0]) && IsDigit(s[|s| - 1]) by {
      var pieces := Decimals(ix);
      var first, last := pieces[0], pieces[|pieces| - 1];
      assert AllDigits(first) && AllDigits(last);
      JoinStartsWithFirst(pieces, ',');
      LastOfJoin(pieces, ',');
    }
  }

  /** A rendered reply whose first number is positive is not the lone `0`. */
  lemma RenderIsNotZero(ix: seq<nat>)
    requires |ix| >= 1 && ix[0] >= 1
    ensures Render(ix) != "0"
  {
    var pieces := Decimals(ix);
    JoinStartsWithFirst(pieces, ',');
    var first := ToDecimal(ix[0]);
    assert |first| == 1 ==> DigitsValue(first) == DigitValue(first[0]);
    assert first[0] != '0';
  }

  /** Typing the numbers of a valid choice selects exactly that choice. */
  lemma ParseRendered(ix: seq<nat>, n: nat)
    requires |ix| >= 1 && InRange(ix, n)
    ensures ParseSelection(Render(ix), n) == Chosen(ix)
  {
    RenderReadsBack(ix);
    RenderIsStripped(ix);
    RenderIsNotZero(ix);
  }

  lemma {:induction false} LastOfJoin(pieces: seq<string>, sep: char)
    requires |pieces| >= 1 && pieces[|pieces| - 1] != []
    ensures Join(pieces, sep) != []
    ensures Join(pieces, sep)[|Join(pieces, sep)| - 1] == pieces[|pieces| - 1][|pieces[|pieces| - 1]| - 1]
    decreases |pieces|
  {
    if |pieces| > 1 {
      LastOfJoin(pieces[1..], sep);
    }
  }
}
