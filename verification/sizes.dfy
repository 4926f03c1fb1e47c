/** Parameter sizes such as `8b`, `700k` or `10.5m` (`parse_param` in
    `display_models`), the numeric size filters `<`, `<=`, `>`, `>=`, `=`,
    `==` typed at the filter prompt, and the comparison between them.
    Sizes are exact decimals: the program's float conversion and its
    `eval` of the comparison are replaced by real arithmetic and an
    explicit operator switch. */
module Sizes {

  import opened Wrappers
  import opened Text
  import opened Seqs

  /** One match of `(\d+(\.\d+)?)([kmgb])`: the whole digits, the fraction
      digits (empty when there is no `.`), and the unit letter. */
  datatype SizeLiteral = SizeLiteral(whole: string, fraction: string, unit: char)

  predicate IsUnit(c: char)
  {
    c == 'k' || c == 'm' || c == 'g' || c == 'b'
  }

  predicate WellFormed(lit: SizeLiteral)
  {
    |lit.whole| > 0 && AllDigits(lit.whole) && AllDigits(lit.fraction) && IsUnit(lit.unit)
  }

  /** The text a literal is read from. */
  function Spell(lit: SizeLiteral): string
  {
    lit.whole + (if lit.fraction == [] then [] else ['.'] + lit.fraction) + [lit.unit]
  }

  /** Length of the optional `(\.\d+)` group at the start of `rest`: a dot
      and the longest digit run after it, or nothing when no digit follows
      the dot. */
  function FractionLength(rest: string): (f: nat)
    ensures f <= |rest|
    ensures f > 0 ==> f >= 2 && rest[0] == '.' && AllDigits(rest[1..f]) && (f == |rest| || !IsDigit(rest[f]))
    ensures f == 0 ==> !(|rest| >= 2 && rest[0] == '.' && IsDigit(rest[1]))
  {
    if |rest| >= 2 && rest[0] == '.' && IsDigit(rest[1]) then
      var k := LeadingDigits(rest[1..]);
      assert rest[1..][..k] == rest[1..1 + k];
      1 + k
    else 0
  }

  lemma SpelledPrefix(s: string, w: nat, f: nat, lit: SizeLiteral)
    requires w + f < |s|
    requires lit.whole == s[..w] && lit.unit == s[w + f]
    requires f == 0 ==> lit.fraction == []
    requires f > 0 ==> f >= 2 && s[w] == '.' && lit.fraction == s[w + 1..w + f]
    ensures Spell(lit) == s[..w + f + 1]
  {
    if f > 0 {
      assert ['.'] + lit.fraction == s[w..w + f];
      assert s[..w + f + 1] == s[..w] + s[w..w + f] + [s[w + f]];
    } else {
      assert s[..w + 1] == s[..w] + [s[w]];
    }
  }

  /** `re.match(r'(\d+(\.\d+)?)([kmgb])', s)`: the match is anchored at the
      start only, so anything may follow the unit letter. */
  function ScanSize(s: string): (r: Option<SizeLiteral>)
    ensures r.Some? ==> WellFormed(r.value) && Spell(r.value) <= s
    ensures var w := LeadingDigits(s); var f := FractionLength(s[w..]);
      r.Some? <==> w > 0 && w + f < |s| && IsUnit(s[w + f])
  {
    var w := LeadingDigits(s);
    var rest := s[w..];
    var f := FractionLength(rest);
    if w > 0 && w + f < |s| && IsUnit(s[w + f]) then
      var lit := SizeLiteral(s[..w], if f > 0 then s[w + 1..w + f] else [], s[w + f]);
      assert f > 0 ==> rest[1..f] == s[w + 1..w + f];
      SpelledPrefix(s, w, f, lit);
      Some(lit)
    else None
  }

  /** Where the parts of a literal sit in a string it starts. */
  lemma SpellLayout(lit: SizeLiteral, s: string)
    requires Spell(lit) <= s
    ensures |lit.whole| < |s| && s[..|lit.whole|] == lit.whole
    ensures lit.fraction == [] ==> s[|lit.whole|] == lit.unit
    ensures lit.fraction != [] ==>
      && |lit.whole| + 1 + |lit.fraction| < |s|
      && s[|lit.whole|] == '.'
      && s[|lit.whole| + 1..|lit.whole| + 1 + |lit.fraction|] == lit.fraction
      && s[|lit.whole| + 1 + |lit.fraction|] == lit.unit
  {
    var w, n, sp := |lit.whole|, |lit.fraction|, Spell(lit);
    assert s[..|sp|] == sp;
    assert sp[..w] == lit.whole;
    if n > 0 {
      assert sp[w + 1..w + 1 + n] == lit.fraction;
    }
  }

  /** Two literals that both start `s` are the same literal. */
  lemma SpelledPrefixUnique(a: SizeLiteral, b: SizeLiteral, s: string)
    requires WellFormed(a) && WellFormed(b) && Spell(a) <= s && Spell(b) <= s
    ensures a == b
  {
    SpellLayout(a, s);
    SpellLayout(b, s);
    assert |a.whole| == |b.whole| by {
      LeadingDigitsUnique(s, |a.whole|);
      LeadingDigitsUnique(s, |b.whole|);
    }
    if a.fraction != [] && b.fraction != [] {
      var w := |a.whole|;
      var rest := s[w + 1..];
      assert rest[..|a.fraction|] == a.fraction && rest[..|b.fraction|] == b.fraction;
      LeadingDigitsUnique(rest, |a.fraction|);
      LeadingDigitsUnique(rest, |b.fraction|);
    }
  }

  /** Every literal that starts `s` is the one the scan finds; together with
      the contract of `ScanSize` this makes the scan exactly the regular
      expression's match. */
  lemma ScanSizeComplete(lit: SizeLiteral, s: string)
    requires WellFormed(lit) && Spell(lit) <= s
    ensures ScanSize(s) == Some(lit)
  {
    var w := |lit.whole|;
    var n := |lit.fraction|;
    SpellLayout(lit, s);
    assert LeadingDigits(s) == w by {
      LeadingDigitsUnique(s, w);
    }
    var rest := s[w..];
    if n == 0 {
      assert FractionLength(rest) == 0;
      assert IsUnit(s[w]);
    } else {
      assert FractionLength(rest) == 1 + n by {
        assert rest[1..][..n] == lit.fraction;
        LeadingDigitsUnique(rest[1..], n);
      }
      assert IsUnit(s[w + (1 + n)]);
    }
    SpelledPrefixUnique(ScanSize(s).value, lit, s);
  }

  /** The unit table: `k`, `m`, `b` and `g` scale by 10^3, 10^6, 10^9, 10^9. */
  function Multiplier(unit: char): nat
    requires IsUnit(unit)
  {
    if unit == 'k' then 1_000
    else if unit == 'm' then 1_000_000
    else 1_000_000_000
  }

  function Pow10(n: nat): (p: nat)
    ensures p >= 1
  {
    if n == 0 then 1 else 10 * Pow10(n - 1)
  }

  /** The exact value of a literal: `whole.fraction` times the unit. */
  function Value(lit: SizeLiteral): real
    requires WellFormed(lit)
  {
    (DigitsValue(lit.whole + lit.fraction) as real / Pow10(|lit.fraction|) as real)
      * Multiplier(lit.unit) as real
  }

  /** `parse_param`: the size a parameter string denotes, or `None` when it
      does not start with a number and a unit. */
  function ParseParam(param: string): Option<real>
  {
    match ScanSize(Lower(param))
    case None => None
    case Some(lit) => Some(Value(lit))
  }

  /** A parameter that starts with a size literal parses to that literal's
      value, whatever follows it. */
  lemma ParseParamReadsLiteral(lit: SizeLiteral, rest: string)
    requires WellFormed(lit)
    ensures ParseParam(Spell(lit) + rest) == Some(Value(lit))
  {
    var s := Spell(lit) + rest;
    LowerAppend(Spell(lit), rest);
    SpellIsLowerCase(lit);
    ScanSizeComplete(lit, Lower(s));
  }

  /** A parameter that parses starts (ignoring letter case) with a
      well-formed literal carrying the parsed value. */
  lemma ParseParamSound(param: string)
    requires ParseParam(param).Some?
    ensures ScanSize(Lower(param)).Some?
    ensures WellFormed(ScanSize(Lower(param)).value)
    ensures Spell(ScanSize(Lower(param)).value) <= Lower(param)
    ensures ParseParam(param).value == Value(ScanSize(Lower(param)).value)
  {
  }

  /** A parameter that does not start with a digit never parses, which is
      how `latest` and the catalogue's `e2b` style sizes fall out of every
      size filter. */
  lemma NoLeadingDigitNoSize(param: string)
    requires param == [] || !IsDigit(param[0])
    ensures ParseParam(param) == None
  {
    if param != [] {
      assert Lower(param)[0] == LowerChar(param[0]);
    }
  }

  lemma ParsesTo(s: string, lit: SizeLiteral, v: real)
    requires WellFormed(lit) && Spell(lit) == s && Value(lit) == v
    ensures ParseParam(s) == Some(v)
  {
    ParseParamReadsLiteral(lit, "");
    assert Spell(lit) + "" == s;
  }

  /** `10.5m`, one of the sizes named in the comment on `parse_param`. */
  lemma ParseParamDecimalExample()
    ensures ParseParam("10.5m") == Some(10_500_000.0)
  {
    var lit := SizeLiteral("10", "5", 'm');
    assert Value(lit) == 10_500_000.0 by {
      assert lit.whole + lit.fraction == "105";
      assert DigitsValue("105") == 105 by {
        assert "105"[..2] == "10" && "10"[..1] == "1" && "1"[..0] == "";
      }
      assert Pow10(1) == 10;
    }
    ParsesTo("10.5m", lit, 10_500_000.0);
  }

  /** The unit letter is read without regard to case. */
  lemma ParseParamUpperCaseExample()
    ensures ParseParam("1.5B") == Some(1_500_000_000.0)
  {
    var lit := SizeLiteral("1", "5", 'b');
    assert Value(lit) == 1_500_000_000.0 by {
      assert lit.whole + lit.fraction == "15";
      assert DigitsValue("15") == 15 by {
        assert "15"[..1] == "1" && "1"[..0] == "";
      }
      assert Pow10(1) == 10;
    }
    ParsesTo("1.5b", lit, 1_500_000_000.0);
    assert Lower("1.5B") == Lower("1.5b");
  }

  /** A mixture-of-experts size such as `8x7b` does not parse: the unit
      must follow the number directly. */
  lemma ParseParamMixtureExample()
    ensures ParseParam("8x7b") == None
  {
    assert Lower("8x7b") == "8x7b";
    assert "8x7b"[..1] == "8";
    LeadingDigitsUnique("8x7b", 1);
  }

  /* ------------------------------------------------------------ filtering */

  /** The comparison operators a size filter can carry; `=` and `==` both
      mean equality. */
  datatype CompareOp = Lt | Le | Gt | Ge | Eq

  predicate Holds(op: CompareOp, a: real, b: real)
  {
    match op
    case Lt => a < b
    case Le => a <= b
    case Gt => a > b
    case Ge => a >= b
    case Eq => a == b
  }

  /** The operator a filter's leading text names: `<`, `<=`, `>`, `>=`, and
      `=` or `==` for equality. */
  function OperatorOf(text: string): Option<CompareOp>
  {
    if |text| == 1 then
      if text[0] == '<' then Some(Lt)
      else if text[0] == '>' then Some(Gt)
      else if text[0] == '=' then Some(Eq)
      else None
    else if |text| == 2 && text[1] == '=' then
      if text[0] == '<' then Some(Le)
      else if text[0] == '>' then Some(Ge)
      else if text[0] == '=' then Some(Eq)
      else None
    else None
  }

  /** A parsed size filter: the operator and the threshold text after it. */
  datatype SizeFilter = SizeFilter(op: CompareOp, threshold: string)

  predicate IsOperatorChar(c: char)
  {
    c == '<' || c == '>' || c == '='
  }

  /** `re.match(r'[<>=]=?\d+(\.\d+)?[kmgb]', keyword.lower())`. */
  predicate SizeFilterSyntax(keyword: string)
  {
    var low := Lower(keyword);
    && |low| >= 1
    && IsOperatorChar(low[0])
    && ScanSize(low[if |low| >= 2 && low[1] == '=' then 2 else 1..]).Some?
  }

  /** Length of the operator `[<>=]=?` at the start of a lower-cased keyword. */
  function OperatorLength(low: string): nat
  {
    if |low| >= 2 && low[1] == '=' then 2 else 1
  }

  /** The filter syntax puts a digit right after the operator. */
  lemma DigitAfterOperator(low: string)
    requires |low| >= 1
    requires ScanSize(low[OperatorLength(low)..]).Some?
    ensures OperatorLength(low) < |low| && IsDigit(low[OperatorLength(low)])
  {
    var n := OperatorLength(low);
    var lit := ScanSize(low[n..]).value;
    assert Spell(lit)[0] == lit.whole[0];
    assert low[n..][0] == Spell(lit)[0];
  }

  /** With a digit after the operator, the `in "=<>"` test on the typed
      keyword's second character can only see `=`, and the operator text is
      one of the six comparisons. */
  lemma OperatorText(keyword: string, low: string)
    requires low == Lower(keyword) && |low| >= 1 && IsOperatorChar(low[0])
    requires OperatorLength(low) < |low| && IsDigit(low[OperatorLength(low)])
    ensures IsOperatorChar(keyword[1]) <==> OperatorLength(low) == 2
    ensures OperatorOf(keyword[..OperatorLength(low)]).Some?
  {
    var n := OperatorLength(low);
    assert low[1] == LowerChar(keyword[1]);
    assert low[0] == LowerChar(keyword[0]);
    var text := keyword[..n];
    assert |text| == n && text[0] == keyword[0];
    assert n == 2 ==> text[1] == keyword[1] == '=';
  }

  lemma ThresholdParses(keyword: string, n: nat)
    requires n <= |keyword| && ScanSize(Lower(keyword)[n..]).Some?
    ensures ParseParam(keyword[n..]).Some?
  {
    LowerSuffix(keyword, n);
  }

  /** What the filter syntax guarantees about the keyword as typed: the
      operator text is one of the six comparisons, and the threshold after
      it parses. */
  lemma SizeFilterShape(keyword: string)
    requires SizeFilterSyntax(keyword)
    ensures |keyword| > OperatorLength(Lower(keyword))
    ensures IsOperatorChar(keyword[1]) <==> OperatorLength(Lower(keyword)) == 2
    ensures OperatorOf(keyword[..OperatorLength(Lower(keyword))]).Some?
    ensures ParseParam(keyword[OperatorLength(Lower(keyword))..]).Some?
  {
    var low := Lower(keyword);
    DigitAfterOperator(low);
    OperatorText(keyword, low);
    ThresholdParses(keyword, OperatorLength(low));
  }

  /** The keyword's operator and threshold: the operator is one character,
      or two when the second is one of `=<>`, and the threshold is the rest
      of the keyword in its original letter case. */
  function ParseSizeFilter(keyword: string): (r: Option<SizeFilter>)
    ensures r.Some? <==> SizeFilterSyntax(keyword)
    ensures r.Some? ==> |r.value.threshold| < |keyword|
    ensures r.Some? ==> r.value.threshold == keyword[|keyword| - |r.value.threshold|..]
    ensures r.Some? ==> ParseParam(r.value.threshold).Some?
    ensures r.Some? ==>
      var n := OperatorLength(Lower(keyword));
      && n < |keyword|
      && OperatorOf(keyword[..n]) == Some(r.value.op)
      && r.value.threshold == keyword[n..]
  {
    if !SizeFilterSyntax(keyword) then None
    else
      SizeFilterShape(keyword);
      var opLength := if IsOperatorChar(keyword[1]) then 2 else 1;
      match OperatorOf(keyword[..opLength])
      case Some(op) => Some(SizeFilter(op, keyword[opLength..]))
      case None => None
  }

  /** `matches_filter`: the parameter's size and the threshold both parse
      and the operator holds between them. */
  predicate MatchesSize(filter: SizeFilter, param: string)
  {
    match (ParseParam(param), ParseParam(filter.threshold))
    case (Some(size), Some(limit)) => Holds(filter.op, size, limit)
    case _ => false
  }

  /** The canonical spelling of each operator. */
  function OperatorSpelling(op: CompareOp): (text: string)
    ensures OperatorOf(text) == Some(op)
  {
    match op
    case Lt => "<"
    case Le => "<="
    case Gt => ">"
    case Ge => ">="
    case Eq => "="
  }

  lemma SpellIsLowerCase(lit: SizeLiteral)
    requires WellFormed(lit)
    ensures Lower(Spell(lit)) == Spell(lit)
  {
    var dotted := if lit.fraction == [] then [] else ['.'] + lit.fraction;
    LowerIdentity(lit.whole);
    LowerIdentity(dotted);
    LowerIdentity([lit.unit]);
    LowerAppend(lit.whole, dotted);
    LowerAppend(lit.whole + dotted, [lit.unit]);
  }

  /** The six operator spellings the filter syntax admits, and what each
      one compares; `=` and `==` both test equality. */
  lemma OperatorTable(text: string)
    ensures OperatorOf(text).Some? <==> text in ["<", "<=", ">", ">=", "=", "=="]
    ensures OperatorOf("<") == Some(Lt) && OperatorOf("<=") == Some(Le)
    ensures OperatorOf(">") == Some(Gt) && OperatorOf(">=") == Some(Ge)
    ensures OperatorOf("=") == Some(Eq) && OperatorOf("==") == Some(Eq)
  {
    if OperatorOf(text).Some? {
      if |text| == 1 {
        assert text == [text[0]];
      } else {
        assert text == [text[0], text[1]];
      }
    }
  }

  /** Lower-casing a keyword built from an operator spelling and a typed
      size literal lower-cases only the literal and what follows it. */
  lemma LowerFilterKeyword(text: string, typed: string, lit: SizeLiteral, rest: string)
    requires OperatorOf(text).Some? && Lower(typed) == Spell(lit)
    ensures Lower(text + typed + rest) == text + (Spell(lit) + Lower(rest))
  {
    assert Lower(text) == text by {
      OperatorTable(text);
      LowerIdentity(text);
    }
    assert text + typed + rest == text + (typed + rest);
    LowerAppend(text, typed + rest);
    LowerAppend(typed, rest);
  }

  /** Such a keyword has the filter syntax, with an operator as long as
      the spelling. */
  lemma FilterKeywordSyntax(text: string, typed: string, lit: SizeLiteral, rest: string)
    requires OperatorOf(text).Some?
    requires WellFormed(lit) && Lower(typed) == Spell(lit)
    ensures SizeFilterSyntax(text + typed + rest)
    ensures OperatorLength(Lower(text + typed + rest)) == |text|
  {
    var tail := Spell(lit) + Lower(rest);
    var low := text + tail;
    assert Lower(text + typed + rest) == low by {
      LowerFilterKeyword(text, typed, lit, rest);
    }
    assert IsDigit(tail[0]) by {
      assert tail[0] == Spell(lit)[0] == lit.whole[0];
    }
    assert OperatorLength(low) == |text| by {
      if |text| == 1 {
        assert low[1] == tail[0];
      } else {
        assert low[1] == text[1];
      }
    }
    assert low[|text|..] == tail;
    ScanSizeComplete(lit, tail);
  }

  /** Any operator spelling before a size literal, its unit letter typed in
      either case, gives a keyword that parses back to that operator, with
      the literal as typed and whatever follows it as the threshold. */
  lemma SizeFilterReadsOperator(text: string, op: CompareOp, typed: string, lit: SizeLiteral, rest: string)
    requires OperatorOf(text) == Some(op)
    requires WellFormed(lit) && Lower(typed) == Spell(lit)
    ensures ParseSizeFilter(text + typed + rest) == Some(SizeFilter(op, typed + rest))
  {
    FilterKeywordSyntax(text, typed, lit, rest);
    ConcatAssociative(text, typed, rest);
    ConcatSlices(text, typed + rest);
  }

  /** Writing an operator before a size literal gives a keyword that parses
      back to that operator, with the literal and whatever follows it as the
      threshold. */
  lemma SizeFilterRoundTrip(op: CompareOp, lit: SizeLiteral, rest: string)
    requires WellFormed(lit)
    ensures ParseSizeFilter(OperatorSpelling(op) + Spell(lit) + rest) == Some(SizeFilter(op, Spell(lit) + rest))
  {
    SpellIsLowerCase(lit);
    SizeFilterReadsOperator(OperatorSpelling(op), op, Spell(lit), lit, rest);
  }

  /** `==8b` compares for equality. */
  lemma DoubleEqualsExample()
    ensures ParseSizeFilter("==8b") == Some(SizeFilter(Eq, "8b"))
  {
    var eight := SizeLiteral("8", [], 'b');
    assert Spell(eight) == "8b";
    assert Lower("8b") == "8b";
    assert OperatorOf("==") == Some(Eq);
    SizeFilterReadsOperator("==", Eq, "8b", eight, []);
    assert "==" + "8b" + [] == "==8b";
  }

  /** `>=8B` reads the upper-case unit through `lower()` and compares with
      `>=`, keeping the threshold as typed. */
  lemma UpperCaseUnitExample()
    ensures ParseSizeFilter(">=8B") == Some(SizeFilter(Ge, "8B"))
  {
    var eight := SizeLiteral("8", [], 'b');
    assert Spell(eight) == "8b";
    assert Lower("8B") == "8b";
    assert OperatorOf(">=") == Some(Ge);
    SizeFilterReadsOperator(">=", Ge, "8B", eight, []);
    assert ">=" + "8B" + [] == ">=8B";
  }

  /** A keyword that does not start with an operator is a text filter. */
  lemma TextKeywordIsNotSizeFilter(keyword: string)
    requires keyword == [] || !IsOperatorChar(keyword[0])
    ensures ParseSizeFilter(keyword) == None
  {
    assert !SizeFilterSyntax(keyword) by {
      if keyword != [] {
        assert Lower(keyword)[0] == LowerChar(keyword[0]);
      }
    }
  }
}
