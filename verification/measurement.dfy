/** The measurement parser of the Vaisala driver: the search for one
    `LABEL=VALUE` token in a response line, Python's `float()` on the matched
    literal (as an exact decimal), and the assembly of the three readings. */
module Measurement {
  import opened Outcomes

  /** A buffer read from the instrument; one character per byte. */
  type Bytes = string

  /** The two capture groups of the measurement pattern: group 1, `-?[0-9.]+`,
      and group 2, `e-?[0-9]+`, which is empty when it took no part in the
      match. */
  datatype Groups = Groups(number: Bytes, exponent: Bytes)

  /** The exact value coefficient * 10^exponent of a numeric literal. */
  datatype Decimal = Decimal(coefficient: int, exponent: int)

  /** Pressure (hPa), temperature (Celsius) and relative humidity (%); each
      is None when the response did not report it. */
  datatype Reading = Reading(pressure: Option<Decimal>, temperature: Option<Decimal>, humidity: Option<Decimal>)

  const PressureLabel: Bytes := "P"
  const TemperatureLabel: Bytes := "T"
  const HumidityLabel: Bytes := "RH"

  // Character classes of the pattern.
  predicate IsBlank(c: char) { c == ' ' || c == '\t' }
  predicate IsDigit(c: char) { '0' <= c <= '9' }
  predicate IsNumberChar(c: char) { IsDigit(c) || c == '.' }

  /** A character class named by a scanning step. */
  datatype CharClass = Blanks | Digits | NumberChars

  predicate In(p: CharClass, c: char) {
    match p
    case Blanks => IsBlank(c)
    case Digits => IsDigit(c)
    case NumberChars => IsNumberChar(c)
  }

  predicate All(s: Bytes, p: CharClass) {
    forall k :: 0 <= k < |s| ==> In(p, s[k])
  }

  /** The end of the longest run of characters satisfying p that starts at
      i: a greedy `[...]*`. */
  function Span(s: Bytes, i: nat, p: CharClass): (k: nat)
    requires i <= |s|
    ensures i <= k <= |s|
    decreases |s| - i
  {
    if i < |s| && In(p, s[i]) then Span(s, i + 1, p) else i
  }

  /** The run Span finds is all p and is not followed by p. */
  lemma {:induction false} SpanIsGreedy(s: Bytes, i: nat, p: CharClass)
    requires i <= |s|
    ensures forall m :: i <= m < Span(s, i, p) ==> In(p, s[m])
    ensures Span(s, i, p) == |s| || !In(p, s[Span(s, i, p)])
    decreases |s| - i
  {
    if i < |s| && In(p, s[i]) {
      SpanIsGreedy(s, i + 1, p);
    }
  }

  /** A run that ends where p first fails is the one Span finds. */
  lemma {:induction false} SpanStops(s: Bytes, i: nat, k: nat, p: CharClass)
    requires i <= k <= |s|
    requires forall m :: i <= m < k ==> In(p, s[m])
    requires k == |s| || !In(p, s[k])
    ensures Span(s, i, p) == k
    decreases k - i
  {
    if i < k {
      SpanStops(s, i + 1, k, p);
    }
  }

  /** The optional group 2 at position c: `e`, an optional `-`, and at least
      one digit, taken greedily; empty when that does not follow. */
  function ExponentAt(text: Bytes, c: nat): (x: Bytes)
    requires c <= |text|
    ensures c + |x| <= |text| && text[c..c + |x|] == x
  {
    if c < |text| && text[c] == 'e' then
      var d := if c + 1 < |text| && text[c + 1] == '-' then c + 2 else c + 1;
      var f := Span(text, d, Digits);
      if f == d then [] else text[c..f]
    else []
  }

  /** Past the optional `-` of group 1, which starts at a. */
  function SignEnd(text: Bytes, a: nat): (b: nat)
    requires a <= |text|
    ensures a <= b <= |text|
  {
    if a < |text| && text[a] == '-' then a + 1 else a
  }

  /** LABEL and `=` stand at position j. */
  predicate UnitAt(unit: Bytes, text: Bytes, j: nat) {
    j + |unit| < |text| && text[j..j + |unit|] == unit && text[j + |unit|] == '='
  }

  /** The groups of the pattern when group 1 may start at position a, just
      past the blanks that follow `=`. */
  function GroupsAt(text: Bytes, a: nat): Option<Groups>
    requires a <= |text|
  {
    var b := SignEnd(text, a);
    var c := Span(text, b, NumberChars);
    if c == b then None else Some(Groups(text[a..c], ExponentAt(text, c)))
  }

  /** The groups of the pattern `[ \t]*LABEL=[ \t]*(-?[0-9.]+)(e-?[0-9]+)?`
      when its LABEL stands at position j. The leading `[ \t]*` only moves
      where the match starts, never what the groups hold, so a search by
      label position finds the same groups as the regular-expression search,
      for a label that does not itself start with a blank or a tab (P, T and
      RH do not). */
  function MatchAt(unit: Bytes, text: Bytes, j: nat): (r: Option<Groups>)
    requires j <= |text|
    ensures r.Some? ==> UnitAt(unit, text, j)
  {
    if UnitAt(unit, text, j) then GroupsAt(text, Span(text, j + |unit| + 1, Blanks)) else None
  }

  /** The first label position, from j on, at which the pattern matches. */
  function Find(unit: Bytes, text: Bytes, j: nat): (r: Option<nat>)
    requires j <= |text|
    ensures r.Some? ==> j <= r.value <= |text| && MatchAt(unit, text, r.value).Some?
    ensures forall i :: j <= i <= |text| && (r.None? || i < r.value) ==> MatchAt(unit, text, i).None?
    decreases |text| - j
  {
    if MatchAt(unit, text, j).Some? then Some(j)
    else if j == |text| then None
    else Find(unit, text, j + 1)
  }

  /** `re.search`: the groups of the leftmost match, or None. */
  function Search(unit: Bytes, text: Bytes): (r: Option<Groups>)
    ensures r.None? <==> forall i :: 0 <= i <= |text| ==> MatchAt(unit, text, i).None?
    ensures r.Some? ==> exists i :: 0 <= i <= |text| && MatchAt(unit, text, i) == r &&
                                     forall i' :: 0 <= i' < i ==> MatchAt(unit, text, i').None?
  {
    match Find(unit, text, 0)
    case None => None
    case Some(i) => MatchAt(unit, text, i)
  }

  // ---------------------------------------------------------------------
  // The pattern, stated declaratively.

  /** The length of the optional `-` that starts group 1. */
  function SignLength(m: Bytes): nat {
    if |m| > 0 && m[0] == '-' then 1 else 0
  }

  /** `-?[0-9.]+` */
  predicate NumberToken(m: Bytes) {
    SignLength(m) < |m| && forall k :: SignLength(m) <= k < |m| ==> IsNumberChar(m[k])
  }

  /** Where the digits of a nonempty group 2 start: after `e` and the
      optional `-`. */
  function DigitsStart(x: Bytes): nat
    requires |x| >= 2
  {
    if x[1] == '-' then 2 else 1
  }

  /** `(e-?[0-9]+)?` */
  predicate ExponentToken(x: Bytes) {
    x == [] ||
    (|x| >= 2 && x[0] == 'e' && DigitsStart(x) < |x| && forall k :: DigitsStart(x) <= k < |x| ==> IsDigit(x[k]))
  }

  /** `e-?[0-9]` begins s. */
  predicate StartsExponent(s: Bytes) {
    |s| >= 2 && s[0] == 'e' && (IsDigit(s[1]) || (|s| >= 3 && s[1] == '-' && IsDigit(s[2])))
  }

  /** The greedy groups could not have taken more of post: a token with no
      group 2 is followed by neither a number character nor an exponent, one
      with group 2 by no further digit. */
  predicate StopsBefore(x: Bytes, post: Bytes) {
    if x == [] then (post == [] || !IsNumberChar(post[0])) && !StartsExponent(post)
    else post == [] || !IsDigit(post[0])
  }

  /** The groups g are spelled out in full from position a on, and the
      greedy pattern takes them and no more. */
  predicate GroupsTokenAt(text: Bytes, a: nat, g: Groups) {
    var c := a + |g.number|;
    var end := c + |g.exponent|;
    && end <= |text|
    && text[a..c] == g.number && text[c..end] == g.exponent
    && NumberToken(g.number) && ExponentToken(g.exponent)
    && StopsBefore(g.exponent, text[end..])
  }

  /** Position j holds LABEL and `=`, blanks run up to position a, and the
      groups g follow. */
  predicate TokenAt(unit: Bytes, text: Bytes, j: nat, a: nat, g: Groups) {
    && UnitAt(unit, text, j)
    && j + |unit| < a <= |text|
    && (forall m :: j + |unit| < m < a ==> IsBlank(text[m]))
    && GroupsTokenAt(text, a, g)
  }

  /** What the scanner finds is a token of the pattern. */
  lemma MatchAtSound(unit: Bytes, text: Bytes, j: nat)
    requires j <= |text| && MatchAt(unit, text, j).Some?
    ensures exists a :: TokenAt(unit, text, j, a, MatchAt(unit, text, j).value)
  {
    var a := Span(text, j + |unit| + 1, Blanks);
    BlanksUpTo(text, j + |unit| + 1);
    assert MatchAt(unit, text, j) == GroupsAt(text, a);
    var g := MatchAt(unit, text, j).value;
    GroupsAtSound(text, a);
    assert TokenAt(unit, text, j, a, g);
  }

  lemma BlanksUpTo(text: Bytes, i: nat)
    requires i <= |text|
    ensures forall m :: i - 1 < m < Span(text, i, Blanks) ==> IsBlank(text[m])
  {
    SpanIsGreedy(text, i, Blanks);
    forall m | i - 1 < m < Span(text, i, Blanks) ensures IsBlank(text[m]) {
      assert In(Blanks, text[m]);
    }
  }

  /** Every token of the pattern is what the scanner finds at its label. */
  lemma MatchAtComplete(unit: Bytes, text: Bytes, j: nat, a: nat, g: Groups)
    requires TokenAt(unit, text, j, a, g)
    ensures MatchAt(unit, text, j) == Some(g)
  {
    TokenStartsAt(text, a, g);
    SpanStops(text, j + |unit| + 1, a, Blanks);
    GroupsAtComplete(text, a, g);
    assert MatchAt(unit, text, j) == GroupsAt(text, a);
  }

  /** Group 1 does not start with a blank. */
  lemma TokenStartsAt(text: Bytes, a: nat, g: Groups)
    requires GroupsTokenAt(text, a, g)
    ensures a < |text| && !IsBlank(text[a])
  {
    assert |g.number| > 0 && (g.number[0] == '-' || IsNumberChar(g.number[0]));
    assert text[a] == text[a..a + |g.number|][0] == g.number[0];
  }

  /** Group 1 is followed by no further number character. */
  lemma NumberStopsAt(text: Bytes, a: nat, g: Groups)
    requires GroupsTokenAt(text, a, g)
    ensures var c := a + |g.number|;
            c == |text| || !IsNumberChar(text[c])
  {
    var c := a + |g.number|;
    var end := c + |g.exponent|;
    if g.exponent != [] {
      assert text[c] == text[c..end][0] == 'e';
    } else if c < |text| {
      assert text[c] == text[end..][0];
    }
  }

  lemma GroupsAtSound(text: Bytes, a: nat)
    requires a <= |text| && GroupsAt(text, a).Some?
    ensures GroupsTokenAt(text, a, GroupsAt(text, a).value)
  {
    var c := Span(text, SignEnd(text, a), NumberChars);
    SpanIsGreedy(text, SignEnd(text, a), NumberChars);
    NumberSpanSound(text, a);
    ExponentSound(text, c);
  }

  lemma GroupsAtComplete(text: Bytes, a: nat, g: Groups)
    requires GroupsTokenAt(text, a, g)
    ensures GroupsAt(text, a) == Some(g)
  {
    var c := a + |g.number|;
    NumberStopsAt(text, a, g);
    NumberSpanComplete(text, a, g.number);
    ExponentComplete(text, c, g.exponent);
    GroupsAtEnds(text, a, c);
  }

  /** Where group 1 ends, the groups are fixed. */
  lemma GroupsAtEnds(text: Bytes, a: nat, c: nat)
    requires a <= c <= |text| && Span(text, SignEnd(text, a), NumberChars) == c != SignEnd(text, a)
    ensures GroupsAt(text, a) == Some(Groups(text[a..c], ExponentAt(text, c)))
  {
  }

  /** Group 1 as the scanner takes it has the shape `-?[0-9.]+`. */
  lemma NumberSpanSound(text: Bytes, a: nat)
    requires a <= |text|
    ensures var b := SignEnd(text, a);
            var c := Span(text, b, NumberChars);
            c != b ==> NumberToken(text[a..c])
  {
    var b := SignEnd(text, a);
    var c := Span(text, b, NumberChars);
    SpanIsGreedy(text, b, NumberChars);
    if c != b {
      var m := text[a..c];
      assert m[0] == text[a];
      assert SignLength(m) == b - a;
      forall k | b - a <= k < |m| ensures IsNumberChar(m[k]) {
        assert m[k] == text[a + k];
      }
    }
  }

  /** Group 1 spelled out in the text is taken whole by the scanner. */
  lemma NumberSpanComplete(text: Bytes, a: nat, m: Bytes)
    requires a + |m| <= |text| && text[a..a + |m|] == m && NumberToken(m)
    requires a + |m| == |text| || !IsNumberChar(text[a + |m|])
    ensures Span(text, SignEnd(text, a), NumberChars) == a + |m| != SignEnd(text, a)
  {
    var c := a + |m|;
    var b := SignEnd(text, a);
    assert text[a..c][0] == text[a];
    assert b - a == SignLength(m);
    NumberCharsInText(text, a, m, b - a);
    SpanStops(text, b, c, NumberChars);
  }

  /** Number characters of m from lo on, read where m is spelled in text. */
  lemma NumberCharsInText(text: Bytes, a: nat, m: Bytes, lo: nat)
    requires a + |m| <= |text| && text[a..a + |m|] == m && lo <= |m|
    requires forall k :: lo <= k < |m| ==> IsNumberChar(m[k])
    ensures forall k :: a + lo <= k < a + |m| ==> In(NumberChars, text[k])
  {
    forall k | a + lo <= k < a + |m| ensures In(NumberChars, text[k]) {
      assert text[k] == m[k - a];
    }
  }

  /** Group 2 as the scanner takes it has the shape `(e-?[0-9]+)?`, and the
      text after it could not have extended the match. */
  lemma ExponentSound(text: Bytes, c: nat)
    requires c <= |text| && (c == |text| || !IsNumberChar(text[c]))
    ensures var x := ExponentAt(text, c);
            ExponentToken(x) && StopsBefore(x, text[c + |x|..])
  {
    var x := ExponentAt(text, c);
    if c < |text| && text[c] == 'e' {
      var d := if c + 1 < |text| && text[c + 1] == '-' then c + 2 else c + 1;
      var f := Span(text, d, Digits);
      SpanIsGreedy(text, d, Digits);
      if f != d {
        assert x == text[c..f];
        assert x[0] == text[c] && x[1] == text[c + 1];
        assert DigitsStart(x) == d - c;
        forall k | d - c <= k < |x| ensures IsDigit(x[k]) {
          assert x[k] == text[c + k];
        }
        if f < |text| {
          assert text[f..][0] == text[f];
        }
      } else {
        var post := text[c..];
        assert post[0] == 'e';
        if |post| >= 2 {
          assert post[1] == text[c + 1];
        }
        if |post| >= 3 {
          assert post[2] == text[c + 2];
        }
      }
    } else if c < |text| {
      assert text[c..][0] == text[c];
    }
  }

  /** Group 2 spelled out in the text, and followed by no further digit, is
      what the scanner takes. */
  lemma ExponentComplete(text: Bytes, c: nat, x: Bytes)
    requires c + |x| <= |text| && text[c..c + |x|] == x
    requires ExponentToken(x) && StopsBefore(x, text[c + |x|..])
    ensures ExponentAt(text, c) == x
  {
    var post := text[c + |x|..];
    var d := if c + 1 < |text| && text[c + 1] == '-' then c + 2 else c + 1;
    if x == [] {
      if c < |text| && text[c] == 'e' {
        assert post[0] == 'e';
        if c + 1 < |text| {
          assert post[1] == text[c + 1];
        }
        if c + 2 < |text| {
          assert post[2] == text[c + 2];
        }
        SpanStops(text, d, d, Digits);
      }
    } else {
      var end := c + |x|;
      assert text[c] == x[0] && text[c + 1] == x[1];
      assert d == c + DigitsStart(x);
      forall k | d <= k < end ensures IsDigit(text[k]) {
        assert text[k] == x[k - c];
      }
      if end < |text| {
        assert text[end] == post[0];
      }
      SpanStops(text, d, end, Digits);
    }
  }

  /** Extraction from a line built around one token: the groups come back as
      they were spelled, provided no earlier position matches. */
  lemma ExtractsEmbeddedToken(unit: Bytes, pre: Bytes, ws: Bytes, g: Groups, post: Bytes)
    requires All(ws, Blanks) && NumberToken(g.number) && ExponentToken(g.exponent)
    requires StopsBefore(g.exponent, post)
    requires forall i :: 0 <= i < |pre| ==>
               MatchAt(unit, pre + unit + "=" + ws + g.number + g.exponent + post, i).None?
    ensures Search(unit, pre + unit + "=" + ws + g.number + g.exponent + post) == Some(g)
  {
    var text := pre + unit + "=" + ws + g.number + g.exponent + post;
    var j := |pre|;
    var eq := j + |unit|;
    var a := eq + 1 + |ws|;
    var c := a + |g.number|;
    var end := c + |g.exponent|;
    assert text[j..eq] == unit;
    assert text[eq] == '=';
    forall m | eq < m < a ensures IsBlank(text[m]) {
      assert text[m] == ws[m - eq - 1];
    }
    assert text[a..c] == g.number;
    assert text[c..end] == g.exponent;
    assert text[end..] == post;
    MatchAtComplete(unit, text, j, a, g);
    SearchFindsFirstMatch(unit, text, j);
  }

  /** The search returns the match at the first position that has one. */
  lemma SearchFindsFirstMatch(unit: Bytes, text: Bytes, j: nat)
    requires j <= |text| && MatchAt(unit, text, j).Some?
    requires forall i :: 0 <= i < j ==> MatchAt(unit, text, i).None?
    ensures Search(unit, text) == MatchAt(unit, text, j)
  {
    var i :| 0 <= i <= |text| && MatchAt(unit, text, i) == Search(unit, text) &&
             forall i' :: 0 <= i' < i ==> MatchAt(unit, text, i').None?;
    assert i <= j;
  }

  /** A unit whose first character does not occur in pre cannot match there. */
  lemma NoMatchWithin(unit: Bytes, pre: Bytes, rest: Bytes)
    requires unit != [] && unit[0] !in pre
    ensures forall i :: 0 <= i < |pre| ==> MatchAt(unit, pre + rest, i).None?
  {
    forall i | 0 <= i < |pre| ensures MatchAt(unit, pre + rest, i).None? {
      var text := pre + rest;
      assert text[i] == pre[i] != unit[0];
    }
  }

  /** A response that never mentions the unit's first character has no
      match for it. */
  lemma NoLabelNoMatch(unit: Bytes, text: Bytes)
    requires unit != [] && unit[0] !in text
    ensures Search(unit, text) == None
  {
    NoMatchWithin(unit, text, []);
    assert text + [] == text;
  }

  // ---------------------------------------------------------------------
  // Python's float() on the matched literal.

  function DigitValue(c: char): nat {
    if IsDigit(c) then c as int - '0' as int else 0
  }

  /** The value of a string of decimal digits. */
  function DigitsValue(ds: Bytes): nat {
    if ds == [] then 0 else DigitsValue(ds[..|ds| - 1]) * 10 + DigitValue(ds[|ds| - 1])
  }

  /** The value of a group 2 (`e-?[0-9]+`; 0 when empty). */
  function ExponentValue(x: Bytes): int {
    if |x| < 2 then 0
    else if x[1] == '-' then -(DigitsValue(x[2..]) as int)
    else DigitsValue(x[1..])
  }

  function CountDots(s: Bytes): nat {
    if s == [] then 0 else (if s[0] == '.' then 1 else 0) + CountDots(s[1..])
  }

  predicate HasDigit(s: Bytes) {
    exists k :: 0 <= k < |s| && IsDigit(s[k])
  }

  /** The `[0-9.]+` part of a literal as a decimal: the digits before and
      after its dot; None (float()'s ValueError) when it holds no digit or a
      second dot. */
  function Mantissa(body: Bytes): Option<Decimal> {
    var dot := Span(body, 0, Digits);
    var whole := body[..dot];
    var fraction := if dot < |body| then body[dot + 1..] else [];
    if (whole == [] && fraction == []) || !All(fraction, Digits) then None
    else Some(Decimal(DigitsValue(whole + fraction), -|fraction|))
  }

  /** `float(literal)` for literals of the shape `-?[0-9.]+(e-?[0-9]+)?`
      (the only shape the pattern lets through): None is the ValueError. */
  function ToDecimal(literal: Bytes): Option<Decimal> {
    var sign := SignLength(literal);
    var unsigned := literal[sign..];
    var e := Span(unsigned, 0, NumberChars);
    var suffix := unsigned[e..];
    match Mantissa(unsigned[..e])
    case None => None
    case Some(m) =>
      if !ExponentToken(suffix) then None
      else Some(Decimal(if sign == 1 then -m.coefficient else m.coefficient, m.exponent + ExponentValue(suffix)))
  }

  function Pow10(n: nat): (p: nat)
    ensures p >= 1
  {
    if n == 0 then 1 else 10 * Pow10(n - 1)
  }

  /** The real number a decimal stands for. */
  function Value(d: Decimal): real {
    if d.exponent >= 0 then (d.coefficient * Pow10(d.exponent)) as real
    else d.coefficient as real / Pow10(-d.exponent) as real
  }

  lemma {:induction false} CountDotsAppend(s: Bytes, t: Bytes)
    ensures CountDots(s + t) == CountDots(s) + CountDots(t)
  {
    if s == [] {
      assert s + t == t;
    } else {
      assert (s + t)[0] == s[0];
      assert (s + t)[1..] == s[1..] + t;
      CountDotsAppend(s[1..], t);
    }
  }

  lemma {:induction false} NoDotsAllDigits(s: Bytes)
    requires All(s, NumberChars)
    ensures CountDots(s) == 0 <==> All(s, Digits)
  {
    if s != [] {
      NoDotsAllDigits(s[1..]);
      if All(s[1..], Digits) && !IsDigit(s[0]) {
        assert s[0] == '.';
      }
      if All(s, Digits) {
        assert forall k :: 0 <= k < |s[1..]| ==> s[1..][k] == s[k + 1];
      }
      if !All(s[1..], Digits) {
        var k :| 0 <= k < |s[1..]| && !IsDigit(s[1..][k]);
        assert !IsDigit(s[k + 1]);
      }
    }
  }

  /** Digits, a dot and digits stand for the digits read as one integer,
      scaled down by the number of digits after the dot. */
  lemma MantissaOfParts(whole: Bytes, fraction: Bytes)
    requires All(whole, Digits) && All(fraction, Digits) && whole + fraction != []
    ensures Mantissa(whole + "." + fraction) == Some(Decimal(DigitsValue(whole + fraction), -|fraction|))
  {
    var body := whole + "." + fraction;
    assert body[|whole|] == '.';
    forall k | 0 <= k < |whole| ensures IsDigit(body[k]) {
      assert body[k] == whole[k];
    }
    SpanStops(body, 0, |whole|, Digits);
    assert body[..|whole|] == whole && body[|whole| + 1..] == fraction;
  }

  /** Digits alone stand for their integer value. */
  lemma MantissaOfWhole(whole: Bytes)
    requires All(whole, Digits) && whole != []
    ensures Mantissa(whole) == Some(Decimal(DigitsValue(whole), 0))
  {
    SpanStops(whole, 0, |whole|, Digits);
    assert whole[..|whole|] == whole;
    var empty: Bytes := [];
    assert whole + empty == whole;
    assert All(empty, Digits);
  }

  /** The first dot of a `[0-9.]+` part, and the dots after it. */
  lemma DotsOfBody(body: Bytes)
    requires All(body, NumberChars)
    ensures var dot := Span(body, 0, Digits);
            var fraction := if dot < |body| then body[dot + 1..] else [];
            && All(fraction, NumberChars)
            && CountDots(body) == (if dot < |body| then 1 else 0) + CountDots(fraction)
            && (HasDigit(body) <==> dot > 0 || HasDigit(fraction))
  {
    var dot := Span(body, 0, Digits);
    SpanIsGreedy(body, 0, Digits);
    var whole := body[..dot];
    var fraction := if dot < |body| then body[dot + 1..] else [];
    forall k | 0 <= k < |fraction| ensures IsNumberChar(fraction[k]) {
      assert fraction[k] == body[k + dot + 1];
    }
    assert All(whole, Digits);
    NoDotsAllDigits(whole);
    if dot < |body| {
      assert body[dot] == '.';
      assert body == whole + [body[dot]] + fraction;
      CountDotsAppend(whole + [body[dot]], fraction);
      CountDotsAppend(whole, [body[dot]]);
      assert CountDots([body[dot]]) == 1;
    } else {
      assert body == whole;
    }
    if HasDigit(body) {
      var k :| 0 <= k < |body| && IsDigit(body[k]);
      if k >= dot {
        assert k != dot && fraction[k - dot - 1] == body[k];
      }
    }
    if dot > 0 {
      assert IsDigit(body[0]);
    } else if HasDigit(fraction) {
      var k :| 0 <= k < |fraction| && IsDigit(fraction[k]);
      assert body[k + dot + 1] == fraction[k];
    }
  }

  /** float() rejects a `[0-9.]+` part exactly when it holds more than one
      dot or no digit at all. */
  lemma MantissaFailsExactly(body: Bytes)
    requires All(body, NumberChars)
    ensures Mantissa(body).None? <==> CountDots(body) > 1 || !HasDigit(body)
  {
    var dot := Span(body, 0, Digits);
    var fraction := if dot < |body| then body[dot + 1..] else [];
    DotsOfBody(body);
    NoDotsAllDigits(fraction);
    if All(fraction, Digits) && fraction != [] {
      assert IsDigit(fraction[0]);
    }
  }

  /** float() of a matched literal is the `[0-9.]+` part's value, negated
      after a `-` and scaled by group 2; it fails exactly when that part
      does. */
  lemma ConvertsByParts(g: Groups)
    requires NumberToken(g.number) && ExponentToken(g.exponent)
    ensures var body := g.number[SignLength(g.number)..];
            var r := ToDecimal(g.number + g.exponent);
            && (r.None? <==> Mantissa(body).None?)
            && (r.Some? ==> r.value == Decimal(if SignLength(g.number) == 1 then -Mantissa(body).value.coefficient
                                               else Mantissa(body).value.coefficient,
                                               Mantissa(body).value.exponent + ExponentValue(g.exponent)))
  {
    var literal := g.number + g.exponent;
    var sign := SignLength(g.number);
    assert SignLength(literal) == sign;
    var body := g.number[sign..];
    assert literal[sign..] == body + g.exponent;
    forall m | 0 <= m < |body| ensures IsNumberChar(body[m]) {
      assert body[m] == g.number[m + sign];
    }
    BodySpan(body, g.exponent);
  }

  /** The `[0-9.]+` part ends where group 2 begins. */
  lemma BodySpan(body: Bytes, x: Bytes)
    requires All(body, NumberChars) && ExponentToken(x)
    ensures Span(body + x, 0, NumberChars) == |body|
    ensures (body + x)[..|body|] == body && (body + x)[|body|..] == x
  {
    var unsigned := body + x;
    forall m | 0 <= m < |body| ensures In(NumberChars, unsigned[m]) {
      assert unsigned[m] == body[m];
    }
    if x != [] {
      assert unsigned[|body|] == 'e';
    }
    SpanStops(unsigned, 0, |body|, NumberChars);
  }

  /** float() rejects a matched literal exactly when the `[0-9.]+` part holds
      more than one dot or no digit at all (`1.2.3`, `.`); group 2 is always
      well formed. */
  lemma ConversionFailsExactly(g: Groups)
    requires NumberToken(g.number) && ExponentToken(g.exponent)
    ensures var body := g.number[SignLength(g.number)..];
            ToDecimal(g.number + g.exponent).None? <==> CountDots(body) > 1 || !HasDigit(body)
  {
    var body := g.number[SignLength(g.number)..];
    ConvertsByParts(g);
    forall k | 0 <= k < |body| ensures IsNumberChar(body[k]) {
      assert body[k] == g.number[k + SignLength(g.number)];
    }
    MantissaFailsExactly(body);
  }

  // ---------------------------------------------------------------------
  // Extraction and parsing.

  /** `_extract_measurement(unit, text)`: None when the pattern does not
      match; the ValueError of float() when the joined literal is not a
      number; the exact value otherwise. */
  function Extract(unit: Bytes, text: Bytes): Outcome<Option<Decimal>> {
    match Search(unit, text)
    case None => Returned(None)
    case Some(g) =>
      var literal := g.number + g.exponent;
      match ToDecimal(literal)
      case None => Raised(NotANumber(literal))
      case Some(d) => Returned(Some(d))
  }

  /** The value `parse_response` returns: P, T and RH extracted in that
      order; the first extraction that raises ends the parse. */
  function Parse(response: Bytes): Outcome<Reading> {
    var p :- Extract(PressureLabel, response);
    var t :- Extract(TemperatureLabel, response);
    var h :- Extract(HumidityLabel, response);
    Returned(Reading(p, t, h))
  }

  /** The driver's three fields after `parse_response`, which assigns each
      field as soon as its extraction returns: a raise leaves the fields of
      the earlier labels overwritten and the later ones as they were. */
  function AssignedBy(prev: Reading, response: Bytes): Reading {
    match Extract(PressureLabel, response)
    case Raised(_) => prev
    case Returned(p) =>
      match Extract(TemperatureLabel, response)
      case Raised(_) => prev.(pressure := p)
      case Returned(t) =>
        match Extract(HumidityLabel, response)
        case Raised(_) => prev.(pressure := p, temperature := t)
        case Returned(h) => Reading(p, t, h)
  }

  /** A parse either returns the three extractions, in which case the
      fields hold exactly its result, or raises the first extraction's error,
      in which case the later fields are untouched. */
  lemma ParseAgreesWithAssignments(prev: Reading, response: Bytes)
    ensures Parse(response).Returned? <==>
              Extract(PressureLabel, response).Returned? && Extract(TemperatureLabel, response).Returned? &&
              Extract(HumidityLabel, response).Returned?
    ensures Parse(response).Returned? ==> AssignedBy(prev, response) == Parse(response).value
    ensures Parse(response).Raised? ==> AssignedBy(prev, response).humidity == prev.humidity
    ensures Extract(PressureLabel, response).Raised? ==>
              Parse(response) == Raised(Extract(PressureLabel, response).error) &&
              AssignedBy(prev, response) == prev
  {
  }

  // ---------------------------------------------------------------------
  // Consequences for single tokens.

  /** A label followed by one token: extraction returns float() of the whole
      matched literal, or raises its ValueError when the `[0-9.]+` part has
      more than one dot or no digit. */
  lemma ExtractsToken(unit: Bytes, ws: Bytes, g: Groups, post: Bytes)
    requires All(ws, Blanks) && NumberToken(g.number) && ExponentToken(g.exponent)
    requires StopsBefore(g.exponent, post)
    ensures var text := unit + "=" + ws + g.number + g.exponent + post;
            var body := g.number[SignLength(g.number)..];
            Extract(unit, text) ==
              if CountDots(body) > 1 || !HasDigit(body) then Raised(NotANumber(g.number + g.exponent))
              else Returned(ToDecimal(g.number + g.exponent))
  {
    ExtractsEmbeddedToken(unit, [], ws, g, post);
    assert [] + unit == unit;
    ConversionFailsExactly(g);
  }

  /** `E` and `e+` do not start group 2: the number stops before them, and
      the rest of the line is not part of the converted literal. */
  lemma ExponentSpellingsNotConsumed(unit: Bytes, ws: Bytes, number: Bytes, post: Bytes)
    requires All(ws, Blanks) && NumberToken(number)
    requires |post| >= 1 && (post[0] == 'E' || (|post| >= 2 && post[0] == 'e' && post[1] == '+'))
    ensures Search(unit, unit + "=" + ws + number + post) == Some(Groups(number, []))
  {
    var g := Groups(number, []);
    assert ExponentToken(g.exponent) && StopsBefore(g.exponent, post);
    ExtractsEmbeddedToken(unit, [], ws, g, post);
    assert [] + unit == unit;
    assert unit + "=" + ws + number + [] == unit + "=" + ws + number;
  }

  // ---------------------------------------------------------------------
  // Worked conversions.

  /** `-5.0e-2` is converted with its exponent: -50 * 10^-3. */
  lemma JoinedLiteralValue()
    ensures ToDecimal("-5.0e-2") == Some(Decimal(-50, -3))
  {
    var unsigned := "-5.0e-2"[1..];
    assert unsigned == "5.0e-2";
    SpanStops(unsigned, 0, 3, NumberChars);
    assert unsigned[..3] == "5.0" && unsigned[3..] == "e-2";
    JoinedMantissa();
    JoinedExponent();
  }

  lemma JoinedMantissa()
    ensures Mantissa("5.0") == Some(Decimal(50, -1))
  {
    SpanStops("5.0", 0, 1, Digits);
    assert "5.0"[..1] == "5" && "5.0"[2..] == "0";
    assert DigitsValue("5" + "0") == 50 by {
      assert ("5" + "0")[..1] == "5" && "5"[..0] == [];
    }
  }

  lemma JoinedExponent()
    ensures ExponentToken("e-2") && ExponentValue("e-2") == -2
  {
    assert "e-2"[2..] == "2" && "2"[..0] == [];
  }

  /** ... which is -0.05. */
  lemma JoinedLiteralIsReal()
    ensures Value(Decimal(-50, -3)) == -0.05
  {
  }

  /** A label directly followed by a literal float() rejects: the label
      matches, and extraction raises the ValueError. */
  lemma RejectedLiteralRaises(unit: Bytes, m: Bytes)
    requires NumberToken(m) && SignLength(m) == 0 && (CountDots(m) > 1 || !HasDigit(m))
    ensures ToDecimal(m) == None
    ensures Extract(unit, unit + "=" + m) == Raised(NotANumber(m))
  {
    var g := Groups(m, []);
    assert g.number + g.exponent == m;
    assert ToDecimal(m) == None by {
      assert m[0..] == m;
      ConversionFailsExactly(g);
    }
    LabelThenLiteral(unit, m);
  }

  /** A label directly followed by group 1 alone matches with that group. */
  lemma LabelThenLiteral(unit: Bytes, m: Bytes)
    requires NumberToken(m)
    ensures Search(unit, unit + "=" + m) == Some(Groups(m, []))
  {
    var g := Groups(m, []);
    var empty: Bytes := [];
    assert empty + unit + "=" + empty + g.number + g.exponent + empty == unit + "=" + m;
    ExtractsEmbeddedToken(unit, empty, empty, g, empty);
  }

  /** Literals the pattern lets through but float() rejects: after any
      label (`P=1.2.3`, say) a second dot matches, and extraction raises
      float()'s ValueError. */
  lemma TwoDotsRaise(unit: Bytes)
    ensures ToDecimal("1.2.3") == None
    ensures Extract(unit, unit + "=" + "1.2.3") == Raised(NotANumber("1.2.3"))
  {
    assert NumberToken("1.2.3") && CountDots("1.2.3") == 2;
    RejectedLiteralRaises(unit, "1.2.3");
  }

  /** A lone dot matches too, and is no number either. */
  lemma LoneDotRaises(unit: Bytes)
    ensures ToDecimal(".") == None
    ensures Extract(unit, unit + "=" + ".") == Raised(NotANumber("."))
  {
    assert NumberToken(".") && !HasDigit(".");
    RejectedLiteralRaises(unit, ".");
  }
}

