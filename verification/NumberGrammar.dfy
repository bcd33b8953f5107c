/** Numbers by their parts, as section 6 of RFC 8259 has them, against the number reader of verifier/token.go. */
module NumberGrammar {
  import opened Wrappers
  import opened Text
  import opened JsonLexer
  import opened Slices

  datatype Exponent = Exponent(letter: char, sign: string, digits: string)

  datatype Parts = Parts(minus: bool, whole: string, fraction: Option<string>, exponent: Option<Exponent>)

  predicate Digits(d: string) { d != "" && forall i | 0 <= i < |d| :: '0' <= d[i] <= '9' }

  predicate ProperExponent(x: Exponent) {
    (x.letter == 'e' || x.letter == 'E') && (x.sign == "" || x.sign == "+" || x.sign == "-") && Digits(x.digits)
  }

  /** No digit stands before the whole part but a single 0; a fraction and an exponent have digits. */
  predicate Proper(n: Parts) {
    && (n.whole == "0" || (Digits(n.whole) && n.whole[0] != '0'))
    && (n.fraction.Some? ==> Digits(n.fraction.value))
    && (n.exponent.Some? ==> ProperExponent(n.exponent.value))
  }

  function Minus(n: Parts): string { if n.minus then "-" else "" }

  function Fraction(n: Parts): string { match n.fraction case None => "" case Some(d) => "." + d }

  function Written(x: Exponent): string { [x.letter] + (x.sign + x.digits) }

  function ExponentText(n: Parts): string { match n.exponent case None => "" case Some(x) => Written(x) }

  function Spelling(n: Parts): string { Minus(n) + (n.whole + (Fraction(n) + ExponentText(n))) }

  /** A number of the grammar. */
  ghost predicate Spelled(raw: string) { exists n :: Proper(n) && Spelling(n) == raw }

  /** What follows is neither more of the number's last part nor the beginning of a part it could still have. */
  predicate Stops(n: Parts, s: string, e: nat) {
    e < |s| ==>
      && (n.exponent.None? ==> s[e] != 'e' && s[e] != 'E')
      && (n.exponent.None? && n.fraction.None? ==> s[e] != '.')
      && ((n.whole == "0" && n.fraction.None? && n.exponent.None?) || !IsDigit(s[e]))
  }

  // ----- runs of digits

  lemma {:induction false} DigitsRun(s: string, i: nat, d: string)
    requires At(s, i, d) && (d == "" || Digits(d))
    ensures i <= |s| && DigitsEnd(s, i) >= i + |d|
    ensures i + |d| == |s| || !IsDigit(s[i + |d|]) ==> DigitsEnd(s, i) == i + |d|
    decreases d
  {
    if d != "" {
      AtIndex(s, i, d, 0);
      assert [d[0]] + d[1..] == d;
      AtConcat(s, i, [d[0]], d[1..]);
      DigitsRun(s, i + 1, d[1..]);
    }
  }

  lemma {:induction false} RunFound(s: string, i: nat)
    requires i <= |s|
    ensures var e := DigitsEnd(s, i); (e == |s| || !IsDigit(s[e])) && (i < e ==> Digits(s[i..e]))
    decreases |s| - i
  {
    if i < |s| && IsDigit(s[i]) {
      RunFound(s, i + 1);
      var e := DigitsEnd(s, i);
      assert forall k :: i < k < e ==> s[i + 1..e][k - i - 1] == s[k];
    }
  }

  // ----- part by part: at least as far as what is spelled, and so far where it stops

  lemma WholeRead(s: string, i: nat, w: string)
    requires At(s, i, w) && (w == "0" || (Digits(w) && w[0] != '0'))
    ensures i < |s| && s[i] != '-' && IntEnd(s, i).Some? && IntEnd(s, i).value >= i + |w|
    ensures w == "0" || i + |w| == |s| || !IsDigit(s[i + |w|]) ==> IntEnd(s, i) == Some(i + |w|)
  {
    hide DigitsEnd;
    AtIndex(s, i, w, 0);
    assert [w[0]] + w[1..] == w;
    AtConcat(s, i, [w[0]], w[1..]);
    if w != "0" { DigitsRun(s, i + 1, w[1..]); }
  }

  lemma FractionRead(s: string, i: nat, d: string)
    requires At(s, i, "." + d) && Digits(d)
    ensures i <= |s| && FracEnd(s, i).Some? && FracEnd(s, i).value >= i + 1 + |d|
    ensures i + 1 + |d| == |s| || !IsDigit(s[i + 1 + |d|]) ==> FracEnd(s, i) == Some(i + 1 + |d|)
  {
    hide DigitsEnd;
    AtConcat(s, i, ".", d);
    AtIndex(s, i, ".", 0);
    AtIndex(s, i + 1, d, 0);
    DigitsRun(s, i + 1, d);
  }

  lemma ExponentRead(s: string, i: nat, x: Exponent)
    requires At(s, i, Written(x)) && ProperExponent(x)
    ensures var e := i + |Written(x)|;
            && i < |s| && (s[i] == 'e' || s[i] == 'E') && ExpEnd(s, i).Some? && ExpEnd(s, i).value >= e
            && (e == |s| || !IsDigit(s[e]) ==> ExpEnd(s, i) == Some(e))
  {
    hide DigitsEnd, At;
    AtConcat(s, i, [x.letter], x.sign + x.digits);
    AtIndex(s, i, [x.letter], 0);
    AtConcat(s, i + 1, x.sign, x.digits);
    var k := i + 1 + |x.sign|;
    AtIndex(s, k, x.digits, 0);
    assert IsDigit(s[k]);
    DigitsRun(s, k, x.digits);
    if x.sign != "" { AtIndex(s, i + 1, x.sign, 0); }
  }

  // ----- the whole number

  lemma Spread(s: string, i: nat, n: Parts)
    requires At(s, i, Spelling(n))
    ensures var a := i + |Minus(n)|;
            var b := a + |n.whole|;
            var c := b + |Fraction(n)|;
            && At(s, i, Minus(n)) && At(s, a, n.whole) && At(s, b, Fraction(n)) && At(s, c, ExponentText(n))
            && c + |ExponentText(n)| == i + |Spelling(n)| <= |s|
  {
    hide Minus, Fraction, ExponentText;
    AtConcat(s, i, Minus(n), n.whole + (Fraction(n) + ExponentText(n)));
    AtConcat(s, i + |Minus(n)|, n.whole, Fraction(n) + ExponentText(n));
    AtConcat(s, i + |Minus(n)| + |n.whole|, Fraction(n), ExponentText(n));
  }

  /** The parts behind the whole one: a fraction, an exponent, or both. */
  lemma TailRead(s: string, b: nat, n: Parts)
    requires Proper(n) && At(s, b, Fraction(n)) && At(s, b + |Fraction(n)|, ExponentText(n))
    requires n.fraction.Some? || n.exponent.Some?
    ensures b < |s| && !IsDigit(s[b])
    ensures var e := b + |Fraction(n)| + |ExponentText(n)|;
            (TailEnd(s, b).Some? ==> TailEnd(s, b).value >= e) && (Stops(n, s, e) ==> TailEnd(s, b) == Some(e))
  {
    hide TailEnd, Digits, At, Stops;
    if n.fraction.None? {
      ExponentAlone(s, b, n.exponent.value);
    } else if n.exponent.None? {
      FractionAlone(s, b, n);
    } else {
      BothRead(s, b, n.fraction.value, n.exponent.value);
    }
    StopsBehind(n, s, b + |Fraction(n)| + |ExponentText(n)|);
    Inside(s, b + |Fraction(n)|, ExponentText(n));
  }

  lemma Inside(s: string, i: nat, w: string)
    requires At(s, i, w)
    ensures i + |w| <= |s|
  {
  }

  lemma StopsBehind(n: Parts, s: string, e: nat)
    ensures Stops(n, s, e) && e < |s| ==>
              (n.exponent.Some? || n.fraction.Some? ==> !IsDigit(s[e])) && (n.exponent.None? ==> s[e] != 'e' && s[e] != 'E')
  {
  }

  lemma ExponentAlone(s: string, b: nat, x: Exponent)
    requires ProperExponent(x) && At(s, b, Written(x))
    ensures b < |s| && !IsDigit(s[b]) && TailEnd(s, b) == ExpEnd(s, b)
    ensures TailEnd(s, b).Some? ==> TailEnd(s, b).value >= b + |Written(x)|
    ensures b + |Written(x)| == |s| || !IsDigit(s[b + |Written(x)|]) ==> TailEnd(s, b) == Some(b + |Written(x)|)
  {
    hide ExpEnd, FracEnd, Digits, At;
    NoFraction(s, b, x);
    ExponentRead(s, b, x);
  }

  lemma FractionAlone(s: string, b: nat, n: Parts)
    requires n.fraction.Some? && Digits(n.fraction.value) && At(s, b, "." + n.fraction.value)
    ensures b < |s| && !IsDigit(s[b])
    ensures var e := b + 1 + |n.fraction.value|;
            && (TailEnd(s, b).Some? ==> TailEnd(s, b).value >= e)
            && (e == |s| || (!IsDigit(s[e]) && s[e] != 'e' && s[e] != 'E') ==> TailEnd(s, b) == Some(e))
  {
    hide ExpEnd, FracEnd, Digits, At;
    var d := n.fraction.value;
    PointAt(s, b, d);
    FractionRead(s, b, d);
    ExponentAfter(s, FracEnd(s, b).value);
  }

  lemma PointAt(s: string, b: nat, d: string)
    requires At(s, b, "." + d)
    ensures b < |s| && s[b] == '.' && b + 1 + |d| <= |s|
  {
    AtIndex(s, b, "." + d, 0);
  }

  lemma BothRead(s: string, b: nat, d: string, x: Exponent)
    requires Digits(d) && ProperExponent(x) && At(s, b, "." + d) && At(s, b + 1 + |d|, Written(x))
    ensures b < |s| && !IsDigit(s[b])
    ensures var e := b + 1 + |d| + |Written(x)|;
            && (TailEnd(s, b).Some? ==> TailEnd(s, b).value >= e)
            && (e == |s| || !IsDigit(s[e]) ==> TailEnd(s, b) == Some(e))
  {
    hide ExpEnd, FracEnd, Digits, At;
    PointAt(s, b, d);
    FractionRead(s, b, d);
    ExponentRead(s, b + 1 + |d|, x);
  }

  lemma NoFraction(s: string, b: nat, x: Exponent)
    requires At(s, b, Written(x)) && (x.letter == 'e' || x.letter == 'E')
    ensures b < |s| && s[b] == x.letter && FracEnd(s, b) == Some(b)
  {
    AtConcat(s, b, [x.letter], x.sign + x.digits);
    AtIndex(s, b, [x.letter], 0);
  }

  lemma ExponentAfter(s: string, c: nat)
    requires c <= |s|
    ensures ExpEnd(s, c).Some? ==> ExpEnd(s, c).value >= c
    ensures c == |s| || (s[c] != 'e' && s[c] != 'E') ==> ExpEnd(s, c) == Some(c)
  {
    hide DigitsEnd;
  }

  lemma TailAfter(s: string, b: nat)
    requires b <= |s|
    ensures TailEnd(s, b).Some? ==> TailEnd(s, b).value >= b
    ensures b == |s| || (s[b] != 'e' && s[b] != 'E' && s[b] != '.') ==> TailEnd(s, b) == Some(b)
  {
    hide DigitsEnd;
  }

  /** Where a spelled number stands, the reader stops no earlier than behind it, and right there when it stops. */
  lemma NumberRead(s: string, i: nat, n: Parts)
    requires Proper(n) && At(s, i, Spelling(n))
    ensures var e := i + |Spelling(n)|;
            && i < |s| && (s[i] == '-' || IsDigit(s[i]))
            && (NumberEnd(s, i).Some? ==> NumberEnd(s, i).value >= e)
            && (Stops(n, s, e) ==> NumberEnd(s, i) == Some(e))
  {
    hide TailEnd, IntEnd, Digits, At, Stops, Spelling, Fraction, ExponentText, Proper, Minus;
    Spread(s, i, n);
    var a := i + |Minus(n)|;
    var b := a + |n.whole|;
    ProperWhole(n);
    WholeRead(s, a, n.whole);
    SignAt(s, i, n);
    if n.fraction.None? && n.exponent.None? {
      NothingBehind(n, s, b);
      TailAfter(s, IntEnd(s, a).value);
    } else {
      TailRead(s, b, n);
    }
  }

  lemma ProperWhole(n: Parts)
    requires Proper(n)
    ensures n.whole == "0" || (Digits(n.whole) && n.whole[0] != '0')
  {
  }

  lemma SignAt(s: string, i: nat, n: Parts)
    requires Proper(n) && At(s, i, Minus(n)) && At(s, i + |Minus(n)|, n.whole)
    ensures i < |s| && (n.minus <==> s[i] == '-') && (n.minus || IsDigit(s[i])) && |Minus(n)| == if n.minus then 1 else 0
  {
    hide Digits, At;
    if n.minus { AtIndex(s, i, "-", 0); } else { FirstDigit(s, i, n.whole); }
  }

  lemma NothingBehind(n: Parts, s: string, b: nat)
    requires n.fraction.None? && n.exponent.None?
    ensures Fraction(n) == "" && ExponentText(n) == ""
    ensures Stops(n, s, b) && b < |s| ==> s[b] != 'e' && s[b] != 'E' && s[b] != '.' && (n.whole == "0" || !IsDigit(s[b]))
  {
  }

  lemma FirstDigit(s: string, a: nat, w: string)
    requires At(s, a, w) && (w == "0" || (Digits(w) && w[0] != '0'))
    ensures a < |s| && IsDigit(s[a])
  {
    AtIndex(s, a, w, 0);
  }

  // ----- and back: what the reader stops behind is spelled

  lemma WholeFound(s: string, i: nat)
    requires i <= |s| && IntEnd(s, i).Some?
    ensures var e := IntEnd(s, i).value;
            var w := s[i..e];
            (w == "0" || (Digits(w) && w[0] != '0')) && (w == "0" || e == |s| || !IsDigit(s[e]))
  {
    if s[i] != '0' {
      RunFound(s, i + 1);
      var e := IntEnd(s, i).value;
      assert s[i..e] == [s[i]] + s[i + 1..e];
    } else {
      assert s[i..i + 1] == "0";
    }
  }

  lemma FractionFound(s: string, i: nat) returns (fraction: Option<string>)
    requires i <= |s| && FracEnd(s, i).Some?
    ensures var e := FracEnd(s, i).value;
            && (match fraction case None => e == i case Some(d) => Digits(d) && s[i..e] == "." + d && (e == |s| || !IsDigit(s[e])))
            && (fraction.None? ==> e == |s| || s[e] != '.')
  {
    if i < |s| && s[i] == '.' {
      RunFound(s, i + 1);
      fraction := Some(s[i + 1..FracEnd(s, i).value]);
    } else {
      fraction := None;
    }
  }

  lemma ExponentFound(s: string, i: nat) returns (exponent: Option<Exponent>)
    requires i <= |s| && ExpEnd(s, i).Some?
    ensures var e := ExpEnd(s, i).value;
            && (match exponent
                case None => e == i
                case Some(x) => ProperExponent(x) && s[i..e] == Written(x) && (e == |s| || !IsDigit(s[e])))
            && (exponent.None? ==> e == |s| || (s[e] != 'e' && s[e] != 'E'))
  {
    hide DigitsEnd, Digits;
    if i < |s| && (s[i] == 'e' || s[i] == 'E') {
      var k := if i + 1 < |s| && (s[i + 1] == '+' || s[i + 1] == '-') then i + 2 else i + 1;
      RunFound(s, k);
      ThreePieces(s, i, k, ExpEnd(s, i).value);
      var e := ExpEnd(s, i).value;
      SignIs(s, i, k);
      exponent := Some(Exponent(s[i], s[i + 1..k], s[k..e]));
    } else {
      exponent := None;
    }
  }

  lemma ThreePieces(s: string, i: nat, k: nat, e: nat)
    requires i < k <= e <= |s|
    ensures s[i..e] == [s[i]] + (s[i + 1..k] + s[k..e])
  {
  }

  lemma SignIs(s: string, i: nat, k: nat)
    requires i + 1 <= k <= i + 2 && k <= |s| && (k == i + 2 ==> s[i + 1] == '+' || s[i + 1] == '-')
    ensures s[i + 1..k] == "" || s[i + 1..k] == "+" || s[i + 1..k] == "-"
  {
    if k == i + 2 { assert s[i + 1..k] == [s[i + 1]]; }
  }

  lemma NumberFound(s: string, i: nat) returns (n: Parts)
    requires i < |s| && NumberEnd(s, i).Some?
    ensures var e := NumberEnd(s, i).value; Proper(n) && At(s, i, Spelling(n)) && i + |Spelling(n)| == e && Stops(n, s, e)
  {
    hide IntEnd, FracEnd, ExpEnd, Digits, At, Spelling, Proper, Stops, ProperExponent, Written;
    var a := if s[i] == '-' then i + 1 else i;
    var b := IntEnd(s, a).value;
    var c := FracEnd(s, b).value;
    var e := NumberEnd(s, i).value;
    WholeFound(s, a);
    var fraction := FractionFound(s, b);
    var exponent := ExponentFound(s, c);
    n := Parts(s[i] == '-', s[a..b], fraction, exponent);
    assert s[i..a] == Minus(n);
    Assembled(s, i, a, b, c, e, n);
    ProperlyStopped(s, e, n, c);
  }

  lemma Assembled(s: string, i: nat, a: nat, b: nat, c: nat, e: nat, n: Parts)
    requires i <= a <= b <= c <= e <= |s|
    requires s[i..a] == Minus(n) && s[a..b] == n.whole && s[b..c] == Fraction(n) && s[c..e] == ExponentText(n)
    ensures At(s, i, Spelling(n)) && i + |Spelling(n)| == e
  {
    hide Minus, Fraction, ExponentText;
    Glue(s, i, a, b, c, e);
  }

  lemma ProperlyStopped(s: string, e: nat, n: Parts, c: nat)
    requires c <= e <= |s| && (n.whole == "0" || (Digits(n.whole) && n.whole[0] != '0'))
    requires n.fraction.Some? ==> Digits(n.fraction.value)
    requires n.exponent.Some? ==> ProperExponent(n.exponent.value) && (e == |s| || !IsDigit(s[e]))
    requires n.exponent.None? ==> c == e && (e == |s| || (s[e] != 'e' && s[e] != 'E'))
    requires n.exponent.None? && n.fraction.Some? ==> e == |s| || !IsDigit(s[e])
    requires n.exponent.None? && n.fraction.None? ==> e == |s| || (s[e] != '.' && (n.whole == "0" || !IsDigit(s[e])))
    ensures Proper(n) && Stops(n, s, e)
  {
    hide Digits, ProperExponent;
  }

  lemma Glue(s: string, i: nat, a: nat, b: nat, c: nat, e: nat)
    requires i <= a <= b <= c <= e <= |s|
    ensures s[i..e] == s[i..a] + (s[a..b] + (s[b..c] + s[c..e]))
  {
  }

  // ----- main results

  /** A text is a number for the reader exactly when the grammar spells it. */
  lemma NumberExactly(raw: string)
    ensures IsNumber(raw) <==> Spelled(raw)
  {
    hide NumberEnd, Proper, Spelling, Stops;
    if IsNumber(raw) {
      var n := NumberFound(raw, 0);
      assert raw[0..|raw|] == raw;
    }
    if Spelled(raw) {
      var n :| Proper(n) && Spelling(n) == raw;
      assert raw[0..|raw|] == raw;
      NumberRead(raw, 0, n);
      NothingFollows(n, raw);
    }
  }

  lemma NothingFollows(n: Parts, raw: string)
    ensures Stops(n, raw, |raw|)
  {
  }

  /** At any place the reader stops behind a number of the grammar that goes no further there, it fails exactly where there is
      none, and no longer number stands there than the one it reads. */
  lemma LongestExactly(s: string, i: nat, e: nat, n: Parts)
    requires i < |s|
    ensures NumberEnd(s, i) == Some(e) <==> exists m :: Proper(m) && At(s, i, Spelling(m)) && e == i + |Spelling(m)| && Stops(m, s, e)
    ensures NumberEnd(s, i) == Some(e) && Proper(n) && At(s, i, Spelling(n)) ==> i + |Spelling(n)| <= e
  {
    hide NumberEnd, Proper, Spelling, Stops;
    if NumberEnd(s, i) == Some(e) { var m := NumberFound(s, i); }
    forall m | Proper(m) && At(s, i, Spelling(m)) && e == i + |Spelling(m)| && Stops(m, s, e)
      ensures NumberEnd(s, i) == Some(e)
    {
      NumberRead(s, i, m);
    }
    if Proper(n) && At(s, i, Spelling(n)) { NumberRead(s, i, n); }
  }
}
