/** What the decimal parser makes of a well-formed text, and that it inverts the printer. */
module DecimalMeaning {
  import opened Arithmetic
  import opened DecimalArith
  import opened DecimalScale
  import opened DecimalText

  /** Blanks, an optional sign, integer digits, and perhaps a point and fraction digits. */
  datatype Text = Text(blanks: string, sign: string, integer: string, point: bool, fraction: string)

  ghost predicate Lexed(t: Text) {
    && Blank(t.blanks) && t.sign in {"", "+", "-"} && AllDigits(t.integer) && AllDigits(t.fraction)
    && (!t.point ==> t.fraction == "")
  }

  ghost predicate WellFormed(t: Text) {
    Lexed(t) && (t.integer != "" || t.fraction != "")
  }

  /** Where the parser is after all of the text, unless it has stopped before. */
  function StateAfter(t: Text): Phase {
    if t.point then AfterDecPoint
    else if t.integer != "" then BeforeDecPoint
    else if t.sign != "" then BeforeFirstDigit else BeforeSign
  }

  function Render(t: Text): string {
    t.blanks + (t.sign + (t.integer + ((if t.point then "." else "") + t.fraction)))
  }

  function Negative(t: Text): bool {
    t.sign == "-"
  }

  /** All the digits of the text as one number, with its sign. */
  ghost function Units(t: Text): int
    requires WellFormed(t)
  {
    var n := Number(t.integer) * Pow10(|t.fraction|) + Number(t.fraction);
    if Negative(t) then -n else n
  }

  // ---- the scan of a whole text ----

  ghost function Signed(t: Text): Scan {
    if t.sign == "" then START
    else START.(state := BeforeFirstDigit, noDigits := false, negative := Negative(t))
  }

  lemma ScanSign(w: Width, scale: nat, t: Text)
    requires Lexed(t)
    ensures ScanAll(w, scale, START, t.blanks + t.sign) == Signed(t)
  {
    ScanSplit(w, scale, START, t.blanks, t.sign);
    ScanBlanks(w, scale, t.blanks);
    if t.sign == "+" {
      ScanOne(w, scale, START, '+');
    } else if t.sign == "-" {
      ScanOne(w, scale, START, '-');
    }
  }

  /** After the sign and the integer digits. */
  ghost function Before(t: Text): Scan
    requires Lexed(t)
  {
    if t.integer == "" then Signed(t) else AfterInteger(Signed(t), t.integer)
  }

  lemma ScanHead(w: Width, scale: nat, t: Text)
    requires Lexed(t)
    ensures var q := ScanAll(w, scale, START, (t.blanks + t.sign) + t.integer);
            if Significant(t.integer) <= MaxPrecision(w) then q == Before(t) else q.state.Finish? && q.error.Overflow?
  {
    ScanSplit(w, scale, START, t.blanks + t.sign, t.integer);
    ScanSign(w, scale, t);
    if t.integer != "" {
      ScanInteger(w, scale, Signed(t), t.integer);
    }
  }

  ghost function Pointed(t: Text): Scan
    requires Lexed(t)
  {
    if t.point then Before(t).(state := AfterDecPoint) else Before(t)
  }

  lemma ScanPoint(w: Width, scale: nat, t: Text)
    requires Lexed(t)
    ensures var q := ScanAll(w, scale, START, ((t.blanks + t.sign) + t.integer) + (if t.point then "." else ""));
            if Significant(t.integer) <= MaxPrecision(w) then q == Pointed(t) else q.state.Finish? && q.error.Overflow?
  {
    var head := (t.blanks + t.sign) + t.integer;
    ScanSplit(w, scale, START, head, if t.point then "." else "");
    ScanHead(w, scale, t);
    if t.point && Significant(t.integer) <= MaxPrecision(w) {
      ScanOne(w, scale, Before(t), '.');
    }
  }

  lemma RenderParts(t: Text)
    ensures Render(t) == (((t.blanks + t.sign) + t.integer) + (if t.point then "." else "")) + t.fraction
  {}

  /** What the whole scan leaves: the kept digits, or an overflow. */
  ghost predicate Scanned(w: Width, scale: nat, t: Text, q: Scan)
    requires WellFormed(t)
  {
    var i, f := Significant(t.integer), |t.fraction|;
    if i > MaxPrecision(w) then q.error.Overflow? && q.state.Finish?
    else if f <= scale then
      if i + f > MaxPrecision(w) then q.error.Overflow? && q.state.Finish?
      else q.error.Ok? && !q.noDigits && q.negative == Negative(t) && !q.needRounding
           && q.raw == Abs(Units(t)) && q.digits == i + f && q.frac == f && q.state == StateAfter(t)
    else
      if i + scale > MaxPrecision(w) then q.error.Overflow? && q.state.Finish?
      else q.error.Ok? && !q.noDigits && q.negative == Negative(t)
           && q.needRounding == (Value(t.fraction[scale]) >= 5)
           && q.raw == Number(t.integer) * Pow10(scale) + Number(t.fraction[..scale])
           && q.digits == i + scale && q.frac == scale && q.state.Finish?
  }

  lemma UnitsAbs(t: Text)
    requires WellFormed(t)
    ensures Abs(Units(t)) == Number(t.integer) * Pow10(|t.fraction|) + Number(t.fraction)
  {
    Scale(0, Number(t.integer), Pow10(|t.fraction|));
  }

  lemma TailNoPoint(w: Width, scale: nat, t: Text)
    requires WellFormed(t) && Significant(t.integer) <= MaxPrecision(w) && !t.point
    ensures Scanned(w, scale, t, Pointed(t))
  {
    UnitsAbs(t);
    assert Pow10(0) == 1 && Number("") == 0;
  }

  lemma TailShort(w: Width, scale: nat, t: Text)
    requires WellFormed(t) && Significant(t.integer) <= MaxPrecision(w) && t.point && |t.fraction| <= scale
    ensures Scanned(w, scale, t, ScanAll(w, scale, Pointed(t), t.fraction))
  {
    UnitsAbs(t);
    SignificantEmpty();
    ScanFraction(w, scale, Pointed(t), t.fraction);
  }

  lemma TailLong(w: Width, scale: nat, t: Text)
    requires WellFormed(t) && Significant(t.integer) <= MaxPrecision(w) && t.point && |t.fraction| > scale
    ensures Scanned(w, scale, t, ScanAll(w, scale, Pointed(t), t.fraction))
  {
    SignificantEmpty();
    ScanLongFraction(w, scale, Pointed(t), t.fraction);
  }

  lemma SignificantEmpty()
    ensures Significant("") == 0 && Number("") == 0
  {}

  lemma ScanText(w: Width, scale: nat, t: Text)
    requires WellFormed(t)
    ensures Scanned(w, scale, t, ScanAll(w, scale, START, Render(t)))
  {
    var head := ((t.blanks + t.sign) + t.integer) + (if t.point then "." else "");
    RenderParts(t);
    ScanSplit(w, scale, START, head, t.fraction);
    ScanPoint(w, scale, t);
    if Significant(t.integer) <= MaxPrecision(w) {
      if !t.point {
        TailNoPoint(w, scale, t);
      } else if |t.fraction| <= scale {
        TailShort(w, scale, t);
      } else {
        TailLong(w, scale, t);
      }
    }
  }

  // ---- the meaning of the answer ----

  lemma {:induction false} NumberSplit(a: string, b: string)
    requires AllDigits(a) && AllDigits(b)
    ensures AllDigits(a + b) && Number(a + b) == Number(a) * Pow10(|b|) + Number(b)
    decreases |b|
  {
    if b == "" {
      assert a + b == a && Pow10(0) == 1;
    } else {
      var n := |b| - 1;
      NumberSplit(a, b[..n]);
      assert (a + b)[..|a + b| - 1] == a + b[..n];
      Shifted(Number(a), Pow10(n), Number(b[..n]), Value(b[n]));
    }
  }

  lemma {:induction false} NumberBound(ds: string)
    requires AllDigits(ds)
    ensures 0 <= Number(ds) < Pow10(|ds|)
    decreases |ds|
  {
    if ds != "" {
      NumberBound(ds[..|ds| - 1]);
    }
  }

  /** The wanted scale: the given one, or as many fraction digits as there are and fit. */
  function Wanted(w: Width, ctx: Context, t: Text): nat {
    if !ctx.auto && ctx.scale >= 0 then ctx.scale
    else if |t.fraction| <= MaxPrecision(w) then |t.fraction| else MaxPrecision(w)
  }

  function Min(a: nat, b: nat): nat {
    if a <= b then a else b
  }

  /** The value of the text at scale `s`: exact when it has no more fraction digits, otherwise
      rounded to nearest with ties away from zero, or truncated toward zero. */
  ghost predicate Means(t: Text, s: nat, rounding: bool, raw: int)
    requires WellFormed(t)
  {
    var f := |t.fraction|;
    if f <= s then raw == Units(t) * Pow10(s - f)
    else if rounding then Nearest(Units(t), Pow10(f - s), raw)
    else raw == TruncDiv(Units(t), Pow10(f - s))
  }

  /** Dropping digits: what the first dropped digit says about the rest. */
  lemma DropDigits(t: Text, s: nat, kept: int, up: bool) returns (m: int)
    requires WellFormed(t) && s < |t.fraction|
    requires kept == Number(t.integer) * Pow10(s) + Number(t.fraction[..s])
    requires up == (Value(t.fraction[s]) >= 5)
    ensures var d := Pow10(|t.fraction| - s);
            Abs(Units(t)) == kept * d + m && 0 <= m < d && (2 * m >= d <==> up)
    ensures kept >= 0
  {
    var f, k := t.fraction, |t.fraction| - s;
    var d, rest := Pow10(k), f[s..];
    assert f == f[..s] + rest;
    NumberSplit(f[..s], rest);
    NumberBound(rest);
    PowAdd(s, k);
    UnitsAbs(t);
    Expand(Number(t.integer), Pow10(s), d, Number(f[..s]), Number(rest));
    FirstDigit(rest);
    Scale(0, Number(t.integer), Pow10(s));
    m := Number(rest);
  }

  lemma Expand(i: int, p: int, d: int, n: int, r: int)
    ensures i * (p * d) + (n * d + r) == (i * p + n) * d + r
  {}

  /** The first digit decides whether a fraction is at least a half. */
  lemma FirstDigit(ds: string)
    requires AllDigits(ds) && ds != ""
    ensures 2 * Number(ds) >= Pow10(|ds|) <==> Value(ds[0]) >= 5
  {
    var rest, k := ds[1..], |ds| - 1;
    assert ds == [ds[0]] + rest;
    NumberSplit([ds[0]], rest);
    NumberBound(rest);
    assert [ds[0]][..0] == "";
    assert Number([ds[0]]) == Value(ds[0]);
    assert Pow10(|ds|) == 10 * Pow10(k);
    if Value(ds[0]) >= 5 {
      Scale(5, Value(ds[0]), Pow10(k));
    } else {
      Scale(Value(ds[0]), 4, Pow10(k));
    }
  }

  lemma UnitsSign(t: Text)
    requires WellFormed(t)
    ensures Negative(t) ==> Units(t) == -Abs(Units(t))
    ensures !Negative(t) ==> Units(t) == Abs(Units(t))
  {
    UnitsAbs(t);
  }

  /** Dropping the digits `m` below `d`, with the sign. */
  lemma SignedDrop(u: int, d: int, kept: int, m: int, up: bool)
    requires Abs(u) == kept * d + m && 0 <= m < d && kept >= 0 && (2 * m >= d <==> up)
    ensures var r := if up then kept + 1 else kept; Nearest(u, d, if u < 0 then -r else r)
    ensures TruncDiv(u, d) == if u < 0 then -kept else kept
    ensures u == 0 ==> kept == 0 && (if up then 1 else 0) == 0
  {
    RoundCore(Abs(u), d, kept, m, if up then kept + 1 else kept);
    DivModUnique(Abs(u), kept, d, m);
    TruncSign(Abs(u), d, kept);
    if u == 0 {
      Multiples(d, kept);
    }
  }

  /** The same with the sign as the text has it, which a zero may have too. */
  lemma WrittenDrop(u: int, d: int, kept: int, m: int, up: bool, negative: bool)
    requires Abs(u) == kept * d + m && 0 <= m < d && kept >= 0 && (2 * m >= d <==> up)
    requires u == if negative then -Abs(u) else Abs(u)
    ensures var r := if up then kept + 1 else kept; Nearest(u, d, if negative then -r else r)
    ensures TruncDiv(u, d) == if negative then -kept else kept
  {
    SignedDrop(u, d, kept, m, up);
  }

  lemma DropMeans(t: Text, s: nat, rounding: bool, kept: int, up: bool)
    requires WellFormed(t) && s < |t.fraction|
    requires kept == Number(t.integer) * Pow10(s) + Number(t.fraction[..s])
    requires up == (Value(t.fraction[s]) >= 5)
    ensures var r := if rounding && up then kept + 1 else kept;
            Means(t, s, rounding, if Negative(t) then -r else r)
  {
    var m := DropDigits(t, s, kept, up);
    UnitsSign(t);
    WrittenDrop(Units(t), Pow10(|t.fraction| - s), kept, m, up, Negative(t));
  }

  lemma TruncSign(n: int, d: int, q: int)
    requires n >= 0 && d > 0 && n / d == q
    ensures TruncDiv(n, d) == q && TruncDiv(-n, d) == -q
  {
    DivSmaller(n, if d > 1 then d else 2);
  }

  lemma MeaningLong(w: Width, t: Text, ctx: Context, scale: nat, q: Scan)
    requires WellFormed(t) && Scanned(w, scale, t, q) && |t.fraction| > scale
    requires if ctx.auto then scale == MaxPrecision(w) else scale == ctx.scale
    ensures var r := Build(w, ctx, scale, q);
            if Significant(t.integer) + scale > MaxPrecision(w) then r == Raw(-9528, 0, true)
            else !r.failed && r.scale == scale && Means(t, scale, ctx.rounding, r.raw)
  {
    if Significant(t.integer) + scale <= MaxPrecision(w) {
      DropMeans(t, scale, ctx.rounding, q.raw, q.needRounding);
      assert Pow10(0) == 1;
    }
  }

  lemma MeaningShort(w: Width, t: Text, ctx: Context, scale: nat, q: Scan)
    requires WellFormed(t) && Scanned(w, scale, t, q) && |t.fraction| <= scale
    requires if ctx.auto then scale == MaxPrecision(w) else scale == ctx.scale
    ensures var r, s := Build(w, ctx, scale, q), if ctx.auto then |t.fraction| else scale;
            if Significant(t.integer) + |t.fraction| > MaxPrecision(w) then r == Raw(-9528, 0, true)
            else if Significant(t.integer) + s > MaxPrecision(w) then r == Raw(-9527, 0, true)
            else !r.failed && r.scale == s && Means(t, s, ctx.rounding, r.raw)
  {
    var s := if ctx.auto then |t.fraction| else scale;
    assert Pow10(0) == 1;
    UnitsSign(t);
    NegMul(Abs(Units(t)), Pow10(s - |t.fraction|));
  }

  /** The parser on a well-formed text: overflow is reported exactly when the integer digits without
      leading zeros and the wanted scale exceed the maximal precision, under one code if the digits
      that are there are too many, under another if only the missing ones are; otherwise the answer
      is the value of the text at that scale. */
  lemma ParseMeaning(w: Width, t: Text, ctx: Context)
    requires WellFormed(t) && (ctx.auto || 0 <= ctx.scale <= MaxPrecision(w))
    ensures var r, s := Parsed(w, Render(t), ctx), Wanted(w, ctx, t);
            if Significant(t.integer) + Min(|t.fraction|, s) > MaxPrecision(w) then r == Raw(-9528, 0, true)
            else if Significant(t.integer) + s > MaxPrecision(w) then r == Raw(-9527, 0, true)
            else !r.failed && r.scale == s && Means(t, s, ctx.rounding, r.raw)
  {
    var scale: nat := if ctx.auto then MaxPrecision(w) else ctx.scale;
    ScanText(w, scale, t);
    if |t.fraction| > scale {
      MeaningLong(w, t, ctx, scale, ScanAll(w, scale, START, Render(t)));
    } else {
      MeaningShort(w, t, ctx, scale, ScanAll(w, scale, START, Render(t)));
    }
  }

  // ---- printing, then parsing ----

  lemma {:induction false} DigitsNumber(n: nat)
    ensures Number(Digits(n)) == n
  {
    if n >= 10 {
      DigitsNumber(n / 10);
      var front := Digits(n / 10);
      assert (front + [DigitChar(n % 10)])[..|front|] == front;
    } else {
      assert [DigitChar(n)][..0] == "";
    }
  }

  /** A number below ten to the `k` has at most `k` digits, not counting a lone zero. */
  lemma {:induction false} DigitsLength(n: nat, k: nat)
    requires n < Pow10(k)
    ensures Significant(Digits(n)) <= k
    ensures k > 0 ==> |Digits(n)| <= k
    decreases k
  {
    var front := if n < 10 then "" else Digits(n / 10);
    assert Digits(n) == front + [DigitChar(n % 10)];
    assert Digits(n)[..|front|] == front;
    assert Pow10(0) == 1;
    if n < 10 {
      assert Significant("") == 0;
      assert DigitChar(0) == '0';
    } else {
      assert k > 1 by {
        assert Pow10(1) == 10;
      }
      assert Pow10(k) == 10 * Pow10(k - 1);
      DigitsLength(n / 10, k - 1);
    }
  }

  lemma {:induction false} Zeros(k: nat)
    ensures Number(seq(k, _ => '0')) == 0
  {
    if k > 0 {
      assert seq(k, _ => '0')[..k - 1] == seq(k - 1, _ => '0');
      Zeros(k - 1);
    }
  }

  /** Filling with zeros changes the width and not the number. */
  lemma FilledNumber(k: nat, n: nat)
    requires n < Pow10(k) && k > 0
    ensures AllDigits(Filled(k, Digits(n))) && |Filled(k, Digits(n))| == k && Number(Filled(k, Digits(n))) == n
  {
    DigitsLength(n, k);
    DigitsNumber(n);
    var z := seq(k - |Digits(n)|, _ => '0');
    Zeros(k - |Digits(n)|);
    NumberSplit(z, Digits(n));
    if |Digits(n)| == k {
      assert z == "";
    }
  }

  /** The parts of what `toString` prints. */
  function PrintedText(scale: nat, raw: int): Text {
    var n, d := Abs(raw), Pow10(scale);
    NatDiv(n, d);
    Text("", if raw < 0 then "-" else "", Digits(n / d), scale > 0,
         if scale > 0 then Filled(scale, Digits(n % d)) else "")
  }

  lemma PrintsText(scale: nat, raw: int)
    ensures ToString(scale, raw) == Render(PrintedText(scale, raw))
  {
    var n, d := Abs(raw), Pow10(scale);
    NatDiv(n, d);
    if scale == 0 {
      assert d == 1;
    }
  }

  lemma NumberOfZero()
    ensures Number("") == Number("0") == 0
  {
    assert "0"[..0] == "";
  }

  lemma {:induction false} DigitsLeading(n: nat)
    ensures Digits(n) == "0" || Digits(n)[0] != '0'
  {
    if n >= 10 {
      DigitsLeading(n / 10);
      DigitsNumber(n / 10);
      NumberOfZero();
    } else {
      DigitIs(DigitChar(n));
    }
  }

  lemma PrintedInteger(scale: nat, raw: int)
    ensures var ds := PrintedText(scale, raw).integer;
            && AllDigits(ds) && ds != "" && (ds == "0" || ds[0] != '0') && Number(ds) == Abs(raw) / Pow10(scale)
  {
    NatDiv(Abs(raw), Pow10(scale));
    DigitsLeading(Abs(raw) / Pow10(scale));
    DigitsNumber(Abs(raw) / Pow10(scale));
  }

  lemma PrintedFraction(scale: nat, raw: int)
    ensures var ds := PrintedText(scale, raw).fraction;
            && AllDigits(ds) && |ds| == scale && Number(ds) == Abs(raw) % Pow10(scale)
  {
    if scale > 0 {
      FilledNumber(scale, Abs(raw) % Pow10(scale));
    } else {
      NumberOfZero();
    }
  }

  lemma Recompose(n: nat, d: nat, q: int, r: int)
    requires d > 0 && q == n / d && r == n % d
    ensures q * d + r == n
  {}

  lemma PrintedRender(scale: nat, raw: int)
    ensures var t := PrintedText(scale, raw);
            Render(t) == (if raw < 0 then "-" else "") + t.integer + (if scale > 0 then "." + t.fraction else "")
  {}

  /** The form of what is printed: a minus sign exactly before negative values, the integer part
      without leading zeros, and behind one point as many digits as the scale says, or no point;
      and those digits are the magnitude. */
  lemma PrintedForm(scale: nat, raw: int) returns (integer: string, fraction: string)
    ensures AllDigits(integer) && integer != "" && (integer == "0" || integer[0] != '0')
    ensures AllDigits(fraction) && |fraction| == scale
    ensures ToString(scale, raw) ==
            (if raw < 0 then "-" else "") + integer + (if scale > 0 then "." + fraction else "")
    ensures Number(integer) * Pow10(scale) + Number(fraction) == Abs(raw)
  {
    PrintsText(scale, raw);
    PrintedInteger(scale, raw);
    PrintedFraction(scale, raw);
    PrintedRender(scale, raw);
    integer, fraction := PrintedText(scale, raw).integer, PrintedText(scale, raw).fraction;
    Recompose(Abs(raw), Pow10(scale), Number(integer), Number(fraction));
  }

  /** Printing and reading back returns the scale and the value, whether the scale is given or
      found in the text. */
  lemma PrintParse(w: Width, scale: nat, raw: int, ctx: Context)
    requires scale <= MaxPrecision(w) && Abs(raw) < Pow10(MaxPrecision(w))
    requires ctx.auto || ctx.scale == scale
    ensures Parsed(w, ToString(scale, raw), ctx) == Raw(scale, raw, false)
  {
    var t, n, d := PrintedText(scale, raw), Abs(raw), Pow10(scale);
    PrintsText(scale, raw);
    PrintedWell(w, scale, raw);
    ParseMeaning(w, t, ctx);
    assert Pow10(0) == 1;
  }

  lemma PrintedWell(w: Width, scale: nat, raw: int)
    requires scale <= MaxPrecision(w) && Abs(raw) < Pow10(MaxPrecision(w))
    ensures var t := PrintedText(scale, raw);
            WellFormed(t) && |t.fraction| == scale && Units(t) == raw
            && Significant(t.integer) + scale <= MaxPrecision(w)
  {
    var n, d, k := Abs(raw), Pow10(scale), MaxPrecision(w) - scale;
    NatDiv(n, d);
    PowAdd(k, scale);
    Below(n, d, Pow10(k));
    DigitsLength(n / d, k);
    DigitsNumber(n / d);
    if scale > 0 {
      FilledNumber(scale, n % d);
    } else {
      assert Pow10(0) == 1 && Number("") == 0;
    }
  }

  lemma Below(n: int, d: int, p: int)
    requires n >= 0 && d > 0 && n < p * d
    ensures n / d < p && n == (n / d) * d + n % d && 0 <= n % d < d
  {
    if n / d >= p {
      Scale(p, n / d, d);
    }
  }
}
