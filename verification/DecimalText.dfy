/** Printing decimals and reading them back. */
module DecimalText {
  import opened Arithmetic
  import opened DecimalArith
  import opened DecimalScale

  // ---- digits ----

  predicate IsDigit(c: char) {
    '0' <= c <= '9'
  }

  function Value(c: char): (v: nat)
    requires IsDigit(c)
    ensures v < 10
  {
    c as int - '0' as int
  }

  function DigitChar(d: nat): (c: char)
    requires d < 10
    ensures IsDigit(c) && Value(c) == d
  {
    "0123456789"[d]
  }

  /** The ten digits, and their values in order. */
  lemma DigitIs(c: char)
    ensures IsDigit(c) <==> c in "0123456789"
    ensures IsDigit(c) ==> "0123456789"[Value(c)] == c
  {
    assert forall d: nat | d < 10 :: "0123456789"[d] == '0' + d as char;
  }

  ghost predicate AllDigits(ds: string) {
    forall i | 0 <= i < |ds| :: IsDigit(ds[i])
  }

  /** The number a string of digits stands for. */
  ghost function Number(ds: string): nat
    requires AllDigits(ds)
  {
    if ds == "" then 0 else 10 * Number(ds[..|ds| - 1]) + Value(ds[|ds| - 1])
  }

  /** How many digits are left without leading zeros. */
  ghost function Significant(ds: string): nat {
    if ds == "" then 0
    else
      var n := Significant(ds[..|ds| - 1]);
      if n != 0 || ds[|ds| - 1] != '0' then n + 1 else 0
  }

  // ---- printing ----

  /** Decimal digits without leading zeros. */
  function Digits(n: nat): (ds: string)
    ensures |ds| > 0 && AllDigits(ds)
  {
    if n < 10 then [DigitChar(n)] else Digits(n / 10) + [DigitChar(n % 10)]
  }

  /** What a stream prints for a signed integer. */
  function Printed(x: int): string {
    if x < 0 then "-" + Digits(-x) else Digits(x)
  }

  /** What it prints with a width and a fill of zeros. */
  function Filled(width: nat, ds: string): string {
    if |ds| >= width then ds else seq(width - |ds|, _ => '0') + ds
  }

  function ToString(scale: nat, raw: int): string {
    if scale == 0 then Printed(raw)
    else
      var multiplier := Pow10(scale);
      var integer := TruncDiv(raw, multiplier);
      var sign := if raw < 0 then -1 else 1;
      var frac := TruncMod(raw, multiplier) * sign;
      (if raw < 0 && integer == 0 then "-" else "") + Printed(integer) + "."
        + Filled(scale, Printed(frac))
  }

  // ---- the parser ----

  datatype Phase = BeforeSign | BeforeFirstDigit | BeforeDecPoint | AfterDecPoint | Finish

  datatype Error = Ok | WrongChar | WrongState | Overflow

  datatype Context = Context(scale: int, auto: bool, rounding: bool, strict: bool)

  /** The locals of the scanning loop; `prev` is the state in which a wrong character was seen. */
  datatype Scan = Scan(state: Phase, prev: Phase, error: Error, raw: int, digits: nat, frac: nat,
                       negative: bool, noDigits: bool, needRounding: bool)

  /** The answer; `failed` when an error message was set. */
  datatype Raw = Raw(scale: int, raw: int, failed: bool)

  const START := Scan(BeforeSign, BeforeSign, Ok, 0, 0, 0, false, true, false)

  function Wrong(p: Scan): Scan {
    p.(error := WrongChar, prev := p.state, state := Finish)
  }

  /** One turn of the loop. */
  function Step(w: Width, scale: nat, p: Scan, c: char): Scan {
    match p.state
    case BeforeSign =>
      if c == '-' then p.(negative := true, noDigits := false, state := BeforeFirstDigit)
      else if c == '+' then p.(noDigits := false, state := BeforeFirstDigit)
      else if IsDigit(c) then
        p.(noDigits := false, digits := if c != '0' then p.digits + 1 else p.digits, raw := Value(c),
          state := BeforeDecPoint)
      else if c == '.' then p.(state := AfterDecPoint)
      else if c == ' ' || c == '\t' then p
      else Wrong(p)
    case BeforeFirstDigit =>
      if IsDigit(c) then
        p.(digits := if c != '0' then p.digits + 1 else p.digits, raw := Value(c), state := BeforeDecPoint)
      else if c == '.' then p.(state := AfterDecPoint)
      else Wrong(p)
    case BeforeDecPoint =>
      if IsDigit(c) then
        if p.digits != 0 || c != '0' then
          if p.digits + 1 > MaxPrecision(w) then p.(error := Overflow, state := Finish)
          else p.(digits := p.digits + 1, raw := 10 * p.raw + Value(c))
        else p.(raw := 10 * p.raw + Value(c))
      else if c == '.' then p.(state := AfterDecPoint)
      else Wrong(p)
    case AfterDecPoint =>
      if IsDigit(c) then
        if p.frac + 1 > scale then p.(noDigits := false, needRounding := Value(c) >= 5, state := Finish)
        else if p.digits + 1 > MaxPrecision(w) then p.(noDigits := false, error := Overflow, state := Finish)
        else p.(noDigits := false, digits := p.digits + 1, frac := p.frac + 1, raw := 10 * p.raw + Value(c))
      else Wrong(p)
    case Finish => p.(error := WrongState)
  }

  function ScanAll(w: Width, scale: nat, p: Scan, s: string): Scan
    decreases |s|
  {
    if s == "" || p.state.Finish? then p else ScanAll(w, scale, Step(w, scale, p, s[0]), s[1..])
  }

  /** The end of the parser: rounding, scaling up to the wanted scale, sign and errors. */
  function Build(w: Width, ctx: Context, scale: nat, p: Scan): Raw {
    var rawData := if ctx.rounding && p.needRounding then p.raw + 1 else p.raw;
    var s := if ctx.auto then p.frac else scale;
    if p.error.Ok? || (!ctx.strict && p.error.WrongChar?) then
      if p.noDigits then Raw(s, Null(w), false)
      else if (ctx.auto || s > p.frac) && p.digits + s - p.frac > MaxPrecision(w) then Raw(-9527, 0, true)
      else
        var r := if ctx.auto || s > p.frac then rawData * Pow10(if s >= p.frac then s - p.frac else 0) else rawData;
        Raw(s, if p.negative then -r else r, false)
    else if p.error.WrongChar? && p.prev.BeforeSign? then Raw(s, Null(w), false)
    else Raw(-9528, 0, true)
  }

  function Parsed(w: Width, str: string, ctx: Context): Raw {
    if !ctx.auto && (ctx.scale < 0 || ctx.scale > MaxPrecision(w)) then Raw(-9529, 0, true)
    else
      var scale := if ctx.auto then MaxPrecision(w) else ctx.scale;
      Build(w, ctx, scale, ScanAll(w, scale, START, str))
  }

  // ---- no intermediate value overflows ----

  /** What holds after every character of any text. */
  ghost predicate ScanInv(w: Width, scale: nat, p: Scan) {
    && 0 <= p.raw < Pow10(p.digits) && p.digits <= MaxPrecision(w)
    && p.frac <= scale && p.frac <= p.digits
    && (p.state.BeforeSign? || p.state.BeforeFirstDigit? ==> p.digits == 0)
    && (p.needRounding ==> p.state.Finish? && p.frac == scale)
  }

  lemma FirstKeeps(w: Width, scale: nat, p: Scan, c: char)
    requires ScanInv(w, scale, p) && (p.state.BeforeSign? || p.state.BeforeFirstDigit?)
    ensures ScanInv(w, scale, Step(w, scale, p, c))
  {
    assert Pow10(0) == 1 && Pow10(1) == 10;
  }

  lemma IntegerKeeps(w: Width, scale: nat, p: Scan, c: char)
    requires ScanInv(w, scale, p) && p.state.BeforeDecPoint?
    ensures ScanInv(w, scale, Step(w, scale, p, c))
  {
    assert Pow10(0) == 1 && Pow10(p.digits + 1) == 10 * Pow10(p.digits);
  }

  lemma FractionKeeps(w: Width, scale: nat, p: Scan, c: char)
    requires ScanInv(w, scale, p) && p.state.AfterDecPoint?
    ensures ScanInv(w, scale, Step(w, scale, p, c))
  {
    assert Pow10(p.digits + 1) == 10 * Pow10(p.digits);
  }

  lemma StepKeeps(w: Width, scale: nat, p: Scan, c: char)
    requires ScanInv(w, scale, p) && !p.state.Finish?
    ensures ScanInv(w, scale, Step(w, scale, p, c))
  {
    match p.state
    case BeforeDecPoint => IntegerKeeps(w, scale, p, c);
    case AfterDecPoint => FractionKeeps(w, scale, p, c);
    case _ => FirstKeeps(w, scale, p, c);
  }

  lemma ScaledUp(raw: int, digits: nat, k: nat, m: nat)
    requires 0 <= raw <= Pow10(digits) && digits + k <= m
    ensures 0 <= raw * Pow10(k) <= Pow10(m)
  {
    PowAdd(digits, k);
    PowMono(digits + k, m);
    Scale(raw, Pow10(digits), Pow10(k));
    Scale(0, raw, Pow10(k));
  }

  lemma BuildBound(w: Width, ctx: Context, scale: nat, p: Scan)
    requires ScanInv(w, scale, p) && scale <= MaxPrecision(w) && (ctx.auto ==> scale == MaxPrecision(w))
    ensures var r := Build(w, ctx, scale, p); r.raw == Null(w) || Abs(r.raw) <= Pow10(MaxPrecision(w))
  {
    var rawData := if ctx.rounding && p.needRounding then p.raw + 1 else p.raw;
    var s := if ctx.auto then p.frac else scale;
    PowMono(p.digits, MaxPrecision(w));
    if s >= p.frac && p.digits + s - p.frac <= MaxPrecision(w) {
      ScaledUp(rawData, p.digits, s - p.frac, MaxPrecision(w));
    }
  }

  /** The parser. Every value it stores fits the machine type: no magnitude exceeds ten to the
      maximal precision. */
  method Parse(w: Width, str: string, ctx: Context) returns (r: Raw)
    ensures r == Parsed(w, str, ctx)
    ensures r.raw == Null(w) || Abs(r.raw) <= Pow10(MaxPrecision(w)) <= Max(w)
  {
    PrecisionFits(w);
    assert Pow10(0) == 1;
    if !ctx.auto && (ctx.scale < 0 || ctx.scale > MaxPrecision(w)) {
      return Raw(-9529, 0, true);
    }
    var scale := if ctx.auto then MaxPrecision(w) else ctx.scale;
    var p, i := START, 0;
    assert str[0..] == str;
    while i < |str| && !p.state.Finish?
      invariant 0 <= i <= |str| && ScanInv(w, scale, p) && Proper(w, p.raw)
      invariant ScanAll(w, scale, p, str[i..]) == ScanAll(w, scale, START, str)
    {
      assert str[i..][1..] == str[i + 1..];
      StepKeeps(w, scale, p, str[i]);
      p := Step(w, scale, p, str[i]);
      PowMono(p.digits, MaxPrecision(w));
      i := i + 1;
    }
    BuildBound(w, ctx, scale, p);
    r := Build(w, ctx, scale, p);
  }

  // ---- what the scan makes of the parts of a well-formed text ----

  lemma {:induction false} ScanSplit(w: Width, scale: nat, p: Scan, s: string, t: string)
    ensures ScanAll(w, scale, p, s + t) == ScanAll(w, scale, ScanAll(w, scale, p, s), t)
    decreases |s|
  {
    if s == "" {
      assert s + t == t;
    } else if !p.state.Finish? {
      assert (s + t)[1..] == s[1..] + t;
      ScanSplit(w, scale, Step(w, scale, p, s[0]), s[1..], t);
    }
  }

  lemma ScanOne(w: Width, scale: nat, p: Scan, c: char)
    requires !p.state.Finish?
    ensures ScanAll(w, scale, p, [c]) == Step(w, scale, p, c)
  {
    assert [c][1..] == "";
  }

  ghost predicate Blank(s: string) {
    forall i | 0 <= i < |s| :: s[i] == ' ' || s[i] == '\t'
  }

  lemma {:induction false} ScanBlanks(w: Width, scale: nat, s: string)
    requires Blank(s)
    ensures ScanAll(w, scale, START, s) == START
    decreases |s|
  {
    if s != "" {
      ScanBlanks(w, scale, s[1..]);
    }
  }

  /** The value of digits without leading zeros has as many digits. */
  lemma {:induction false} SignificantBound(ds: string)
    requires AllDigits(ds)
    ensures Number(ds) < Pow10(Significant(ds)) && Significant(ds) <= |ds|
    ensures Significant(ds) > 0 ==> Pow10(Significant(ds) - 1) <= Number(ds)
    decreases |ds|
  {
    assert Pow10(0) == 1;
    if ds != "" {
      SignificantBound(ds[..|ds| - 1]);
      assert Pow10(Significant(ds[..|ds| - 1]) + 1) == 10 * Pow10(Significant(ds[..|ds| - 1]));
    }
  }

  /** The state after the integer digits `ds`, if there are not too many. */
  ghost function AfterInteger(p: Scan, ds: string): Scan
    requires AllDigits(ds)
  {
    p.(state := BeforeDecPoint, raw := Number(ds), digits := Significant(ds), noDigits := false)
  }

  lemma IntegerFirst(w: Width, scale: nat, p: Scan, c: char)
    requires IsDigit(c) && (p.state.BeforeSign? || p.state.BeforeFirstDigit?)
    requires p.raw == 0 && p.digits == 0 && (p.state.BeforeFirstDigit? ==> !p.noDigits)
    ensures Significant([c]) <= 1 && Step(w, scale, p, c) == AfterInteger(p, [c])
  {
    assert [c][..0] == "";
    assert Number("") == 0 && Significant("") == 0;
  }

  lemma IntegerNext(w: Width, scale: nat, p: Scan, ds: string, c: char)
    requires AllDigits(ds) && IsDigit(c) && Significant(ds) <= MaxPrecision(w)
    ensures AllDigits(ds + [c])
    ensures var q := Step(w, scale, AfterInteger(p, ds), c);
            if Significant(ds + [c]) <= MaxPrecision(w) then q == AfterInteger(p, ds + [c])
            else q.state.Finish? && q.error.Overflow?
  {
    assert (ds + [c])[..|ds|] == ds;
  }

  /** Integer digits after the blanks and the sign: they are all kept, unless there are too many. */
  lemma {:induction false} ScanInteger(w: Width, scale: nat, p: Scan, ds: string)
    requires AllDigits(ds) && ds != "" && (p.state.BeforeSign? || p.state.BeforeFirstDigit?)
    requires p.raw == 0 && p.digits == 0 && (p.state.BeforeFirstDigit? ==> !p.noDigits)
    ensures var q := ScanAll(w, scale, p, ds);
            if Significant(ds) <= MaxPrecision(w) then q == AfterInteger(p, ds)
            else q.state.Finish? && q.error.Overflow?
    decreases |ds|
  {
    var n := |ds| - 1;
    var front, c := ds[..n], ds[n];
    assert ds == front + [c];
    if n == 0 {
      assert ds == [c];
      ScanOne(w, scale, p, c);
      IntegerFirst(w, scale, p, c);
    } else {
      ScanSplit(w, scale, p, front, [c]);
      ScanInteger(w, scale, p, front);
      if Significant(front) <= MaxPrecision(w) {
        ScanOne(w, scale, AfterInteger(p, front), c);
        IntegerNext(w, scale, p, front, c);
      }
    }
  }

  /** The state after the fraction digits `ds`, if there are not too many. */
  ghost function AfterFraction(p: Scan, ds: string): Scan
    requires AllDigits(ds)
  {
    p.(raw := p.raw * Pow10(|ds|) + Number(ds), digits := p.digits + |ds|, frac := |ds|,
       noDigits := p.noDigits && ds == "")
  }

  lemma FractionNext(w: Width, scale: nat, p: Scan, ds: string, c: char)
    requires AllDigits(ds) && IsDigit(c) && |ds| < scale && p.state.AfterDecPoint? && p.frac == 0
    ensures AllDigits(ds + [c])
    ensures var q := Step(w, scale, AfterFraction(p, ds), c);
            if p.digits + |ds| + 1 <= MaxPrecision(w) then q == AfterFraction(p, ds + [c])
            else q.state.Finish? && q.error.Overflow?
  {
    assert (ds + [c])[..|ds|] == ds;
    Shifted(p.raw, Pow10(|ds|), Number(ds), Value(c));
  }

  /** Fraction digits up to the scale: they are all kept, unless there are too many in all. */
  lemma {:induction false} ScanFraction(w: Width, scale: nat, p: Scan, ds: string)
    requires AllDigits(ds) && |ds| <= scale && p.state.AfterDecPoint? && p.frac == 0 && p.digits <= MaxPrecision(w)
    ensures var q := ScanAll(w, scale, p, ds);
            if p.digits + |ds| <= MaxPrecision(w) then q == AfterFraction(p, ds)
            else q.state.Finish? && q.error.Overflow?
    decreases |ds|
  {
    if ds == "" {
      assert Pow10(0) == 1;
    } else {
      var n := |ds| - 1;
      var front, c := ds[..n], ds[n];
      assert ds == front + [c];
      ScanSplit(w, scale, p, front, [c]);
      ScanFraction(w, scale, p, front);
      if p.digits + n <= MaxPrecision(w) {
        ScanOne(w, scale, AfterFraction(p, front), c);
        FractionNext(w, scale, p, front, c);
      }
    }
  }

  lemma Shifted(raw: int, m: int, n: int, v: int)
    ensures 10 * (raw * m + n) + v == raw * (10 * m) + (10 * n + v)
  {}

  /** The first digit beyond the scale ends the scan. */
  lemma ScanDropped(w: Width, scale: nat, p: Scan, c: char, rest: string)
    requires IsDigit(c) && p.state.AfterDecPoint? && p.frac == scale
    ensures ScanAll(w, scale, p, [c] + rest) ==
            p.(noDigits := false, needRounding := Value(c) >= 5, state := Finish)
  {
    ScanSplit(w, scale, p, [c], rest);
    ScanOne(w, scale, p, c);
  }

  /** More fraction digits than the scale keeps: the first one dropped decides about rounding. */
  lemma ScanLongFraction(w: Width, scale: nat, p: Scan, ds: string)
    requires AllDigits(ds) && |ds| > scale && p.state.AfterDecPoint? && p.frac == 0 && p.digits <= MaxPrecision(w)
    ensures AllDigits(ds[..scale])
    ensures var q := ScanAll(w, scale, p, ds);
            if p.digits + scale <= MaxPrecision(w) then
              q == p.(raw := p.raw * Pow10(scale) + Number(ds[..scale]), digits := p.digits + scale, frac := scale,
                      noDigits := false, needRounding := Value(ds[scale]) >= 5, state := Finish)
            else q.state.Finish? && q.error.Overflow?
  {
    var front, c, rest := ds[..scale], ds[scale], ds[scale + 1..];
    assert ds == front + ([c] + rest);
    ScanSplit(w, scale, p, front, [c] + rest);
    ScanFraction(w, scale, p, front);
    if p.digits + scale <= MaxPrecision(w) {
      ScanDropped(w, scale, AfterFraction(p, front), c, rest);
    }
  }
}
