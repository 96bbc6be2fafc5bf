/** What the decimal parser makes of any text at all: the longest beginning that looks like a
    number, and what follows it. */
module DecimalInput {
  import opened DecimalArith
  import opened DecimalScale
  import opened DecimalText
  import opened DecimalMeaning

  ghost predicate IsBlank(c: char) {
    c == ' ' || c == '\t'
  }

  /** The text cannot be made longer with what follows it. */
  ghost predicate Ends(t: Text, rest: string) {
    rest != "" ==>
      && !IsDigit(rest[0]) && (rest[0] == '.' ==> t.point)
      && (StateAfter(t).BeforeSign? ==> !IsBlank(rest[0]) && rest[0] != '+' && rest[0] != '-')
  }

  // ---- every text has such a beginning ----

  lemma {:induction false} TakeBlanks(s: string) returns (b: string, rest: string)
    ensures s == b + rest && Blank(b) && (rest != "" ==> !IsBlank(rest[0]))
    decreases |s|
  {
    if s == "" || !IsBlank(s[0]) {
      return "", s;
    }
    b, rest := TakeBlanks(s[1..]);
    b := [s[0]] + b;
  }

  lemma {:induction false} DigitsFirst(c: char, ds: string)
    requires IsDigit(c) && AllDigits(ds)
    ensures AllDigits([c] + ds)
    decreases |ds|
  {
    if ds != "" {
      DigitsFirst(c, ds[..|ds| - 1]);
      assert ([c] + ds)[..|ds|] == [c] + ds[..|ds| - 1];
    }
  }

  lemma {:induction false} TakeDigits(s: string) returns (ds: string, rest: string)
    ensures s == ds + rest && AllDigits(ds) && (rest != "" ==> !IsDigit(rest[0]))
    decreases |s|
  {
    if s == "" || !IsDigit(s[0]) {
      return "", s;
    }
    ds, rest := TakeDigits(s[1..]);
    DigitsFirst(s[0], ds);
    ds := [s[0]] + ds;
  }

  lemma TakeSign(s: string) returns (sign: string, rest: string)
    ensures sign in {"", "+", "-"} && s == sign + rest && (sign == "" && s != "" ==> s[0] != '+' && s[0] != '-')
  {
    sign := if s == "" then "" else if s[0] == '+' then "+" else if s[0] == '-' then "-" else "";
    rest := s[|sign|..];
  }

  lemma TakeFraction(s: string) returns (point: bool, ds: string, rest: string)
    ensures s == (if point then "." else "") + ds + rest && AllDigits(ds) && (point || ds == "")
    ensures if point then rest != "" ==> !IsDigit(rest[0]) else rest == s && (s != "" ==> s[0] != '.')
  {
    if s == "" || s[0] != '.' {
      return false, "", s;
    }
    ds, rest := TakeDigits(s[1..]);
    point := true;
    assert s == "." + s[1..];
  }

  lemma TakeText(s: string) returns (t: Text, rest: string)
    ensures Lexed(t) && s == Render(t) + rest && Ends(t, rest)
  {
    var blanks, s1 := TakeBlanks(s);
    var sign, s2 := TakeSign(s1);
    var integer, s3 := TakeDigits(s2);
    var point, fraction, s4 := TakeFraction(s3);
    t, rest := Text(blanks, sign, integer, point, fraction), s4;
  }

  // ---- how far the parser reads ----

  /** What the parser knows at the end of a text without digits. */
  lemma ScanNoDigits(w: Width, scale: nat, t: Text)
    requires Lexed(t) && t.integer == "" && t.fraction == ""
    ensures ScanAll(w, scale, START, Render(t)) == Pointed(t)
  {
    RenderParts(t);
    SignificantEmpty();
    ScanPoint(w, scale, t);
    var head := ((t.blanks + t.sign) + t.integer) + (if t.point then "." else "");
    assert Render(t) == head;
  }

  /** The first character after such a beginning ends the parse, unless it has ended before. */
  lemma ScanRest(w: Width, scale: nat, t: Text, rest: string)
    requires Lexed(t) && rest != "" && Ends(t, rest)
    ensures var q := ScanAll(w, scale, START, Render(t));
            q.state.Finish? || q.state == StateAfter(t) ==>
              ScanAll(w, scale, START, Render(t) + rest) == if q.state.Finish? then q else Wrong(q)
  {
    ScanSplit(w, scale, START, Render(t), rest);
    var q := ScanAll(w, scale, START, Render(t));
    if q.state == StateAfter(t) {
      assert Step(w, scale, q, rest[0]) == Wrong(q);
    }
  }

  function UsedScale(w: Width, ctx: Context): nat {
    if ctx.auto || ctx.scale < 0 then MaxPrecision(w) else ctx.scale
  }

  /** The end of the parser after a wrong character behind a number. */
  lemma BuildWrong(w: Width, ctx: Context, scale: nat, q: Scan)
    requires !q.state.BeforeSign? && (q.error.Ok? || (q.error.Overflow? && q.state.Finish?))
    ensures var p := if q.state.Finish? then q else Wrong(q);
            Build(w, ctx, scale, p) ==
            if ctx.strict && !q.state.Finish? then Raw(-9528, 0, true) else Build(w, ctx, scale, q)
    ensures q.error.Overflow? ==> Build(w, ctx, scale, q) == Raw(-9528, 0, true)
  {}

  /** A number followed by something else. Strict parsing refuses it, unless the fraction has
      already used up the scale: then nothing behind it is read. */
  lemma NumberRest(w: Width, t: Text, rest: string, ctx: Context)
    requires WellFormed(t) && rest != "" && Ends(t, rest) && (ctx.auto || 0 <= ctx.scale <= MaxPrecision(w))
    ensures Parsed(w, Render(t) + rest, ctx) ==
            if ctx.strict && |t.fraction| <= UsedScale(w, ctx) then Raw(-9528, 0, true)
            else Parsed(w, Render(t), ctx)
  {
    var scale := UsedScale(w, ctx);
    ScanText(w, scale, t);
    ScanRest(w, scale, t, rest);
    BuildWrong(w, ctx, scale, ScanAll(w, scale, START, Render(t)));
  }

  /** Two texts that strict parsing accepts although a number is followed by more: at scale 1, and
      at scale 0 a date. */
  lemma StrictAccepts()
    ensures Parsed(Bits32, "1.25x", Context(1, false, false, true)) == Raw(1, 12, false)
    ensures Parsed(Bits32, "2013.06.13", Context(0, false, true, true)) == Raw(0, 2013, false)
  {
    assert Pow10(0) == 1;
  }

  /** The date that the comments of the parser give as an example. */
  lemma DateSample()
    ensures Parsed(Bits32, "2013.06.13", Context(0, true, false, false)) == Raw(2, 201306, false)
    ensures Parsed(Bits32, "2013.06.13", Context(0, true, false, true)) == Raw(-9528, 0, true)
  {
    assert Pow10(0) == 1;
  }

  /** The text they give for one without a number, and one with all that may come before the point. */
  lemma Samples()
    ensures Parsed(Bits32, "aaa123", Context(0, true, false, true)) == Raw(0, Null(Bits32), false)
    ensures Parsed(Bits32, " \t-1.5", Context(0, true, false, true)) == Raw(1, -15, false)
  {
    assert Pow10(0) == 1;
  }

  /** A text without digits: NULL, or zero if there is a sign. */
  lemma NoDigits(w: Width, t: Text, ctx: Context)
    requires Lexed(t) && t.integer == "" && t.fraction == "" && (ctx.auto || 0 <= ctx.scale <= MaxPrecision(w))
    ensures Parsed(w, Render(t), ctx) ==
            Raw(if ctx.auto then 0 else ctx.scale, if t.sign == "" then Null(w) else 0, false)
  {
    ScanNoDigits(w, UsedScale(w, ctx), t);
  }

  /** The same followed by something else. */
  lemma NoDigitsRest(w: Width, t: Text, rest: string, ctx: Context)
    requires Lexed(t) && t.integer == "" && t.fraction == "" && rest != "" && Ends(t, rest)
    requires ctx.auto || 0 <= ctx.scale <= MaxPrecision(w)
    ensures Parsed(w, Render(t) + rest, ctx) ==
            if ctx.strict && (t.sign != "" || t.point) then Raw(-9528, 0, true) else Parsed(w, Render(t), ctx)
  {
    ScanNoDigits(w, UsedScale(w, ctx), t);
    ScanRest(w, UsedScale(w, ctx), t, rest);
  }

  // ---- the answer for every text ----

  /** Whether the parser meets the first character behind the number and minds it. */
  ghost predicate Refused(w: Width, t: Text, rest: string, ctx: Context) {
    rest != "" && ctx.strict
    && if t.integer == "" && t.fraction == "" then t.sign != "" || t.point else |t.fraction| <= UsedScale(w, ctx)
  }

  /** `TakeText` splits any text like this. */
  lemma ParseAny(w: Width, t: Text, rest: string, ctx: Context)
    requires Lexed(t) && Ends(t, rest)
    ensures var r, s := Parsed(w, Render(t) + rest, ctx), Wanted(w, ctx, t);
            if !ctx.auto && !(0 <= ctx.scale <= MaxPrecision(w)) then r == Raw(-9529, 0, true)
            else if Refused(w, t, rest, ctx) then r == Raw(-9528, 0, true)
            else if !WellFormed(t) then
              r == Raw(if ctx.auto then 0 else ctx.scale, if t.sign == "" then Null(w) else 0, false)
            else if Significant(t.integer) + Min(|t.fraction|, s) > MaxPrecision(w) then r == Raw(-9528, 0, true)
            else if Significant(t.integer) + s > MaxPrecision(w) then r == Raw(-9527, 0, true)
            else !r.failed && r.scale == s && Means(t, s, ctx.rounding, r.raw)
  {
    if ctx.auto || 0 <= ctx.scale <= MaxPrecision(w) {
      if rest == "" {
        assert Render(t) + rest == Render(t);
      } else if WellFormed(t) {
        NumberRest(w, t, rest, ctx);
      } else {
        NoDigitsRest(w, t, rest, ctx);
      }
      if WellFormed(t) {
        ParseMeaning(w, t, ctx);
      } else {
        NoDigits(w, t, ctx);
      }
    }
  }
}
