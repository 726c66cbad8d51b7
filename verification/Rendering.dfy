/** The text of every kind of value, and which values count as equal: a policy of the legacy system, column by column. */
module Rendering {
  import opened Ids
  import opened Canonical

  // -- Digits ----------------------------------------------------------------------------

  const DIGITS := "0123456789"

  function Pow10(n: nat): (p: nat)
    ensures p > 0
  {
    if n == 0 then 1 else 10 * Pow10(n - 1)
  }

  /** A number in decimal, as short as it is. */
  function Digits(n: nat): (s: string)
    ensures s != ""
  {
    if n < 10 then [DIGITS[n]] else Digits(n / 10) + [DIGITS[n % 10]]
  }

  /** A number in so many digits, with zeros in front. */
  function Padded(n: nat, width: nat): (s: string)
    ensures |s| == width
  {
    if width == 0 then "" else Padded(n / 10, width - 1) + [DIGITS[n % 10]]
  }

  function DigitOf(c: char): nat {
    if '0' <= c <= '9' then c as nat - '0' as nat else 0
  }

  function Number(s: string): nat {
    if s == "" then 0 else 10 * Number(s[..|s| - 1]) + DigitOf(s[|s| - 1])
  }

  lemma OneDigit(d: nat)
    requires d < 10
    ensures DigitOf(DIGITS[d]) == d && '0' <= DIGITS[d] <= '9'
  {
    assert DIGITS[0] == '0' && DIGITS[1] == '1' && DIGITS[2] == '2' && DIGITS[3] == '3' && DIGITS[4] == '4';
    assert DIGITS[5] == '5' && DIGITS[6] == '6' && DIGITS[7] == '7' && DIGITS[8] == '8' && DIGITS[9] == '9';
  }

  lemma NumberAppends(s: string, c: char)
    ensures Number(s + [c]) == 10 * Number(s) + DigitOf(c)
  {
    assert (s + [c])[..|s|] == s;
  }

  lemma {:induction false} ReadDigits(n: nat)
    ensures Number(Digits(n)) == n
  {
    OneDigit(n % 10);
    if n < 10 {
      assert Digits(n) == "" + [DIGITS[n]];
      NumberAppends("", DIGITS[n]);
    } else {
      ReadDigits(n / 10);
      NumberAppends(Digits(n / 10), DIGITS[n % 10]);
    }
  }

  lemma {:induction false} ReadPadded(n: nat, width: nat)
    requires n < Pow10(width)
    ensures Number(Padded(n, width)) == n
  {
    if width > 0 {
      OneDigit(n % 10);
      FitsInOneLess(n, Pow10(width - 1));
      ReadPadded(n / 10, width - 1);
      NumberAppends(Padded(n / 10, width - 1), DIGITS[n % 10]);
    }
  }

  lemma FitsInOneLess(n: nat, p: nat)
    requires n < 10 * p
    ensures 0 <= n / 10 < p && n == 10 * (n / 10) + n % 10
  {
  }

  /** Nothing in a text needs escaping. */
  predicate Bare(s: string) {
    forall i :: 0 <= i < |s| ==> s[i] != '\\' && s[i] != '|'
  }

  predicate AllDigits(s: string) {
    forall i :: 0 <= i < |s| ==> '0' <= s[i] <= '9'
  }

  lemma {:induction false} DigitsAreDigits(n: nat)
    ensures AllDigits(Digits(n))
  {
    OneDigit(n % 10);
    if n >= 10 { DigitsAreDigits(n / 10); }
  }

  lemma {:induction false} PaddedAreDigits(n: nat, width: nat)
    ensures AllDigits(Padded(n, width))
  {
    if width > 0 {
      OneDigit(n % 10);
      PaddedAreDigits(n / 10, width - 1);
    }
  }

  lemma {:induction false} BareIsUnescaped(s: string)
    requires Bare(s)
    ensures Escape(s) == s
  {
    if s != "" {
      BareIsUnescaped(s[1..]);
      EscapeStep(s);
    }
  }

  // -- Values ----------------------------------------------------------------------------

  type Year = n: nat | n < 10000
  type Two = n: nat | n < 100
  type Micro = n: nat | n < 1000000

  datatype Day = Day(year: Year, month: Two, day: Two)

  datatype Clock = Clock(hour: Two, minute: Two, second: Two, micro: Micro)

  /** A value of a column: NULL, or one of the column's kind. A decimal is `unscaled / 10^places`; a moment is in UTC. */
  datatype Value =
    | None
    | Int(n: int)
    | Decimal(unscaled: int, places: nat)
    | Bool(b: bool)
    | Text(text: string)
    | Date(day: Day)
    | Moment(on: Day, clock: Clock)

  /** How a column is rendered; text uses the first two, decimals the last. */
  datatype Rule = Rule(rtrim: bool, casefold: bool, scale: nat)

  function Abs(n: int): nat { if n < 0 then -n else n }

  function Signed(n: int, digits: string): string {
    if n < 0 then "-" + digits else digits
  }

  /** `quantize` with ROUND_HALF_UP: the nearest whole number of `10^-scale`, ties away from zero. */
  function HalfUp(unscaled: int, places: nat, scale: nat): int {
    var up: int := Nearest(Scaled(Abs(unscaled), scale), Pow10(places));
    if unscaled < 0 then -up else up
  }

  function Scaled(n: nat, scale: nat): nat {
    if scale == 0 then n else 10 * Scaled(n, scale - 1)
  }

  /** `a / b` to the nearest whole number, up when it lies half way. */
  function Nearest(a: nat, b: nat): nat
    requires b > 0
  {
    NotNegative(2 * a + b, 2 * b);
    (2 * a + b) / (2 * b)
  }

  lemma NotNegative(a: nat, b: nat)
    requires b > 0
    ensures a / b >= 0
  {
  }

  /** The whole part of `n` units of `1 / p`, and what is over. */
  function Quotient(n: nat, p: nat): (q: nat)
    requires p > 0
  {
    NotNegative(n, p);
    n / p
  }

  function Rest(n: nat, p: nat): (r: nat)
    requires p > 0
    ensures r < p
  {
    n % p
  }

  lemma QuotientAndRest(n: nat, p: nat)
    requires p > 0
    ensures n == p * Quotient(n, p) + Rest(n, p)
  {
  }

  function Fraction(n: nat, scale: nat): string {
    if scale == 0 then "" else "." + Padded(Rest(n, Pow10(scale)), scale)
  }

  function Unsigned(n: nat, scale: nat): string {
    Digits(Quotient(n, Pow10(scale))) + Fraction(n, scale)
  }

  /** `units` of `10^-scale`; zero has no sign. */
  function DecimalText(units: int, scale: nat): string {
    Signed(units, Unsigned(Abs(units), scale))
  }

  function DayText(d: Day): (s: string)
    ensures |s| == 10
  {
    Padded(d.year, 4) + "-" + Padded(d.month, 2) + "-" + Padded(d.day, 2)
  }

  function ClockText(c: Clock): (s: string)
    ensures |s| == 15
  {
    Padded(c.hour, 2) + ":" + Padded(c.minute, 2) + ":" + Padded(c.second, 2) + "." + Padded(c.micro, 6)
  }

  function TrimRight(s: string, c: char): (t: string)
    ensures t <= s && (t == "" || t[|t| - 1] != c)
    ensures forall i :: |t| <= i < |s| ==> s[i] == c
  {
    if s == "" || s[|s| - 1] != c then s else TrimRight(s[..|s| - 1], c)
  }

  function Normal(text: string, rule: Rule, lower: string -> string): string {
    var padded := TrimRight(text, '\0');
    var trimmed := if rule.rtrim then TrimRight(padded, ' ') else padded;
    if rule.casefold then lower(trimmed) else trimmed
  }

  ghost predicate OnlyOf(s: string, c: char) {
    forall i :: 0 <= i < |s| ==> s[i] == c
  }

  ghost predicate EndsIn(s: string, c: char) {
    s != "" && s[|s| - 1] == c
  }

  /** What counts of a text: the NULs at its end are dropped, then, where blanks do not count, the blanks at its end, and only
      then is it lower-cased where case does not count. */
  lemma NormalDrops(text: string, rule: Rule, lower: string -> string) returns (kept: string, blanks: string, nuls: string)
    ensures Normal(text, rule, lower) == if rule.casefold then lower(kept) else kept
    ensures text == kept + blanks + nuls
    ensures OnlyOf(nuls, '\0') && !EndsIn(kept + blanks, '\0')
    ensures if rule.rtrim then OnlyOf(blanks, ' ') && !EndsIn(kept, ' ') else blanks == ""
  {
    var padded;
    padded, nuls := TrimmedRight(text, '\0');
    kept, blanks := padded, "";
    if rule.rtrim {
      kept, blanks := TrimmedRight(padded, ' ');
    } else {
      assert padded + "" == padded;
    }
  }

  lemma TrimmedRight(s: string, c: char) returns (kept: string, dropped: string)
    ensures kept == TrimRight(s, c) && s == kept + dropped && OnlyOf(dropped, c) && !EndsIn(kept, c)
  {
    kept := TrimRight(s, c);
    dropped := s[|kept|..];
  }

  /** `canonical_value`; `lower` is the engine's lower-casing. */
  function CanonicalValue(v: Value, rule: Rule, lower: string -> string): string {
    match v
    case None => NULL
    case Int(n) => Signed(n, Digits(Abs(n)))
    case Decimal(unscaled, places) => DecimalText(HalfUp(unscaled, places, rule.scale), rule.scale)
    case Bool(b) => if b then "true" else "false"
    case Text(text) => Escape(Normal(text, rule, lower))
    case Date(day) => DayText(day)
    case Moment(on, clock) => DayText(on) + "T" + ClockText(clock) + "Z"
  }

  // -- Rounding --------------------------------------------------------------------------

  /** `u` is a whole number nearest to `a / b`, and the greater of two as near. */
  predicate NearestTo(u: int, a: int, b: int) {
    2 * a - b < 2 * (b * u) <= 2 * a + b
  }

  lemma NearestIs(a: nat, b: nat)
    requires b > 0
    ensures NearestTo(Nearest(a, b), a, b) && (a == 0 ==> Nearest(a, b) == 0)
  {
    var x, d := 2 * a + b, 2 * b;
    assert x == d * (x / d) + x % d;
    assert d * (x / d) == 2 * (b * (x / d));
  }

  lemma {:induction false} ScaledIs(n: nat, scale: nat)
    ensures Scaled(n, scale) == n * Pow10(scale)
  {
    if scale > 0 {
      ScaledIs(n, scale - 1);
      TimesTen(n, Pow10(scale - 1));
    }
  }

  lemma TimesTen(n: nat, p: nat)
    ensures 10 * (n * p) == n * (10 * p)
  {
  }

  lemma {:induction false} NothingScaled(scale: nat)
    ensures Scaled(0, scale) == 0
  {
    if scale > 0 { NothingScaled(scale - 1); }
  }

  /** A decimal is rounded to a nearest unit, and away from zero when it lies half way. */
  lemma HalfUpIsNearest(unscaled: int, places: nat, scale: nat)
    ensures NearestTo(Abs(HalfUp(unscaled, places, scale)), Abs(unscaled) * Pow10(scale), Pow10(places))
    ensures HalfUp(unscaled, places, scale) < 0 ==> unscaled < 0
    ensures HalfUp(unscaled, places, scale) > 0 ==> unscaled > 0
  {
    NearestIs(Scaled(Abs(unscaled), scale), Pow10(places));
    ScaledIs(Abs(unscaled), scale);
    if unscaled == 0 { NothingScaled(scale); }
  }

  // -- How a decimal is written ------------------------------------------------------------

  lemma OneDigitMore(x: nat, p: nat, y: nat, d: nat)
    ensures 10 * (x * p + y) + d == x * (10 * p) + (10 * y + d)
  {
    TimesTen(x, p);
  }

  lemma {:induction false} NumberOfBoth(a: string, b: string)
    ensures Number(a + b) == Number(a) * Pow10(|b|) + Number(b)
  {
    if b == "" {
      assert a + b == a;
    } else {
      var n := |b| - 1;
      NumberOfBoth(a, b[..n]);
      assert (a + b)[..|a + b| - 1] == a + b[..n];
      OneDigitMore(Number(a), Pow10(n), Number(b[..n]), DigitOf(b[n]));
    }
  }

  lemma {:induction false} OnlyZeroStartsWithZero(n: nat)
    requires Digits(n)[0] == '0'
    ensures n == 0
  {
    OneDigit(n % 10);
    if n >= 10 { OnlyZeroStartsWithZero(n / 10); }
  }

  lemma WholeAndFraction(n: nat, scale: nat)
    ensures var whole, fraction := Digits(Quotient(n, Pow10(scale))), Padded(Rest(n, Pow10(scale)), scale);
      && AllDigits(whole) && AllDigits(fraction) && (whole == "0" || whole[0] != '0')
      && Number(whole + fraction) == n
  {
    var p := Pow10(scale);
    var q, r := Quotient(n, p), Rest(n, p);
    DigitsAreDigits(q);
    PaddedAreDigits(r, scale);
    if Digits(q)[0] == '0' { OnlyZeroStartsWithZero(q); }
    ReadDigits(q);
    ReadPadded(r, scale);
    QuotientAndRest(n, p);
    PutTogether(Digits(q), Padded(r, scale), q, p, r, n);
  }

  lemma PutTogether(whole: string, fraction: string, q: nat, p: nat, r: nat, n: nat)
    requires p == Pow10(|fraction|) && Number(whole) == q && Number(fraction) == r && n == p * q + r
    ensures Number(whole + fraction) == n
  {
    NumberOfBoth(whole, fraction);
  }

  /** A decimal is written as the digits of its units, `scale` of them behind a point and a shortest whole in front of it,
      with a minus sign below zero; without places there is no point. */
  lemma DecimalIsWritten(units: int, scale: nat) returns (whole: string, fraction: string)
    ensures DecimalText(units, scale)
         == (if units < 0 then "-" else "") + (whole + if scale == 0 then "" else "." + fraction)
    ensures AllDigits(whole) && AllDigits(fraction) && |fraction| == scale && whole != ""
    ensures Number(whole + fraction) == Abs(units) && (whole == "0" || whole[0] != '0')
  {
    whole, fraction := Digits(Quotient(Abs(units), Pow10(scale))), Padded(Rest(Abs(units), Pow10(scale)), scale);
    WholeAndFraction(Abs(units), scale);
  }

  // -- What tells values apart -----------------------------------------------------------

  lemma SignedApart(a: int, b: int, s: string, t: string)
    requires s != "" && t != "" && '0' <= s[0] <= '9' && '0' <= t[0] <= '9' && Signed(a, s) == Signed(b, t)
    ensures (a < 0) == (b < 0) && s == t
  {
    if a < 0 { assert Signed(a, s)[0] == '-' && Signed(a, s)[1..] == s; } else { assert Signed(a, s)[0] == s[0]; }
    if b < 0 { assert Signed(b, t)[0] == '-' && Signed(b, t)[1..] == t; } else { assert Signed(b, t)[0] == t[0]; }
  }

  lemma IntsApart(a: int, b: int)
    requires Signed(a, Digits(Abs(a))) == Signed(b, Digits(Abs(b)))
    ensures a == b
  {
    DigitsAreDigits(Abs(a));
    DigitsAreDigits(Abs(b));
    SignedApart(a, b, Digits(Abs(a)), Digits(Abs(b)));
    ReadDigits(Abs(a));
    ReadDigits(Abs(b));
  }

  lemma SameEnds(a: string, b: string, c: string, d: string)
    requires a + b == c + d && |b| == |d|
    ensures a == c && b == d
  {
    assert |a| == |c|;
    assert (a + b)[..|a|] == a && (c + d)[..|c|] == c;
    assert (a + b)[|a|..] == b && (c + d)[|c|..] == d;
  }

  lemma SameWhole(a: nat, b: nat, p: nat)
    requires p > 0 && Quotient(a, p) == Quotient(b, p) && Rest(a, p) == Rest(b, p)
    ensures a == b
  {
    QuotientAndRest(a, p);
    QuotientAndRest(b, p);
  }

  lemma FractionsApart(a: nat, b: nat, scale: nat)
    requires Fraction(a, scale) == Fraction(b, scale)
    ensures Rest(a, Pow10(scale)) == Rest(b, Pow10(scale))
  {
    if scale > 0 {
      SameEnds(".", Padded(Rest(a, Pow10(scale)), scale), ".", Padded(Rest(b, Pow10(scale)), scale));
      ReadPadded(Rest(a, Pow10(scale)), scale);
      ReadPadded(Rest(b, Pow10(scale)), scale);
    }
  }

  lemma UnsignedApart(a: nat, b: nat, scale: nat)
    requires Unsigned(a, scale) == Unsigned(b, scale)
    ensures a == b
  {
    var p := Pow10(scale);
    SameEnds(Digits(Quotient(a, p)), Fraction(a, scale), Digits(Quotient(b, p)), Fraction(b, scale));
    FractionsApart(a, b, scale);
    ReadDigits(Quotient(a, p));
    ReadDigits(Quotient(b, p));
    SameWhole(a, b, p);
  }

  lemma StartsWithADigit(n: nat, scale: nat)
    ensures Unsigned(n, scale) != "" && '0' <= Unsigned(n, scale)[0] <= '9'
  {
    var whole := Digits(Quotient(n, Pow10(scale)));
    DigitsAreDigits(Quotient(n, Pow10(scale)));
    assert Unsigned(n, scale)[0] == whole[0];
  }

  lemma DecimalsApart(a: int, b: int, scale: nat)
    requires DecimalText(a, scale) == DecimalText(b, scale)
    ensures a == b
  {
    StartsWithADigit(Abs(a), scale);
    StartsWithADigit(Abs(b), scale);
    SignedApart(a, b, Unsigned(Abs(a), scale), Unsigned(Abs(b), scale));
    UnsignedApart(Abs(a), Abs(b), scale);
  }

  lemma PaddedApart(a: nat, b: nat, width: nat)
    requires a < Pow10(width) && b < Pow10(width) && Padded(a, width) == Padded(b, width)
    ensures a == b
  {
    ReadPadded(a, width);
    ReadPadded(b, width);
  }

  lemma Powers()
    ensures Pow10(2) == 100 && Pow10(4) == 10000 && Pow10(6) == 1000000
  {
    assert Pow10(1) == 10 && Pow10(3) == 1000 && Pow10(5) == 100000;
  }

  lemma DaysApart(a: Day, b: Day)
    requires DayText(a) == DayText(b)
    ensures a == b
  {
    Powers();
    SameEnds(Padded(a.year, 4) + "-" + Padded(a.month, 2) + "-", Padded(a.day, 2),
             Padded(b.year, 4) + "-" + Padded(b.month, 2) + "-", Padded(b.day, 2));
    SameEnds(Padded(a.year, 4) + "-" + Padded(a.month, 2), "-", Padded(b.year, 4) + "-" + Padded(b.month, 2), "-");
    SameEnds(Padded(a.year, 4) + "-", Padded(a.month, 2), Padded(b.year, 4) + "-", Padded(b.month, 2));
    SameEnds(Padded(a.year, 4), "-", Padded(b.year, 4), "-");
    PaddedApart(a.year, b.year, 4);
    PaddedApart(a.month, b.month, 2);
    PaddedApart(a.day, b.day, 2);
  }

  function Minutes(c: Clock): string { Padded(c.hour, 2) + ":" + Padded(c.minute, 2) }

  function Seconds(c: Clock): string { Minutes(c) + ":" + Padded(c.second, 2) }

  lemma ClocksApart(a: Clock, b: Clock)
    requires ClockText(a) == ClockText(b)
    ensures a == b
  {
    Powers();
    assert ClockText(a) == (Seconds(a) + ".") + Padded(a.micro, 6) && ClockText(b) == (Seconds(b) + ".") + Padded(b.micro, 6);
    SameEnds(Seconds(a) + ".", Padded(a.micro, 6), Seconds(b) + ".", Padded(b.micro, 6));
    SameEnds(Seconds(a), ".", Seconds(b), ".");
    SameEnds(Minutes(a) + ":", Padded(a.second, 2), Minutes(b) + ":", Padded(b.second, 2));
    SameEnds(Minutes(a), ":", Minutes(b), ":");
    SameEnds(Padded(a.hour, 2) + ":", Padded(a.minute, 2), Padded(b.hour, 2) + ":", Padded(b.minute, 2));
    SameEnds(Padded(a.hour, 2), ":", Padded(b.hour, 2), ":");
    PaddedApart(a.hour, b.hour, 2);
    PaddedApart(a.minute, b.minute, 2);
    PaddedApart(a.second, b.second, 2);
    PaddedApart(a.micro, b.micro, 6);
  }

  lemma MomentsApart(a: Day, c: Clock, b: Day, d: Clock)
    requires DayText(a) + "T" + ClockText(c) + "Z" == DayText(b) + "T" + ClockText(d) + "Z"
    ensures a == b && c == d
  {
    SameEnds(DayText(a) + "T" + ClockText(c), "Z", DayText(b) + "T" + ClockText(d), "Z");
    SameEnds(DayText(a) + "T", ClockText(c), DayText(b) + "T", ClockText(d));
    SameEnds(DayText(a), "T", DayText(b), "T");
    DaysApart(a, b);
    ClocksApart(c, d);
  }

  // -- As cells --------------------------------------------------------------------------

  /** The text of a value before it is escaped. */
  function CellOf(v: Value, rule: Rule, lower: string -> string): Cell {
    match v
    case None => Cell.Null
    case Text(text) => Cell.Text(Normal(text, rule, lower))
    case _ => Cell.Text(CanonicalValue(v, rule, lower))
  }

  lemma BareJoins(a: string, b: string)
    requires Bare(a) && Bare(b)
    ensures Bare(a + b)
  {
  }

  lemma SignedIsBare(n: int, s: string)
    requires Bare(s)
    ensures Bare(Signed(n, s))
  {
    BareJoins("-", s);
  }

  lemma PaddedIsBare(n: nat, width: nat)
    ensures Bare(Padded(n, width))
  {
    PaddedAreDigits(n, width);
  }

  lemma UnsignedIsBare(n: nat, scale: nat)
    ensures Bare(Unsigned(n, scale))
  {
    DigitsAreDigits(Quotient(n, Pow10(scale)));
    if scale > 0 {
      PaddedIsBare(Rest(n, Pow10(scale)), scale);
      BareJoins(".", Padded(Rest(n, Pow10(scale)), scale));
    }
    BareJoins(Digits(Quotient(n, Pow10(scale))), Fraction(n, scale));
  }

  lemma DecimalIsBare(units: int, scale: nat)
    ensures Bare(DecimalText(units, scale))
  {
    UnsignedIsBare(Abs(units), scale);
    SignedIsBare(units, Unsigned(Abs(units), scale));
  }

  lemma DayIsBare(d: Day)
    ensures Bare(DayText(d))
  {
    PaddedIsBare(d.year, 4);
    PaddedIsBare(d.month, 2);
    PaddedIsBare(d.day, 2);
    BareJoins(Padded(d.year, 4), "-");
    BareJoins(Padded(d.year, 4) + "-", Padded(d.month, 2));
    BareJoins(Padded(d.year, 4) + "-" + Padded(d.month, 2), "-");
    BareJoins(Padded(d.year, 4) + "-" + Padded(d.month, 2) + "-", Padded(d.day, 2));
  }

  lemma ClockIsBare(c: Clock)
    ensures Bare(ClockText(c))
  {
    PaddedIsBare(c.hour, 2);
    PaddedIsBare(c.minute, 2);
    PaddedIsBare(c.second, 2);
    PaddedIsBare(c.micro, 6);
    BareJoins(Padded(c.hour, 2), ":");
    BareJoins(Padded(c.hour, 2) + ":", Padded(c.minute, 2));
    BareJoins(Minutes(c), ":");
    BareJoins(Minutes(c) + ":", Padded(c.second, 2));
    BareJoins(Seconds(c), ".");
    BareJoins(Seconds(c) + ".", Padded(c.micro, 6));
  }

  lemma MomentIsBare(d: Day, c: Clock)
    ensures Bare(DayText(d) + "T" + ClockText(c) + "Z")
  {
    DayIsBare(d);
    ClockIsBare(c);
    BareJoins(DayText(d), "T");
    BareJoins(DayText(d) + "T", ClockText(c));
    BareJoins(DayText(d) + "T" + ClockText(c), "Z");
  }

  /** Only text needs escaping, so every value is rendered as its cell is. */
  lemma RenderedAsCell(v: Value, rule: Rule, lower: string -> string)
    ensures CanonicalValue(v, rule, lower) == Render(CellOf(v, rule, lower))
  {
    match v {
      case None =>
      case Text(_) =>
      case Int(n) =>
        DigitsAreDigits(Abs(n));
        SignedIsBare(n, Digits(Abs(n)));
        BareIsUnescaped(CanonicalValue(v, rule, lower));
      case Decimal(unscaled, places) =>
        DecimalIsBare(HalfUp(unscaled, places, rule.scale), rule.scale);
        BareIsUnescaped(CanonicalValue(v, rule, lower));
      case Bool(_) => BareIsUnescaped(CanonicalValue(v, rule, lower));
      case Date(day) =>
        DayIsBare(day);
        BareIsUnescaped(CanonicalValue(v, rule, lower));
      case Moment(on, clock) =>
        MomentIsBare(on, clock);
        BareIsUnescaped(CanonicalValue(v, rule, lower));
    }
  }

  // -- What counts as equal --------------------------------------------------------------

  /** Values of one column: each is NULL or of the column's kind. */
  predicate SameKind(a: Value, b: Value) {
    a.None? || b.None? || (a.Int? && b.Int?) || (a.Decimal? && b.Decimal?) || (a.Bool? && b.Bool?)
    || (a.Text? && b.Text?) || (a.Date? && b.Date?) || (a.Moment? && b.Moment?)
  }

  /** Equal by the column's rule: decimals once rounded, texts once trimmed and folded, everything else as it is. */
  predicate HeldEqual(a: Value, b: Value, rule: Rule, lower: string -> string) {
    match (a, b)
    case (Decimal(u, p), Decimal(w, q)) => HalfUp(u, p, rule.scale) == HalfUp(w, q, rule.scale)
    case (Text(s), Text(t)) => Normal(s, rule, lower) == Normal(t, rule, lower)
    case (_, _) => a == b
  }

  /** Two values of a column render alike exactly when the column's rule holds them equal. */
  lemma RenderedAlikeExactlyWhenEqual(a: Value, b: Value, rule: Rule, lower: string -> string)
    requires SameKind(a, b)
    ensures CellOf(a, rule, lower) == CellOf(b, rule, lower) <==> HeldEqual(a, b, rule, lower)
    ensures CanonicalValue(a, rule, lower) == CanonicalValue(b, rule, lower) <==> HeldEqual(a, b, rule, lower)
  {
    RenderedAsCell(a, rule, lower);
    RenderedAsCell(b, rule, lower);
    ReadRender(CellOf(a, rule, lower));
    ReadRender(CellOf(b, rule, lower));
    if CellOf(a, rule, lower) == CellOf(b, rule, lower) {
      match (a, b) {
        case (Int(m), Int(n)) => IntsApart(m, n);
        case (Decimal(u, p), Decimal(w, q)) => DecimalsApart(HalfUp(u, p, rule.scale), HalfUp(w, q, rule.scale), rule.scale);
        case (Date(d), Date(e)) => DaysApart(d, e);
        case (Moment(d, c), Moment(e, f)) => MomentsApart(d, c, e, f);
        case (_, _) =>
      }
    }
  }

  // -- Rows ------------------------------------------------------------------------------

  function Cells(values: seq<Value>, rules: seq<Rule>, lower: string -> string): (cells: seq<Cell>)
    requires |values| == |rules|
    ensures |cells| == |values|
    ensures forall i :: 0 <= i < |cells| ==> cells[i] == CellOf(values[i], rules[i], lower)
  {
    seq(|values|, i requires 0 <= i < |values| => CellOf(values[i], rules[i], lower))
  }

  /** The string a row is hashed by. */
  function RowText(values: seq<Value>, rules: seq<Rule>, lower: string -> string): string
    requires |values| == |rules|
  {
    Join(seq(|values|, i requires 0 <= i < |values| => CanonicalValue(values[i], rules[i], lower)))
  }

  lemma {:induction false} RenderAllAre(cells: seq<Cell>)
    ensures |RenderAll(cells)| == |cells| && forall i :: 0 <= i < |cells| ==> RenderAll(cells)[i] == Render(cells[i])
  {
    if cells != [] { RenderAllAre(cells[1..]); }
  }

  lemma RowTextIsRowString(values: seq<Value>, rules: seq<Rule>, lower: string -> string)
    requires |values| == |rules|
    ensures RowText(values, rules, lower) == RowString(Cells(values, rules, lower))
  {
    var cells := Cells(values, rules, lower);
    var texts := seq(|values|, i requires 0 <= i < |values| => CanonicalValue(values[i], rules[i], lower));
    RenderAllAre(cells);
    forall i | 0 <= i < |values| ensures texts[i] == RenderAll(cells)[i] { RenderedAsCell(values[i], rules[i], lower); }
    assert texts == RenderAll(cells);
  }

  /** The theorem: two rows of a table have the same string exactly when every column's rule holds their values equal. */
  lemma RowsAlikeExactlyWhenEqual(a: seq<Value>, b: seq<Value>, rules: seq<Rule>, lower: string -> string)
    requires |a| == |b| == |rules| > 0 && forall i :: 0 <= i < |rules| ==> SameKind(a[i], b[i])
    ensures RowText(a, rules, lower) == RowText(b, rules, lower)
       <==> forall i :: 0 <= i < |rules| ==> HeldEqual(a[i], b[i], rules[i], lower)
  {
    RowTextIsRowString(a, rules, lower);
    RowTextIsRowString(b, rules, lower);
    StringsTellRowsApart(Cells(a, rules, lower), Cells(b, rules, lower));
    forall i | 0 <= i < |rules|
      ensures CellOf(a[i], rules[i], lower) == CellOf(b[i], rules[i], lower) <==> HeldEqual(a[i], b[i], rules[i], lower)
    {
      RenderedAlikeExactlyWhenEqual(a[i], b[i], rules[i], lower);
    }
    SameCells(a, b, rules, lower);
  }

  lemma SameCells(a: seq<Value>, b: seq<Value>, rules: seq<Rule>, lower: string -> string)
    requires |a| == |b| == |rules|
    ensures Cells(a, rules, lower) == Cells(b, rules, lower)
       <==> forall i :: 0 <= i < |rules| ==> CellOf(a[i], rules[i], lower) == CellOf(b[i], rules[i], lower)
  {
    var x, y := Cells(a, rules, lower), Cells(b, rules, lower);
    if x == y {
      forall i | 0 <= i < |rules| ensures CellOf(a[i], rules[i], lower) == CellOf(b[i], rules[i], lower) {
        assert x[i] == y[i];
      }
    }
  }
}
