/** Decimal text for prices and sizes: the strict parser, the rounding printer, and what
    each undoes of the other. */
module Decimal {
  import opened Arith
  import opened Codec

  const PLACES: nat := 8

  type Precision = p: nat | p <= PLACES

  // ---------------------------------------------------------------------------
  // Digits
  // ---------------------------------------------------------------------------

  predicate IsDigit(c: char) {
    '0' <= c <= '9'
  }

  predicate AllDigits(s: string) {
    forall i :: 0 <= i < |s| ==> IsDigit(s[i])
  }

  function DigitOf(c: char): nat
    requires IsDigit(c)
  {
    c as int - '0' as int
  }

  function CharOf(d: nat): (c: char)
    requires d < 10
    ensures IsDigit(c) && DigitOf(c) == d
  {
    ('0' as int + d) as char
  }

  function Pow10(k: nat): (p: pos)
  {
    if k == 0 then 1 else 10 * Pow10(k - 1)
  }

  /** The number a string of digits denotes. */
  function Val(s: string): nat
    requires AllDigits(s)
  {
    if s == [] then 0 else Val(s[..|s| - 1]) * 10 + DigitOf(s[|s| - 1])
  }

  /** The shortest digits of a number. */
  function Digits(n: nat): (s: string)
    ensures AllDigits(s) && |s| > 0
  {
    if n < 10 then [CharOf(n)] else Digits(n / 10) + [CharOf(n % 10)]
  }

  /** The last `k` digits of a number, leading zeros included. */
  function Fixed(n: nat, k: nat): (s: string)
    ensures AllDigits(s) && |s| == k
  {
    if k == 0 then [] else Fixed(n / 10, k - 1) + [CharOf(n % 10)]
  }

  function Zeros(k: nat): (s: string)
    ensures AllDigits(s) && |s| == k
  {
    seq(k, _ => '0')
  }

  lemma ValAppend(s: string, c: char)
    requires AllDigits(s) && IsDigit(c)
    ensures AllDigits(s + [c]) && Val(s + [c]) == Val(s) * 10 + DigitOf(c)
  {
    assert (s + [c])[..|s|] == s;
  }

  lemma {:induction false} ValDigits(n: nat)
    ensures Val(Digits(n)) == n
  {
    if n >= 10 {
      ValDigits(n / 10);
      ValAppend(Digits(n / 10), CharOf(n % 10));
    }
  }

  lemma {:induction false} ValFixed(n: nat, k: nat)
    requires n < Pow10(k)
    ensures Val(Fixed(n, k)) == n
  {
    if k > 0 {
      ValFixed(n / 10, k - 1);
      ValAppend(Fixed(n / 10, k - 1), CharOf(n % 10));
    }
  }

  /** Left-padding the shortest digits with zeros gives the fixed-width ones. */
  lemma {:induction false} PaddedIsFixed(n: nat, k: nat)
    requires n < Pow10(k) && k > 0
    ensures |Digits(n)| <= k && Zeros(k - |Digits(n)|) + Digits(n) == Fixed(n, k)
  {
    if n < 10 {
      FixedOfZero(k - 1);
    } else {
      PaddedIsFixed(n / 10, k - 1);
    }
  }

  lemma {:induction false} FixedOfZero(k: nat)
    ensures Fixed(0, k) == Zeros(k)
  {
    if k > 0 {
      FixedOfZero(k - 1);
    }
  }

  lemma PowersOfTen()
    ensures Pow10(0) == 1 && Pow10(1) == 10 && Pow10(2) == 100 && Pow10(3) == 1000 && Pow10(4) == 10000
    ensures Pow10(5) == 100000 && Pow10(6) == 1000000 && Pow10(7) == 10000000 && Pow10(8) == E8
  {
    assert Pow10(2) == 10 * Pow10(1);
    assert Pow10(4) == 10 * Pow10(3);
    assert Pow10(6) == 10 * Pow10(5);
    assert Pow10(8) == 10 * Pow10(7);
  }

  lemma {:induction false} PowerSplits(a: nat, b: nat)
    ensures Pow10(a + b) == Pow10(a) * Pow10(b)
  {
    if a > 0 {
      PowerSplits(a - 1, b);
      assert Pow10(a + b) == 10 * Pow10(a - 1 + b);
    }
  }

  // ---------------------------------------------------------------------------
  // What a text denotes
  // ---------------------------------------------------------------------------

  function Negative(text: string): bool {
    text != [] && text[0] == '-'
  }

  /** The text without its sign. */
  function Unsigned(text: string): string {
    if text != [] && (text[0] == '-' || text[0] == '+') then text[1..] else text
  }

  function FirstDot(s: string): (i: nat)
    ensures i <= |s| && (i < |s| ==> s[i] == '.')
    ensures forall k :: 0 <= k < i ==> s[k] != '.'
  {
    if s == [] || s[0] == '.' then 0 else 1 + FirstDot(s[1..])
  }

  function WholePart(rest: string): string {
    rest[..FirstDot(rest)]
  }

  function FractionPart(rest: string): string {
    if FirstDot(rest) < |rest| then rest[FirstDot(rest) + 1..] else []
  }

  /** Digits, at most one point, at least one digit, at most eight places. */
  predicate WellFormed(rest: string) {
    && AllDigits(WholePart(rest)) && AllDigits(FractionPart(rest))
    && |WholePart(rest)| + |FractionPart(rest)| > 0
    && |FractionPart(rest)| <= PLACES
  }

  /** The exact magnitude in hundred-millionths. */
  function Magnitude(whole: string, fraction: string): nat
    requires AllDigits(whole) && AllDigits(fraction) && |fraction| <= PLACES
  {
    Val(whole) * E8 + Val(fraction) * Pow10(PLACES - |fraction|)
  }

  function Signed(negative: bool, magnitude: int): int {
    if negative then -magnitude else magnitude
  }

  /** The scaled integer a text denotes: absent when it is malformed or its magnitude does
      not fit. */
  function Parse(text: string): Option<i64> {
    var rest := Unsigned(text);
    if WellFormed(rest) && Magnitude(WholePart(rest), FractionPart(rest)) <= I64_MAX then
      Some(Signed(Negative(text), Magnitude(WholePart(rest), FractionPart(rest))))
    else None
  }

  /** The parts of a text put together from digits. */
  lemma {:induction false} DotAt(whole: string, fraction: string)
    requires AllDigits(whole)
    ensures FirstDot(whole) == |whole| && FirstDot(whole + ['.'] + fraction) == |whole|
  {
    if whole != [] {
      DotAt(whole[1..], fraction);
      assert (whole + ['.'] + fraction)[1..] == whole[1..] + ['.'] + fraction;
    }
  }

  /** The text made of the parts read so far. */
  function Joined(whole: string, fraction: string, dot: bool): string {
    if dot then whole + ['.'] + fraction else whole
  }

  lemma JoinedParts(whole: string, fraction: string, dot: bool)
    requires AllDigits(whole) && (!dot ==> fraction == [])
    ensures WholePart(Joined(whole, fraction, dot)) == whole
    ensures FractionPart(Joined(whole, fraction, dot)) == fraction
  {
    DotAt(whole, fraction);
  }

  /** A text with a digit part followed by more: what has been read is a prefix of one of
      its parts. */
  lemma LongerParts(whole: string, fraction: string, dot: bool, more: string)
    requires AllDigits(whole) && (!dot ==> fraction == [])
    ensures dot ==> WholePart(Joined(whole, fraction, dot) + more) == whole
    ensures dot ==> FractionPart(Joined(whole, fraction, dot) + more) == fraction + more
    ensures !dot ==> whole <= WholePart(Joined(whole, fraction, dot) + more)
  {
    if dot {
      DotAt(whole, fraction + more);
      assert Joined(whole, fraction, dot) + more == whole + ['.'] + (fraction + more);
    } else {
      WholeExtends(whole, more);
    }
  }

  lemma {:induction false} WholeExtends(whole: string, more: string)
    requires AllDigits(whole)
    ensures FirstDot(whole + more) == |whole| + FirstDot(more)
    ensures WholePart(whole + more) == whole + WholePart(more)
  {
    if whole == [] {
      assert whole + more == more;
    } else {
      WholeExtends(whole[1..], more);
      assert (whole + more)[1..] == whole[1..] + more;
    }
  }

  /** More digits never denote less. */
  lemma {:induction false} ValGrows(s: string, more: string)
    requires AllDigits(s + more)
    ensures AllDigits(s) && Val(s) <= Val(s + more)
  {
    assert forall i :: 0 <= i < |s| ==> s[i] == (s + more)[i];
    if more == [] {
      assert s + more == s;
    } else {
      var front := more[..|more| - 1];
      assert s + more == (s + front) + [more[|more| - 1]];
      assert forall i :: 0 <= i < |s + front| ==> (s + front)[i] == (s + more)[i];
      assert (s + more)[|s + more| - 1] == more[|more| - 1];
      ValGrows(s, front);
      ValAppend(s + front, more[|more| - 1]);
    }
  }

  /** Why the parser may stop at a character: a point after a point, or neither a digit nor
      a point, spoils the whole text. */
  lemma BadCharacter(whole: string, fraction: string, dot: bool, c: char, more: string)
    requires AllDigits(whole) && AllDigits(fraction) && (!dot ==> fraction == [])
    requires !IsDigit(c) && (c == '.' ==> dot)
    ensures !WellFormed(Joined(whole, fraction, dot) + [c] + more)
  {
    var rest := Joined(whole, fraction, dot) + [c] + more;
    assert rest == Joined(whole, fraction, dot) + ([c] + more);
    LongerParts(whole, fraction, dot, [c] + more);
    if dot {
      assert FractionPart(rest)[|fraction|] == c;
    } else {
      WholeExtends(whole, [c] + more);
      assert WholePart(rest)[|whole|] == c;
    }
  }

  /** A ninth place spoils it too. */
  lemma NinthPlace(whole: string, fraction: string, c: char, more: string)
    requires AllDigits(whole) && |fraction| == PLACES
    ensures !WellFormed(Joined(whole, fraction, true) + [c] + more)
  {
    assert Joined(whole, fraction, true) + [c] + more == Joined(whole, fraction, true) + ([c] + more);
    LongerParts(whole, fraction, true, [c] + more);
  }

  /** A whole part that has outgrown 64 bits stays outgrown. */
  lemma TooLarge(whole: string, more: string)
    requires AllDigits(whole) && Val(whole) > I64_MAX
    ensures WellFormed(whole + more) ==>
              Magnitude(WholePart(whole + more), FractionPart(whole + more)) > I64_MAX
  {
    hide Val, Pow10, FractionPart;
    WholeExtends(whole, more);
    if WellFormed(whole + more) {
      ValGrows(whole, WholePart(more));
      var n := Val(WholePart(whole + more));
      assert Magnitude(WholePart(whole + more), FractionPart(whole + more)) >= n * E8;
    }
  }

  // ---------------------------------------------------------------------------
  // The parser
  // ---------------------------------------------------------------------------

  /** Scale a fraction of some digits up to eight. */
  method ScaleUp(fraction: nat, digits: nat) returns (frac: nat)
    requires digits <= PLACES
    ensures frac == fraction * Pow10(PLACES - digits)
  {
    frac := fraction;
    var k := digits;
    while k < PLACES
      invariant digits <= k <= PLACES
      invariant frac == fraction * Pow10(k - digits)
    {
      PowerStep(fraction, k - digits);
      frac := frac * 10;
      k := k + 1;
    }
  }

  lemma PowerStep(v: nat, k: nat)
    ensures v * Pow10(k + 1) == v * Pow10(k) * 10
  {
    assert Pow10(k + 1) == 10 * Pow10(k);
  }

  lemma ExtendJoined(whole: string, fraction: string, dot: bool, c: char)
    ensures Joined(whole, fraction, true) + [c] == Joined(whole, fraction + [c], true)
    ensures Joined(whole, fraction, false) + [c] == Joined(whole + [c], fraction, false)
    ensures Joined(whole, [], false) + ['.'] == Joined(whole, [], true)
  {
  }

  lemma NothingRead(rest: string)
    ensures rest[..0] == Joined([], [], false) && AllDigits([]) && Val([]) == 0
  {
  }

  lemma OneCharacter(rest: string, i: nat)
    requires i < |rest|
    ensures rest == rest[..i] + [rest[i]] + rest[i + 1..] && rest[..i + 1] == rest[..i] + [rest[i]]
    ensures rest == rest[..i + 1] + rest[i + 1..]
  {
  }

  lemma JoinedDenotes(text: string, whole: string, fraction: string, dot: bool)
    requires Unsigned(text) == Joined(whole, fraction, dot)
    requires AllDigits(whole) && AllDigits(fraction) && (!dot ==> fraction == []) && |fraction| <= PLACES
    ensures Parse(text) ==
            if |whole| + |fraction| > 0 && Magnitude(whole, fraction) <= I64_MAX
            then Some(Signed(Negative(text), Magnitude(whole, fraction))) else None
  {
    hide Magnitude, FirstDot;
    JoinedParts(whole, fraction, dot);
  }

  /** `text` is a sign or none, some digits, and a point with at most eight more or none;
      there is a digit somewhere, and the number fits. */
  ghost predicate Denotes(text: string, sign: string, whole: string, fraction: string, dot: bool, v: int) {
    && (sign == "" || sign == "+" || sign == "-")
    && AllDigits(whole) && AllDigits(fraction) && (dot || fraction == "")
    && |whole| + |fraction| > 0 && |fraction| <= 8
    && text == sign + (if dot then whole + "." + fraction else whole)
    && Val(whole) * 100_000_000 + Val(fraction) * Pow10(8 - |fraction|) <= 0x7FFF_FFFF_FFFF_FFFF
    && v == (if sign == "-" then -1 else 1) * (Val(whole) * 100_000_000 + Val(fraction) * Pow10(8 - |fraction|))
  }

  lemma SignOff(sign: string, rest: string)
    requires sign == "" || sign == "+" || sign == "-"
    requires rest != [] && rest[0] != '-' && rest[0] != '+'
    ensures Unsigned(sign + rest) == rest && (Negative(sign + rest) <==> sign == "-")
  {
  }

  lemma DenotedParses(text: string, sign: string, whole: string, fraction: string, dot: bool, v: i64)
    requires Denotes(text, sign, whole, fraction, dot, v)
    ensures Parse(text) == Some(v)
  {
    hide Val, Pow10, Parse, FirstDot;
    var rest := Joined(whole, fraction, dot);
    assert text == sign + rest;
    assert rest[0] == if whole != [] then whole[0] else '.';
    SignOff(sign, rest);
    JoinedDenotes(text, whole, fraction, dot);
  }

  lemma ParsedDenotes(text: string)
    requires Parse(text).Some?
    ensures exists sign, whole, fraction, dot :: Denotes(text, sign, whole, fraction, dot, Parse(text).value)
  {
    hide Val, Pow10;
    var rest := Unsigned(text);
    var sign: string := if Negative(text) then "-" else if rest == text then "" else "+";
    var whole, fraction, dot := WholePart(rest), FractionPart(rest), FirstDot(rest) < |rest|;
    assert rest == if dot then whole + "." + fraction else whole;
    assert text == sign + rest;
    assert Denotes(text, sign, whole, fraction, dot, Parse(text).value);
  }

  /** Which texts are numbers, and which number each is. */
  lemma ParseIff(text: string, v: i64)
    ensures Parse(text) == Some(v) <==> exists sign, whole, fraction, dot :: Denotes(text, sign, whole, fraction, dot, v)
  {
    hide Denotes, Parse;
    if Parse(text) == Some(v) {
      ParsedDenotes(text);
    }
    forall sign, whole, fraction, dot | Denotes(text, sign, whole, fraction, dot, v)
      ensures Parse(text) == Some(v)
    {
      DenotedParses(text, sign, whole, fraction, dot, v);
    }
  }

  lemma MalformedIsNone(text: string)
    ensures !WellFormed(Unsigned(text)) ==> Parse(text) == None
  {
  }

  lemma TooLargeIsNone(text: string, whole: string, more: string)
    requires Unsigned(text) == whole + more && AllDigits(whole) && Val(whole) > I64_MAX
    ensures Parse(text) == None
  {
    hide Val, Magnitude, WellFormed;
    TooLarge(whole, more);
  }

  /** Read a decimal text with 64-bit checked arithmetic. */
  method ParseScaled(text: string) returns (r: Option<i64>)
    ensures r == Parse(text)
  {
    hide Val, Parse, WellFormed, Pow10, Joined;
    if text == [] {
      EmptyText();
      return None;
    }
    var negative := text[0] == '-';
    var rest := if text[0] == '-' || text[0] == '+' then text[1..] else text;
    var intPart, frac, fracDigits, digits, seenDot := 0, 0, 0, 0, false;
    ghost var whole, fraction: string := [], [];
    NothingRead(rest);
    var i := 0;
    while i < |rest|
      invariant i <= |rest|
      invariant AllDigits(whole) && AllDigits(fraction) && (!seenDot ==> fraction == [])
      invariant rest[..i] == Joined(whole, fraction, seenDot)
      invariant intPart == Val(whole) <= I64_MAX
      invariant frac == Val(fraction) && fracDigits == |fraction| <= PLACES
      invariant digits == |whole| + |fraction|
    {
      var b := rest[i];
      OneCharacter(rest, i);
      ExtendJoined(whole, fraction, seenDot, b);
      if b == '.' && !seenDot {
        seenDot := true;
      } else if IsDigit(b) {
        digits := digits + 1;
        if seenDot {
          if fracDigits == PLACES {
            NinthPlace(whole, fraction, b, rest[i + 1..]);
            MalformedIsNone(text);
            return None;
          }
          ValAppend(fraction, b);
          frac := frac * 10 + DigitOf(b);
          fracDigits := fracDigits + 1;
          fraction := fraction + [b];
        } else {
          ValAppend(whole, b);
          whole := whole + [b];
          if intPart * 10 > I64_MAX || intPart * 10 + DigitOf(b) > I64_MAX {
            JoinedWhole(whole, fraction);
            TooLargeIsNone(text, whole, rest[i + 1..]);
            return None;
          }
          intPart := intPart * 10 + DigitOf(b);
        }
      } else {
        BadCharacter(whole, fraction, seenDot, b, rest[i + 1..]);
        MalformedIsNone(text);
        return None;
      }
      i := i + 1;
    }
    assert rest[..i] == rest;
    JoinedDenotes(text, whole, fraction, seenDot);
    if digits == 0 {
      return None;
    }
    frac := ScaleUp(frac, fracDigits);
    if intPart * E8 > I64_MAX || intPart * E8 + frac > I64_MAX {
      return None;
    }
    var magnitude := intPart * E8 + frac;
    r := Some(if negative then -magnitude else magnitude);
  }

  lemma EmptyText()
    ensures Parse([]) == None
  {
  }

  lemma JoinedWhole(whole: string, fraction: string)
    ensures Joined(whole, fraction, false) == whole
  {
  }

  // ---------------------------------------------------------------------------
  // The printer
  // ---------------------------------------------------------------------------

  /** `magnitude` in whole units of `divisor`, halves rounded up. */
  function Rounded(magnitude: nat, divisor: pos): nat
  {
    Div(magnitude, divisor) + (if Mod(magnitude, divisor) * 2 >= divisor then 1 else 0)
  }

  /** The text of so many units of ten to the minus `places`. */
  function Printed(negative: bool, units: nat, places: nat): string {
    (if negative && units != 0 then ['-'] else [])
    + Digits(Div(units, Pow10(places)))
    + (if places > 0 then ['.'] + Fixed(Mod(units, Pow10(places)), places) else [])
  }

  function Places(decimals: nat): (p: nat)
    ensures p <= PLACES
  {
    Min(decimals, PLACES)
  }

  function Units(raw: i64, places: Precision): nat
  {
    Rounded(Abs(raw), Pow10(PLACES - places))
  }

  function Format(raw: i64, decimals: nat): string {
    Printed(raw < 0, Units(raw, Places(decimals)), Places(decimals))
  }

  /** The printed units are the nearest ones, and a value halfway between two goes to the
      one further from zero. */
  lemma NearestUnit(magnitude: nat, divisor: pos)
    ensures var units := Rounded(magnitude, divisor);
            && 2 * Abs(magnitude - units * divisor) <= divisor
            && (2 * Abs(magnitude - units * divisor) == divisor ==> units * divisor > magnitude)
  {
    hide Div, Mod;
    Distribute(divisor, Div(magnitude, divisor), 1);
    assert magnitude == divisor * Div(magnitude, divisor) + Mod(magnitude, divisor);
  }

  /** Rounding the fraction alone, with a carry, is rounding the whole number. */
  lemma SplitRounding(magnitude: nat, places: Precision)
    ensures var divisor := Pow10(PLACES - places);
            var rounded := Rounded(Mod(magnitude, E8), divisor);
            var whole, frac := if rounded >= Pow10(places) then Div(magnitude, E8) + 1 else Div(magnitude, E8),
                               if rounded >= Pow10(places) then 0 else rounded;
            && frac < Pow10(places)
            && whole * Pow10(places) + frac == Rounded(magnitude, divisor)
  {
    hide Pow10, Div, Mod;
    var divisor, scale := Pow10(PLACES - places), Pow10(places);
    PowersOfTen();
    PowerSplits(places, PLACES - places);
    SplitQuotient(magnitude, scale, divisor, E8);
    FractionBelow(Mod(magnitude, E8), scale, divisor);
    Distribute(scale, Div(magnitude, E8), 1);
  }

  /** A fraction rounds to at most a whole. */
  lemma FractionBelow(f: nat, scale: nat, divisor: pos)
    requires f < scale * divisor
    ensures Div(f, divisor) < scale
  {
    hide Div;
    CancelFactor(Div(f, divisor), scale, divisor);
  }

  lemma SplitQuotient(m: nat, scale: nat, divisor: nat, unit: nat)
    requires scale > 0 && divisor > 0 && unit == scale * divisor && unit > 0
    ensures Div(m, divisor) == Div(m, unit) * scale + Div(Mod(m, unit), divisor)
    ensures Mod(m, divisor) == Mod(Mod(m, unit), divisor)
  {
    hide Div, Mod;
    var q, f := Div(m, unit), Mod(m, unit);
    Regroup(scale, divisor, q);
    Distribute(divisor, scale * q, Div(f, divisor));
    UniqueQuotient(m, divisor, scale * q + Div(f, divisor), Mod(f, divisor));
    assert f == divisor * Div(f, divisor) + Mod(f, divisor);
  }

  lemma Distribute(a: nat, b: nat, c: nat)
    ensures a * (b + c) == a * b + a * c
  {
  }

  lemma Regroup(a: nat, b: nat, c: nat)
    ensures (a * b) * c == b * (a * c)
  {
    assert (a * b) * c == a * (b * c);
    assert b * (a * c) == (b * a) * c;
  }

  lemma UniqueQuotient(m: nat, d: pos, q: nat, r: nat)
    requires m == d * q + r && r < d
    ensures Div(m, d) == q && Mod(m, d) == r
  {
    hide Div, Mod;
    CancelFactor(q, Div(m, d) + 1, d);
    CancelFactor(Div(m, d), q + 1, d);
    Distribute(d, Div(m, d), 1);
    Distribute(d, q, 1);
    assert m == d * Div(m, d) + Mod(m, d);
  }

  /** Print a scaled integer with so many places, carries included. */
  method FormatScaled(raw: i64, decimals: nat) returns (out: string)
    ensures out == Format(raw, decimals)
  {
    hide Digits, Fixed, Pow10, Zeros, Div, Mod;
    var places: nat := Min(decimals, PLACES);
    var negative := raw < 0;
    var magnitude: nat := Abs(raw);
    var divisor := Pow10(PLACES - places);
    var intPart, fracAll := Div(magnitude, E8), Mod(magnitude, E8);
    SplitRounding(magnitude, places);
    var rounded := Div(fracAll, divisor) + (if Mod(fracAll, divisor) * 2 >= divisor then 1 else 0);
    var frac: nat := rounded;
    if rounded >= Pow10(places) {
      intPart, frac := intPart + 1, 0;
    }
    ghost var units := Units(raw, places);
    SameParts(units, Pow10(places), intPart, frac);
    out := [];
    if negative && (intPart != 0 || frac != 0) {
      out := ['-'];
    }
    out := out + Digits(intPart);
    if places > 0 {
      var digits := PadLeft(frac, places);
      out := out + (['.'] + digits);
    }
  }

  /** The digits of a fraction, padded with zeros on the left. */
  method PadLeft(frac: nat, places: nat) returns (out: string)
    requires frac < Pow10(places) && places > 0
    ensures out == Fixed(frac, places)
  {
    hide Digits, Fixed, Pow10, Zeros;
    var digits := Digits(frac);
    PaddedIsFixed(frac, places);
    NoZeros();
    out := [];
    var k: nat := |digits|;
    while k < places
      invariant |digits| <= k <= places
      invariant out == Zeros(k - |digits|)
    {
      OneMoreZero(k - |digits|);
      out := out + ['0'];
      k := k + 1;
    }
    out := out + digits;
  }

  lemma NoZeros()
    ensures Zeros(0) == []
  {
  }

  lemma OneMoreZero(k: nat)
    ensures Zeros(k) + ['0'] == Zeros(k + 1)
  {
  }

  /** A number in whole units and a remainder: its quotient, its remainder, and when it is
      zero. */
  lemma SameParts(units: nat, scale: nat, whole: nat, frac: nat)
    requires scale > 0 && frac < scale && whole * scale + frac == units
    ensures Div(units, scale) == whole && Mod(units, scale) == frac
    ensures units == 0 <==> whole == 0 && frac == 0
  {
    UniqueQuotient(units, scale, whole, frac);
    if units == 0 {
      CancelFactor(whole, 0, scale);
    }
  }

  // ---------------------------------------------------------------------------
  // Printing and parsing undo each other
  // ---------------------------------------------------------------------------

  /** `sign whole . fraction`, the shape of everything printed. */
  function Shape(minus: bool, whole: string, fraction: string, dot: bool): string {
    (if minus then ['-'] else []) + Joined(whole, fraction, dot)
  }

  lemma ShapeParses(minus: bool, whole: string, fraction: string, dot: bool)
    requires AllDigits(whole) && AllDigits(fraction) && whole != [] && |fraction| <= PLACES
    requires !dot ==> fraction == []
    ensures Parse(Shape(minus, whole, fraction, dot)) ==
            if Magnitude(whole, fraction) <= I64_MAX then Some(Signed(minus, Magnitude(whole, fraction))) else None
  {
    hide Magnitude, Parse;
    var text := Shape(minus, whole, fraction, dot);
    assert IsDigit(whole[0]);
    assert Joined(whole, fraction, dot)[0] == whole[0];
    assert Unsigned(text) == Joined(whole, fraction, dot);
    JoinedDenotes(text, whole, fraction, dot);
  }

  lemma SplitUnits(q: nat, r: nat, scale: nat, divisor: nat)
    ensures q * (scale * divisor) + r * divisor == (scale * q + r) * divisor
  {
    Regroup(scale, divisor, q);
    assert (scale * q + r) * divisor == scale * q * divisor + r * divisor;
  }

  lemma PrintedMagnitude(units: nat, places: Precision)
    ensures Magnitude(Digits(Div(units, Pow10(places))), Fixed(Mod(units, Pow10(places)), places)) == units * Pow10(PLACES - places)
  {
    hide Div, Mod, Pow10, Val, Digits, Fixed;
    var q, r := Div(units, Pow10(places)), Mod(units, Pow10(places));
    ValDigits(q);
    ValFixed(r, places);
    PowersOfTen();
    PowerSplits(places, PLACES - places);
    SplitUnits(q, r, Pow10(places), Pow10(PLACES - places));
  }

  lemma PrintedShape(negative: bool, units: nat, places: Precision)
    ensures Printed(negative, units, places) ==
            Shape(negative && units != 0, Digits(Div(units, Pow10(places))), Fixed(Mod(units, Pow10(places)), places), places > 0)
  {
    hide Div, Mod, Digits, Fixed, Pow10;
  }

  lemma PrintedParses(negative: bool, units: nat, places: Precision)
    ensures Parse(Printed(negative, units, places)) ==
            if units * Pow10(PLACES - places) <= I64_MAX then Some(Signed(negative, units * Pow10(PLACES - places))) else None
  {
    hide Div, Mod, Digits, Fixed, Pow10, Magnitude, Parse, Shape, Printed;
    PrintedShape(negative, units, places);
    PrintedMagnitude(units, places);
    ShapeParses(negative && units != 0, Digits(Div(units, Pow10(places))), Fixed(Mod(units, Pow10(places)), places), places > 0);
  }

  /** What any printed text reads back as: the value rounded to that many places, unless
      rounding has carried it past 64 bits. It is the nearest multiple of the unit, halves
      away from zero. */
  lemma FormatReadsBack(raw: i64, decimals: nat)
    ensures var unit := Pow10(PLACES - Places(decimals));
            var rounded := Units(raw, Places(decimals)) * unit;
            && 2 * Abs(Abs(raw) - rounded) <= unit
            && (2 * Abs(Abs(raw) - rounded) == unit ==> rounded > Abs(raw))
            && Parse(Format(raw, decimals)) == if rounded <= I64_MAX then Some(Signed(raw < 0, rounded)) else None
  {
    hide Pow10, Parse, Printed, Rounded;
    NearestUnit(Abs(raw), Pow10(PLACES - Places(decimals)));
    PrintedParses(raw < 0, Units(raw, Places(decimals)), Places(decimals));
  }

  lemma {:induction false} NoLeadingZero(n: nat)
    ensures |Digits(n)| > 1 ==> Digits(n)[0] != '0'
  {
    if n >= 10 {
      NoLeadingZero(n / 10);
      if n / 10 < 10 {
        assert Digits(n / 10) == [CharOf(n / 10)];
        assert DigitOf(CharOf(n / 10)) == n / 10;
      }
    }
  }

  /** How a number is printed: a minus only before a number that is not printed as zero, a whole
      part without leading zeros, and exactly as many places as asked for, eight at most. */
  ghost predicate PrintedAs(text: string, raw: i64, places: nat, whole: string, fraction: string) {
    && AllDigits(whole) && AllDigits(fraction) && |whole| > 0 && (|whole| > 1 ==> whole[0] != '0') && |fraction| == places
    && text == (if raw < 0 && (exists c :: c in whole + fraction && c != '0') then "-" else "") + whole + (if places > 0 then "." + fraction else "")
  }

  lemma ZeroDigits(s: string)
    requires AllDigits(s)
    ensures Val(s) > 0 ==> exists c :: c in s && c != '0'
    ensures Val(s) == 0 ==> forall c :: c in s ==> c == '0'
  {
    if s != [] {
      var front := s[..|s| - 1];
      ZeroDigits(front);
      assert s == front + [s[|s| - 1]];
      if c :| c in front && c != '0' {
        assert c in s;
      } else if s[|s| - 1] != '0' {
        assert s[|s| - 1] in s;
      }
    }
  }

  lemma FormatShape(raw: i64, decimals: nat) returns (whole: string, fraction: string)
    ensures PrintedAs(Format(raw, decimals), raw, if decimals < 8 then decimals else 8, whole, fraction)
    ensures var units, unit := Val(whole) * Pow10(|fraction|) + Val(fraction), Pow10(8 - |fraction|);
            2 * Abs(Abs(raw) - units * unit) <= unit && (2 * Abs(Abs(raw) - units * unit) == unit ==> units * unit > Abs(raw))
  {
    hide Div, Mod, Digits, Fixed, Pow10, Val, Rounded;
    var places, units := Places(decimals), Units(raw, Places(decimals));
    var q, r := Div(units, Pow10(places)), Mod(units, Pow10(places));
    whole, fraction := Digits(q), Fixed(r, places);
    NoLeadingZero(q);
    ValDigits(q);
    ValFixed(r, places);
    ZeroDigits(whole);
    ZeroDigits(fraction);
    SameParts(units, Pow10(places), q, r);
    NearestUnit(Abs(raw), Pow10(PLACES - places));
    assert (exists c :: c in whole + fraction && c != '0') <==> units != 0 by {
      if q > 0 {
        var c :| c in whole && c != '0';
        assert c in whole + fraction;
      }
      if r > 0 {
        var c :| c in fraction && c != '0';
        assert c in whole + fraction;
      }
    }
  }

  /** With all eight places the printer and the parser undo each other exactly, but for the
      one value whose magnitude has no positive counterpart. */
  lemma FormatRoundTrip(raw: i64, decimals: nat)
    requires decimals >= PLACES
    ensures Parse(Format(raw, decimals)) == Some(raw) <==> raw != I64_MIN
    ensures raw == I64_MIN ==> Parse(Format(raw, decimals)) == None
  {
    hide Parse, Printed;
    FormatReadsBack(raw, decimals);
    assert Pow10(0) == 1;
  }

  /** Drop every copy of one character from the end. */
  function TrimEnd(s: string, c: char): string {
    if s != [] && s[|s| - 1] == c then TrimEnd(s[..|s| - 1], c) else s
  }

  function TrimTrailingZeros(text: string): string {
    if '.' !in text then text else TrimEnd(TrimEnd(text, '0'), '.')
  }

  /** Trimming does not reach past a different character. */
  lemma {:induction false} TrimStops(front: string, tail: string, c: char)
    requires front != [] && front[|front| - 1] != c
    ensures TrimEnd(front + tail, c) == front + TrimEnd(tail, c)
  {
    if tail == [] {
      assert front + tail == front;
    } else if tail[|tail| - 1] == c {
      assert (front + tail)[..|front + tail| - 1] == front + tail[..|tail| - 1];
      TrimStops(front, tail[..|tail| - 1], c);
    }
  }

  lemma SwapTen(v: nat, scale: nat)
    ensures (v * 10) * scale == v * scale * 10
  {
  }

  lemma DropZero(front: string)
    requires AllDigits(front) && |front| < PLACES
    ensures AllDigits(front + ['0'])
    ensures Val(front + ['0']) * Pow10(PLACES - |front| - 1) == Val(front) * Pow10(PLACES - |front|)
  {
    hide Val, Pow10, AllDigits;
    ValAppend(front, '0');
    PowerStep(Val(front), PLACES - |front| - 1);
    SwapTen(Val(front), Pow10(PLACES - |front| - 1));
  }

  lemma DropLast(front: string)
    ensures TrimEnd(front + ['0'], '0') == TrimEnd(front, '0')
  {
    assert (front + ['0'])[..|front|] == front;
  }

  lemma KeepLast(s: string)
    ensures (s == [] || s[|s| - 1] != '0') ==> TrimEnd(s, '0') == s
  {
  }

  /** A fraction without its final zeros denotes the same amount. */
  lemma {:induction false} TrimmedFraction(fraction: string)
    requires AllDigits(fraction) && |fraction| <= PLACES
    ensures var t := TrimEnd(fraction, '0');
            && AllDigits(t) && |t| <= |fraction| && (t != [] ==> t[|t| - 1] != '0')
            && Val(t) * Pow10(PLACES - |t|) == Val(fraction) * Pow10(PLACES - |fraction|)
  {
    hide Val, Pow10, TrimEnd;
    if fraction != [] && fraction[|fraction| - 1] == '0' {
      var front := fraction[..|fraction| - 1];
      assert fraction == front + ['0'];
      TrimmedFraction(front);
      DropZero(front);
      DropLast(front);
    } else {
      KeepLast(fraction);
    }
  }

  function Front(minus: bool, whole: string): string {
    (if minus then ['-'] else []) + whole
  }

  lemma ShapeIs(minus: bool, whole: string, fraction: string)
    requires AllDigits(whole) && whole != []
    ensures Shape(minus, whole, fraction, true) == (Front(minus, whole) + ['.']) + fraction
    ensures Shape(minus, whole, [], false) == Front(minus, whole)
    ensures Front(minus, whole) != [] && Front(minus, whole)[|Front(minus, whole)| - 1] != '.'
    ensures (Front(minus, whole) + ['.'])[|Front(minus, whole)|] == '.'
  {
  }

  lemma TrimmedShape(minus: bool, whole: string, fraction: string)
    requires AllDigits(whole) && whole != [] && AllDigits(fraction) && |fraction| <= PLACES
    ensures var t := TrimEnd(fraction, '0');
            TrimTrailingZeros(Shape(minus, whole, fraction, true)) == Shape(minus, whole, t, t != [])
  {
    hide *;
    var t := TrimEnd(fraction, '0');
    var front := Front(minus, whole);
    ShapeIs(minus, whole, fraction);
    ShapeIs(minus, whole, t);
    TrimStops(front + ['.'], fraction, '0');
    TrimmedFraction(fraction);
    TrimPointAfter(front, t);
    TrimBoth(front, fraction);
  }

  lemma TrimBoth(front: string, fraction: string)
    ensures TrimTrailingZeros((front + ['.']) + fraction) == TrimEnd(TrimEnd((front + ['.']) + fraction, '0'), '.')
  {
    assert ((front + ['.']) + fraction)[|front|] == '.';
  }

  lemma LastIsDigit(s: string)
    ensures AllDigits(s) ==> (s != [] ==> s[|s| - 1] != '.')
  {
  }

  /** What is left of a point once the zeros behind it are gone. */
  lemma TrimPointAfter(digits: string, t: string)
    requires digits != [] && digits[|digits| - 1] != '.' && AllDigits(t)
    ensures TrimEnd((digits + ['.']) + t, '.') == if t == [] then digits else (digits + ['.']) + t
  {
    hide TrimEnd;
    LastIsDigit(t);
    if t == [] {
      assert (digits + ['.']) + t == digits + ['.'];
      TrimStops(digits, ['.'], '.');
      TrimPoint();
      assert digits + [] == digits;
    } else {
      var all := (digits + ['.']) + t;
      TrimStops(all, [], '.');
      TrimNothing();
      assert all + [] == all;
    }
  }

  lemma TrimPoint()
    ensures TrimEnd(['.'], '.') == []
  {
    assert ['.'][..0] == [];
  }

  lemma TrimNothing()
    ensures TrimEnd([], '.') == []
  {
  }

  /** The display of a size: as printed with eight places, without the zeros at the end and
      without a point that would be last. */
  lemma QtyShape(raw: i64) returns (minus: string, whole: string, fraction: string)
    ensures minus == "" || minus == "-"
    ensures AllDigits(whole) && whole != [] && AllDigits(fraction) && |fraction| <= 8
    ensures fraction == [] || fraction[|fraction| - 1] != '0'
    ensures TrimTrailingZeros(Format(raw, 8)) == minus + whole + (if fraction == [] then "" else "." + fraction)
  {
    hide Div, Mod, Digits, Fixed, Pow10, Printed, TrimTrailingZeros, Val, Rounded;
    var units := Units(raw, PLACES);
    whole := Digits(Div(units, Pow10(PLACES)));
    var all := Fixed(Mod(units, Pow10(PLACES)), PLACES);
    PrintedShape(raw < 0, units, PLACES);
    TrimmedShape(raw < 0 && units != 0, whole, all);
    TrimmedFraction(all);
    fraction := TrimEnd(all, '0');
    minus := if raw < 0 && units != 0 then "-" else "";
  }

  /** The display of a size, all eight places with trailing zeros dropped, reads back as the
      size for every value but the lowest. */
  lemma QtyRoundTrip(raw: i64)
    ensures Parse(TrimTrailingZeros(Format(raw, PLACES))) == Some(raw) <==> raw != I64_MIN
  {
    hide Div, Mod, Digits, Fixed, Pow10, Parse, Shape, Printed, TrimTrailingZeros, Val, Rounded;
    var units := Units(raw, PLACES);
    var minus := raw < 0 && units != 0;
    var whole, fraction := Digits(Div(units, Pow10(PLACES))), Fixed(Mod(units, Pow10(PLACES)), PLACES);
    PrintedShape(raw < 0, units, PLACES);
    TrimmedShape(minus, whole, fraction);
    TrimmedFraction(fraction);
    ShapeParses(minus, whole, TrimEnd(fraction, '0'), TrimEnd(fraction, '0') != []);
    ShapeParses(minus, whole, fraction, true);
    FormatRoundTrip(raw, PLACES);
  }
}
