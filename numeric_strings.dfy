/** PHP's numeric strings.  Outside strict typing, a string passed where
    a `float` is declared is accepted when it spells a number, and is
    converted to that number; any other string, and null, is a type
    error.  The numerals recognised here are an optional sign followed
    by decimal digits with at most one decimal point and at least one
    digit (`"2"`, `"-1.5"`, `".5"`, `"3."`). */
module NumericStrings {
  import opened Globals

  predicate IsDigit(c: char) {
    '0' <= c <= '9'
  }

  predicate AllDigits(s: string) {
    forall i :: 0 <= i < |s| ==> IsDigit(s[i])
  }

  /** The value of a run of decimal digits, most significant first. */
  function DigitsValue(s: string): (v: nat)
    requires AllDigits(s)
    decreases |s|
  {
    if s == [] then 0
    else DigitsValue(s[..|s| - 1]) * 10 + (s[|s| - 1] as int - '0' as int)
  }

  function Pow10(n: nat): (p: nat)
    ensures p >= 1
  {
    if n == 0 then 1 else 10 * Pow10(n - 1)
  }

  /** The position of the first decimal point, or `|s|` when there is
      none. */
  function DotIndex(s: string): (i: nat)
    ensures i <= |s|
    ensures i < |s| ==> s[i] == '.'
    ensures forall j :: 0 <= j < i ==> s[j] != '.'
    decreases |s|
  {
    if s == [] then 0
    else if s[0] == '.' then 0
    else 1 + DotIndex(s[1..])
  }

  /** The number written with whole part `whole` and fraction digits
      worth `fraction`, `places` of them. */
  function Decimal(whole: nat, fraction: nat, places: nat): (r: real)
    ensures r >= whole as real
  {
    whole as real + fraction as real / Pow10(places) as real
  }

  /** An unsigned numeral: digits, optionally followed by a point and
      more digits, with at least one digit in all. */
  function Unsigned(s: string): (r: Option<real>)
    ensures r.Some? ==> r.value >= 0.0
    ensures r.Some? ==> exists i :: 0 <= i < |s| && IsDigit(s[i])
  {
    var i := DotIndex(s);
    var whole := s[..i];
    if i == |s| then
      if whole != [] && AllDigits(whole) then
        assert IsDigit(s[0]);
        Some(DigitsValue(whole) as real)
      else None
    else
      var fraction := s[i + 1..];
      if AllDigits(whole) && AllDigits(fraction) && |whole| + |fraction| > 0 then
        assert if whole != [] then IsDigit(s[0]) else IsDigit(s[i + 1]);
        Some(Decimal(DigitsValue(whole), DigitsValue(fraction), |fraction|))
      else None
  }

  /** The number a string spells, if it is a numeral.  A numeral holds
      at least one digit, and its sign is the sign written. */
  function ParseNumeral(s: string): (r: Option<real>)
    ensures r.Some? ==> exists i :: 0 <= i < |s| && IsDigit(s[i])
    ensures r.Some? && s[0] == '-' ==> r.value <= 0.0
    ensures r.Some? && s[0] != '-' ==> r.value >= 0.0
  {
    if s != [] && (s[0] == '+' || s[0] == '-') then
      match Unsigned(s[1..])
      case None => None
      case Some(x) =>
        assert exists i :: 0 <= i < |s| - 1 && IsDigit(s[1..][i]);
        Some(if s[0] == '-' then -x else x)
    else Unsigned(s)
  }

  /** The number a value stands for where a `float` is expected: a number
      as it is, a numeral string as the number it spells; null and any
      other string stand for none. */
  function NumericValue(v: Value): (r: Option<real>)
    ensures v.Num? ==> r == Some(v.n)
    ensures v.Str? ==> r == ParseNumeral(v.s)
    ensures v.Null? ==> r.None?
  {
    match v
    case Num(n) => Some(n)
    case Str(s) => ParseNumeral(s)
    case Null => None
  }

  /** The decimal rendering of a natural number, without leading zeros. */
  function Render(n: nat): (s: string)
    decreases n
  {
    if n < 10 then [('0' as int + n) as char]
    else Render(n / 10) + [('0' as int + n % 10) as char]
  }

  lemma {:induction false} RenderIsDigits(n: nat)
    ensures Render(n) != [] && AllDigits(Render(n))
    ensures DigitsValue(Render(n)) == n
    decreases n
  {
    if n >= 10 {
      RenderIsDigits(n / 10);
      var s := Render(n);
      assert s[..|s| - 1] == Render(n / 10);
    }
  }

  /** Digits contain no decimal point. */
  lemma NoPointInDigits(s: string)
    requires AllDigits(s)
    ensures DotIndex(s) == |s|
  {
  }

  lemma AllDigitsAppend(w: string, f: string)
    requires AllDigits(w) && AllDigits(f)
    ensures AllDigits(w + f)
  {
    forall i | 0 <= i < |w + f| ensures IsDigit((w + f)[i]) {
      if i >= |w| { assert (w + f)[i] == f[i - |w|]; }
    }
  }

  /** A rendered number, with or without a minus sign, reads back as
      that number. */
  lemma RenderedNumeralRoundTrip(n: nat)
    ensures ParseNumeral(Render(n)) == Some(n as real)
    ensures NumericValue(Str(Render(n))) == Some(n as real)
    ensures ParseNumeral("-" + Render(n)) == Some(-(n as real))
  {
    RenderIsDigits(n);
    var s := Render(n);
    NoPointInDigits(s);
    assert s[..|s|] == s;
    assert Unsigned(s) == Some(n as real);
    assert IsDigit(s[0]);
    UnsignedStart(s);
  }

  /** One more digit at the end multiplies the value by ten and adds
      that digit. */
  lemma DigitsSnoc(s: string, c: char)
    requires AllDigits(s) && IsDigit(c)
    ensures AllDigits(s + [c])
    ensures DigitsValue(s + [c]) == DigitsValue(s) * 10 + (c as int - '0' as int)
  {
    AllDigitsAppend(s, [c]);
    assert (s + [c])[..|s|] == s;
  }

  /** Regrouping used by `DigitsAppend`: the leading value times
      `10 * p`, plus the tail with one more digit. */
  lemma ShiftArithmetic(a: int, b: int, p: int, d: int)
    ensures (a * p + b) * 10 + d == a * (10 * p) + (b * 10 + d)
  {
  }

  /** Appending digits scales the value of the leading ones by a power
      of ten. */
  lemma {:induction false} DigitsAppend(w: string, f: string)
    requires AllDigits(w) && AllDigits(f)
    ensures AllDigits(w + f)
    ensures DigitsValue(w + f) == DigitsValue(w) * Pow10(|f|) + DigitsValue(f)
    decreases |f|
  {
    AllDigitsAppend(w, f);
    if f == [] {
      assert w + f == w;
    } else {
      var init, c := f[..|f| - 1], f[|f| - 1];
      assert AllDigits(init) && IsDigit(c);
      assert f == init + [c];
      assert w + f == (w + init) + [c];
      DigitsAppend(w, init);
      DigitsSnoc(w + init, c);
      DigitsSnoc(init, c);
      ShiftArithmetic(DigitsValue(w), DigitsValue(init), Pow10(|init|), c as int - '0' as int);
    }
  }

  /** In digits, a point and more text, the first point is the one
      right after the digits. */
  lemma DotAfterDigits(w: string, f: string)
    requires AllDigits(w)
    ensures DotIndex(w + "." + f) == |w|
  {
    assert (w + "." + f)[|w|] == '.';
  }

  /** Digits, a point and digits read as the whole part plus the
      fraction. */
  lemma UnsignedWithPoint(w: string, f: string)
    requires AllDigits(w) && AllDigits(f) && |w| + |f| > 0
    ensures Unsigned(w + "." + f) == Some(Decimal(DigitsValue(w), DigitsValue(f), |f|))
  {
    var s := w + "." + f;
    DotAfterDigits(w, f);
    var i := DotIndex(s);
    assert i == |w| && i < |s|;
    assert s[..i] == w;
    assert s[i + 1..] == f;
  }

  /** A decimal is its digits, read as one whole number, divided by ten
      to the number of places. */
  lemma DecimalScale(a: nat, b: nat, places: nat)
    ensures Decimal(a, b, places) == (a * Pow10(places) + b) as real / Pow10(places) as real
  {
    var ar, br, pr := a as real, b as real, Pow10(places) as real;
    assert (a * Pow10(places) + b) as real == ar * pr + br;
  }

  /** A numeral starting with a digit or a point carries no sign, and a
      leading minus negates it. */
  lemma UnsignedStart(u: string)
    requires u != [] && (IsDigit(u[0]) || u[0] == '.')
    ensures ParseNumeral(u) == Unsigned(u)
    ensures ParseNumeral("-" + u) == (if Unsigned(u).Some? then Some(-Unsigned(u).value) else None)
    ensures ParseNumeral("+" + u) == Unsigned(u)
  {
    assert ("-" + u)[1..] == u;
    assert ("+" + u)[1..] == u;
  }

  /** A numeral without a decimal point, leading zeros allowed, reads as
      the value of its digits; a leading plus keeps it and a leading
      minus negates it. */
  lemma {:induction false} WholeNumeral(w: string)
    requires AllDigits(w) && w != []
    ensures ParseNumeral(w) == Some(DigitsValue(w) as real)
    ensures ParseNumeral("+" + w) == Some(DigitsValue(w) as real)
    ensures ParseNumeral("-" + w) == Some(-(DigitsValue(w) as real))
  {
    NoPointInDigits(w);
    assert w[..|w|] == w;
    assert IsDigit(w[0]);
    UnsignedStart(w);
  }

  /** Digits, a point and digits read as all the digits, taken as one
      whole number, divided by ten to the number of fraction digits. */
  lemma UnsignedFraction(w: string, f: string)
    requires AllDigits(w) && AllDigits(f) && |w| + |f| > 0
    ensures AllDigits(w + f)
    ensures Unsigned(w + "." + f) == Some(DigitsValue(w + f) as real / Pow10(|f|) as real)
  {
    DigitsAppend(w, f);
    UnsignedWithPoint(w, f);
    DecimalScale(DigitsValue(w), DigitsValue(f), |f|);
  }

  /** The value of a numeral with a decimal point: its digits read as a
      whole number, divided by ten to the number of fraction digits;
      a leading minus sign negates it. */
  lemma FractionalNumeral(w: string, f: string)
    requires AllDigits(w) && AllDigits(f) && |w| + |f| > 0
    ensures AllDigits(w + f)
    ensures ParseNumeral(w + "." + f) == Some(DigitsValue(w + f) as real / Pow10(|f|) as real)
    ensures ParseNumeral("-" + w + "." + f) == Some(-(DigitsValue(w + f) as real / Pow10(|f|) as real))
    ensures ParseNumeral("+" + w + "." + f) == Some(DigitsValue(w + f) as real / Pow10(|f|) as real)
  {
    var s := w + "." + f;
    UnsignedFraction(w, f);
    var x := DigitsValue(w + f) as real / Pow10(|f|) as real;
    assert Unsigned(s) == Some(x);
    assert s[0] == (if w != [] then w[0] else '.');
    UnsignedStart(s);
    assert "-" + w + "." + f == "-" + s;
    assert "+" + w + "." + f == "+" + s;
  }
}
