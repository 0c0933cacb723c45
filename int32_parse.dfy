/**
 * int.TryParse with the default number style (leading and trailing white
 * space, an optional leading sign, decimal digits) and invariant-culture
 * signs, together with the decimal formatting it inverts.
 */
module Int32Parse {
  import opened Options
  import opened Text

  const MinInt32: int := -0x8000_0000
  const MaxInt32: int := 0x7FFF_FFFF

  /** The white space the integer style admits around the number: U+0009 to U+000D and U+0020. */
  predicate IsNumberWhite(c: char) {
    '\t' <= c <= '\r' || c == ' '
  }

  predicate IsDigit(c: char) {
    '0' <= c <= '9'
  }

  predicate AllDigits(s: string) {
    forall k :: 0 <= k < |s| ==> IsDigit(s[k])
  }

  /** The value of a string of decimal digits, most significant first; leading zeros are allowed. */
  function DigitsValue(ds: string): nat
    requires AllDigits(ds)
  {
    if ds == [] then 0 else DigitsValue(ds[..|ds| - 1]) * 10 + (ds[|ds| - 1] as int - '0' as int)
  }

  /** int.TryParse: Some(value) exactly when the text is a decimal integer within the Int32 range. */
  function ParseInt32(s: string): (r: Option<int>)
    ensures r.Some? ==> MinInt32 <= r.value <= MaxInt32
  {
    ParseSigned(TrimEnd(TrimStart(s, IsNumberWhite), IsNumberWhite))
  }

  /** The number once the surrounding white space is gone: an optional sign, then at least one digit. */
  function ParseSigned(t: string): Option<int> {
    var signed := |t| > 0 && (t[0] == '-' || t[0] == '+');
    var digits := if signed then t[1..] else t;
    if digits != [] && AllDigits(digits) then
      var magnitude: int := DigitsValue(digits);
      var v := if signed && t[0] == '-' then -magnitude else magnitude;
      if MinInt32 <= v <= MaxInt32 then Some(v) else None
    else
      None
  }

  function DigitChar(d: nat): char
    requires d < 10
  {
    ('0' as int + d) as char
  }

  /** The shortest decimal digits of n. */
  function NatDigits(n: nat): (ds: string)
    ensures ds != [] && AllDigits(ds)
    decreases n
  {
    if n < 10 then [DigitChar(n)] else NatDigits(n / 10) + [DigitChar(n % 10)]
  }

  /** int.ToString in the invariant culture: a minus sign exactly for negative numbers, then digits. */
  function FormatInt32(x: int): (r: string)
    ensures r != [] && (r[0] == '-' <==> x < 0)
    ensures forall k :: (if x < 0 then 1 else 0) <= k < |r| ==> IsDigit(r[k])
  {
    if x < 0 then "-" + NatDigits(-x) else NatDigits(x)
  }

  lemma {:induction false} NatDigitsValue(n: nat)
    ensures DigitsValue(NatDigits(n)) == n
    decreases n
  {
    if n >= 10 {
      NatDigitsValue(n / 10);
      var ds := NatDigits(n);
      assert ds[..|ds| - 1] == NatDigits(n / 10);
    }
  }

  /** Parsing the decimal text of an Int32 gives that Int32 back. */
  lemma ParseFormatRoundTrip(x: int)
    requires MinInt32 <= x <= MaxInt32
    ensures ParseInt32(FormatInt32(x)) == Some(x)
  {
    var s := FormatInt32(x);
    NoNumberWhiteAtEnds(s);
    var magnitude := if x < 0 then -x else x;
    var ds := NatDigits(magnitude);
    NatDigitsValue(magnitude);
    if x < 0 {
      assert s[1..] == ds;
      assert s[0] == '-';
    } else {
      assert s == ds;
    }
  }

  /** The decimal text of a number outside the Int32 range does not parse: int.TryParse reports overflow. */
  lemma ParseRejectsOutOfRange(x: int)
    requires x < MinInt32 || MaxInt32 < x
    ensures ParseInt32(FormatInt32(x)) == None
  {
    var s := FormatInt32(x);
    NoNumberWhiteAtEnds(s);
    var magnitude := if x < 0 then -x else x;
    var ds := NatDigits(magnitude);
    NatDigitsValue(magnitude);
    if x < 0 {
      assert s[1..] == ds;
      assert s[0] == '-';
    } else {
      assert s == ds;
    }
  }

  lemma NoNumberWhiteAtEnds(s: string)
    requires s != [] && !IsNumberWhite(s[0]) && !IsNumberWhite(s[|s| - 1])
    ensures TrimEnd(TrimStart(s, IsNumberWhite), IsNumberWhite) == s
  {
    assert TrimStart(s, IsNumberWhite) == s;
  }

  /** Text without a decimal digit never parses, so it never reaches the setting it was meant for. */
  lemma ParseNeedsDigit(s: string)
    requires forall k :: 0 <= k < |s| ==> !IsDigit(s[k])
    ensures ParseInt32(s) == None
  {
    var t := TrimEnd(TrimStart(s, IsNumberWhite), IsNumberWhite);
    var u := TrimStart(s, IsNumberWhite);
    if t != [] {
      assert t[0] == u[0] == s[|s| - |u|];
      assert t[|t| - 1] == u[|t| - 1] == s[|s| - |u| + |t| - 1];
    }
  }

  lemma TrimStartSkipsWhite(w: string, s: string)
    requires forall k :: 0 <= k < |w| ==> IsNumberWhite(w[k])
    requires s != [] && !IsNumberWhite(s[0])
    ensures TrimStart(w + s, IsNumberWhite) == s
  {
    var ws := w + s;
    var r := TrimStart(ws, IsNumberWhite);
    assert ws[|w|] == s[0];
    assert |r| == |s|;
    assert ws[|w|..] == s;
  }

  lemma {:induction false} TrimEndSkipsWhite(s: string, w: string)
    requires forall k :: 0 <= k < |w| ==> IsNumberWhite(w[k])
    requires s != [] && !IsNumberWhite(s[|s| - 1])
    ensures TrimEnd(s + w, IsNumberWhite) == s
    decreases |w|
  {
    if w != [] {
      assert (s + w)[..|s + w| - 1] == s + w[..|w| - 1];
      TrimEndSkipsWhite(s, w[..|w| - 1]);
    } else {
      assert s + w == s;
    }
  }

  /** White space of the integer style around the text does not change what it parses to. */
  lemma ParseIgnoresSurroundingWhite(before: string, s: string, after: string)
    requires forall k :: 0 <= k < |before| ==> IsNumberWhite(before[k])
    requires forall k :: 0 <= k < |after| ==> IsNumberWhite(after[k])
    requires s != [] && !IsNumberWhite(s[0]) && !IsNumberWhite(s[|s| - 1])
    ensures ParseInt32(before + s + after) == ParseInt32(s)
  {
    NoNumberWhiteAtEnds(s);
    assert before + s + after == before + (s + after);
    TrimStartSkipsWhite(before, s + after);
    TrimEndSkipsWhite(s, after);
  }

  lemma {:induction false} LeadingZeroValue(ds: string)
    requires AllDigits(ds)
    ensures AllDigits("0" + ds) && DigitsValue("0" + ds) == DigitsValue(ds)
    decreases |ds|
  {
    if ds != [] {
      var zs := "0" + ds;
      assert zs[..|zs| - 1] == "0" + ds[..|ds| - 1];
      LeadingZeroValue(ds[..|ds| - 1]);
    }
  }

  /** A plus sign and leading zeros before the digits of a non-negative Int32 still give that value. */
  lemma ParseAcceptsPlusAndZero(x: nat)
    requires x <= MaxInt32
    ensures ParseInt32("+0" + NatDigits(x)) == Some(x)
  {
    var ds := NatDigits(x);
    var s := "+0" + ds;
    NoNumberWhiteAtEnds(s);
    LeadingZeroValue(ds);
    NatDigitsValue(x);
    assert s[1..] == "0" + ds;
    ParsePlusSigned(s);
  }

  lemma ParsePlusSigned(t: string)
    requires |t| >= 2 && t[0] == '+' && AllDigits(t[1..]) && DigitsValue(t[1..]) <= MaxInt32
    ensures ParseSigned(t) == Some(DigitsValue(t[1..]))
  {
  }
}
