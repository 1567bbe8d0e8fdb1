/**
 * The HH:MM:SS arithmetic of closing a session: whole seconds split into
 * hours, minutes and seconds by division by 3600 and 60, formatted with
 * `f"{h:02}:{m:02}:{s:02}"`, stored into the `Time` column `total_duration`
 * and read back as `.hour`, `.minute`, `.second`.
 */
module DurationCodec {
  import opened Records
  import opened Ascii

  /** `hours * 3600 + minutes * 60 + seconds`: the seconds a stored total stands for. */
  function DecodeSeconds(t: Hms): (s: nat)
    ensures Canonical(t) ==> s / 3600 == t.hour && s % 3600 == t.minute * 60 + t.second
  {
    var s := t.hour * 3600 + t.minute * 60 + t.second;
    // The value is `s` either way; only a well-formed total needs the division fact.
    if Canonical(t) then
      DivMod3600(s, t.hour, t.minute * 60 + t.second);
      s
    else s
  }

  /** `total // 3600`, `(total % 3600) // 60`, `total % 60`. */
  function EncodeSeconds(total: nat): (t: Hms)
    ensures Canonical(t)
    ensures DecodeSeconds(t) == total
  {
    var t := Hms(total / 3600, (total % 3600) / 60, total % 60);
    SplitHour(total);
    t
  }

  /** The minutes and seconds left over after whole hours add up with them to the total. */
  lemma SplitHour(total: nat)
    ensures total % 3600 == ((total % 3600) / 60) * 60 + total % 60
  {
    var h, r := total / 3600, total % 3600;
    var m, s := r / 60, r % 60;
    assert total == h * 3600 + r;
    assert r == m * 60 + s;
    assert total == (h * 60 + m) * 60 + s;
    DivMod60(total, h * 60 + m, s);
  }

  /** Division by 60 has one quotient and one remainder. */
  lemma DivMod60(n: nat, q: nat, r: nat)
    requires r < 60 && n == q * 60 + r
    ensures n / 60 == q && n % 60 == r
  {
  }

  /** Division by 3600 has one quotient and one remainder. */
  lemma DivMod3600(n: nat, q: nat, r: nat)
    requires r < 3600 && n == q * 3600 + r
    ensures n / 3600 == q && n % 3600 == r
  {
  }

  /** Decoding and then encoding a stored total gives back the same hours, minutes and seconds. */
  lemma EncodeDecode(t: Hms)
    requires Canonical(t)
    ensures EncodeSeconds(DecodeSeconds(t)) == t
  {
    var n := DecodeSeconds(t);
    DivMod3600(n, t.hour, t.minute * 60 + t.second);
    DivMod60(t.minute * 60 + t.second, t.minute, t.second);
    assert n == (t.hour * 60 + t.minute) * 60 + t.second;
    DivMod60(n, t.hour * 60 + t.minute, t.second);
  }

  /** Two canonical totals that stand for the same seconds are the same value. */
  lemma DecodeInjective(t: Hms, u: Hms)
    requires Canonical(t) && Canonical(u)
    ensures DecodeSeconds(t) == DecodeSeconds(u) <==> t == u
  {
    if DecodeSeconds(t) == DecodeSeconds(u) {
      EncodeDecode(t);
      EncodeDecode(u);
    }
  }

  /** `str(n)`: the decimal numeral of `n`, without leading zeros. */
  function Decimal(n: nat): (s: string)
    ensures |s| >= 1 && AllDigits(s)
    ensures |s| == 1 <==> n < 10
    ensures n >= 10 ==> s[0] != '0'
  {
    if n < 10 then [DigitChar(n)]
    else Decimal(n / 10) + [DigitChar(n % 10)]
  }

  /** `f"{n:02}"`: the decimal numeral of `n`, zero-padded to at least two characters. */
  function Pad2(n: nat): (s: string)
    ensures |s| >= 2 && AllDigits(s)
    ensures n < 100 ==> |s| == 2
  {
    if n < 10 then ['0', DigitChar(n)] else Decimal(n)
  }

  /** `f"{h:02}:{m:02}:{s:02}"`. */
  function FormatHms(t: Hms): (s: string)
    ensures t.hour < 100 && Canonical(t) ==> |s| == 8 && s[2] == ':' && s[5] == ':'
  {
    Pad2(t.hour) + ":" + Pad2(t.minute) + ":" + Pad2(t.second)
  }

  /** The value of a string of decimal digits (leading zeros allowed). */
  function ParseDecimal(s: string): nat
    requires AllDigits(s)
  {
    if s == [] then 0
    else ParseDecimal(s[..|s| - 1]) * 10 + DigitValue(s[|s| - 1])
  }

  lemma {:induction false} ParseDecimalOfDecimal(n: nat)
    ensures ParseDecimal(Decimal(n)) == n
  {
    if n >= 10 {
      var s := Decimal(n);
      assert s[..|s| - 1] == Decimal(n / 10);
      ParseDecimalOfDecimal(n / 10);
    }
  }

  lemma {:induction false} ParseDecimalLeadingZero(s: string)
    requires AllDigits(s)
    ensures ParseDecimal(['0'] + s) == ParseDecimal(s)
  {
    if s != [] {
      var z := ['0'] + s;
      assert z[..|z| - 1] == ['0'] + s[..|s| - 1];
      assert z[|z| - 1] == s[|s| - 1];
      ParseDecimalLeadingZero(s[..|s| - 1]);
    }
  }

  /** Reading a zero-padded numeral gives back the number. */
  lemma ParseDecimalOfPad2(n: nat)
    ensures ParseDecimal(Pad2(n)) == n
  {
    if n < 10 {
      ParseDecimalLeadingZero(Decimal(n));
      assert Pad2(n) == ['0'] + Decimal(n);
    }
    ParseDecimalOfDecimal(n);
  }

  function IsColon(c: char): bool
  {
    c == ':'
  }

  /** A non-empty decimal field of a time literal. */
  predicate Numeral(s: string)
  {
    |s| > 0 && AllDigits(s)
  }

  /** The text before and after the first colon, if there is one. */
  function SplitAtColon(s: string): (r: Option<(string, string)>)
    ensures r.Some? ==> |r.value.0| + |r.value.1| < |s|
  {
    match First(s, IsColon)
    case None => None
    case Some(i) => Some((s[..i], s[i + 1..]))
  }

  /**
   * The column reading a literal `H:M:S` (three non-empty decimal fields
   * separated by colons, minute and second below 60) as a time value; any
   * other text is refused.
   */
  function ParseHms(s: string): (r: Option<Hms>)
    ensures r.Some? ==> Canonical(r.value)
  {
    match SplitAtColon(s)
    case None => None
    case Some(p) => ParseMinutesSeconds(p.0, p.1)
  }

  /** The rest of a literal after the hour field and its colon. */
  function ParseMinutesSeconds(h: string, rest: string): (r: Option<Hms>)
    ensures r.Some? ==> Canonical(r.value)
  {
    match SplitAtColon(rest)
    case None => None
    case Some(q) => HmsOfFields(h, q.0, q.1)
  }

  /** Three fields read as a time value, if each is a numeral and the minute and second are in range. */
  function HmsOfFields(h: string, m: string, sec: string): (r: Option<Hms>)
    ensures r.Some? ==> Canonical(r.value)
  {
    if Numeral(h) && Numeral(m) && Numeral(sec) then
      var t := Hms(ParseDecimal(h), ParseDecimal(m), ParseDecimal(sec));
      if Canonical(t) then Some(t) else None
    else None
  }

  /** The first colon of `a + ":" + b` is the one after `a` when `a` is all digits. */
  lemma SplitAfterDigits(a: string, b: string)
    requires AllDigits(a)
    ensures SplitAtColon(a + ":" + b) == Some((a, b))
  {
    var s := a + ":" + b;
    assert s[|a|] == ':';
    forall j | 0 <= j < |a| ensures !IsColon(s[j]) {
      assert s[j] == a[j];
    }
    FirstIsLeast(s, IsColon, |a|);
    assert s[..|a|] == a;
    assert s[|a| + 1..] == b;
  }

  /** A literal of three numerals separated by colons reads as those three numbers. */
  lemma ParseFields(a: string, b: string, c: string)
    requires Numeral(a) && Numeral(b) && Numeral(c)
    requires ParseDecimal(b) < 60 && ParseDecimal(c) < 60
    ensures ParseHms(a + ":" + (b + ":" + c)) == Some(Hms(ParseDecimal(a), ParseDecimal(b), ParseDecimal(c)))
  {
    ParseAfterHour(a, b + ":" + c);
    ParseAfterMinute(a, b, c);
  }

  lemma ParseAfterHour(h: string, rest: string)
    requires AllDigits(h)
    ensures ParseHms(h + ":" + rest) == ParseMinutesSeconds(h, rest)
  {
    SplitAfterDigits(h, rest);
  }

  lemma ParseAfterMinute(h: string, m: string, sec: string)
    requires AllDigits(m)
    ensures ParseMinutesSeconds(h, m + ":" + sec) == HmsOfFields(h, m, sec)
  {
    SplitAfterDigits(m, sec);
  }

  /** Writing a canonical total as `HH:MM:SS` and reading it back gives the same value. */
  lemma ParseFormat(t: Hms)
    requires Canonical(t)
    ensures ParseHms(FormatHms(t)) == Some(t)
  {
    ParseDecimalOfPad2(t.hour);
    ParseDecimalOfPad2(t.minute);
    ParseDecimalOfPad2(t.second);
    var h, m, sec := Pad2(t.hour), Pad2(t.minute), Pad2(t.second);
    assert FormatHms(t) == h + ":" + (m + ":" + sec);
    ParseFields(h, m, sec);
  }

  /** The stored total in seconds; an absent total counts as zero. */
  function TotalSeconds(o: Option<Hms>): nat
  {
    match o
    case None => 0
    case Some(t) => DecodeSeconds(t)
  }
}
