/** Decimal text of 32-bit integers as the .NET runtime writes and reads
    it: `int.ToString()` (general format, with `-` as the negative sign) and
    `int.Parse(string)` with the default NumberStyles.Integer (leading and
    trailing white space, an optional leading sign, then decimal digits). */
module DecimalText {
  import opened Common

  predicate IsDigit(c: char) { '0' <= c <= '9' }

  predicate AllDigits(s: string) { forall i :: 0 <= i < |s| ==> IsDigit(s[i]) }

  /** White space as NumberStyles.AllowLeadingWhite/AllowTrailingWhite
      accept it: U+0009 to U+000D and U+0020. */
  predicate IsWhite(c: char) { c == ' ' || '\t' <= c <= '\r' }

  function DigitChar(d: nat): (c: char)
    requires d < 10
    ensures IsDigit(c)
  {
    ('0' as int + d) as char
  }

  /** The shortest decimal numeral of n: no sign, no leading zero. */
  function Digits(n: nat): (s: string)
    ensures |s| >= 1 && AllDigits(s)
    ensures n > 0 ==> s[0] != '0'
    ensures s[0] == '0' ==> s == "0"
    decreases n
  {
    if n < 10 then [DigitChar(n)] else Digits(n / 10) + [DigitChar(n % 10)]
  }

  /** `n.ToString()` for a C# integer. */
  function FormatInt(n: int): (s: string)
    ensures |s| >= 1
    ensures s[0] == '-' <==> n < 0
  {
    if n < 0 then "-" + Digits(-n) else Digits(n)
  }

  /** The general format writes a minus sign for a negative number and
      nothing for any other, then the digits without a leading zero:
      no `+`, no padding. */
  lemma FormatIntCanonical(n: int)
    ensures var d := if n < 0 then FormatInt(n)[1..] else FormatInt(n);
      && d != [] && AllDigits(d) && (d[0] == '0' ==> d == "0")
      && (n < 0 ==> FormatInt(n) == "-" + d)
  {
    if n < 0 {
      assert FormatInt(n)[1..] == Digits(-n);
    }
  }

  /** The number a string of decimal digits denotes. */
  function ValueOf(s: string): nat
    requires AllDigits(s)
    decreases |s|
  {
    if s == [] then 0 else ValueOf(s[..|s| - 1]) * 10 + (s[|s| - 1] as int - '0' as int)
  }

  /** `s.TrimStart()` restricted to the white space of IsWhite. */
  function TrimStart(s: string): (r: string)
    ensures |r| <= |s| && r == s[|s| - |r|..]
    ensures r != [] ==> !IsWhite(r[0])
    ensures forall i :: 0 <= i < |s| - |r| ==> IsWhite(s[i])
    decreases |s|
  {
    if s != [] && IsWhite(s[0]) then TrimStart(s[1..]) else s
  }

  function TrimEnd(s: string): (r: string)
    ensures |r| <= |s| && r == s[..|r|]
    ensures r != [] ==> !IsWhite(r[|r| - 1])
    ensures forall i :: |r| <= i < |s| ==> IsWhite(s[i])
    decreases |s|
  {
    if s != [] && IsWhite(s[|s| - 1]) then TrimEnd(s[..|s| - 1]) else s
  }

  /** FormatException and OverflowException of `int.Parse`. */
  datatype ParseError = FormatError | OverflowError

  /** The numeral after trimming: an optional sign, then decimal digits. */
  function ParseTrimmed(t: string): (r: Result<int32, ParseError>)
    ensures t == [] ==> r == Err(FormatError)
    ensures r.Ok? ==> t != [] && IsDigit(t[|t| - 1])
  {
    var signed := |t| > 0 && (t[0] == '-' || t[0] == '+');
    var body := if signed then t[1..] else t;
    if body == [] || !AllDigits(body) then Err(FormatError)
    else Signed(signed && t[0] == '-', ValueOf(body))
  }

  /** The value of a well-formed numeral with its sign applied, or an
      OverflowError outside the Int32 range. */
  function Signed(negative: bool, magnitude: nat): Result<int32, ParseError>
  {
    var v: int := if negative then -(magnitude as int) else magnitude;
    if MinInt32 <= v <= MaxInt32 then Ok(v) else Err(OverflowError)
  }

  /** `int.Parse(s)`: the malformed text is a FormatError, a well-formed
      numeral outside the Int32 range an OverflowError. */
  function ParseInt32(s: string): (r: Result<int32, ParseError>)
    ensures (forall i :: 0 <= i < |s| ==> IsWhite(s[i])) ==> r == Err(FormatError)
  {
    TrimStartOfWhite(s);
    ParseTrimmed(TrimEnd(TrimStart(s)))
  }

  /** A text `int.Parse` accepts holds at least one digit. */
  lemma ParsedHasDigit(s: string)
    requires ParseInt32(s).Ok?
    ensures exists i :: 0 <= i < |s| && IsDigit(s[i])
  {
    ParseNumeralExists(s);
    var i, j, k :| NumeralAt(s, i, j, k);
    assert IsDigit(s[j]);
  }

  /** Text made only of white space trims to nothing. */
  lemma TrimStartOfWhite(s: string)
    ensures (forall i :: 0 <= i < |s| ==> IsWhite(s[i])) ==> TrimStart(s) == []
  {
    var u := TrimStart(s);
    if u != [] {
      assert u[0] == s[|s| - |u|];
    }
  }

  /** Text that neither starts nor ends with white space is not trimmed. */
  lemma Unpadded(s: string)
    requires s != [] && !IsWhite(s[0]) && !IsWhite(s[|s| - 1])
    ensures TrimEnd(TrimStart(s)) == s
  {
    assert TrimStart(s) == s;
  }

  /** `s[a..b]` is all white space. */
  predicate WhiteBetween(s: string, a: int, b: int)
  {
    forall x :: 0 <= a <= x < b <= |s| ==> IsWhite(s[x])
  }

  /** `s[a..b]` is all decimal digits. */
  predicate DigitsBetween(s: string, a: int, b: int)
  {
    forall x :: 0 <= a <= x < b <= |s| ==> IsDigit(s[x])
  }

  /** The NumberStyles.Integer grammar, by position: white space `s[..i]`,
      an optional sign `s[i..j]`, a non-empty run of digits `s[j..k]`,
      then white space `s[k..]`. */
  ghost predicate NumeralAt(s: string, i: int, j: int, k: int)
  {
    && 0 <= i <= j < k <= |s|
    && WhiteBetween(s, 0, i) && WhiteBetween(s, k, |s|)
    && (j == i || (j == i + 1 && (s[i] == '+' || s[i] == '-')))
    && DigitsBetween(s, j, k)
  }

  /** White space up to position i and none at i: TrimStart drops exactly
      the first i characters. */
  lemma TrimStartAt(s: string, i: int)
    requires 0 <= i <= |s| && WhiteBetween(s, 0, i) && (i < |s| ==> !IsWhite(s[i]))
    ensures TrimStart(s) == s[i..]
  {
    var r := TrimStart(s);
    assert r != [] ==> r[0] == s[|s| - |r|];
    assert |r| == |s| - i;
  }

  /** White space from position k on and none just before it: TrimEnd
      keeps exactly the first k characters. */
  lemma TrimEndAt(s: string, k: int)
    requires 0 < k <= |s| && WhiteBetween(s, k, |s|) && !IsWhite(s[k - 1])
    ensures TrimEnd(s) == s[..k]
  {
    var r := TrimEnd(s);
    assert r != [] ==> r[|r| - 1] == s[|r| - 1];
  }

  /** White space at the end of a text stays white space after a prefix
      is dropped. */
  lemma WhiteAfterDrop(s: string, i: int, k: int)
    requires 0 <= i <= k <= |s| && WhiteBetween(s, k, |s|)
    ensures WhiteBetween(s[i..], k - i, |s| - i)
  {
    forall x | k - i <= x < |s| - i ensures IsWhite(s[i..][x]) {
      assert s[i..][x] == s[i + x];
    }
  }

  /** Dropping a prefix from a text that ends in white space after
      position k, and not just before it: TrimEnd keeps up to k. */
  lemma TrimEndAfterDrop(s: string, i: int, k: int)
    requires 0 <= i < k <= |s| && WhiteBetween(s, k, |s|) && !IsWhite(s[k - 1])
    ensures TrimEnd(s[i..]) == s[i..k]
  {
    var u := s[i..];
    WhiteAfterDrop(s, i, k);
    assert u[k - i - 1] == s[k - 1];
    TrimEndAt(u, k - i);
    assert u[..k - i] == s[i..k];
  }

  /** The two trims of a text that follows the grammar leave the sign and
      the digits. */
  lemma TrimNumeral(s: string, i: int, j: int, k: int)
    requires NumeralAt(s, i, j, k)
    ensures TrimEnd(TrimStart(s)) == s[i..k]
  {
    assert IsDigit(s[j]) && IsDigit(s[k - 1]);
    TrimStartAt(s, i);
    TrimEndAfterDrop(s, i, k);
  }

  /** An optional sign and then digits parse to the signed value of the
      digits. */
  lemma ParseSignThenDigits(t: string, m: int)
    requires 0 <= m < |t| && (m == 0 || (m == 1 && (t[0] == '+' || t[0] == '-')))
    requires DigitsBetween(t, m, |t|)
    ensures ParseTrimmed(t) == Signed(m == 1 && t[0] == '-', ValueOf(t[m..]))
  {
    assert AllDigits(t[m..]) by {
      forall x | 0 <= x < |t| - m ensures IsDigit(t[m..][x]) {
        assert t[m..][x] == t[m + x];
      }
    }
    if m == 0 {
      assert t[m..] == t;
    }
  }

  /** A sign and digits at positions i to k of a text parse, once cut
      out, to the signed value of the digits. */
  lemma ParseSignThenDigitsAt(s: string, i: int, j: int, k: int)
    requires 0 <= i <= j < k <= |s| && (j == i || (j == i + 1 && (s[i] == '+' || s[i] == '-')))
    requires DigitsBetween(s, j, k)
    ensures ParseTrimmed(s[i..k]) == Signed(j == i + 1 && s[i] == '-', ValueOf(s[j..k]))
  {
    var t := s[i..k];
    assert DigitsBetween(t, j - i, |t|) by {
      forall x | j - i <= x < |t| ensures IsDigit(t[x]) {
        assert t[x] == s[i + x];
      }
    }
    ParseSignThenDigits(t, j - i);
    assert t[j - i..] == s[j..k];
  }

  /** A text that follows the grammar parses to the signed value of its
      digits, or overflows. */
  lemma ParseNumeralAt(s: string, i: int, j: int, k: int)
    requires NumeralAt(s, i, j, k)
    ensures ParseInt32(s) == Signed(j == i + 1 && s[i] == '-', ValueOf(s[j..k]))
  {
    TrimNumeral(s, i, j, k);
    ParseSignThenDigitsAt(s, i, j, k);
  }

  /** A trimmed text that is not malformed is an optional sign, then
      digits. */
  lemma TrimmedDigits(t: string)
    requires ParseTrimmed(t) != Err(FormatError)
    ensures t != [] && (if t[0] == '-' || t[0] == '+' then 1 else 0) < |t|
    ensures DigitsBetween(t, if t[0] == '-' || t[0] == '+' then 1 else 0, |t|)
  {
    var m := if t[0] == '-' || t[0] == '+' then 1 else 0;
    forall x | m <= x < |t| ensures IsDigit(t[x]) {
      assert t[x] == t[m..][x - m];
    }
  }

  /** Where the two trims cut a text, with a sign and digits left
      between the cuts, the text follows the grammar. */
  lemma NumeralOfTrims(s: string, u: string, t: string, m: int)
    requires |u| <= |s| && u == s[|s| - |u|..] && forall x :: 0 <= x < |s| - |u| ==> IsWhite(s[x])
    requires |t| <= |u| && t == u[..|t|] && forall x :: |t| <= x < |u| ==> IsWhite(u[x])
    requires 0 <= m < |t| && (m == 0 || (m == 1 && (t[0] == '+' || t[0] == '-')))
    requires DigitsBetween(t, m, |t|)
    ensures NumeralAt(s, |s| - |u|, |s| - |u| + m, |s| - |u| + |t|)
  {
    var i := |s| - |u|;
    forall x | i + |t| <= x < |s| ensures IsWhite(s[x]) {
      assert s[x] == u[x - i];
    }
    forall x | i + m <= x < i + |t| ensures IsDigit(s[x]) {
      assert s[x] == u[x - i] == t[x - i];
    }
    assert s[i] == t[0];
  }

  /** A text that does not fail with a FormatError follows the grammar. */
  lemma ParseNumeralExists(s: string)
    requires ParseInt32(s) != Err(FormatError)
    ensures exists i, j, k :: NumeralAt(s, i, j, k)
  {
    var u := TrimStart(s);
    var t := TrimEnd(u);
    TrimmedDigits(t);
    var m := if t[0] == '-' || t[0] == '+' then 1 else 0;
    NumeralOfTrims(s, u, t, m);
  }

  /** `int.Parse` against the grammar: a FormatError exactly when the text
      does not follow it. Where it does, ParseNumeralAt gives the value. */
  lemma ParseInt32Grammar(s: string)
    ensures ParseInt32(s) == Err(FormatError) <==> forall i, j, k :: !NumeralAt(s, i, j, k)
  {
    forall i, j, k | NumeralAt(s, i, j, k)
      ensures ParseInt32(s) != Err(FormatError)
    {
      ParseNumeralAt(s, i, j, k);
    }
    if ParseInt32(s) != Err(FormatError) {
      ParseNumeralExists(s);
    }
  }

  /** Reading back the digits of n gives n. */
  lemma {:induction false} ValueOfDigits(n: nat)
    ensures ValueOf(Digits(n)) == n
    decreases n
  {
    if n >= 10 {
      var s := Digits(n);
      assert s[..|s| - 1] == Digits(n / 10);
      ValueOfDigits(n / 10);
    }
  }

  /** A run of digits parses to its value, or overflows. */
  lemma ParseUnsigned(d: string, n: nat)
    requires d != [] && AllDigits(d) && ValueOf(d) == n
    ensures ParseInt32(d) == if n <= MaxInt32 then Ok(n) else Err(OverflowError)
  {
    assert IsDigit(d[0]) && IsDigit(d[|d| - 1]);
    Unpadded(d);
  }

  /** A minus sign before a run of digits parses to the negated value, or
      overflows. */
  lemma ParseNegated(d: string, n: nat)
    requires d != [] && AllDigits(d) && ValueOf(d) == n
    ensures ParseInt32("-" + d) == if -(n as int) >= MinInt32 then Ok(-(n as int)) else Err(OverflowError)
  {
    var s := "-" + d;
    assert IsDigit(s[|s| - 1]) by { assert s[|s| - 1] == d[|d| - 1]; }
    Unpadded(s);
    assert ParseInt32(s) == ParseTrimmed(s);
    ParseMinus(d);
  }

  lemma ParseMinus(d: string)
    requires d != [] && AllDigits(d)
    ensures ParseTrimmed("-" + d) == if -(ValueOf(d) as int) >= MinInt32 then Ok(-(ValueOf(d) as int)) else Err(OverflowError)
  {
    assert ("-" + d)[1..] == d;
  }

  /** The text of a non-negative integer parses back to it, or
      overflows. */
  lemma ParseNonNegative(n: int)
    requires n >= 0
    ensures ParseInt32(FormatInt(n)) == if n <= MaxInt32 then Ok(n) else Err(OverflowError)
  {
    ValueOfDigits(n);
    ParseUnsigned(Digits(n), n);
  }

  /** The text of a negative integer, a minus sign before the digits of
      its magnitude, parses back to it, or overflows. */
  lemma ParseNegative(n: int)
    requires n < 0
    ensures ParseInt32(FormatInt(n)) == if MinInt32 <= n then Ok(n) else Err(OverflowError)
  {
    ValueOfDigits(-n);
    ParseNegated(Digits(-n), -n);
  }

  /** Parsing the text of any integer yields that integer when it fits in
      32 bits, and an overflow otherwise. */
  lemma ParseFormat(n: int)
    ensures MinInt32 <= n <= MaxInt32 ==> ParseInt32(FormatInt(n)) == Ok(n)
    ensures !(MinInt32 <= n <= MaxInt32) ==> ParseInt32(FormatInt(n)) == Err(OverflowError)
  {
    if n < 0 {
      ParseNegative(n);
    } else {
      ParseNonNegative(n);
    }
  }

  /** Round trip of identifiers: `int.Parse(n.ToString()) == n`. */
  lemma ParseFormatInt32(n: int32)
    ensures ParseInt32(FormatInt(n)) == Ok(n)
  {
    ParseFormat(n);
  }

  /** Distinct integers have distinct texts. */
  lemma FormatInjective(a: int32, b: int32)
    requires FormatInt(a) == FormatInt(b)
    ensures a == b
  {
    ParseFormatInt32(a);
    ParseFormatInt32(b);
  }

  /** A character that is not white space survives TrimStart, shifted
      by the number of characters trimmed. */
  lemma TrimStartKeeps(s: string, i: nat)
    requires i < |s| && !IsWhite(s[i])
    ensures |s| - |TrimStart(s)| <= i && TrimStart(s)[i - (|s| - |TrimStart(s)|)] == s[i]
  {
    var u := TrimStart(s);
    assert u == s[|s| - |u|..];
  }

  /** A character that is not white space survives TrimEnd in place. */
  lemma TrimEndKeeps(s: string, i: nat)
    requires i < |s| && !IsWhite(s[i])
    ensures i < |TrimEnd(s)| && TrimEnd(s)[i] == s[i]
  {
    var u := TrimEnd(s);
    assert u == s[..|u|];
  }

  /** A trimmed text holding a character that is neither a digit nor a
      sign is malformed. */
  lemma ParseTrimmedForeign(t: string, k: nat)
    requires k < |t| && !IsDigit(t[k]) && t[k] != '-' && t[k] != '+'
    ensures ParseTrimmed(t) == Err(FormatError)
  {
    if |t| > 0 && (t[0] == '-' || t[0] == '+') {
      assert t[1..][k - 1] == t[k];
    }
  }

  /** A character that is neither a digit, white space nor a sign makes
      the text malformed, wherever it stands. */
  lemma ParseRejectsForeignChar(s: string, i: nat)
    requires i < |s|
    requires !IsDigit(s[i]) && !IsWhite(s[i]) && s[i] != '-' && s[i] != '+'
    ensures ParseInt32(s) == Err(FormatError)
  {
    var k := i - (|s| - |TrimStart(s)|);
    TrimStartKeeps(s, i);
    TrimEndKeeps(TrimStart(s), k);
    ParseTrimmedForeign(TrimEnd(TrimStart(s)), k);
  }
}
