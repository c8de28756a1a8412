/**
 * District codes (UBIGEO): `astype(str)` followed by Python's `str.zfill(6)`
 * (app/estimation.py lines 28, 43 and 70).
 */
module Codes {

  /** Width every UBIGEO is padded to. */
  const CodeWidth: nat := 6

  /** A code cell as read from a file: an integer column (leading zeros lost) or a text column. */
  datatype RawCode = Num(n: int) | Text(s: string)

  predicate IsDigit(c: char) { '0' <= c <= '9' }

  predicate AllDigits(s: string) { forall i :: 0 <= i < |s| ==> IsDigit(s[i]) }

  function DigitChar(d: nat): (c: char)
    requires d < 10
    ensures IsDigit(c) && c as int - '0' as int == d
  {
    ('0' as int + d) as char
  }

  function Pow10(k: nat): (p: nat)
    ensures p >= 1
  {
    if k == 0 then 1 else 10 * Pow10(k - 1)
  }

  /** The number a string of decimal digits denotes. */
  function Value(s: string): nat
    requires AllDigits(s)
  {
    if s == [] then 0 else 10 * Value(s[..|s| - 1]) + (s[|s| - 1] as int - '0' as int)
  }

  /** `str(n)` for a non-negative integer: decimal digits, no leading zero. */
  function Decimal(n: nat): (r: string)
    ensures AllDigits(r) && |r| >= 1
    ensures Value(r) == n
    ensures |r| > 1 ==> r[0] != '0'
  {
    if n < 10 then [DigitChar(n)]
    else
      var r := Decimal(n / 10) + [DigitChar(n % 10)];
      assert r[..|r| - 1] == Decimal(n / 10);
      r
  }

  /**
   * `astype(str)` on a code cell: a text cell as it is; an integer in
   * decimal with no leading zero, after a minus sign when it is negative.
   */
  function AsStr(c: RawCode): (r: string)
    ensures c.Text? ==> r == c.s
    ensures c.Num? && c.n >= 0 ==> AllDigits(r) && Value(r) == c.n && (|r| > 1 ==> r[0] != '0')
    ensures c.Num? && c.n < 0 ==> |r| >= 2 && r[0] == '-' && AllDigits(r[1..]) && Value(r[1..]) == -c.n && (|r| > 2 ==> r[1] != '0')
  {
    match c
    case Num(n) =>
      if n < 0 then
        var d := Decimal(-n);
        assert ("-" + d)[1..] == d;
        "-" + d
      else Decimal(n)
    case Text(s) => s
  }

  predicate Signed(s: string) { |s| > 0 && (s[0] == '+' || s[0] == '-') }

  function Zeros(k: nat): (z: string)
    ensures |z| == k && forall i :: 0 <= i < k ==> z[i] == '0'
  {
    if k == 0 then [] else Zeros(k - 1) + ['0']
  }

  /**
   * Python's `s.zfill(width)`: strings at least `width` long are returned as
   * they are; shorter ones get `'0'`s on the left, after a leading sign if
   * there is one.
   */
  function Zfill(s: string, width: int): (r: string)
    ensures |r| == if |s| >= width then |s| else width
    ensures |s| >= width ==> r == s
    ensures |s| < width && !Signed(s) ==>
      r[|r| - |s|..] == s && forall i :: 0 <= i < |r| - |s| ==> r[i] == '0'
    ensures |s| < width && Signed(s) ==>
      r[0] == s[0] && r[|r| - |s| + 1..] == s[1..] && forall i :: 1 <= i <= |r| - |s| ==> r[i] == '0'
  {
    if |s| >= width then s
    else if Signed(s) then [s[0]] + Zeros(width - |s|) + s[1..]
    else Zeros(width - |s|) + s
  }

  /**
   * The normalised join key of a code cell, `astype(str).str.zfill(6)`: at
   * least six characters; a digit string denoting the same number when the
   * cell is a non-negative integer or a digit text; exactly six digits for
   * an integer below 10^6.
   */
  function NormalizeCode(c: RawCode): (r: string)
    ensures |r| >= CodeWidth
    ensures c.Num? && c.n >= 0 ==> AllDigits(r) && Value(r) == c.n
    ensures c.Text? && AllDigits(c.s) ==> AllDigits(r) && Value(r) == Value(c.s)
    ensures c.Num? && 0 <= c.n < Pow10(CodeWidth) ==> |r| == CodeWidth
  {
    NormalizeCodeFacts(c);
    Zfill(AsStr(c), CodeWidth)
  }

  lemma NormalizeCodeFacts(c: RawCode)
    ensures c.Num? && c.n >= 0 ==> AllDigits(Zfill(AsStr(c), CodeWidth)) && Value(Zfill(AsStr(c), CodeWidth)) == c.n
    ensures c.Text? && AllDigits(c.s) ==> AllDigits(Zfill(AsStr(c), CodeWidth)) && Value(Zfill(AsStr(c), CodeWidth)) == Value(c.s)
    ensures c.Num? && 0 <= c.n < Pow10(CodeWidth) ==> |Zfill(AsStr(c), CodeWidth)| == CodeWidth
  {
    if c.Num? && c.n >= 0 {
      var d := Decimal(c.n);
      ZfillKeepsValue(d, CodeWidth);
      if c.n < Pow10(CodeWidth) {
        DecimalLowerBound(c.n);
        Pow10Monotone(CodeWidth, |d| - 1);
      }
    } else if c.Text? && AllDigits(c.s) {
      ZfillKeepsValue(c.s, CodeWidth);
    }
  }

  /** Padding twice pads no further. */
  lemma ZfillIdempotent(s: string, width: int)
    ensures Zfill(Zfill(s, width), width) == Zfill(s, width)
  {
  }

  /** Leading zeros do not change the value of a digit string. */
  lemma {:induction false} LeadingZeros(k: nat, s: string)
    requires AllDigits(s)
    ensures AllDigits(Zeros(k) + s) && Value(Zeros(k) + s) == Value(s)
    decreases |s|
  {
    var t := Zeros(k) + s;
    assert AllDigits(t) by {
      forall i | 0 <= i < |t| ensures IsDigit(t[i]) {
        if i >= k { assert t[i] == s[i - k]; }
      }
    }
    if s == [] {
      assert t == Zeros(k);
      LeadingZerosOnly(k);
    } else {
      var p := s[..|s| - 1];
      LeadingZeros(k, p);
      assert t[..|t| - 1] == Zeros(k) + p;
    }
  }

  lemma {:induction false} LeadingZerosOnly(k: nat)
    ensures AllDigits(Zeros(k)) && Value(Zeros(k)) == 0
  {
    if k > 0 {
      LeadingZerosOnly(k - 1);
      assert Zeros(k)[..k - 1] == Zeros(k - 1);
    }
  }

  /** Zero-padding a digit string keeps it a digit string denoting the same number. */
  lemma ZfillKeepsValue(s: string, width: int)
    requires AllDigits(s)
    ensures AllDigits(Zfill(s, width)) && Value(Zfill(s, width)) == Value(s)
  {
    if |s| < width {
      LeadingZeros(width - |s|, s);
    }
  }

  /** A digit string of length k denotes a number below 10^k. */
  lemma {:induction false} ValueBound(s: string)
    requires AllDigits(s)
    ensures Value(s) < Pow10(|s|)
    decreases |s|
  {
    if s != [] {
      ValueBound(s[..|s| - 1]);
    }
  }

  /** A number written with k+1 > 1 digits is at least 10^k. */
  lemma {:induction false} DecimalLowerBound(n: nat)
    ensures |Decimal(n)| == 1 || Pow10(|Decimal(n)| - 1) <= n
    decreases n
  {
    if n >= 10 {
      DecimalLowerBound(n / 10);
      var k := |Decimal(n / 10)|;
      assert |Decimal(n)| == k + 1;
      assert Pow10(k) == 10 * Pow10(k - 1);
      assert Pow10(k - 1) <= n / 10;
      assert 10 * (n / 10) <= n;
    }
  }

  lemma {:induction false} Pow10Monotone(i: nat, j: nat)
    ensures i <= j ==> Pow10(i) <= Pow10(j)
    decreases j
  {
    if i < j {
      Pow10Monotone(i, j - 1);
    }
  }

  /** Digit strings of equal length and value are equal. */
  lemma {:induction false} DigitsInjective(s: string, t: string)
    requires AllDigits(s) && AllDigits(t) && |s| == |t| && Value(s) == Value(t)
    ensures s == t
    decreases |s|
  {
    if s != [] {
      var ps, pt := s[..|s| - 1], t[..|t| - 1];
      DigitsInjective(ps, pt);
      assert s == ps + [s[|s| - 1]] && t == pt + [t[|t| - 1]];
    }
  }

  /**
   * A non-negative integer code and a digit text of at most `CodeWidth`
   * characters with the same value normalise to the same key, so a code
   * read as a number in one table joins the same code read as text in the
   * other.
   */
  lemma CodesAgree(n: nat, t: string)
    requires AllDigits(t) && 1 <= |t| <= CodeWidth && Value(t) == n
    ensures NormalizeCode(Num(n)) == NormalizeCode(Text(t))
    ensures |NormalizeCode(Num(n))| == CodeWidth
  {
    var d := Decimal(n);
    ValueBound(t);
    DecimalLowerBound(n);
    Pow10Monotone(|t|, |d| - 1);
    assert |d| <= CodeWidth;
    ZfillKeepsValue(d, CodeWidth);
    ZfillKeepsValue(t, CodeWidth);
    DigitsInjective(Zfill(d, CodeWidth), Zfill(t, CodeWidth));
  }

  /** The codes of the worked examples: integer and text spellings meet at the same six-digit key. */
  lemma ExampleCodes()
    ensures NormalizeCode(Num(10101)) == "010101" && NormalizeCode(Num(10102)) == "010102"
    ensures NormalizeCode(Text("010101")) == "010101" && NormalizeCode(Text("010102")) == "010102"
  {
    Code10101();
    Code10102();
  }

  lemma Code10101()
    ensures NormalizeCode(Num(10101)) == "010101"
  {
    Decimal10101();
    PadOne("10101");
  }

  lemma Decimal10101()
    ensures Decimal(10101) == "10101"
  {
    assert Decimal(1) == "1" && Decimal(10) == "10" && Decimal(101) == "101" && Decimal(1010) == "1010";
  }

  lemma Code10102()
    ensures NormalizeCode(Num(10102)) == "010102"
  {
    Decimal10102();
    PadOne("10102");
  }

  lemma Decimal10102()
    ensures Decimal(10102) == "10102"
  {
    assert Decimal(1) == "1" && Decimal(10) == "10" && Decimal(101) == "101" && Decimal(1010) == "1010";
  }

  /** A five-character unsigned code gets one leading zero. */
  lemma PadOne(s: string)
    requires |s| == CodeWidth - 1 && !Signed(s)
    ensures Zfill(s, CodeWidth) == "0" + s
  {
    var r := Zfill(s, CodeWidth);
    assert r[1..] == s;
  }
}
