/** Hebrew numerals (gematria): `hebrew_number` in src/hdate/date.py. */
module Numerals {
  import opened Outcomes

  /** The numeral letter table: row 0 the ones, row 1 the tens, row 2 the
      hundreds, each indexed by its digit. Entry 0 of the tens row is the
      letter worth nine, used to spell 15 and 16 as 9 + 6 and 9 + 7. */
  datatype Digits = Digits(ones: seq<char>, tens: seq<char>, hundreds: seq<char>)

  predicate WellFormed(d: Digits) {
    |d.ones| == 10 && |d.tens| == 10 && |d.hundreds| == 5
  }

  // ---- The numeral as the source assembles it

  /** The thousands letter followed by an apostrophe and a space. */
  function Thousands(d: Digits, num: int): string
    requires WellFormed(d) && 0 <= num < 10000
  {
    if num >= 1000 then [d.ones[num / 1000]] + "' " else ""
  }

  /** k copies of the letter worth 400. */
  function FourHundreds(d: Digits, k: nat): string
    requires WellFormed(d)
  {
    seq(k, _ => d.hundreds[4])
  }

  function Hundreds(d: Digits, r: nat): string
    requires WellFormed(d) && r < 400
  {
    if r >= 100 then [d.hundreds[r / 100]] else ""
  }

  /** Tens and ones of a number below 100; 15 and 16 are first lowered by
      nine, so their tens letter is the tens row's entry 0. */
  function TensOnes(d: Digits, t: nat): string
    requires WellFormed(d) && t < 100
  {
    if t >= 10 then
      var u := if t == 15 || t == 16 then t - 9 else t;
      [d.tens[u / 10]] + (if u % 10 > 0 then [d.ones[u % 10]] else "")
    else if t > 0 then [d.ones[t]]
    else ""
  }

  /** The unpunctuated numeral. */
  function Body(d: Digits, num: int): string
    requires WellFormed(d) && 0 <= num < 10000
  {
    var m := num % 1000;
    Thousands(d, num) + FourHundreds(d, m / 400) + Hundreds(d, m % 400) + TensOnes(d, m % 400 % 100)
  }

  /** Geresh after a single letter, gershayim before the last one otherwise. */
  function Punctuate(s: string, short: bool): string {
    if short then s
    else if |s| < 2 then s + "'"
    else s[..|s| - 1] + "\"" + [s[|s| - 1]]
  }

  /** Takes the punctuation mark out again. */
  function Unpunctuate(t: string): string
    requires |t| >= 1
  {
    if |t| <= 2 then t[..|t| - 1] else t[..|t| - 2] + [t[|t| - 1]]
  }

  lemma PunctuateCases(s: string)
    ensures Punctuate(s, true) == s
    ensures |s| < 2 ==> Punctuate(s, false) == s + "'"
    ensures |s| >= 2 ==> Punctuate(s, false) == s[..|s| - 1] + "\"" + [s[|s| - 1]]
  {
  }

  lemma QuotientOf400(m: int, k: int, n: int)
    requires 0 <= n < 400 && n == m - 400 * k
    ensures k == m / 400 && n == m % 400
  {
  }

  /** The hundreds, tens and ones steps of `hebrew_number`. */
  method SpellBelow400(d: Digits, n0: nat) returns (s: string)
    requires WellFormed(d) && n0 < 400
    ensures s == Hundreds(d, n0) + TensOnes(d, n0 % 100)
  {
    var n := n0;
    s := "";
    if n >= 100 {
      s := s + [d.hundreds[n / 100]];
      n := n % 100;
    }
    assert s == Hundreds(d, n0) && n == n0 % 100;
    if n >= 10 {
      if n == 15 || n == 16 {
        n := n - 9;
      }
      s := s + [d.tens[n / 10]];
      n := n % 10;
    }
    if n > 0 {
      s := s + [d.ones[n]];
    }
  }

  /** `hebrew_number`. */
  method HebrewNumber(d: Digits, num: int, hebrew: bool, short: bool) returns (r: Result<string>)
    requires WellFormed(d)
    ensures !hebrew ==> r == Success(DecimalString(num))
    ensures hebrew && !(0 <= num < 10000) ==> r == Failure(NumberOutOfRange(num))
    ensures hebrew && 0 <= num < 10000 ==> r == Success(Punctuate(Body(d, num), short))
  {
    if !hebrew {
      return Success(DecimalString(num));
    }
    if !(0 <= num < 10000) {
      return Failure(NumberOutOfRange(num));
    }
    var hstring: string := "";
    var n := num;
    if n >= 1000 {
      hstring := hstring + [d.ones[n / 1000]];
      hstring := hstring + "' ";
      n := n % 1000;
    }
    ghost var m := n;
    ghost var k: nat := 0;
    while n >= 400
      invariant m == num % 1000
      invariant 0 <= n == m - 400 * k
      invariant hstring == Thousands(d, num) + FourHundreds(d, k)
    {
      assert FourHundreds(d, k) + [d.hundreds[4]] == FourHundreds(d, k + 1);
      hstring := hstring + [d.hundreds[4]];
      n := n - 400;
      k := k + 1;
    }
    QuotientOf400(m, k, n);
    var rest := SpellBelow400(d, n);
    hstring := hstring + rest;
    ghost var body := hstring;
    assert body == Body(d, num);
    PunctuateCases(body);
    if !short {
      if |hstring| < 2 {
        hstring := hstring + "'";
      } else {
        hstring := hstring[..|hstring| - 1] + "\"" + [hstring[|hstring| - 1]];
      }
    }
    assert hstring == Punctuate(body, short);
    r := Success(hstring);
  }

  // ---- Punctuation and the thousands prefix

  /** Punctuation adds exactly one mark: a geresh after a single letter,
      gershayim before the last letter otherwise; taking it out again gives
      the letters back. */
  lemma PunctuationMark(s: string)
    ensures Punctuate(s, true) == s
    ensures |Punctuate(s, false)| == |s| + 1
    ensures Unpunctuate(Punctuate(s, false)) == s
    ensures |s| < 2 ==> Punctuate(s, false)[|s|] == '\''
    ensures |s| >= 2 ==>
      Punctuate(s, false)[|s| - 1] == '"' && Punctuate(s, false)[|s|] == s[|s| - 1] &&
      Punctuate(s, false)[..|s| - 1] == s[..|s| - 1]
  {
    var t := Punctuate(s, false);
    if |s| >= 2 {
      assert t[..|t| - 2] == s[..|s| - 1];
      assert Unpunctuate(t) == s[..|s| - 1] + [s[|s| - 1]];
      assert s[..|s| - 1] + [s[|s| - 1]] == s;
    } else {
      assert t[..|t| - 1] == s;
    }
  }

  lemma BelowThousandNonEmpty(d: Digits, num: int)
    requires WellFormed(d) && 0 <= num < 10000 && num % 1000 != 0
    ensures |Body(d, num)| > |Thousands(d, num)|
  {
    var m := num % 1000;
    if m % 400 % 100 == 0 && m % 400 < 100 {
      assert m / 400 > 0;
    }
  }

  /** A number of 1000 or more starts with its thousands letter, a geresh and a
      space, unless punctuation is on and the number is a whole thousand. */
  lemma ThousandsPrefix(d: Digits, num: int, short: bool)
    requires WellFormed(d) && 1000 <= num < 10000 && (short || num % 1000 != 0)
    ensures |Punctuate(Body(d, num), short)| >= 3
    ensures Punctuate(Body(d, num), short)[..3] == [d.ones[num / 1000], '\'', ' ']
  {
    var b := Body(d, num);
    assert b[..3] == Thousands(d, num);
    if !short {
      BelowThousandNonEmpty(d, num);
      PunctuationMark(b);
      assert Punctuate(b, false)[..3] == b[..|b| - 1][..3];
    }
  }

  /** A whole thousand with punctuation gets the gershayim after the geresh and
      keeps the trailing space: 5000 is written as the letter for five, a
      geresh, gershayim and a space. */
  lemma ExactThousands(d: Digits, k: int)
    requires WellFormed(d) && 1 <= k <= 9
    ensures Punctuate(Body(d, 1000 * k), false) == [d.ones[k], '\'', '"', ' ']
    ensures Punctuate(Body(d, 1000 * k), true) == [d.ones[k], '\'', ' ']
  {
    var n := 1000 * k;
    assert n / 1000 == k && n % 1000 == 0;
    assert Thousands(d, n) == [d.ones[k], '\'', ' '];
    assert FourHundreds(d, 0) == [] && Hundreds(d, 0) == [] && TensOnes(d, 0) == [];
    assert Body(d, n) == [d.ones[k], '\'', ' '];
  }

  /** Zero has no letters: a lone geresh, or nothing when punctuation is off. */
  lemma ZeroNumeral(d: Digits)
    requires WellFormed(d)
    ensures Punctuate(Body(d, 0), false) == "'" && Punctuate(Body(d, 0), true) == ""
  {
    assert Body(d, 0) == "";
  }

  /** A number below ten is its ones letter followed by a geresh. */
  lemma SingleLetter(d: Digits, num: int)
    requires WellFormed(d) && 1 <= num < 10
    ensures Punctuate(Body(d, num), false) == [d.ones[num], '\'']
  {
    assert Body(d, num) == [d.ones[num]];
  }

  // ---- str(num): the decimal rendering used when `hebrew` is false

  predicate IsDigit(c: char) {
    '0' <= c <= '9'
  }

  predicate AllDigits(s: string) {
    forall i :: 0 <= i < |s| ==> IsDigit(s[i])
  }

  function DigitChar(v: int): (c: char)
    requires 0 <= v < 10
    ensures IsDigit(c) && c as int - '0' as int == v
  {
    (v + '0' as int) as char
  }

  function NatString(n: nat): (s: string)
    ensures |s| >= 1 && AllDigits(s)
  {
    if n < 10 then [DigitChar(n)] else NatString(n / 10) + [DigitChar(n % 10)]
  }

  function DecimalString(n: int): (s: string)
    ensures |s| >= 1
  {
    if n < 0 then "-" + NatString(-n) else NatString(n)
  }

  function NatValue(s: string): nat
    requires AllDigits(s)
  {
    if s == [] then 0 else 10 * NatValue(s[..|s| - 1]) + (s[|s| - 1] as int - '0' as int)
  }

  predicate IsDecimal(s: string) {
    if |s| > 0 && s[0] == '-' then AllDigits(s[1..]) else AllDigits(s)
  }

  function ParseDecimal(s: string): int
    requires IsDecimal(s)
  {
    if |s| > 0 && s[0] == '-' then -(NatValue(s[1..]) as int) else NatValue(s)
  }

  lemma {:induction false} NatStringRoundTrip(n: nat)
    ensures NatValue(NatString(n)) == n
  {
    if n >= 10 {
      NatStringRoundTrip(n / 10);
      var s := NatString(n);
      assert s[..|s| - 1] == NatString(n / 10);
    }
  }

  /** Reading the decimal rendering back gives the number. */
  lemma DecimalRoundTrip(n: int)
    ensures IsDecimal(DecimalString(n)) && ParseDecimal(DecimalString(n)) == n
  {
    if n < 0 {
      NatStringRoundTrip(-n);
      assert DecimalString(n)[1..] == NatString(-n);
    } else {
      NatStringRoundTrip(n);
    }
  }

}
