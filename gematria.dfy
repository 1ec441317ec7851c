/** What the letters produced by `hebrew_number` denote: each letter of the
    numeral table stands for a value. The thousands letter stands for its
    value in thousands; the letters after it add up to the rest of the
    number, never rise in value and never spell a divine name. */
module Gematria {
  import opened Numerals

  /** A letter of the numeral table, by row (0 ones, 1 tens, 2 hundreds) and index. */
  datatype Glyph = Glyph(row: nat, index: nat)

  predicate InTable(g: Glyph) {
    (g.row == 0 && g.index < 10) || (g.row == 1 && g.index < 10) || (g.row == 2 && g.index < 5)
  }

  predicate AllInTable(gs: seq<Glyph>) {
    forall i :: 0 <= i < |gs| ==> InTable(gs[i])
  }

  function Letter(d: Digits, g: Glyph): char
    requires WellFormed(d) && InTable(g)
  {
    if g.row == 0 then d.ones[g.index]
    else if g.row == 1 then d.tens[g.index]
    else d.hundreds[g.index]
  }

  /** The letters of a glyph sequence. */
  function Spell(d: Digits, gs: seq<Glyph>): (s: string)
    requires WellFormed(d) && AllInTable(gs)
    ensures |s| == |gs|
  {
    if gs == [] then "" else [Letter(d, gs[0])] + Spell(d, gs[1..])
  }

  /** The value of a letter; the tens row's entry 0 is the letter worth nine. */
  function Value(g: Glyph): nat {
    if g.row == 0 then g.index
    else if g.row == 1 then (if g.index == 0 then 9 else 10 * g.index)
    else 100 * g.index
  }

  function Sum(gs: seq<Glyph>): nat {
    if gs == [] then 0 else Value(gs[0]) + Sum(gs[1..])
  }

  const FourHundred := Glyph(2, 4)
  const Yod := Glyph(1, 1)
  const He := Glyph(0, 5)
  const Vav := Glyph(0, 6)

  function Repeat(g: Glyph, k: nat): (gs: seq<Glyph>)
    ensures |gs| == k && forall i :: 0 <= i < k ==> gs[i] == g
  {
    if k == 0 then [] else [g] + Repeat(g, k - 1)
  }

  function HundredsGlyphs(r: nat): seq<Glyph>
    requires r < 400
  {
    if r >= 100 then [Glyph(2, r / 100)] else []
  }

  function TensOnesGlyphs(t: nat): seq<Glyph>
    requires t < 100
  {
    if t >= 10 then
      var u := if t == 15 || t == 16 then t - 9 else t;
      [Glyph(1, u / 10)] + (if u % 10 > 0 then [Glyph(0, u % 10)] else [])
    else if t > 0 then [Glyph(0, t)]
    else []
  }

  /** The letters `hebrew_number` writes for the part of a number below 1000. */
  function UnitGlyphs(m: nat): (gs: seq<Glyph>)
    requires m < 1000
    ensures AllInTable(gs)
  {
    Repeat(FourHundred, m / 400) + HundredsGlyphs(m % 400) + TensOnesGlyphs(m % 400 % 100)
  }

  // ---- Spelling

  lemma {:induction false} SpellAppend(d: Digits, a: seq<Glyph>, b: seq<Glyph>)
    requires WellFormed(d) && AllInTable(a) && AllInTable(b)
    ensures AllInTable(a + b) && Spell(d, a + b) == Spell(d, a) + Spell(d, b)
  {
    if a == [] {
      assert a + b == b;
    } else {
      assert (a + b)[1..] == a[1..] + b;
      SpellAppend(d, a[1..], b);
    }
  }

  lemma {:induction false} SpellFourHundreds(d: Digits, k: nat)
    requires WellFormed(d)
    ensures Spell(d, Repeat(FourHundred, k)) == FourHundreds(d, k)
  {
    if k > 0 {
      SpellFourHundreds(d, k - 1);
      assert Repeat(FourHundred, k)[1..] == Repeat(FourHundred, k - 1);
    }
  }

  lemma SpellPieces(d: Digits, r: nat, t: nat)
    requires WellFormed(d) && r < 400 && t < 100
    ensures Spell(d, HundredsGlyphs(r)) == Hundreds(d, r)
    ensures Spell(d, TensOnesGlyphs(t)) == TensOnes(d, t)
  {
    if t >= 10 {
      var u := if t == 15 || t == 16 then t - 9 else t;
      if u % 10 > 0 {
        assert Spell(d, TensOnesGlyphs(t)) == [d.tens[u / 10]] + Spell(d, [Glyph(0, u % 10)]);
      }
    }
  }

  lemma SpellParts(d: Digits, k: nat, r: nat, t: nat)
    requires WellFormed(d) && r < 400 && t < 100
    ensures Spell(d, Repeat(FourHundred, k) + HundredsGlyphs(r) + TensOnesGlyphs(t))
         == FourHundreds(d, k) + Hundreds(d, r) + TensOnes(d, t)
  {
    var a := Repeat(FourHundred, k);
    var b := HundredsGlyphs(r);
    var c := TensOnesGlyphs(t);
    SpellFourHundreds(d, k);
    SpellPieces(d, r, t);
    SpellAppend(d, a, b);
    SpellAppend(d, a + b, c);
  }

  /** The string `hebrew_number` assembles (before punctuation) is the
      thousands prefix followed by the spelling of `UnitGlyphs`. */
  lemma BodySpells(d: Digits, num: int)
    requires WellFormed(d) && 0 <= num < 10000
    ensures Body(d, num) == Thousands(d, num) + Spell(d, UnitGlyphs(num % 1000))
  {
    var m := num % 1000;
    SpellParts(d, m / 400, m % 400, m % 400 % 100);
  }

  // ---- Value

  lemma {:induction false} SumAppend(a: seq<Glyph>, b: seq<Glyph>)
    ensures Sum(a + b) == Sum(a) + Sum(b)
  {
    if a == [] {
      assert a + b == b;
    } else {
      assert (a + b)[1..] == a[1..] + b;
      SumAppend(a[1..], b);
    }
  }

  lemma {:induction false} SumFourHundreds(k: nat)
    ensures Sum(Repeat(FourHundred, k)) == 400 * k
  {
    if k > 0 {
      SumFourHundreds(k - 1);
      assert Repeat(FourHundred, k)[1..] == Repeat(FourHundred, k - 1);
    }
  }

  /** 15 and 16 are written nine-and-six and nine-and-seven. */
  lemma FifteenSixteen(t: nat)
    requires t == 15 || t == 16
    ensures TensOnesGlyphs(t) == [Glyph(1, 0), Glyph(0, t - 9)]
    ensures Value(Glyph(1, 0)) + Value(Glyph(0, t - 9)) == t
  {
  }

  lemma TensOnesDenote(t: nat)
    requires t < 100
    ensures Sum(TensOnesGlyphs(t)) == t
  {
    if t >= 10 {
      var u := if t == 15 || t == 16 then t - 9 else t;
      assert Value(Glyph(1, u / 10)) + u % 10 == t;
      if u % 10 > 0 {
        assert TensOnesGlyphs(t) == [Glyph(1, u / 10), Glyph(0, u % 10)];
        assert Sum([Glyph(0, u % 10)]) == u % 10;
      } else {
        assert TensOnesGlyphs(t) == [Glyph(1, u / 10)];
      }
    } else if t > 0 {
      assert TensOnesGlyphs(t) == [Glyph(0, t)];
    }
  }

  lemma SumParts(k: nat, r: nat)
    requires r < 400
    ensures Sum(Repeat(FourHundred, k) + HundredsGlyphs(r) + TensOnesGlyphs(r % 100)) == 400 * k + r
  {
    var a := Repeat(FourHundred, k);
    var b := HundredsGlyphs(r);
    var c := TensOnesGlyphs(r % 100);
    SumFourHundreds(k);
    SumAppend(a, b);
    SumAppend(a + b, c);
    TensOnesDenote(r % 100);
    assert Sum(b) == 100 * (r / 100);
  }

  /** The letters written for the part of a number below 1000 add up to it. */
  lemma UnitGlyphsDenote(m: nat)
    requires m < 1000
    ensures Sum(UnitGlyphs(m)) == m
  {
    SumParts(m / 400, m % 400);
  }

  /** The whole numeral: from 1000 on, the ones letter of the thousands digit,
      a geresh and a space, then letters worth the rest; thousands letter
      and rest together give the number. */
  lemma NumeralDenotes(d: Digits, num: int)
    requires WellFormed(d) && 0 <= num < 10000
    ensures num >= 1000 ==>
              Body(d, num) == Spell(d, [Glyph(0, num / 1000)]) + "' " + Spell(d, UnitGlyphs(num % 1000))
    ensures num < 1000 ==> Body(d, num) == Spell(d, UnitGlyphs(num))
    ensures 1000 * (num / 1000) + Sum(UnitGlyphs(num % 1000)) == num
  {
    var k, m := num / 1000, num % 1000;
    assert 1000 * k + m == num;
    BodySpells(d, num);
    UnitGlyphsDenote(m);
    if num >= 1000 {
      ThousandsLetter(d, num, k);
    } else {
      assert m == num && Thousands(d, num) == "";
    }
  }

  lemma ThousandsLetter(d: Digits, num: int, k: int)
    requires WellFormed(d) && 1000 <= num < 10000 && k == num / 1000
    ensures Thousands(d, num) == Spell(d, [Glyph(0, k)]) + "' "
  {
    assert 1 <= k <= 9;
    assert Spell(d, [Glyph(0, k)]) == [d.ones[k]] + Spell(d, []);
  }

  /** Every letter is worth at least as much as the one after it. */
  predicate Descending(gs: seq<Glyph>) {
    forall i :: 0 <= i < |gs| - 1 ==> Value(gs[i]) >= Value(gs[i + 1])
  }

  lemma UnitGlyphsDescend(m: nat)
    requires m < 1000
    ensures Descending(UnitGlyphs(m))
  {
    var a := Repeat(FourHundred, m / 400);
    var b := HundredsGlyphs(m % 400);
    var c := TensOnesGlyphs(m % 400 % 100);
    var gs := a + b + c;
    forall i | 0 <= i < |gs| - 1
      ensures Value(gs[i]) >= Value(gs[i + 1])
    {
      if i + 1 < |a| {
        assert gs[i] == FourHundred && gs[i + 1] == FourHundred;
      } else if i + 1 < |a + b| {
        assert gs[i + 1] == b[i + 1 - |a|];
        assert Value(gs[i + 1]) < 400;
      } else {
        assert gs[i + 1] == c[i + 1 - |a + b|];
        assert Value(gs[i + 1]) < 100;
        if i >= |a + b| {
          assert gs[i] == c[i - |a + b|];
          assert i == |a + b| && |c| == 2;
        }
      }
    }
  }

  // ---- No divine name

  /** Letter `x` directly followed by letter `y` somewhere in `gs`. */
  predicate Follows(gs: seq<Glyph>, x: Glyph, y: Glyph) {
    exists i :: 0 <= i < |gs| - 1 && gs[i] == x && gs[i + 1] == y
  }

  lemma TensOnesAvoidName(t: nat)
    requires t < 100
    ensures !Follows(TensOnesGlyphs(t), Yod, He) && !Follows(TensOnesGlyphs(t), Yod, Vav)
  {
  }

  /** Yod (10) is never directly followed by he (5) or vav (6), so neither
      15 nor 16 spells a divine name. */
  lemma NoDivineName(m: nat)
    requires m < 1000
    ensures !Follows(UnitGlyphs(m), Yod, He) && !Follows(UnitGlyphs(m), Yod, Vav)
  {
    var p := Repeat(FourHundred, m / 400) + HundredsGlyphs(m % 400);
    var c := TensOnesGlyphs(m % 400 % 100);
    var gs := p + c;
    TensOnesAvoidName(m % 400 % 100);
    assert forall j :: 0 <= j < |p| ==> p[j].row == 2;
    forall i | 0 <= i < |gs| - 1 && gs[i] == Yod
      ensures gs[i + 1] != He && gs[i + 1] != Vav
    {
      if i >= |p| {
        assert gs[i] == c[i - |p|] && gs[i + 1] == c[i - |p| + 1];
      }
    }
  }
}
