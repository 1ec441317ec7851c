/** The Hebrew phrase counting the Omer: `get_omer_string` in src/hdate/date.py. */
module Omer {
  import opened Outcomes

  /** Word tables of `get_omer_string`: tens (index 0 unused) and ones. */
  const OmerTens: seq<string> := ["", "עשרה", "עשרים", "שלושים", "ארבעים"]
  const OmerOnes: seq<string> :=
    ["", "אחד", "שנים", "שלושה", "ארבעה", "חמשה", "ששה", "שבעה", "שמונה", "תשעה"]

  const Opening := "היום "
  const Closing := "לעומר"
  const Which := "שהם "

  predicate ValidDay(omer: int) {
    0 < omer < 50
  }

  // ---- The phrase, clause by clause

  /** A count of one to nine days, with its noun: the two smallest counts
      have fixed wordings. */
  function DaysCount(n: int): string
    requires 1 <= n <= 9
  {
    if n == 1 then "יום אחד "
    else if n == 2 then "שני ימים "
    else OmerOnes[n] + " ימים "
  }

  /** A count of one to seven weeks, with its noun. */
  function WeeksCount(w: int): string
    requires 1 <= w <= 7
  {
    if w == 1 then "שבוע אחד "
    else if w == 2 then "שני שבועות "
    else OmerOnes[w] + " שבועות "
  }

  /** The count of days since the Omer began. */
  function CountClause(omer: int): string
    requires ValidDay(omer)
  {
    if omer <= 9 then DaysCount(omer)
    else if omer == 10 then OmerTens[1] + " ימים "
    else if omer < 20 then OmerOnes[omer % 10] + " עשר" + " יום "
    else if omer % 10 == 0 then OmerTens[omer / 10] + " יום "
    else OmerOnes[omer % 10] + " ו" + OmerTens[omer / 10] + " יום "
  }

  /** The days left over after the whole weeks: none, or "and" and a count. */
  function DaysClause(days: int): string
    requires 0 <= days < 7
  {
    if days == 0 then "" else "ו" + DaysCount(days)
  }

  /** From the seventh day on: "which are" the whole weeks and the remaining days. */
  function WeeksClause(omer: int): string
    requires ValidDay(omer)
  {
    if omer > 6 then Which + WeeksCount(omer / 7) + DaysClause(omer % 7) else ""
  }

  function OmerPhrase(omer: int): string
    requires ValidDay(omer)
  {
    Opening + CountClause(omer) + WeeksClause(omer) + Closing
  }

  lemma Assoc(a: string, b: string, c: string)
    ensures a + b + c == a + (b + c)
  {
  }

  /** The first half of `get_omer_string`: appends the count of days to `s0`. */
  method AppendCount(s0: string, omer: int) returns (s: string)
    requires ValidDay(omer)
    ensures s == s0 + CountClause(omer)
  {
    var ten := omer / 10;
    var one := omer % 10;
    s := s0;
    ghost var lead := "";
    if 10 < omer < 20 {
      s := s + (OmerOnes[one] + " עשר");
      lead := OmerOnes[one] + " עשר";
    } else if omer > 9 {
      s := s + OmerOnes[one];
      lead := OmerOnes[one];
      if one != 0 {
        Assoc(s0, lead, " ו");
        s := s + " ו";
        lead := lead + " ו";
      }
    } else {
      assert s == s0 + lead;
    }
    ghost var mid := "";
    ghost var afterLead := s;
    if omer > 2 {
      if omer > 20 || omer == 10 || omer == 20 {
        s := s + OmerTens[ten];
        mid := OmerTens[ten];
      }
      Assoc(afterLead, mid, if omer < 11 then OmerOnes[one] + " ימים " else " יום ");
      if omer < 11 {
        s := s + (OmerOnes[one] + " ימים ");
        mid := mid + (OmerOnes[one] + " ימים ");
      } else {
        s := s + " יום ";
        mid := mid + " יום ";
      }
    } else if omer == 1 {
      s := s + "יום אחד ";
      mid := "יום אחד ";
    } else {
      s := s + "שני ימים ";
      mid := "שני ימים ";
    }
    Assoc(s0, lead, mid);
    if omer <= 9 {
      assert lead + mid == DaysCount(omer);
    } else if omer == 10 {
      assert lead + mid == OmerTens[1] + " ימים ";
    } else if omer < 20 {
      assert lead + mid == OmerOnes[one] + " עשר" + " יום ";
    } else if one == 0 {
      assert lead + mid == OmerTens[ten] + " יום ";
    } else {
      assert lead + mid == OmerOnes[one] + " ו" + OmerTens[ten] + " יום ";
    }
  }

  /** The second half of `get_omer_string`: from the seventh day on, appends
      the whole weeks and the remaining days to `s0`. */
  method AppendWeeks(s0: string, omer: int) returns (s: string)
    requires ValidDay(omer)
    ensures s == s0 + WeeksClause(omer)
  {
    s := s0;
    if omer > 6 {
      s := s + Which;
      var weeks := omer / 7;
      var days := omer % 7;
      if weeks > 2 {
        s := s + (OmerOnes[weeks] + " שבועות ");
      } else if weeks == 1 {
        s := s + "שבוע אחד ";
      } else {
        s := s + "שני שבועות ";
      }
      assert s == s0 + Which + WeeksCount(weeks);
      ghost var withWeeks := s;
      if days != 0 {
        s := s + "ו";
        if days > 2 {
          s := s + (OmerOnes[days] + " ימים ");
        } else if days == 1 {
          s := s + "יום אחד ";
        } else {
          s := s + "שני ימים ";
        }
        Assoc(withWeeks, "ו", DaysCount(days));
      }
      assert s == withWeeks + DaysClause(days);
      Assoc(s0, Which, WeeksCount(weeks));
      Assoc(s0, Which + WeeksCount(weeks), DaysClause(days));
    } else {
      assert s == s0 + "";
    }
  }

  /** `get_omer_string`. */
  method GetOmerString(omer: int) returns (r: Result<string>)
    ensures !ValidDay(omer) ==> r == Failure(InvalidOmerDay(omer))
    ensures ValidDay(omer) ==> r == Success(OmerPhrase(omer))
  {
    if !(0 < omer < 50) {
      return Failure(InvalidOmerDay(omer));
    }
    var s := Opening;
    s := AppendCount(s, omer);
    s := AppendWeeks(s, omer);
    s := s + Closing;
    r := Success(s);
  }

  // ---- What the phrase says

  /** Every phrase opens with "today is" and closes with "of the Omer". */
  lemma PhraseFrame(omer: int)
    requires ValidDay(omer)
    ensures |OmerPhrase(omer)| > |Opening| + |Closing|
    ensures OmerPhrase(omer)[..|Opening|] == Opening
    ensures OmerPhrase(omer)[|OmerPhrase(omer)| - |Closing|..] == Closing
  {
    var p := OmerPhrase(omer);
    var middle := CountClause(omer) + WeeksClause(omer);
    Assoc(Opening, CountClause(omer), WeeksClause(omer));
    Assoc(Opening, middle, Closing);
    assert p == Opening + (middle + Closing);
    assert |CountClause(omer)| > 0;
  }

  /** The "which are" clause is present exactly from the seventh day on, and
      then names omer div 7 weeks and, exactly when omer mod 7 is not zero,
      the remaining days. */
  lemma WeeksClauseShape(omer: int)
    requires ValidDay(omer)
    ensures WeeksClause(omer) != "" <==> omer > 6
    ensures omer > 6 ==>
      WeeksClause(omer) == Which + WeeksCount(omer / 7) + DaysClause(omer % 7) &&
      (DaysClause(omer % 7) != "" <==> omer % 7 != 0)
    ensures omer <= 6 ==> OmerPhrase(omer) == Opening + DaysCount(omer) + Closing
  {
    if omer > 6 {
      assert |WeeksClause(omer)| >= |Which|;
    } else {
      assert Opening + DaysCount(omer) + "" == Opening + DaysCount(omer);
    }
  }

  /** Counts from two to ten take the plural noun for days, counts from
      eleven on the singular one; one day is "one day". */
  lemma DayNoun(omer: int)
    requires ValidDay(omer)
    ensures omer == 1 ==> CountClause(omer) == "יום אחד "
    ensures 2 <= omer <= 10 ==>
      CountClause(omer)[|CountClause(omer)| - |" ימים "|..] == " ימים "
    ensures 11 <= omer ==>
      CountClause(omer)[|CountClause(omer)| - |" יום "|..] == " יום "
  {
    var c := CountClause(omer);
    if 3 <= omer <= 9 {
      assert c == OmerOnes[omer] + " ימים ";
    } else if omer == 10 {
      assert c == OmerTens[1] + " ימים ";
    } else if omer >= 11 {
      var front := if omer < 20 then OmerOnes[omer % 10] + " עשר"
        else if omer % 10 == 0 then OmerTens[omer / 10]
        else OmerOnes[omer % 10] + " ו" + OmerTens[omer / 10];
      assert c == front + " יום ";
    }
  }

  /** The first two days have fixed wordings. */
  lemma FirstDays()
    ensures OmerPhrase(1) == "היום יום אחד לעומר"
    ensures OmerPhrase(2) == "היום שני ימים לעומר"
  {
  }

  /** Lag BaOmer: three-and-thirty days, which are four weeks and five days. */
  lemma ThirtyThird()
    ensures OmerPhrase(33)
         == Opening + "שלושה ושלושים יום " + (Which + "ארבעה שבועות " + "וחמשה ימים ") + Closing
  {
    assert CountClause(33) == "שלושה ושלושים יום ";
    assert WeeksCount(33 / 7) == "ארבעה שבועות ";
    assert DaysClause(33 % 7) == "וחמשה ימים ";
  }
}
