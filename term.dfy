/** Term normalizer: the short term code of a transcript line ("F24", "SP 19",
    "SI24") to the display name used as a term key ("Fall 2024"). */
module Term {
  import opened Text

  const UnknownTerm := "Unknown Term"

  /** The season word for a season code; other codes are kept as they are. */
  function SeasonName(season: string): string
  {
    if season == "F" then "Fall"
    else if season == "SP" then "Spring"
    else if season == "SI" then "Summer"
    else season
  }

  /** Length of the match of /^[A-Z]{1,2}/ (greedy), 0 when there is none. */
  function SeasonLength(c: string): (n: nat)
    ensures n <= 2 && n <= |c| && AllUpper(c[..n])
    ensures n > 0 <==> |c| > 0 && IsUpper(c[0])
    ensures n == 1 ==> |c| == 1 || !IsUpper(c[1])
  {
    if |c| >= 2 && IsUpper(c[0]) && IsUpper(c[1]) then 2
    else if |c| >= 1 && IsUpper(c[0]) then 1
    else 0
  }

  /** /\d{2}$/ finds a match. */
  predicate EndsWithTwoDigits(c: string)
  {
    |c| >= 2 && IsDigit(c[|c| - 2]) && IsDigit(c[|c| - 1])
  }

  /** Both matches the normalizer needs succeed on the space-free token. */
  predicate HasTermParts(c: string)
  {
    SeasonLength(c) > 0 && EndsWithTwoDigits(c)
  }

  /** A season part of a display name: one of the three season words, or an
      uppercase code of one or two letters that has no season word. */
  predicate IsSeasonLabel(x: string)
  {
    x == "Fall" || x == "Spring" || x == "Summer"
    || (1 <= |x| <= 2 && AllUpper(x) && x != "F" && x != "SP" && x != "SI")
  }

  /** "<season> 20<two digits>". */
  predicate IsTermName(r: string)
  {
    |r| >= 6 && r[|r| - 5..|r| - 2] == " 20" && IsDigit(r[|r| - 2]) && IsDigit(r[|r| - 1])
    && IsSeasonLabel(r[..|r| - 5])
  }

  /** convertTerm. `None` stands for any value that is not a string. */
  function ConvertTerm(termCode: Option<string>): (r: string)
    ensures termCode.None? || termCode.value == "" ==> r == UnknownTerm
    ensures termCode.Some? && termCode.value != "" && !HasTermParts(RemoveSpaces(termCode.value))
            ==> r == termCode.value
    ensures termCode.Some? && termCode.value != "" && HasTermParts(RemoveSpaces(termCode.value))
            ==> IsTermName(r) && r[|r| - 2..] == RemoveSpaces(termCode.value)[|RemoveSpaces(termCode.value)| - 2..]
  {
    match termCode
    case None => UnknownTerm
    case Some(t) =>
      if t == "" then UnknownTerm
      else
        var c := RemoveSpaces(t);
        var n := SeasonLength(c);
        if n == 0 || !EndsWithTwoDigits(c) then t
        else
          SeasonNameIsLabel(c[..n]);
          TermNameShape(SeasonName(c[..n]), c[|c| - 2..]);
          SeasonName(c[..n]) + " 20" + c[|c| - 2..]
  }

  /** The season part the normalizer produces is a season label. */
  lemma SeasonNameIsLabel(season: string)
    requires 1 <= |season| <= 2 && AllUpper(season)
    ensures IsSeasonLabel(SeasonName(season))
  {
  }

  /** A season label, " 20" and two digits make a display name that ends in
      those digits. */
  lemma TermNameShape(season: string, digits: string)
    requires IsSeasonLabel(season) && |digits| == 2 && IsDigit(digits[0]) && IsDigit(digits[1])
    ensures IsTermName(season + " 20" + digits)
    ensures (season + " 20" + digits)[|season| + 3..] == digits
  {
    var r := season + " 20" + digits;
    assert r[..|r| - 5] == season;
    assert r[|r| - 5..|r| - 2] == " 20";
  }

  /** Every token of the transcript grammar's term shape — one or two capitals,
      at most one whitespace character, two digits — takes the normal path: the
      whitespace is dropped, the letters give the season and the digits the year. */
  lemma GrammarTermConverted(letters: string, space: string, digits: string)
    requires 1 <= |letters| <= 2 && AllUpper(letters)
    requires |space| <= 1 && AllSpace(JsSpace, space)
    requires |digits| == 2 && AllDigits(digits)
    ensures ConvertTerm(Some(letters + space + digits)) == SeasonName(letters) + " 20" + digits
    ensures IsTermName(ConvertTerm(Some(letters + space + digits)))
  {
    TermTokenSpacesRemoved(letters, space, digits);
    var c := letters + digits;
    assert SeasonLength(c) == |letters|;
    assert c[..|letters|] == letters;
    assert c[|c| - 2..] == digits;
  }

  /** Dropping the whitespace of such a token leaves its letters and digits. */
  lemma TermTokenSpacesRemoved(letters: string, space: string, digits: string)
    requires AllUpper(letters) && AllSpace(JsSpace, space) && AllDigits(digits)
    ensures RemoveSpaces(letters + space + digits) == letters + digits
  {
    assert forall i :: 0 <= i < |letters| ==> !IsSpace(JsSpace, letters[i]) by {
      forall i | 0 <= i < |letters| ensures !IsSpace(JsSpace, letters[i]) {
        assert IsUpper(letters[i]);
      }
    }
    assert forall i :: 0 <= i < |digits| ==> !IsSpace(JsSpace, digits[i]) by {
      forall i | 0 <= i < |digits| ensures !IsSpace(JsSpace, digits[i]) {
        assert IsDigit(digits[i]);
      }
    }
    RemoveSpacesNone(letters);
    RemoveSpacesAll(space);
    RemoveSpacesNone(digits);
    RemoveSpacesConcat(letters, space);
    assert RemoveSpaces(letters + space) == letters + [];
    assert letters + [] == letters;
    RemoveSpacesConcat(letters + space, digits);
  }
}
