/** `custom_flag`: the post-hoc quality check of a parsed row, an ordered
    classifier whose first rule that fires decides the label. */
module QualityFlag {
  import opened Wrappers
  import opened Text
  import opened Locations

  /** The seven outcomes of the check, in rule order. */
  datatype Flag =
    | PoBox              // rule 1
    | LinesSwapped       // rule 2
    | StartsWithLetter   // rule 3
    | SpecialCharacters  // rule 4
    | BadStateFormat     // rule 5
    | Incomplete         // rule 6
    | Success

  /** The text written to the `flag` column. */
  function Label(f: Flag): string {
    match f
    case PoBox => "FAILED DUE TO PO BOX ADDRESS"
    case LinesSwapped => "FAILED DUE TO STREET ADDRESS IN LINE_1 IS FLIPPED WITH LINE_2"
    case StartsWithLetter => "FAILED DUE TO STREET ADDRESS STARTS WITH LETTER"
    case SpecialCharacters => "FAILED DUE TO PRESENCE OF SPECIAL CHARACTERS"
    case BadStateFormat => "FAILED DUE TO INCORRECT STATE FORMAT"
    case Incomplete => "FAILED DUE TO INCOMPLETE PARSING"
    case Success => "SUCCESSFUL ADDRESS"
  }

  /** Rule 1: "PO" or "P.O." anywhere in `str(address_1)`, case-sensitively. */
  predicate MentionsPoBox(a: string) {
    Contains(a, "PO") || Contains(a, "P.O.")
  }

  /** Rule 2: the line starts with "APT" or "SUITE", ignoring case. */
  predicate StartsWithUnit(a: string) {
    StartsCi(a, "apt") || StartsCi(a, "suite")
  }

  /** Rule 4: a character that is neither alphanumeric nor white space. */
  predicate HasSpecial(a: string) {
    exists i | 0 <= i < |a| :: !IsAlnum(a[i]) && !IsSpace(a[i])
  }

  /** A street line that passes rules 2 to 4. */
  predicate StreetOk(a: string) {
    a != [] && !StartsWithUnit(a) && IsDigit(a[0]) && !HasSpecial(a)
  }

  /** Rule 6: one of `address_1`, `city`, `state`, `zip` is null; a list in
      `state` is not null, even an empty one. */
  predicate HasNull(x: Location) {
    x.address1.None? || x.city.None? || x.state.Missing? || x.zip.None?
  }

  /** `custom_flag(x)`. Rule 1 reads `str(address_1)`; rule 2 hands the raw
      cell to `re.match`, which refuses NaN; rule 3 indexes its first
      character; rule 5 takes `len` of `state_abbr`, which NaN lacks. */
  function CustomFlag(x: Location): (r: Result<Flag, Failure>)
    ensures r == Ok(PoBox) <==> MentionsPoBox(CellText(x.address1))
    ensures r == Ok(LinesSwapped) <==>
      !MentionsPoBox(CellText(x.address1)) && x.address1.Some? && StartsWithUnit(x.address1.value)
    ensures r == Err(IndexError) <==>
      !MentionsPoBox(CellText(x.address1)) && x.address1 == Some("")
    ensures r == Ok(StartsWithLetter) <==>
      && !MentionsPoBox(CellText(x.address1)) && x.address1.Some?
      && x.address1.value != [] && !StartsWithUnit(x.address1.value)
      && !IsDigit(x.address1.value[0])
    ensures r == Ok(SpecialCharacters) <==>
      && !MentionsPoBox(CellText(x.address1)) && x.address1.Some?
      && x.address1.value != [] && !StartsWithUnit(x.address1.value)
      && IsDigit(x.address1.value[0]) && HasSpecial(x.address1.value)
    ensures r == Err(TypeError) <==>
      && !MentionsPoBox(CellText(x.address1))
      && (x.address1.None? || (StreetOk(x.address1.value) && x.stateAbbr.None?))
    ensures r == Ok(BadStateFormat) <==>
      && !MentionsPoBox(CellText(x.address1)) && x.address1.Some? && StreetOk(x.address1.value)
      && x.stateAbbr.Some? && |x.stateAbbr.value| > 2
    ensures r == Ok(Incomplete) <==>
      && !MentionsPoBox(CellText(x.address1)) && x.address1.Some? && StreetOk(x.address1.value)
      && x.stateAbbr.Some? && |x.stateAbbr.value| <= 2 && HasNull(x)
    ensures r == Ok(Success) <==>
      && !MentionsPoBox(CellText(x.address1)) && x.address1.Some? && StreetOk(x.address1.value)
      && x.stateAbbr.Some? && |x.stateAbbr.value| <= 2 && !HasNull(x)
  {
    if MentionsPoBox(CellText(x.address1)) then Ok(PoBox)
    else if x.address1.None? then Err(TypeError)
    else
      var a := x.address1.value;
      if StartsWithUnit(a) then Ok(LinesSwapped)
      else if a == [] then Err(IndexError)
      else if !IsDigit(a[0]) then Ok(StartsWithLetter)
      else if HasSpecial(a) then Ok(SpecialCharacters)
      else if x.stateAbbr.None? then Err(TypeError)
      else if |x.stateAbbr.value| > 2 then Ok(BadStateFormat)
      else if HasNull(x) then Ok(Incomplete)
      else Ok(Success)
  }

  /** Rule 1 is a plain substring test: a street named "Poplar" in capitals
      is taken for a PO box. */
  lemma PoplarIsPoBox(x: Location, a: string)
    requires a == "123 POPLAR AVE" && x.address1 == Some(a)
    ensures CustomFlag(x) == Ok(PoBox)
  {
    assert MatchAt(a, 4, "PO", false) by {
      assert a[4..6] == "PO";
    }
  }

  /** Title-casing turns "PO Box" into "Po Box", which rule 1 no longer sees;
      such a cleaned row fails only at rule 3. */
  lemma TitledPoBoxStartsWithLetter(x: Location, a: string)
    requires a == "Po Box 12" && x.address1 == Some(a)
    ensures CustomFlag(x) == Ok(StartsWithLetter)
  {
    assert 'O' !in a && '.' !in a;
    MissingCharAbsent(a, "PO", 1);
    MissingCharAbsent(a, "P.O.", 1);
    assert !StartsCi(a, "apt") by {
      assert a[0] == 'P';
    }
    assert !StartsCi(a, "suite") by {
      assert a[0] == 'P';
    }
  }

  /** A row whose state is a non-empty list of full names, with its
      `state_abbr` recomputed from it, never passes rule 5. */
  lemma MatchListNeverSucceeds(x: Location)
    requires x.state.Matches? && x.state.names != []
    requires x.stateAbbr == Some(StateAbbrOf(x.state))
    ensures CustomFlag(x) != Ok(Incomplete) && CustomFlag(x) != Ok(Success)
  {
    MatchListStateLong(x.state.names);
  }

  /** An empty list of full names is printed "[]", two characters, so rule 5
      lets it through, and rule 6 does not count a list as null: the row can
      be a success with no state at all. */
  lemma EmptyMatchListCanSucceed(x: Location)
    requires x.state == Matches([]) && x.stateAbbr == Some(StateAbbrOf(x.state))
    requires x.address1.Some? && StreetOk(x.address1.value)
    requires !MentionsPoBox(x.address1.value)
    requires x.city.Some? && x.zip.Some?
    ensures CustomFlag(x) == Ok(Success)
  {
    EmptyMatchListState();
  }

  /** The labels are pairwise different, so the `flag` column tells the rule;
      they even differ in length. */
  lemma LabelsDistinct(f: Flag, g: Flag)
    requires f != g
    ensures Label(f) != Label(g)
  {
    LabelLength(f);
    LabelLength(g);
  }

  /** The lengths of the labels, pairwise different. */
  function LabelWidth(f: Flag): nat {
    match f
    case PoBox => 28
    case LinesSwapped => 61
    case StartsWithLetter => 47
    case SpecialCharacters => 44
    case BadStateFormat => 36
    case Incomplete => 32
    case Success => 18
  }

  lemma LabelLength(f: Flag)
    ensures |Label(f)| == LabelWidth(f)
  {
  }
}
