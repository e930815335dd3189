/** The location frame of the address pipeline: one record per distinct address
    with the columns that the parsing steps read and write, and the per-row
    cleaning `OMOP_clean` applies after the tagger. */
module Locations {
  import opened Wrappers
  import opened Text
  import opened StateNames

  /** A `state` cell: NaN, a string, or the list of full-name matches that the
      fallback parser stores when a tail has neither an abbreviation nor a ZIP. */
  datatype StateCell = Missing | Value(name: string) | Matches(names: seq<string>)

  /** One row of the frame; `None` stands for NaN. */
  datatype Location = Location(
    source: Option<string>,     // the full address string (`location_source_value`)
    address1: Option<string>,
    address2: Option<string>,
    city: Option<string>,
    state: StateCell,
    zip: Option<string>,
    stateAbbr: Option<string>)

  /** A row with its index label. */
  datatype Entry = Entry(index: int, row: Location)

  /** `str(x)` of a cell: the text itself, or "nan" for NaN. */
  function CellText(c: Option<string>): (t: string)
    ensures c.Some? ==> t == c.value
    ensures c.None? ==> t == "nan"
  {
    match c
    case None => "nan"
    case Some(v) => v
  }

  /** `str(x)` of a state cell; a list is written the way Python prints it. */
  function StateText(c: StateCell): (t: string)
    ensures c.Missing? ==> t == "nan"
    ensures c.Value? ==> t == c.name
    ensures c.Matches? ==> t == ListRepr(c.names)
  {
    match c
    case Missing => "nan"
    case Value(n) => n
    case Matches(ns) => ListRepr(ns)
  }

  /** `multipleReplace(str(x).strip())`: the canonical state text of a cell,
      as computed both by the cleaning step and after the fallback parser. */
  function StateAbbrOf(c: StateCell): string {
    Canonical(Strip(StateText(c)))
  }

  /** `str(x).strip().title()`. */
  function TidyText(c: Option<string>): string {
    Title(Strip(CellText(c)))
  }

  /** A tidied text has no surrounding white space, every word capitalised,
      and the same letters up to case as the stripped cell text. */
  lemma TidyTextShape(c: Option<string>)
    ensures Stripped(TidyText(c))
    ensures Title(TidyText(c)) == TidyText(c)
    ensures Lower(TidyText(c)) == Lower(Strip(CellText(c)))
  {
    var s := Strip(CellText(c));
    TitleKeepsStripped(s);
    TitleIdempotent(s);
    TitleSameLower(s);
  }

  /** The per-row effect of `OMOP_clean`: `state_abbr` from the state,
      `address_1` and `city` tidied. The `address_2` expression tests
      `not np.NaN`, which is always false, so that column, like `state`, `zip`
      and the source, is kept as it was. */
  function CleanRow(x: Location): Location {
    x.(stateAbbr := Some(StateAbbrOf(x.state)),
       address1 := Some(TidyText(x.address1)),
       city := Some(TidyText(x.city)))
  }

  /** The frame after `OMOP_clean`: every row cleaned, labels and order kept. */
  function CleanFrame(rows: seq<Entry>): (r: seq<Entry>)
    ensures |r| == |rows|
    ensures forall i :: 0 <= i < |rows| ==>
      r[i].index == rows[i].index && r[i].row == CleanRow(rows[i].row)
  {
    seq(|rows|, i requires 0 <= i < |rows| => Entry(rows[i].index, CleanRow(rows[i].row)))
  }

  /** The cleaned frame grows one cleaned row at a time. */
  lemma CleanFrameStep(rows: seq<Entry>, i: nat)
    requires i < |rows|
    ensures CleanFrame(rows)[..i + 1] == CleanFrame(rows)[..i] + [Entry(rows[i].index, CleanRow(rows[i].row))]
  {
    var c := CleanFrame(rows);
    assert c[i] == Entry(rows[i].index, CleanRow(rows[i].row));
    TakeOneMore(c, i);
  }

  lemma TakeOneMore<T>(c: seq<T>, i: nat)
    requires i < |c|
    ensures c[..i + 1] == c[..i] + [c[i]]
  {
  }

  /** Stripping and title-casing a tidied text changes nothing. */
  lemma TidyTextIdempotent(c: Option<string>)
    ensures TidyText(Some(TidyText(c))) == TidyText(c)
  {
    var t := TidyText(c);
    TidyTextShape(c);
    StripStripped(t);
  }

  /** Cleaning a cleaned row changes nothing. */
  lemma CleanRowIdempotent(x: Location)
    ensures CleanRow(CleanRow(x)) == CleanRow(x)
  {
    TidyTextIdempotent(x.address1);
    TidyTextIdempotent(x.city);
  }

  /** Cleaning a cleaned frame changes nothing: labels, order and every row
      stay as they are. */
  lemma CleanFrameIdempotent(rows: seq<Entry>)
    ensures CleanFrame(CleanFrame(rows)) == CleanFrame(rows)
  {
    var once := CleanFrame(rows);
    forall i | 0 <= i < |rows|
      ensures CleanFrame(once)[i] == once[i]
    {
      CleanRowIdempotent(rows[i].row);
    }
  }

  /** After cleaning, `address_1` and `city` are never null: a missing value
      becomes the text "Nan". */
  lemma CleanedMissingIsNan(x: Location)
    ensures x.address1.None? ==> CleanRow(x).address1 == Some("Nan")
    ensures x.city.None? ==> CleanRow(x).city == Some("Nan")
  {
    NanTidy("nan", "Nan");
  }

  lemma NanTidy(n: string, m: string)
    requires n == "nan" && m == "Nan"
    ensures TidyText(None) == m
  {
    assert CellText(None) == n;
    StripNan(n);
    TitleNan(n, m);
  }

  lemma StripNan(n: string)
    requires n == "nan"
    ensures Strip(n) == n
  {
    assert Stripped(n) by {
      assert n[0] == 'n' && n[2] == 'n';
    }
    StripStripped(n);
  }

  lemma TitleNan(n: string, m: string)
    requires n == "nan" && m == "Nan"
    ensures Title(n) == m
  {
    TitleOfThree(n);
    assert TitleChar(false, 'n') == 'N' && TitleChar(true, 'a') == 'a' && TitleChar(true, 'n') == 'n';
    assert [TitleChar(false, n[0]), TitleChar(IsLetter(n[0]), n[1]), TitleChar(IsLetter(n[1]), n[2])] == m;
  }

  /** Title-casing a three-character text, character by character. */
  lemma TitleOfThree(s: string)
    requires |s| == 3
    ensures Title(s) == [TitleChar(false, s[0]), TitleChar(IsLetter(s[0]), s[1]), TitleChar(IsLetter(s[1]), s[2])]
  {
  }

  /** A state text shorter than every table key is kept as it is, once stripped;
      in particular NaN stays "nan", three characters long. */
  lemma ShortStateKept(c: StateCell)
    requires |Strip(StateText(c))| < 4
    ensures StateAbbrOf(c) == Strip(StateText(c))
  {
    ShortTextFixed(Strip(StateText(c)));
  }

  /** A missing tagger state is canonicalised to "nan". */
  lemma MissingStateIsNan()
    ensures StateAbbrOf(Missing) == "nan"
  {
    var n := "nan";
    assert Stripped(n);
    StripStripped(n);
    ShortTextFixed(n);
  }

  /** A non-empty list of matches keeps more than two characters. */
  lemma MatchListStateLong(names: seq<string>)
    requires names != []
    ensures |StateAbbrOf(Matches(names))| > 2
  {
    var t := ListRepr(names);
    assert Stripped(t);
    StripStripped(t);
    CanonicalListLong(names);
  }

  /** The empty list of matches is printed "[]", which no key touches. */
  lemma EmptyMatchListState()
    ensures StateAbbrOf(Matches([])) == "[]"
  {
    var t := ListRepr([]);
    assert Stripped(t);
    StripStripped(t);
    ShortTextFixed(t);
  }

  /** "West Virginia" reaches `state_abbr` as "West VA". */
  lemma WestVirginiaState()
    ensures StateAbbrOf(Value("West Virginia")) == "West VA"
  {
    var w := "West Virginia";
    assert Stripped(w);
    StripStripped(w);
    WestVirginiaBecomesWestVA();
  }

  /** The cells `OMOP_clean` computes for one row: the state text through
      `multipleReplace`, the street and city tidied. */
  method CleanOne(x: Location) returns (y: Location)
    ensures y == CleanRow(x)
  {
    var abbr := MultipleReplace(Strip(StateText(x.state)), StateTable);
    y := x.(stateAbbr := Some(abbr),
            address1 := Some(Title(Strip(CellText(x.address1)))),
            address2 := x.address2,
            city := Some(Title(Strip(CellText(x.city)))));
  }

  /** The frame that `OMOP_clean` updates in place. */
  class LocationFrame {
    var rows: seq<Entry>

    constructor(rows0: seq<Entry>)
      ensures rows == rows0
    {
      rows := rows0;
    }

    /** `OMOP_clean(df)`: writes the new `state_abbr` column and overwrites
        `address_1` and `city` (and `address_2` with itself). The source does
        this column by column with `apply`; every cell depends only on its own
        row, so the frame is cleaned here row by row, with `CleanOne`. */
    method OmopClean()
      modifies this
      ensures rows == CleanFrame(old(rows))
    {
      var source := rows;
      var cleaned: seq<Entry> := [];
      var i := 0;
      while i < |source|
        invariant 0 <= i <= |source|
        invariant cleaned == CleanFrame(source)[..i]
      {
        var y := CleanOne(source[i].row);
        CleanFrameStep(source, i);
        cleaned := cleaned + [Entry(source[i].index, y)];
        i := i + 1;
      }
      rows := cleaned;
    }
  }
}
