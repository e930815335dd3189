/** The routing and reconciliation steps of `main`: rows whose `state_abbr` is
    longer than two characters go to the fallback parser, its rows get a new
    `state_abbr`, `combine_first` lays them over the cleaned frame, and every
    row of the result is flagged. */
module Reconcile {
  import opened Wrappers
  import opened Text
  import opened Locations
  import opened FallbackParser
  import opened QualityFlag

  /** `state_abbr.astype(str).str.len() > 2`. */
  predicate NeedsFallback(x: Location) {
    |CellText(x.stateAbbr)| > 2
  }

  /** The rows sent to the fallback parser, in frame order. */
  function Route(rows: seq<Entry>): (r: seq<Entry>)
    ensures |r| <= |rows|
    ensures forall e :: e in r ==> e in rows && NeedsFallback(e.row)
    ensures forall e :: e in rows && NeedsFallback(e.row) ==> e in r
    ensures Increasing(rows) ==> Increasing(r)
    decreases |rows|
  {
    if rows == [] then []
    else
      var rest := Route(rows[1..]);
      var r := if NeedsFallback(rows[0].row) then [rows[0]] + rest else rest;
      RouteCons(rows, rest, r);
      r
  }

  /** One step of `Route`: what holds of the rows routed from the tail holds of
      the whole frame once its first row is put in front or dropped. */
  lemma RouteCons(rows: seq<Entry>, rest: seq<Entry>, r: seq<Entry>)
    requires rows != []
    requires |rest| <= |rows| - 1
    requires forall e :: e in rest ==> e in rows[1..] && NeedsFallback(e.row)
    requires forall e :: e in rows[1..] && NeedsFallback(e.row) ==> e in rest
    requires Increasing(rows[1..]) ==> Increasing(rest)
    requires r == if NeedsFallback(rows[0].row) then [rows[0]] + rest else rest
    ensures |r| <= |rows|
    ensures forall e :: e in r ==> e in rows && NeedsFallback(e.row)
    ensures forall e :: e in rows && NeedsFallback(e.row) ==> e in r
    ensures Increasing(rows) ==> Increasing(r)
  {
    forall e | e in r
      ensures e in rows && NeedsFallback(e.row)
    {
      if e != rows[0] {
        assert e in rest;
        var k :| 0 <= k < |rows| - 1 && rows[1..][k] == e;
        assert rows[k + 1] == e;
      }
    }
    forall e | e in rows && NeedsFallback(e.row)
      ensures e in r
    {
      var k :| 0 <= k < |rows| && rows[k] == e;
      if k > 0 {
        assert rows[1..][k - 1] == e;
        assert e in rest;
      }
    }
    if Increasing(rows) {
      TailIncreasing(rows);
      if NeedsFallback(rows[0].row) {
        ConsIncreasing(rows, rest);
      }
    }
  }

  /** The tail of an increasing frame is increasing. */
  lemma TailIncreasing(rows: seq<Entry>)
    requires rows != [] && Increasing(rows)
    ensures Increasing(rows[1..])
  {
    forall i, j | 0 <= i < j < |rows| - 1
      ensures rows[1..][i].index < rows[1..][j].index
    {
      assert rows[1..][i] == rows[i + 1] && rows[1..][j] == rows[j + 1];
    }
  }

  /** Putting the first row of an increasing frame before increasing rows taken
      from its tail keeps the labels increasing. */
  lemma ConsIncreasing(rows: seq<Entry>, rest: seq<Entry>)
    requires rows != [] && Increasing(rows) && Increasing(rest)
    requires forall e :: e in rest ==> e in rows[1..]
    ensures Increasing([rows[0]] + rest)
  {
    forall j | 0 <= j < |rest|
      ensures rows[0].index < rest[j].index
    {
      assert rest[j] in rest;
      var k :| 0 <= k < |rows| - 1 && rows[1..][k] == rest[j];
      assert rows[k + 1] == rest[j];
    }
    var r := [rows[0]] + rest;
    forall i, j | 0 <= i < j < |r|
      ensures r[i].index < r[j].index
    {
      assert r[j].index == rest[j - 1].index;
      if i > 0 {
        assert r[i].index == rest[i - 1].index;
      }
    }
  }

  /** `failed_address_parsed["state_abbr"]` recomputed from the `state` the
      fallback parser wrote, with `abbr` for `multipleReplace(str(x).strip())`
      (`main` uses `StateAbbrOf`). A frame built from an empty list has no
      `state` column, and reading it raises. */
  function RecomputeStateAbbr(rows: seq<Entry>, abbr: StateCell -> string): (r: Result<seq<Entry>, Failure>)
    ensures rows == [] <==> r == Err(AttributeError)
    ensures r.Ok? ==> |r.value| == |rows|
    ensures r.Ok? ==> forall i :: 0 <= i < |rows| ==>
      && r.value[i].index == rows[i].index
      && r.value[i].row == rows[i].row.(stateAbbr := Some(abbr(rows[i].row.state)))
  {
    if rows == [] then Err(AttributeError)
    else Ok(seq(|rows|, i requires 0 <= i < |rows| =>
      Entry(rows[i].index, rows[i].row.(stateAbbr := Some(abbr(rows[i].row.state))))))
  }

  /** Recomputing twice is recomputing once: the state that `state_abbr` is
      computed from is left as it was. */
  lemma RecomputeIdempotent(rows: seq<Entry>, abbr: StateCell -> string)
    requires rows != []
    ensures RecomputeStateAbbr(RecomputeStateAbbr(rows, abbr).value, abbr)
      == RecomputeStateAbbr(rows, abbr)
  {
    var once := RecomputeStateAbbr(rows, abbr).value;
    var twice := RecomputeStateAbbr(once, abbr).value;
    forall i | 0 <= i < |rows|
      ensures twice[i] == once[i]
    {
    }
    assert twice == once;
  }

  /** With `multipleReplace` as the canonicaliser, the recomputed `state_abbr`
      of a row is the one `OMOP_clean` gives a row with that state. */
  lemma RecomputeAsCleaned(rows: seq<Entry>)
    requires rows != []
    ensures forall i :: 0 <= i < |rows| ==>
      RecomputeStateAbbr(rows, StateAbbrOf).value[i].row.stateAbbr == CleanRow(rows[i].row).stateAbbr
  {
  }

  /** After cleaning, a row is routed exactly when the canonical text of its
      state is longer than two characters; a missing state always is. */
  lemma CleanedRouting(x: Location)
    ensures NeedsFallback(CleanRow(x)) <==> |StateAbbrOf(x.state)| > 2
    ensures x.state.Missing? ==> NeedsFallback(CleanRow(x))
  {
    MissingStateIsNan();
  }

  // ---------------------------------------------------------------------------
  // combine_first

  /** One cell of `over.combine_first(base)`: the cell of `over` unless it is null. */
  function CombineCell(over: Option<string>, base: Option<string>): (r: Option<string>)
    ensures over.Some? ==> r == over
    ensures over.None? ==> r == base
  {
    if over.Some? then over else base
  }

  /** The same for a state cell; a list, even an empty one, is not null. */
  function CombineState(over: StateCell, base: StateCell): (r: StateCell)
    ensures !over.Missing? ==> r == over
    ensures over.Missing? ==> r == base
  {
    if over.Missing? then base else over
  }

  /** One row of `over.combine_first(base)`, field by field. */
  function CombineRow(over: Location, base: Location): (r: Location)
    ensures r.source == CombineCell(over.source, base.source)
    ensures r.address1 == CombineCell(over.address1, base.address1)
    ensures r.address2 == CombineCell(over.address2, base.address2)
    ensures r.city == CombineCell(over.city, base.city)
    ensures r.state == CombineState(over.state, base.state)
    ensures r.zip == CombineCell(over.zip, base.zip)
    ensures r.stateAbbr == CombineCell(over.stateAbbr, base.stateAbbr)
  {
    Location(CombineCell(over.source, base.source),
             CombineCell(over.address1, base.address1),
             CombineCell(over.address2, base.address2),
             CombineCell(over.city, base.city),
             CombineState(over.state, base.state),
             CombineCell(over.zip, base.zip),
             CombineCell(over.stateAbbr, base.stateAbbr))
  }

  /** Laying a row over itself, or over a row it agrees with wherever it is
      not null, gives that row. */
  lemma CombineRowAgrees(over: Location, base: Location)
    requires over.source.Some? ==> over.source == base.source
    requires over.address1.Some? ==> over.address1 == base.address1
    requires over.address2.Some? ==> over.address2 == base.address2
    requires over.city.Some? ==> over.city == base.city
    requires !over.state.Missing? ==> over.state == base.state
    requires over.zip.Some? ==> over.zip == base.zip
    requires over.stateAbbr.Some? ==> over.stateAbbr == base.stateAbbr
    ensures CombineRow(over, base) == base
  {
  }

  /** Laying the same row over twice is laying it over once. */
  lemma CombineRowIdempotent(over: Location, base: Location)
    ensures CombineRow(over, CombineRow(over, base)) == CombineRow(over, base)
  {
    CombineRowAgrees(over, CombineRow(over, base));
  }

  /** A cell of the combined row is null exactly when it is null in both rows:
      `combine_first` fills every hole it can and makes none. */
  lemma CombineRowNulls(over: Location, base: Location)
    ensures var r := CombineRow(over, base);
      && (r.source.None? <==> over.source.None? && base.source.None?)
      && (r.address1.None? <==> over.address1.None? && base.address1.None?)
      && (r.address2.None? <==> over.address2.None? && base.address2.None?)
      && (r.city.None? <==> over.city.None? && base.city.None?)
      && (r.state.Missing? <==> over.state.Missing? && base.state.Missing?)
      && (r.zip.None? <==> over.zip.None? && base.zip.None?)
      && (r.stateAbbr.None? <==> over.stateAbbr.None? && base.stateAbbr.None?)
  {
  }

  /** The first row of `rows` with label `index`. */
  function Lookup(rows: seq<Entry>, index: int): (r: Option<Location>)
    ensures r.None? <==> forall i :: 0 <= i < |rows| ==> rows[i].index != index
    ensures r.Some? ==> exists i :: 0 <= i < |rows| && rows[i] == Entry(index, r.value)
    decreases |rows|
  {
    if rows == [] then None
    else if rows[0].index == index then Some(rows[0].row)
    else
      var r := Lookup(rows[1..], index);
      assert forall i :: 0 < i < |rows| ==> rows[i] == rows[1..][i - 1];
      r
  }

  /** The label of some row of `rows`. */
  predicate HasLabel(rows: seq<Entry>, index: int) {
    exists i :: 0 <= i < |rows| && rows[i].index == index
  }

  /** The rows of `over` whose label `base` lacks, in order. */
  function Extra(over: seq<Entry>, base: seq<Entry>): (r: seq<Entry>)
    ensures forall e :: e in r <==> e in over && !HasLabel(base, e.index)
    decreases |over|
  {
    if over == [] then []
    else
      var rest := Extra(over[1..], base);
      if HasLabel(base, over[0].index) then rest else [over[0]] + rest
  }

  /** A base row after `combine_first`. */
  function Overlaid(over: seq<Entry>, e: Entry): Entry {
    match Lookup(over, e.index)
    case None => e
    case Some(o) => Entry(e.index, CombineRow(o, e.row))
  }

  /** `over.combine_first(base)`: every base row with the matching row of
      `over` laid over it, then the rows only `over` has. */
  function CombineFirst(over: seq<Entry>, base: seq<Entry>): (r: seq<Entry>)
    ensures |r| == |base| + |Extra(over, base)|
    ensures forall i :: 0 <= i < |base| ==> r[i].index == base[i].index
    ensures forall i :: 0 <= i < |base| ==>
      (r[i].row == base[i].row <== Lookup(over, base[i].index).None?)
    ensures forall i :: 0 <= i < |base| && Lookup(over, base[i].index).Some? ==>
      r[i].row == CombineRow(Lookup(over, base[i].index).value, base[i].row)
    ensures r[|base|..] == Extra(over, base)
  {
    seq(|base|, i requires 0 <= i < |base| => Overlaid(over, base[i])) + Extra(over, base)
  }

  /** With nothing to lay over, `combine_first` returns the base frame. */
  lemma CombineFirstNoOver(base: seq<Entry>)
    ensures CombineFirst([], base) == base
  {
    var r := CombineFirst([], base);
    forall i | 0 <= i < |base|
      ensures r[i] == base[i]
    {
    }
  }

  /** When every row of `over` has a label of `base`, combining twice is
      combining once. */
  lemma CombineFirstIdempotent(over: seq<Entry>, base: seq<Entry>)
    requires forall i :: 0 <= i < |over| ==> HasLabel(base, over[i].index)
    ensures CombineFirst(over, CombineFirst(over, base)) == CombineFirst(over, base)
  {
    ExtraEmpty(over, base);
    var m := CombineFirst(over, base);
    forall i | 0 <= i < |over|
      ensures HasLabel(m, over[i].index)
    {
      var j :| 0 <= j < |base| && base[j].index == over[i].index;
      assert m[j].index == over[i].index;
    }
    ExtraEmpty(over, m);
    var m2 := CombineFirst(over, m);
    forall i | 0 <= i < |m|
      ensures m2[i] == m[i]
    {
      var o := Lookup(over, base[i].index);
      if o.Some? {
        CombineRowIdempotent(o.value, base[i].row);
      }
    }
  }

  // ---------------------------------------------------------------------------
  // The flag column

  /** A row of the final frame with its flag. */
  datatype Flagged = Flagged(index: int, row: Location, flag: Flag)

  /** `df.apply(custom_flag, axis=1)`: the rows are checked in order and the
      first exception ends the run; the error is that of the first row that
      raises. */
  function FlagRows(rows: seq<Entry>): (r: Result<seq<Flagged>, Failure>)
    ensures r.Ok? <==> forall i :: 0 <= i < |rows| ==> CustomFlag(rows[i].row).Ok?
    ensures r.Ok? ==> |r.value| == |rows|
    ensures r.Ok? ==> forall i :: 0 <= i < |rows| ==>
      r.value[i] == Flagged(rows[i].index, rows[i].row, CustomFlag(rows[i].row).value)
    ensures r.Err? ==> FirstError(rows, r.error)
    decreases |rows|
  {
    if rows == [] then Ok([])
    else
      match CustomFlag(rows[0].row)
      case Err(e) =>
        assert CustomFlag(rows[0].row) == Err(e);
        Err(e)
      case Ok(f) =>
        var rest := FlagRows(rows[1..]);
        assert forall i :: 0 < i < |rows| ==> rows[i] == rows[1..][i - 1];
        match rest
        case Err(e) =>
          FirstErrorCons(rows, e);
          Err(e)
        case Ok(fs) => Ok([Flagged(rows[0].index, rows[0].row, f)] + fs)
  }

  /** `e` is the error of the first row whose check raises. */
  predicate FirstError(rows: seq<Entry>, e: Failure) {
    exists i :: 0 <= i < |rows| && CustomFlag(rows[i].row) == Err(e)
      && (forall j :: 0 <= j < i ==> CustomFlag(rows[j].row).Ok?)
  }

  /** A first error after a row that passes is the first error of the whole. */
  lemma FirstErrorCons(rows: seq<Entry>, e: Failure)
    requires rows != [] && CustomFlag(rows[0].row).Ok?
    requires FirstError(rows[1..], e)
    ensures FirstError(rows, e)
  {
    var k :| 0 <= k < |rows[1..]| && CustomFlag(rows[1..][k].row) == Err(e)
      && (forall j :: 0 <= j < k ==> CustomFlag(rows[1..][j].row).Ok?);
    assert rows[k + 1] == rows[1..][k];
    forall j | 0 <= j < k + 1
      ensures CustomFlag(rows[j].row).Ok?
    {
      if j > 0 {
        assert rows[j] == rows[1..][j - 1];
      }
    }
  }

  // ---------------------------------------------------------------------------
  // The whole step

  /** Lines 503-511 of `main`: the routed rows through the fallback parser,
      with `state_abbr` recomputed. `main` runs `custom_parser`, that is
      `parse == RowParser(d)`, and `abbr == StateAbbrOf` (see `MainSteps`);
      the facts below hold for any row parser and any canonicaliser. */
  function FallbackRows(cleaned: seq<Entry>, parse: Location -> Outcome, abbr: StateCell -> string): Result<seq<Entry>, Failure> {
    match ParseFrame(Route(cleaned), parse)
    case Err(e) => Err(e)
    case Ok(parsed) => RecomputeStateAbbr(parsed, abbr)
  }

  /** Lines 503-521 of `main` on the cleaned frame: route, re-parse, recompute
      `state_abbr`, combine, flag. */
  function Reconciled(cleaned: seq<Entry>, parse: Location -> Outcome, abbr: StateCell -> string): Result<seq<Flagged>, Failure> {
    match FallbackRows(cleaned, parse, abbr)
    case Err(e) => Err(e)
    case Ok(fixed) => FlagRows(CombineFirst(fixed, cleaned))
  }

  /** The steps as `main` runs them on the tagger's frame (lines 497-521):
      `OMOP_clean`, then routing, `custom_parser`, `multipleReplace`,
      `combine_first` and the flags. Every cleaned row has a `state_abbr`, so
      the `astype(str)` of line 499 changes nothing. */
  function MainSteps(tagged: seq<Entry>, d: Detectors): Result<seq<Flagged>, Failure> {
    Reconciled(CleanFrame(tagged), RowParser(d), StateAbbrOf)
  }

  /** What `main` makes of the tagger's frame: one flagged row per row, in
      order, and a row whose canonical state is short comes through as
      `OMOP_clean` left it. */
  lemma MainStepsRows(tagged: seq<Entry>, d: Detectors)
    requires Increasing(tagged) && MainSteps(tagged, d).Ok?
    ensures var out := MainSteps(tagged, d).value;
      && |out| == |tagged|
      && (forall i :: 0 <= i < |tagged| ==>
            out[i].index == tagged[i].index && out[i].flag == CustomFlag(out[i].row).value)
      && (forall i :: 0 <= i < |tagged| && |StateAbbrOf(tagged[i].row.state)| <= 2 ==>
            out[i].row == CleanRow(tagged[i].row))
  {
    var cleaned := CleanFrame(tagged);
    assert Increasing(cleaned);
    ReconciledRows(cleaned, RowParser(d), StateAbbrOf);
    forall i | 0 <= i < |tagged|
      ensures NeedsFallback(cleaned[i].row) <==> |StateAbbrOf(tagged[i].row.state)| > 2
    {
      CleanedRouting(tagged[i].row);
    }
  }

  /** No row is routed from a frame whose every `state_abbr` is short. */
  lemma {:induction false} RouteNone(rows: seq<Entry>)
    requires forall i :: 0 <= i < |rows| ==> !NeedsFallback(rows[i].row)
    ensures Route(rows) == []
    decreases |rows|
  {
    if rows != [] {
      assert forall i :: 0 <= i < |rows| - 1 ==> rows[1..][i] == rows[i + 1];
      RouteNone(rows[1..]);
    }
  }

  /** When the fallback parser returns no row (no row was routed, or every
      routed row was dropped) the step raises `AttributeError`. */
  lemma EmptyFallbackFails(cleaned: seq<Entry>, parse: Location -> Outcome, abbr: StateCell -> string)
    requires ParseFrame(Route(cleaned), parse) == Ok([])
    ensures Reconciled(cleaned, parse, abbr) == Err(AttributeError)
  {
  }

  /** In particular, a frame in which the tagger gave every row a short state
      makes the step raise. */
  lemma NothingRoutedFails(cleaned: seq<Entry>, parse: Location -> Outcome, abbr: StateCell -> string)
    requires forall i :: 0 <= i < |cleaned| ==> !NeedsFallback(cleaned[i].row)
    ensures Reconciled(cleaned, parse, abbr) == Err(AttributeError)
  {
    RouteNone(cleaned);
  }

  /** The rows the fallback parser returns carry labels of the cleaned frame. */
  lemma FallbackLabels(cleaned: seq<Entry>, parse: Location -> Outcome, abbr: StateCell -> string)
    requires FallbackRows(cleaned, parse, abbr).Ok?
    ensures var fixed := FallbackRows(cleaned, parse, abbr).value;
      forall k :: 0 <= k < |fixed| ==> HasLabel(cleaned, fixed[k].index)
  {
    var routed := Route(cleaned);
    var parsed := ParseFrame(routed, parse).value;
    var fixed := FallbackRows(cleaned, parse, abbr).value;
    ParseFrameSources(routed, parse);
    forall k | 0 <= k < |fixed|
      ensures HasLabel(cleaned, fixed[k].index)
    {
      assert fixed[k].index == parsed[k].index;
      var i :| 0 <= i < |routed| && routed[i].index == parsed[k].index
               && parse(routed[i].row) == Emit(parsed[k].row);
      assert routed[i] in cleaned;
      var j :| 0 <= j < |cleaned| && cleaned[j] == routed[i];
    }
  }

  /** So `combine_first` adds no row: the rows only the fallback output has
      are none. */
  lemma ExtraEmpty(over: seq<Entry>, base: seq<Entry>)
    requires forall i :: 0 <= i < |over| ==> HasLabel(base, over[i].index)
    ensures Extra(over, base) == []
  {
  }

  /** With labels increasing, the fallback output is in label order too. */
  lemma FallbackIncreasing(cleaned: seq<Entry>, parse: Location -> Outcome, abbr: StateCell -> string)
    requires Increasing(cleaned) && FallbackRows(cleaned, parse, abbr).Ok?
    ensures Increasing(FallbackRows(cleaned, parse, abbr).value)
  {
    ParseFrameOrdered(Route(cleaned), parse);
  }

  /** In a frame with increasing labels, looking a row's label up finds it. */
  lemma {:induction false} LookupAt(rows: seq<Entry>, k: int)
    requires Increasing(rows) && 0 <= k < |rows|
    ensures Lookup(rows, rows[k].index) == Some(rows[k].row)
    decreases |rows|
  {
    if k > 0 {
      assert rows[0].index < rows[k].index;
      assert rows[1..][k - 1] == rows[k];
      LookupAt(rows[1..], k - 1);
    }
  }

  /** A cleaned row that was not routed, or whose re-parse was dropped, has no
      row in the fallback output. */
  lemma NotReparsed(cleaned: seq<Entry>, parse: Location -> Outcome, abbr: StateCell -> string, i: int)
    requires Increasing(cleaned) && 0 <= i < |cleaned|
    requires !NeedsFallback(cleaned[i].row) || parse(cleaned[i].row) == Drop
    requires FallbackRows(cleaned, parse, abbr).Ok?
    ensures Lookup(FallbackRows(cleaned, parse, abbr).value, cleaned[i].index).None?
  {
    var routed := Route(cleaned);
    var parsed := ParseFrame(routed, parse).value;
    var fixed := FallbackRows(cleaned, parse, abbr).value;
    ParseFrameSources(routed, parse);
    forall k | 0 <= k < |fixed|
      ensures fixed[k].index != cleaned[i].index
    {
      assert fixed[k].index == parsed[k].index;
      var j :| 0 <= j < |routed| && routed[j].index == parsed[k].index
               && parse(routed[j].row) == Emit(parsed[k].row);
      assert routed[j] in cleaned;
      var m :| 0 <= m < |cleaned| && cleaned[m] == routed[j];
      if m != i {
        assert cleaned[m].index != cleaned[i].index;
      }
    }
  }

  /** A routed row that the parser emits is in the parser's output. */
  lemma EmittedKept(cleaned: seq<Entry>, parse: Location -> Outcome, i: int)
    requires 0 <= i < |cleaned|
    requires NeedsFallback(cleaned[i].row) && parse(cleaned[i].row).Emit?
    requires ParseFrame(Route(cleaned), parse).Ok?
    ensures Entry(cleaned[i].index, parse(cleaned[i].row).row) in ParseFrame(Route(cleaned), parse).value
  {
    var routed := Route(cleaned);
    assert cleaned[i] in cleaned;
    assert cleaned[i] in routed;
    var j :| 0 <= j < |routed| && routed[j] == cleaned[i];
    ParseFrameKeeps(routed, parse);
  }

  /** A routed row that the fallback parser emits is found in its output, with
      the recomputed `state_abbr`. */
  lemma Reparsed(cleaned: seq<Entry>, parse: Location -> Outcome, abbr: StateCell -> string, i: int)
    requires Increasing(cleaned) && 0 <= i < |cleaned|
    requires NeedsFallback(cleaned[i].row) && parse(cleaned[i].row).Emit?
    requires FallbackRows(cleaned, parse, abbr).Ok?
    ensures var p := parse(cleaned[i].row).row;
      Lookup(FallbackRows(cleaned, parse, abbr).value, cleaned[i].index)
        == Some(p.(stateAbbr := Some(abbr(p.state))))
  {
    var parsed := ParseFrame(Route(cleaned), parse).value;
    var p := parse(cleaned[i].row).row;
    EmittedKept(cleaned, parse, i);
    var k :| 0 <= k < |parsed| && parsed[k] == Entry(cleaned[i].index, p);
    FallbackIncreasing(cleaned, parse, abbr);
    var fixed := RecomputeStateAbbr(parsed, abbr).value;
    assert fixed == FallbackRows(cleaned, parse, abbr).value;
    assert fixed[k] == Entry(cleaned[i].index, p.(stateAbbr := Some(abbr(p.state))));
    LookupAt(fixed, k);
  }

  /** The final frame has one row per cleaned row, in the same order, each
      flagged by `custom_flag`; a row that was not routed, or that the
      fallback parser dropped, comes through unchanged. */
  lemma ReconciledRows(cleaned: seq<Entry>, parse: Location -> Outcome, abbr: StateCell -> string)
    requires Increasing(cleaned)
    requires Reconciled(cleaned, parse, abbr).Ok?
    ensures var out := Reconciled(cleaned, parse, abbr).value;
      && |out| == |cleaned|
      && (forall i :: 0 <= i < |cleaned| ==>
            out[i].index == cleaned[i].index && out[i].flag == CustomFlag(out[i].row).value)
      && (forall i :: 0 <= i < |cleaned| && !NeedsFallback(cleaned[i].row) ==>
            out[i].row == cleaned[i].row)
      && (forall i :: 0 <= i < |cleaned| && parse(cleaned[i].row) == Drop ==>
            out[i].row == cleaned[i].row)
  {
    var fixed := FallbackRows(cleaned, parse, abbr).value;
    FallbackLabels(cleaned, parse, abbr);
    ExtraEmpty(fixed, cleaned);
    var merged := CombineFirst(fixed, cleaned);
    assert |merged| == |cleaned|;
    forall i | 0 <= i < |cleaned| && (!NeedsFallback(cleaned[i].row) || parse(cleaned[i].row) == Drop)
      ensures merged[i].row == cleaned[i].row
    {
      NotReparsed(cleaned, parse, abbr, i);
    }
  }

  /** A routed row that the fallback parser emits ends up as the parser's row,
      with its recomputed `state_abbr`, laid over the cleaned row: a non-null
      cell of the parser wins and a null one (a NaN `address_2` or `zip`)
      keeps the tagger's value. */
  lemma ReparsedRow(cleaned: seq<Entry>, parse: Location -> Outcome, abbr: StateCell -> string, i: int)
    requires Increasing(cleaned) && 0 <= i < |cleaned|
    requires NeedsFallback(cleaned[i].row) && parse(cleaned[i].row).Emit?
    requires Reconciled(cleaned, parse, abbr).Ok?
    ensures var p := parse(cleaned[i].row).row;
      Reconciled(cleaned, parse, abbr).value[i].row
        == CombineRow(p.(stateAbbr := Some(abbr(p.state))), cleaned[i].row)
  {
    var fixed := FallbackRows(cleaned, parse, abbr).value;
    FallbackLabels(cleaned, parse, abbr);
    ExtraEmpty(fixed, cleaned);
    Reparsed(cleaned, parse, abbr, i);
  }
}
