/** `custom_parser`: the rule-based parser for the rows the tagger could not give
    a two-letter state. It splits the full address on commas, takes the street
    from the first segment, the city from the second and the state and ZIP from
    the last, and cuts the street at an "APT" marker when the address has one. */
module FallbackParser {
  import opened Wrappers
  import opened Text
  import opened Zip
  import opened Locations

  /** The two detectors the parser is given as regular expressions: the list of
      matches `re.findall` returns for the abbreviation pattern and for the
      full-name pattern. Their patterns are not part of this model. */
  datatype Detectors = Detectors(abbr: string -> seq<string>, full: string -> seq<string>)

  /** What the loop body does with one row: appends the updated row, appends
      nothing, or raises. */
  datatype Outcome = Emit(row: Location) | Drop | Fail(error: Failure)

  // ---------------------------------------------------------------------------
  // The decision table on the last segment

  /** The state and ZIP cells the four branches write for a tail, or `None` when
      no branch applies (no abbreviation, a ZIP, and no full name). */
  function Resolve(tail: string, d: Detectors): (r: Option<(StateCell, Option<string>)>)
    ensures r.None? <==> |d.abbr(tail)| == 0 && FirstZip(tail).Some? && |d.full(Title(tail))| == 0
    ensures |d.abbr(tail)| > 0 ==> r == Some((Value(d.abbr(tail)[0]), FirstZip(tail)))
    ensures |d.abbr(tail)| == 0 && FirstZip(tail).Some? && |d.full(Title(tail))| > 0 ==>
              r == Some((Value(d.full(Title(tail))[0]), FirstZip(tail)))
    ensures |d.abbr(tail)| == 0 && FirstZip(tail).None? ==>
              r == Some((Matches(d.full(Title(tail))), None))
  {
    var abbrs := d.abbr(tail);
    var zip := FirstZip(tail);
    var names := d.full(Title(tail));
    if |abbrs| > 0 && zip.Some? then Some((Value(abbrs[0]), zip))
    else if |abbrs| > 0 && zip.None? then Some((Value(abbrs[0]), None))
    else if |abbrs| == 0 && zip.Some? && |names| > 0 then Some((Value(names[0]), zip))
    else if |abbrs| == 0 && zip.None? then Some((Matches(names), None))
    else None
  }

  /** The first branch of the table: an abbreviation and a ZIP. Only there does
      the marker branch look for "APT" in the whole address. */
  predicate AbbrAndZip(tail: string, d: Detectors) {
    |d.abbr(tail)| > 0 && FirstZip(tail).Some?
  }

  // ---------------------------------------------------------------------------
  // The "APT" marker

  /** `re.findall("APT", s, flags=re.IGNORECASE)[0]`, if the list is not empty:
      the text of the leftmost case-insensitive "APT", as written in `s`. */
  function FirstApt(s: string): (r: Option<string>)
    ensures r.Some? <==> Occurs(s, "apt", true)
    ensures r.Some? ==>
      var p := Find(s, "apt", true).value;
      |r.value| == 3 && Lower(r.value) == "apt" && MatchAt(s, p, r.value, false)
  {
    match Find(s, "apt", true)
    case None => None
    case Some(p) => Some(s[p..p + 3])
  }

  /** Partitioning a street at the leftmost case-insensitive "APT" of a text the
      street begins: the cut falls at the street's own leftmost marker, or the
      street is left whole when it has none. */
  lemma MarkerPartition(src: string, street: string)
    requires street <= src && Occurs(src, "apt", true)
    ensures var part := Partition(street, FirstApt(src).value);
      if Occurs(street, "apt", true)
      then |part.0| == Find(street, "apt", true).value && part.1 == FirstApt(src).value
      else part == (street, "", "")
  {
    var q := Find(src, "apt", true).value;
    var m := FirstApt(src).value;
    if Occurs(street, "apt", true) {
      var p0 := Find(street, "apt", true).value;
      MatchInPrefix(src, street, p0, "apt", true);
      assert q <= p0;
      MatchInPrefix(src, street, q, "apt", true);
      assert q == p0;
      MatchInPrefix(src, street, q, m, false);
      var part := Partition(street, m);
      assert MatchAt(street, q, m, false);
      if |part.0| < q {
        ExactOfCiIsCi(street, |part.0|, m, "apt");
      }
    } else {
      forall p | MatchAt(street, p, m, false)
        ensures false
      {
        ExactOfCiIsCi(street, p, m, "apt");
      }
    }
  }

  // ---------------------------------------------------------------------------
  // One row

  /** The loop body of `custom_parser` for one row. A NaN address has no
      `split`. The test for "APT" on the whole address picks one of two
      branches; a third branch, for "SUITE", follows them but is never reached,
      because the first two test complementary conditions. */
  function ParseRow(x: Location, d: Detectors): (r: Outcome)
    ensures x.source.None? <==> r == Fail(AttributeError)
    ensures r.Fail? ==> r.error in {AttributeError, IndexError}
    ensures r.Emit? ==> r.row.source == x.source && r.row.stateAbbr == x.stateAbbr
  {
    match x.source
    case None => Fail(AttributeError)
    case Some(src) =>
      if FirstApt(src).None? then PlainBranch(x, Split(src, ','), d)
      else MarkerBranch(x, src, Split(src, ','), d)
  }

  /** The branch for an address without "APT". It reads the unused
      `addr_components[2]` before anything else. */
  function PlainBranch(x: Location, parts: seq<string>, d: Detectors): (r: Outcome)
    requires |parts| >= 1
    ensures r.Fail? <==> |parts| < 3
    ensures r.Fail? ==> r.error == IndexError
    ensures r == Drop <==> |parts| >= 3 && Resolve(parts[|parts| - 1], d).None?
    ensures r.Emit? ==>
      && r.row.address1 == Some(parts[0]) && r.row.address2 == None
      && r.row.city == Some(parts[1])
      && Resolve(parts[|parts| - 1], d) == Some((r.row.state, r.row.zip))
      && r.row.source == x.source && r.row.stateAbbr == x.stateAbbr
  {
    if |parts| < 3 then Fail(IndexError)
    else match Resolve(parts[|parts| - 1], d)
      case None => Drop
      case Some(cells) =>
        Emit(x.(address1 := Some(parts[0]), address2 := None, city := Some(parts[1]),
                state := cells.0, zip := cells.1))
  }

  /** The branch for an address with "APT". The first sub-branch takes the
      marker text from the whole address, the other three from the street,
      indexing an empty match list when the street has none; all four then read
      `addr_components[1]`. */
  function MarkerBranch(x: Location, src: string, parts: seq<string>, d: Detectors): (r: Outcome)
    requires |parts| >= 1 && Occurs(src, "apt", true)
    ensures r.Fail? ==> r.error == IndexError
    ensures var tail := parts[|parts| - 1];
      r.Fail? <==>
        (Resolve(tail, d).Some?
         && (|parts| < 2 || (!AbbrAndZip(tail, d) && !Occurs(parts[0], "apt", true))))
    ensures r == Drop <==> Resolve(parts[|parts| - 1], d).None?
    ensures r.Emit? ==>
      && |parts| >= 2 && r.row.city == Some(parts[1])
      && Resolve(parts[|parts| - 1], d) == Some((r.row.state, r.row.zip))
      && r.row.source == x.source && r.row.stateAbbr == x.stateAbbr
  {
    var tail := parts[|parts| - 1];
    match Resolve(tail, d)
    case None => Drop
    case Some(cells) =>
      var street := parts[0];
      var marker := if AbbrAndZip(tail, d) then FirstApt(src) else FirstApt(street);
      if marker.None? || |parts| < 2 then Fail(IndexError)
      else
        var part := Partition(street, marker.value);
        Emit(x.(address1 := Some(part.0), address2 := Some(part.1 + part.2),
                city := Some(parts[1]), state := cells.0, zip := cells.1))
  }

  /** The marker text the marker branch cuts the street at: taken from the
      whole address in the first sub-branch, from the street in the others. */
  function MarkerText(src: string, parts: seq<string>, d: Detectors): Option<string>
    requires |parts| >= 1
  {
    if AbbrAndZip(parts[|parts| - 1], d) then FirstApt(src) else FirstApt(parts[0])
  }

  /** An emitted row of the marker branch holds the street partitioned at the
      marker text. */
  lemma MarkerEmitForm(x: Location, src: string, parts: seq<string>, d: Detectors, r: Location)
    requires |parts| >= 1 && Occurs(src, "apt", true)
    requires MarkerBranch(x, src, parts, d) == Emit(r)
    ensures MarkerText(src, parts, d).Some?
    ensures var part := Partition(parts[0], MarkerText(src, parts, d).value);
      r.address1 == Some(part.0) && r.address2 == Some(part.1 + part.2)
  {
  }

  /** The cut the marker branch makes in the street of `src`: `address_1 +
      address_2` is the street, `address_2` starts at the street's leftmost
      case-insensitive "APT" ("Baptist" counts), and when the street has none
      (only the first sub-branch gets that far) `address_2` is empty. */
  lemma MarkerCut(x: Location, src: string, parts: seq<string>, d: Detectors, r: Location)
    requires |parts| >= 1 && Occurs(src, "apt", true) && parts[0] <= src
    requires MarkerBranch(x, src, parts, d) == Emit(r)
    ensures r.address1.Some? && r.address2.Some?
    ensures r.address1.value + r.address2.value == parts[0]
    ensures Occurs(parts[0], "apt", true) ==>
      |r.address1.value| == Find(parts[0], "apt", true).value
      && MatchAt(r.address2.value, 0, "apt", true)
    ensures !Occurs(parts[0], "apt", true) ==> r.address2 == Some("")
  {
    MarkerEmitForm(x, src, parts, d, r);
    CutAtFirstMarker(src, parts[0], AbbrAndZip(parts[|parts| - 1], d));
  }

  /** The cut the marker branch makes in the street of `src`, in both
      sub-branch kinds (the marker taken from the whole address, or from the
      street): `address_1 + address_2` is the street, `address_2` starts at the
      street's leftmost case-insensitive "APT" ("Baptist" counts), and when the
      street has none (only the first kind gets that far) `address_2` is empty. */
  lemma CutAtFirstMarker(src: string, street: string, whole: bool)
    requires Occurs(src, "apt", true)
    requires (if whole then FirstApt(src) else FirstApt(street)).Some?
    ensures street <= src ==>
      var part := Partition(street, (if whole then FirstApt(src) else FirstApt(street)).value);
      && part.0 + (part.1 + part.2) == street
      && (Occurs(street, "apt", true) ==>
            |part.0| == Find(street, "apt", true).value
            && MatchAt(part.1 + part.2, 0, "apt", true))
      && (!Occurs(street, "apt", true) ==> part.1 + part.2 == "")
  {
    if street <= src {
      var m := (if whole then FirstApt(src) else FirstApt(street)).value;
      var part := Partition(street, m);
      assert part.0 + (part.1 + part.2) == part.0 + part.1 + part.2;
      if whole {
        MarkerPartition(src, street);
      } else {
        MarkerPartition(street, street);
      }
      if Occurs(street, "apt", true) {
        StreetTail(street, part);
      }
    }
  }

  /** The part of a street from its leftmost case-insensitive "APT" on. */
  lemma StreetTail(street: string, part: (string, string, string))
    requires Occurs(street, "apt", true)
    requires part.0 + part.1 + part.2 == street
    requires |part.0| == Find(street, "apt", true).value
    ensures MatchAt(part.1 + part.2, 0, "apt", true)
  {
    var p0 := |part.0|;
    assert part.1 + part.2 == street[p0..];
    assert (part.1 + part.2)[..3] == street[p0..p0 + 3];
  }

  /** Without an "APT" anywhere in the address: the row needs three segments,
      and then the street and city are the first two segments verbatim,
      `address_2` is NaN, and state and ZIP come from the table. */
  lemma NoMarkerRow(x: Location, d: Detectors)
    requires x.source.Some? && !Occurs(x.source.value, "apt", true)
    ensures var parts := Split(x.source.value, ',');
      && (ParseRow(x, d).Fail? <==> |parts| < 3)
      && (ParseRow(x, d) == Drop <==> |parts| >= 3 && Resolve(parts[|parts| - 1], d).None?)
      && (ParseRow(x, d).Emit? ==>
            && ParseRow(x, d).row.address1 == Some(parts[0])
            && ParseRow(x, d).row.address2 == None
            && ParseRow(x, d).row.city == Some(parts[1])
            && Resolve(parts[|parts| - 1], d)
               == Some((ParseRow(x, d).row.state, ParseRow(x, d).row.zip)))
  {
    var src := x.source.value;
    DispatchPlain(x, d, src);
  }

  /** With an "APT" in the address, an emitted row: the city is the second
      segment, state and ZIP come from the table, and the street is cut at its
      marker as `MarkerCut` states. */
  lemma MarkerRow(x: Location, d: Detectors)
    requires x.source.Some? && Occurs(x.source.value, "apt", true)
    requires ParseRow(x, d).Emit?
    ensures var parts := Split(x.source.value, ',');
      var r := ParseRow(x, d).row;
      && |parts| >= 2 && r.city == Some(parts[1])
      && r.address1.Some? && r.address2.Some?
      && r.address1.value + r.address2.value == parts[0]
      && Resolve(parts[|parts| - 1], d) == Some((r.state, r.zip))
      && (Occurs(parts[0], "apt", true) ==>
            |r.address1.value| == Find(parts[0], "apt", true).value
            && MatchAt(r.address2.value, 0, "apt", true))
      && (!Occurs(parts[0], "apt", true) ==> r.address2 == Some(""))
  {
    var src := x.source.value;
    var parts := Split(src, ',');
    DispatchMarker(x, d, src);
    SplitJoin(src, ',');
    MarkerCut(x, src, parts, d, ParseRow(x, d).row);
  }

  /** With an "APT" in the address, the row raises `IndexError` exactly when a
      branch applies and either there is no second segment or the marker is
      taken from a street that has none. */
  lemma MarkerRowFails(x: Location, d: Detectors)
    requires x.source.Some? && Occurs(x.source.value, "apt", true)
    ensures var parts := Split(x.source.value, ',');
      var tail := parts[|parts| - 1];
      ParseRow(x, d).Fail? <==>
        (Resolve(tail, d).Some?
         && (|parts| < 2 || (!AbbrAndZip(tail, d) && !Occurs(parts[0], "apt", true))))
  {
  }

  /** An address that says "Suite" but not "APT" goes through the branch
      without a marker, so the whole first segment stays in `address_1` and
      `address_2` is NaN. */
  lemma SuiteOnlyRow(x: Location, d: Detectors)
    requires x.source.Some? && Occurs(x.source.value, "suite", true)
    requires !Occurs(x.source.value, "apt", true)
    requires ParseRow(x, d).Emit?
    ensures ParseRow(x, d).row.address1 == Some(Split(x.source.value, ',')[0])
    ensures ParseRow(x, d).row.address2 == None
  {
    NoMarkerRow(x, d);
  }

  /** A row that survives the fallback parser has a non-null state: a string
      or a (possibly empty) list of full names. */
  lemma EmittedStateNotNull(x: Location, d: Detectors)
    requires ParseRow(x, d).Emit?
    ensures !ParseRow(x, d).row.state.Missing?
  {
  }

  /** Which branch a row takes: the one without a marker when the address has
      no "APT". */
  lemma DispatchPlain(x: Location, d: Detectors, src: string)
    requires x.source == Some(src) && FirstApt(src).None?
    ensures ParseRow(x, d) == PlainBranch(x, Split(src, ','), d)
  {
  }

  /** Which branch a row takes: the one with a marker when the address has
      an "APT". */
  lemma DispatchMarker(x: Location, d: Detectors, src: string)
    requires x.source == Some(src) && FirstApt(src).Some?
    ensures Occurs(src, "apt", true)
    ensures ParseRow(x, d) == MarkerBranch(x, src, Split(src, ','), d)
  {
  }

  /** Without a marker, a row is dropped exactly when it has three segments
      and no branch applies to its tail. */
  lemma PlainDropped(x: Location, d: Detectors)
    requires x.source.Some? && FirstApt(x.source.value).None?
    ensures var parts := Split(x.source.value, ',');
      ParseRow(x, d) == Drop <==> |parts| >= 3 && Resolve(parts[|parts| - 1], d).None?
  {
    DispatchPlain(x, d, x.source.value);
  }

  /** With a marker, a row is dropped exactly when no branch applies to its
      tail. */
  lemma MarkerDropped(x: Location, d: Detectors)
    requires x.source.Some? && FirstApt(x.source.value).Some?
    ensures var parts := Split(x.source.value, ',');
      ParseRow(x, d) == Drop <==> Resolve(parts[|parts| - 1], d).None?
  {
    DispatchMarker(x, d, x.source.value);
  }

  /** A row is dropped exactly when it has three segments or an "APT" and no
      branch applies to its tail (no abbreviation, a ZIP and no full name),
      so that it did not raise first. */
  lemma DroppedRow(x: Location, d: Detectors)
    requires x.source.Some?
    ensures var parts := Split(x.source.value, ',');
      ParseRow(x, d) == Drop <==>
        ((|parts| >= 3 || Occurs(x.source.value, "apt", true))
         && Resolve(parts[|parts| - 1], d).None?)
  {
    if FirstApt(x.source.value).None? {
      PlainDropped(x, d);
    } else {
      MarkerDropped(x, d);
    }
  }

  // ---------------------------------------------------------------------------
  // The frame

  /** `ParseRow` with the detectors fixed: the parser the frame functions are
      given, so that facts about the frame hold for any row parser. */
  function RowParser(d: Detectors): Location -> Outcome {
    x => ParseRow(x, d)
  }

  /** `custom_parser` over a frame, each row parsed by `parse`: the rows in
      order, and the first exception ends the run. */
  function ParseFrame(rows: seq<Entry>, parse: Location -> Outcome): (r: Result<seq<Entry>, Failure>)
    ensures r.Ok? <==> forall i :: 0 <= i < |rows| ==> !parse(rows[i].row).Fail?
    ensures r.Ok? ==> |r.value| <= |rows|
    decreases |rows|
  {
    if rows == [] then Ok([])
    else
      var init := rows[..|rows| - 1];
      var last := rows[|rows| - 1];
      assert forall i :: 0 <= i < |init| ==> init[i] == rows[i];
      match ParseFrame(init, parse)
      case Err(e) => Err(e)
      case Ok(out) =>
        match parse(last.row)
        case Emit(row) => Ok(out + [Entry(last.index, row)])
        case Drop => Ok(out)
        case Fail(e) => Err(e)
  }

  /** Every output row comes from an input row with the same label. */
  lemma {:induction false} ParseFrameSources(rows: seq<Entry>, parse: Location -> Outcome)
    requires ParseFrame(rows, parse).Ok?
    ensures var out := ParseFrame(rows, parse).value;
      forall k :: 0 <= k < |out| ==>
        exists i :: 0 <= i < |rows| && rows[i].index == out[k].index
                    && parse(rows[i].row) == Emit(out[k].row)
    decreases |rows|
  {
    if rows != [] {
      var n := |rows| - 1;
      var init := rows[..n];
      var o := parse(rows[n].row);
      assert ParseFrame(init, parse).Ok? && !o.Fail?;
      ParseFrameSources(init, parse);
      var out0 := ParseFrame(init, parse).value;
      var out := ParseFrame(rows, parse).value;
      assert out == if o.Emit? then out0 + [Entry(rows[n].index, o.row)] else out0;
      forall k | 0 <= k < |out|
        ensures exists i :: 0 <= i < |rows| && rows[i].index == out[k].index
                            && parse(rows[i].row) == Emit(out[k].row)
      {
        if k < |out0| {
          assert out[k] == out0[k];
          var i :| 0 <= i < |init| && init[i].index == out0[k].index
                   && parse(init[i].row) == Emit(out0[k].row);
          assert rows[i] == init[i];
        } else {
          assert rows[n].index == out[k].index && o == Emit(out[k].row);
        }
      }
    }
  }

  /** Every row a branch emits is in the output. */
  lemma {:induction false} ParseFrameKeeps(rows: seq<Entry>, parse: Location -> Outcome)
    requires ParseFrame(rows, parse).Ok?
    ensures var out := ParseFrame(rows, parse).value;
      forall i :: 0 <= i < |rows| && parse(rows[i].row).Emit? ==>
        Entry(rows[i].index, parse(rows[i].row).row) in out
    decreases |rows|
  {
    if rows != [] {
      var n := |rows| - 1;
      var init := rows[..n];
      var o := parse(rows[n].row);
      assert ParseFrame(init, parse).Ok? && !o.Fail?;
      ParseFrameKeeps(init, parse);
      var out0 := ParseFrame(init, parse).value;
      var out := ParseFrame(rows, parse).value;
      assert out == if o.Emit? then out0 + [Entry(rows[n].index, o.row)] else out0;
      forall i | 0 <= i < |rows| && parse(rows[i].row).Emit?
        ensures Entry(rows[i].index, parse(rows[i].row).row) in out
      {
        if i < n {
          assert rows[i] == init[i];
          var e := Entry(init[i].index, parse(init[i].row).row);
          assert e in out0;
          var k :| 0 <= k < |out0| && out0[k] == e;
          assert out[k] == e;
        } else {
          assert i == n && o.Emit?;
          var e := Entry(rows[n].index, o.row);
          assert out == out0 + [e];
          assert out[|out0|] == e;
        }
      }
    }
  }

  /** Labels that increase down the frame. */
  predicate Increasing(rows: seq<Entry>) {
    forall i, j :: 0 <= i < j < |rows| ==> rows[i].index < rows[j].index
  }

  /** The output keeps the input order: with increasing labels in, the labels
      out increase too, so no input yields two rows. */
  lemma {:induction false} ParseFrameOrdered(rows: seq<Entry>, parse: Location -> Outcome)
    requires Increasing(rows) && ParseFrame(rows, parse).Ok?
    ensures Increasing(ParseFrame(rows, parse).value)
    decreases |rows|
  {
    if rows != [] {
      var init := rows[..|rows| - 1];
      var last := rows[|rows| - 1];
      assert forall i :: 0 <= i < |init| ==> init[i] == rows[i];
      ParseFrameOrdered(init, parse);
      ParseFrameSources(init, parse);
      var out := ParseFrame(init, parse).value;
      forall k | 0 <= k < |out|
        ensures out[k].index < last.index
      {
        var i :| 0 <= i < |init| && init[i].index == out[k].index;
      }
    }
  }

  /** The loop of `custom_parser`: every row is parsed in turn and appended to
      `tmp` when a branch applies; an exception ends the loop. */
  method CustomParser(df: seq<Entry>, d: Detectors) returns (res: Result<seq<Entry>, Failure>)
    ensures res == ParseFrame(df, RowParser(d))
  {
    var tmp: seq<Entry> := [];
    var i := 0;
    while i < |df|
      invariant 0 <= i <= |df|
      invariant ParseFrame(df[..i], RowParser(d)) == Ok(tmp)
    {
      assert df[..i + 1][..i] == df[..i];
      var outcome := ParseRow(df[i].row, d);
      assert outcome == RowParser(d)(df[i].row);
      if outcome.Fail? {
        ParseFrameFailed(df, RowParser(d), i + 1);
        return Err(outcome.error);
      }
      if outcome.Emit? {
        tmp := tmp + [Entry(df[i].index, outcome.row)];
      }
      i := i + 1;
    }
    assert df[..i] == df;
    res := Ok(tmp);
  }

  /** Once a prefix of the frame raises, so does the whole frame, with the same
      exception. */
  lemma {:induction false} ParseFrameFailed(rows: seq<Entry>, parse: Location -> Outcome, n: nat)
    requires n <= |rows| && ParseFrame(rows[..n], parse).Err?
    ensures ParseFrame(rows, parse) == ParseFrame(rows[..n], parse)
    decreases |rows| - n
  {
    if n < |rows| {
      assert rows[..n + 1][..n] == rows[..n];
      ParseFrameFailed(rows, parse, n + 1);
    } else {
      assert rows[..n] == rows;
    }
  }
}
