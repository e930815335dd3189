/** The address side of the centroid step: `full_address` writes a
    "Street, City, State ZIP" column into a frame of places, and
    `keep_columns` projects the frame onto the five columns that are saved. */
module Centroid {
  import opened Wrappers
  import opened Text
  import opened Zip
  import opened Locations
  import opened FallbackParser

  // ---------------------------------------------------------------------------
  // Frames as values

  /** A frame: its column names in order, each column's cells by name, and the
      number of rows. `None` stands for NaN. */
  datatype Table = Table(columns: seq<string>, cells: map<string, seq<Option<string>>>, height: nat)

  /** Every listed column has a cell for every row. */
  predicate WellFormed(t: Table) {
    forall c :: c in t.columns ==> c in t.cells && |t.cells[c]| == t.height
  }

  /** The column names, in order, after `df[name] = ...`: an existing column is
      overwritten where it stands, a new one goes last. */
  function AddColumn(columns: seq<string>, name: string): (r: seq<string>)
    ensures name in r
    ensures forall c :: c in columns ==> c in r
    ensures forall c :: c in r ==> c in columns || c == name
    ensures columns <= r
  {
    if name in columns then columns else columns + [name]
  }

  // ---------------------------------------------------------------------------
  // Which columns `full_address` reads

  /** The ZIP column: "ZIP" when the frame has one, else "ZIPCODE". The chosen
      column exists exactly when one of the two does. */
  function ZipColumn(columns: seq<string>): (c: string)
    ensures c == "ZIP" || c == "ZIPCODE"
    ensures "ZIP" in columns ==> c == "ZIP"
    ensures c in columns <==> "ZIP" in columns || "ZIPCODE" in columns
  {
    if "ZIP" in columns then "ZIP" else "ZIPCODE"
  }

  /** The state column: "STATE" when the frame has one, else "STNAME". */
  function StateColumn(columns: seq<string>): (c: string)
    ensures c == "STATE" || c == "STNAME"
    ensures "STATE" in columns ==> c == "STATE"
    ensures c in columns <==> "STATE" in columns || "STNAME" in columns
  {
    if "STATE" in columns then "STATE" else "STNAME"
  }

  /** The street column: "ADDRESS" when the frame has one, else "STREET". The
      third branch, for "STD_ADDR_B", is never taken: the first two test a
      condition and its negation. */
  function AddressColumn(columns: seq<string>): (c: string)
    ensures c != "STD_ADDR_B"
    ensures "ADDRESS" in columns ==> c == "ADDRESS"
    ensures c in columns <==> "ADDRESS" in columns || "STREET" in columns
  {
    if "ADDRESS" in columns then "ADDRESS"
    else if "ADDRESS" !in columns then "STREET"
    else assert false; "STD_ADDR_B"
  }

  /** The four columns the new column is built from. */
  predicate HasInputs(columns: seq<string>) {
    && AddressColumn(columns) in columns && "CITY" in columns
    && StateColumn(columns) in columns && ZipColumn(columns) in columns
  }

  /** `full_address` finds its inputs exactly when the frame has a street
      column, a city, a state column and a ZIP column under one of their names. */
  lemma InputsPresent(columns: seq<string>)
    ensures HasInputs(columns) <==>
      && ("ADDRESS" in columns || "STREET" in columns) && "CITY" in columns
      && ("STATE" in columns || "STNAME" in columns)
      && ("ZIP" in columns || "ZIPCODE" in columns)
  {
  }

  // ---------------------------------------------------------------------------
  // One row

  /** `fillna('NaN')` of a street, city or state cell. The ZIP cell is not
      filled but printed with `astype('str')`, which is `CellText`: a NaN ZIP
      becomes "nan", not "NaN". */
  function Fill(c: Option<string>): (t: string)
    ensures c.Some? ==> t == c.value
    ensures c.None? ==> t == "NaN"
  {
    match c
    case None => "NaN"
    case Some(v) => v
  }

  /** A cell whose text has no comma. */
  predicate CommaFree(c: Option<string>) {
    ',' !in Fill(c)
  }

  /** The full address of one row: street, city and state joined by ", ", then
      a space and the ZIP. */
  function FullAddressOf(addr: Option<string>, city: Option<string>, state: Option<string>,
                         zip: Option<string>): string
  {
    Join([Fill(addr), Fill(city), Fill(state)], ", ") + " " + CellText(zip)
  }

  /** When no component has a comma, a full address splits back, on commas,
      into exactly the street, the city after a space, and the state and ZIP
      after a space: the three segments `custom_parser` reads. */
  lemma FullAddressSplits(addr: Option<string>, city: Option<string>, state: Option<string>,
                          zip: Option<string>)
    requires CommaFree(addr) && CommaFree(city) && CommaFree(state) && ',' !in CellText(zip)
    ensures Split(FullAddressOf(addr, city, state, zip), ',')
      == [Fill(addr), " " + Fill(city), " " + Fill(state) + " " + CellText(zip)]
  {
    SplitThree(Fill(addr), Fill(city), Fill(state), CellText(zip));
  }

  lemma SplitThree(a: string, c: string, s: string, z: string)
    requires ',' !in a && ',' !in c && ',' !in s && ',' !in z
    ensures Split(Join([a, c, s], ", ") + " " + z, ',') == [a, " " + c, " " + s + " " + z]
  {
    var r := Join([a, c, s], ", ") + " " + z;
    var tail := " " + s + " " + z;
    assert [a, c, s][1..] == [c, s] && [c, s][1..] == [s];
    assert Join([c, s], ", ") == c + ", " + s;
    assert Join([a, c, s], ", ") == a + ", " + (c + ", " + s);
    assert r == a + [','] + ((" " + c) + [','] + tail);
    assert ',' !in " " + c && ',' !in tail;
    SplitWhole(tail, ',');
    SplitAfterPiece(" " + c, ',', tail);
    SplitAfterPiece(a, ',', (" " + c) + [','] + tail);
  }

  /** The street and city cells of a row built by `full_address` come back from
      the fallback parser when the address has no "APT": the street as it was,
      the city with the space after its comma, and the state and ZIP from the
      last segment. The row is never an `IndexError`. */
  lemma FullAddressParses(addr: Option<string>, city: Option<string>, state: Option<string>,
                          zip: Option<string>, x: Location, d: Detectors)
    requires CommaFree(addr) && CommaFree(city) && CommaFree(state) && ',' !in CellText(zip)
    requires x.source == Some(FullAddressOf(addr, city, state, zip))
    requires !Occurs(x.source.value, "apt", true)
    ensures !ParseRow(x, d).Fail?
    ensures var tail := " " + Fill(state) + " " + CellText(zip);
      && (ParseRow(x, d) == Drop <==> Resolve(tail, d).None?)
      && (ParseRow(x, d).Emit? ==>
            && ParseRow(x, d).row.address1 == Some(Fill(addr))
            && ParseRow(x, d).row.city == Some(" " + Fill(city))
            && Resolve(tail, d) == Some((ParseRow(x, d).row.state, ParseRow(x, d).row.zip)))
  {
    FullAddressSplits(addr, city, state, zip);
    NoMarkerRow(x, d);
  }

  /** With a ZIP of the usual shape and a state without digits, the ZIP the
      parser finds in the last segment is the row's own. */
  lemma FullAddressZip(state: Option<string>, zip: Option<string>)
    requires forall i :: 0 <= i < |Fill(state)| ==> !IsDigit(Fill(state)[i])
    requires zip.Some? && ZipShape(zip.value)
    ensures FirstZip(" " + Fill(state) + " " + CellText(zip)) == Some(zip.value)
  {
    var pre := " " + Fill(state) + " ";
    assert forall i :: 0 <= i < |pre| ==> !IsDigit(pre[i]) by {
      forall i | 0 <= i < |pre|
        ensures !IsDigit(pre[i])
      {
        if 0 < i < |pre| - 1 {
          assert pre[i] == Fill(state)[i - 1];
        }
      }
    }
    ZipAfterText(pre, zip.value);
    assert " " + Fill(state) + " " + CellText(zip) == pre + zip.value;
  }

  /** A row with every input cell empty gets the address "NaN, NaN, NaN nan":
      the text cells are filled with "NaN" but the ZIP prints as "nan". */
  lemma AllMissingAddress()
    ensures Split(FullAddressOf(None, None, None, None), ',') == ["NaN", " NaN", " NaN nan"]
  {
    NoComma(Fill(None));
    NoComma(CellText(None));
    FullAddressSplits(None, None, None, None);
    var parts := Split(FullAddressOf(None, None, None, None), ',');
    assert parts == [Fill(None), " " + Fill(None), " " + Fill(None) + " " + CellText(None)];
    assert " " + Fill(None) == " NaN";
    assert " " + Fill(None) + " " + CellText(None) == " NaN nan";
  }

  lemma NoComma(s: string)
    requires forall i :: 0 <= i < |s| ==> s[i] != ','
    ensures ',' !in s
  {
  }

  /** A missing ZIP is not recovered: with a state without digits, the last
      segment of the address holds no ZIP for the parser to find. */
  lemma MissingZipNotRecovered(state: Option<string>)
    requires forall i :: 0 <= i < |Fill(state)| ==> !IsDigit(Fill(state)[i])
    ensures FirstZip(" " + Fill(state) + " " + CellText(None)).None?
  {
    var t := " " + Fill(state) + " " + CellText(None);
    forall i | 0 <= i < |t|
      ensures !IsDigit(t[i])
    {
      if 0 < i <= |Fill(state)| {
        assert t[i] == Fill(state)[i - 1];
      } else if i > |Fill(state)| + 1 {
        assert t[i] == "nan"[i - |Fill(state)| - 2];
      }
    }
    NoZipWithoutDigits(t);
  }

  // ---------------------------------------------------------------------------
  // The whole column

  /** The `Full_Address` cells of a frame that has its inputs. */
  function FullAddressColumn(t: Table): (col: seq<Option<string>>)
    requires WellFormed(t) && HasInputs(t.columns)
    ensures |col| == t.height
  {
    var a, s, z := AddressColumn(t.columns), StateColumn(t.columns), ZipColumn(t.columns);
    seq(t.height, i requires 0 <= i < t.height =>
      Some(FullAddressOf(t.cells[a][i], t.cells["CITY"][i], t.cells[s][i], t.cells[z][i])))
  }

  /** `full_address(df)` on the frame as a value: `KeyError` when an input
      column is missing; otherwise every row gets its full address in the
      `Full_Address` column and every other column is kept. */
  function WithFullAddress(t: Table): (r: Result<Table, Failure>)
    requires WellFormed(t)
    ensures r.Err? <==> !HasInputs(t.columns)
    ensures r.Err? ==> r.error == KeyError
    ensures r.Ok? ==>
      && WellFormed(r.value) && r.value.height == t.height
      && r.value.columns == AddColumn(t.columns, "Full_Address")
      && (forall c :: c in t.cells && c != "Full_Address" ==> c in r.value.cells && r.value.cells[c] == t.cells[c])
      && (forall i :: 0 <= i < t.height ==>
            r.value.cells["Full_Address"][i] == Some(FullAddressOf(
              t.cells[AddressColumn(t.columns)][i], t.cells["CITY"][i],
              t.cells[StateColumn(t.columns)][i], t.cells[ZipColumn(t.columns)][i])))
  {
    if !HasInputs(t.columns) then Err(KeyError)
    else Ok(Table(AddColumn(t.columns, "Full_Address"),
                  t.cells["Full_Address" := FullAddressColumn(t)], t.height))
  }

  /** Running `full_address` twice gives the same column: the new column is
      not one of its inputs. */
  lemma FullAddressIdempotent(t: Table)
    requires WellFormed(t) && HasInputs(t.columns)
    ensures WithFullAddress(WithFullAddress(t).value) == WithFullAddress(t)
  {
    var u := WithFullAddress(t).value;
    assert AddressColumn(u.columns) == AddressColumn(t.columns);
    assert StateColumn(u.columns) == StateColumn(t.columns);
    assert ZipColumn(u.columns) == ZipColumn(t.columns);
    assert FullAddressColumn(u) == FullAddressColumn(t);
    assert AddColumn(u.columns, "Full_Address") == u.columns;
    assert u.cells["Full_Address" := FullAddressColumn(u)] == u.cells;
  }

  // ---------------------------------------------------------------------------
  // `keep_columns`

  /** The columns saved for each place file, in order. */
  const Kept: seq<string> := ["Full_Address", "Place_type", "source_centroid", "source_lon", "source_lat"]

  /** The frame has the five saved columns. */
  predicate HasKept(columns: seq<string>) {
    && "Full_Address" in columns && "Place_type" in columns && "source_centroid" in columns
    && "source_lon" in columns && "source_lat" in columns
  }

  /** `df[cols]`: `KeyError` unless the frame has all five columns; otherwise
      exactly those five, in that order, with their cells and every row. */
  function KeepColumns(t: Table): (r: Result<Table, Failure>)
    requires WellFormed(t)
    ensures r.Err? <==> exists c :: c in Kept && c !in t.columns
    ensures r.Err? ==> r.error == KeyError
    ensures r.Ok? ==>
      && r.value.columns == Kept && r.value.height == t.height && WellFormed(r.value)
      && r.value.cells.Keys == set c | c in Kept
      && (forall c :: c in Kept ==> r.value.cells[c] == t.cells[c])
  {
    if !HasKept(t.columns) then
      assert exists c :: c in Kept && c !in t.columns by {
        if "Full_Address" !in t.columns { assert Kept[0] !in t.columns; }
        else if "Place_type" !in t.columns { assert Kept[1] !in t.columns; }
        else if "source_centroid" !in t.columns { assert Kept[2] !in t.columns; }
        else if "source_lon" !in t.columns { assert Kept[3] !in t.columns; }
        else { assert Kept[4] !in t.columns; }
      }
      Err(KeyError)
    else
      Ok(Table(Kept, map c | c in t.cells && c in Kept :: t.cells[c], t.height))
  }

  /** Projecting a projected frame changes nothing. */
  lemma KeepColumnsIdempotent(t: Table)
    requires WellFormed(t) && KeepColumns(t).Ok?
    ensures KeepColumns(KeepColumns(t).value) == KeepColumns(t)
  {
    var u := KeepColumns(t).value;
    assert HasKept(u.columns);
    assert (map c | c in u.cells && c in Kept :: u.cells[c]) == u.cells;
  }

  /** After `full_address`, the projection needs only the four columns the
      centroid step adds. */
  lemma KeepAfterFullAddress(t: Table)
    requires WellFormed(t) && HasInputs(t.columns)
    ensures KeepColumns(WithFullAddress(t).value).Ok? <==>
      "Place_type" in t.columns && "source_centroid" in t.columns
      && "source_lon" in t.columns && "source_lat" in t.columns
  {
    var u := WithFullAddress(t).value;
    assert "Full_Address" in u.columns;
    assert forall c :: c != "Full_Address" ==> (c in u.columns <==> c in t.columns);
  }

  // ---------------------------------------------------------------------------
  // The frame `full_address` updates

  /** A frame of places whose columns `full_address` adds to in place. */
  class GeoFrame {
    var columns: seq<string>
    var cells: map<string, seq<Option<string>>>
    var height: nat

    constructor(t: Table)
      requires WellFormed(t)
      ensures Snapshot() == t && Valid()
    {
      columns, cells, height := t.columns, t.cells, t.height;
    }

    /** The frame as a value. */
    function Snapshot(): Table
      reads this
    {
      Table(columns, cells, height)
    }

    predicate Valid()
      reads this
    {
      WellFormed(Snapshot())
    }

    /** `full_address(df)`: raises `KeyError`, changing nothing, when an input
        column is missing; otherwise builds the column row by row and assigns
        it to `Full_Address`. */
    method FullAddress() returns (err: Option<Failure>)
      requires Valid()
      modifies this
      ensures Valid()
      ensures err.Some? <==> WithFullAddress(old(Snapshot())).Err?
      ensures err.Some? ==> err.value == KeyError && Snapshot() == old(Snapshot())
      ensures err.None? ==> Snapshot() == WithFullAddress(old(Snapshot())).value
    {
      if !HasInputs(columns) {
        return Some(KeyError);
      }
      var a, s, z := AddressColumn(columns), StateColumn(columns), ZipColumn(columns);
      var col: seq<Option<string>> := [];
      var i := 0;
      while i < height
        invariant 0 <= i <= height
        invariant |col| == i
        invariant forall k :: 0 <= k < i ==>
          col[k] == Some(FullAddressOf(cells[a][k], cells["CITY"][k], cells[s][k], cells[z][k]))
      {
        col := col + [Some(FullAddressOf(cells[a][i], cells["CITY"][i], cells[s][i], cells[z][i]))];
        i := i + 1;
      }
      assert col == FullAddressColumn(Snapshot());
      columns := AddColumn(columns, "Full_Address");
      cells := cells["Full_Address" := col];
      err := None;
    }
  }
}
