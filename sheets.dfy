/**
 * `update_google_sheet`: the `values` array sent to the spreadsheet range `Registro!A1`,
 * a fixed header followed by the records whose co2 exceeds 20, in a fixed column order.
 * Only the array handed to the Sheets API is modelled, not the call itself.
 */
module Sheets {
  import opened Wrappers
  import opened JsonValues
  import opened Registros

  /** 20, in hundredths. */
  const CO2_THRESHOLD := 2000

  const HEADER: seq<Json> :=
    [JString("CO2"), JString("Temperatura"), JString("Pressão"), JString("Altitude"), JString("Umidade"),
     JString("Tempo Registro")]

  /** `registro['co2'] > 20`. */
  predicate Selected(r: RegistroJson) {
    r.co2 > CO2_THRESHOLD
  }

  /** A record's row: co2, temperatura, pressao, altitude, umidade, tempo_registro. */
  function Project(r: RegistroJson): seq<Json> {
    [JDecimal(r.co2), JDecimal(r.temperatura), JDecimal(r.pressao), JDecimal(r.altitude), JDecimal(r.umidade),
     JString(r.tempoRegistro)]
  }

  /** The rows below the header, for the records in `data`. */
  function DataRows(data: seq<RegistroJson>): seq<seq<Json>> {
    if data == [] then []
    else DataRows(data[..|data| - 1]) + (if Selected(data[|data| - 1]) then [Project(data[|data| - 1])] else [])
  }

  /** The whole `values` array. */
  function SheetValues(data: seq<RegistroJson>): seq<seq<Json>> {
    [HEADER] + DataRows(data)
  }

  /** Builds `values_novos` and issues the update; None would be the "no data" early return. */
  method UpdateGoogleSheet(data: seq<RegistroJson>) returns (sent: Option<seq<seq<Json>>>)
    ensures sent == Some(SheetValues(data))
  {
    var valuesNovos := [HEADER];
    for i := 0 to |data|
      invariant valuesNovos == [HEADER] + DataRows(data[..i])
    {
      assert data[..i + 1][..i] == data[..i];
      if data[i].co2 > CO2_THRESHOLD {
        valuesNovos := valuesNovos + [Project(data[i])];
      }
    }
    assert data[..|data|] == data;
    if valuesNovos == [] {
      assert false;
    }
    sent := Some(valuesNovos);
  }

  predicate StrictlyIncreasing(sel: seq<int>) {
    forall i, j :: 0 <= i < j < |sel| ==> sel[i] < sel[j]
  }

  /**
   * `sel` lists, in increasing order, the positions in `data` of the records the rows below
   * the header come from, and every record with co2 above 20 is among them.
   */
  predicate IsSelection(data: seq<RegistroJson>, sel: seq<int>) {
    && |sel| == |DataRows(data)| && StrictlyIncreasing(sel)
    && (forall j :: 0 <= j < |sel| ==>
          0 <= sel[j] < |data| && Selected(data[sel[j]]) && DataRows(data)[j] == Project(data[sel[j]]))
    && (forall i :: 0 <= i < |data| && Selected(data[i]) ==> i in sel)
  }

  /** The rows below the header are exactly the selected records, in input order. */
  lemma {:induction false} Selection(data: seq<RegistroJson>) returns (sel: seq<int>)
    ensures |sel| == |DataRows(data)| && StrictlyIncreasing(sel)
    ensures forall j :: 0 <= j < |sel| ==>
              0 <= sel[j] < |data| && Selected(data[sel[j]]) && DataRows(data)[j] == Project(data[sel[j]])
    ensures forall i :: 0 <= i < |data| && Selected(data[i]) ==> i in sel
  {
    if data == [] {
      sel := [];
    } else {
      var n := |data| - 1;
      var s0 := Selection(data[..n]);
      assert IsSelection(data[..n], s0);
      if Selected(data[n]) {
        sel := s0 + [n];
        SelectionAdd(data, s0);
      } else {
        sel := s0;
        SelectionKeep(data, s0);
      }
      assert IsSelection(data, sel);
    }
  }

  /** A last record with co2 above 20 extends the selection by its position. */
  lemma SelectionAdd(data: seq<RegistroJson>, s0: seq<int>)
    requires |data| > 0 && Selected(data[|data| - 1]) && IsSelection(data[..|data| - 1], s0)
    ensures IsSelection(data, s0 + [|data| - 1])
  {
    var n := |data| - 1;
    var init := data[..n];
    var sel := s0 + [n];
    assert forall i :: 0 <= i < n ==> init[i] == data[i];
    assert DataRows(data) == DataRows(init) + [Project(data[n])];
    forall i, j | 0 <= i < j < |sel|
      ensures sel[i] < sel[j]
    {
      assert sel[i] == s0[i];
    }
    forall j | 0 <= j < |sel|
      ensures 0 <= sel[j] < |data| && Selected(data[sel[j]]) && DataRows(data)[j] == Project(data[sel[j]])
    {
      if j < |s0| {
        assert sel[j] == s0[j] && DataRows(data)[j] == DataRows(init)[j];
      }
    }
    forall i | 0 <= i < n && Selected(data[i])
      ensures i in sel
    {
      assert i in s0;
    }
  }

  /** A last record with co2 of 20 or less leaves the selection as it is. */
  lemma SelectionKeep(data: seq<RegistroJson>, s0: seq<int>)
    requires |data| > 0 && !Selected(data[|data| - 1]) && IsSelection(data[..|data| - 1], s0)
    ensures IsSelection(data, s0)
  {
    var n := |data| - 1;
    var init := data[..n];
    assert forall i :: 0 <= i < n ==> init[i] == data[i];
    assert DataRows(data) == DataRows(init);
  }

  /** The positions of the records with co2 above 20. */
  function SelectedPositions(data: seq<RegistroJson>): set<int> {
    set i | 0 <= i < |data| && Selected(data[i])
  }

  lemma {:induction false} DistinctCard(sel: seq<int>)
    requires StrictlyIncreasing(sel)
    ensures |set x | x in sel| == |sel|
  {
    if sel != [] {
      var init := sel[..|sel| - 1];
      DistinctCard(init);
      assert (set x | x in sel) == (set x | x in init) + {sel[|sel| - 1]};
    }
  }

  /** One header row plus one row per record with co2 above 20; never empty. */
  lemma RowCount(data: seq<RegistroJson>)
    ensures |SheetValues(data)| == 1 + |SelectedPositions(data)|
    ensures SheetValues(data)[0] == HEADER
  {
    var sel := Selection(data);
    DistinctCard(sel);
    assert (set x | x in sel) == SelectedPositions(data);
  }

  /** No record with co2 of 20 or less reaches the sheet. */
  lemma OnlySelectedRows(data: seq<RegistroJson>, row: seq<Json>)
    requires row in SheetValues(data)[1..]
    ensures exists r :: r in data && Selected(r) && row == Project(r)
  {
    var rows := DataRows(data);
    assert SheetValues(data)[1..] == rows;
    var j :| 0 <= j < |rows| && rows[j] == row;
    var sel := Selection(data);
    var k := sel[j];
    assert 0 <= k < |data| && Selected(data[k]) && row == Project(data[k]);
    assert data[k] in data;
  }

  /** A record added at the end adds its row at the end, when its co2 is above 20. */
  lemma SheetValuesAppend(data: seq<RegistroJson>, r: RegistroJson)
    ensures SheetValues(data + [r]) == SheetValues(data) + (if Selected(r) then [Project(r)] else [])
  {
    assert (data + [r])[..|data|] == data;
  }
}
