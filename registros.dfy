/**
 * The `registro` table's rows, the values a handler builds them from, and `Registro.to_json`.
 * Measurements are Numeric(10,2) columns, kept exactly as hundredths; None is SQL NULL.
 */
module Registros {
  import opened Wrappers
  import opened JsonValues
  import opened CivilTime
  import opened PyInt
  import DateFormat

  /** A reading as the Registro constructor receives it: raw measurement values and a UTC time. */
  datatype Fields = Fields(temperatura: Json, pressao: Json, altitude: Json, umidade: Json, co2: Json,
                           tempoRegistro: DateTime)

  /** The stored columns of one row, apart from its id. */
  datatype Row = Row(temperatura: Option<int>, pressao: Option<int>, altitude: Option<int>,
                     umidade: Option<int>, co2: Option<int>, tempoRegistro: DateTime)

  /** One row of the table. */
  datatype Registro = Registro(id: int, row: Row)

  /** What `to_json` returns: measurements as numbers (hundredths), the time formatted. */
  datatype RegistroJson = RegistroJson(id: int, temperatura: int, pressao: int, altitude: int,
                                       umidade: int, co2: int, tempoRegistro: string)

  /** `datetime.fromtimestamp(int(x), tz=timezone.utc)`: int() may raise, and a time outside
      the years 1 to 9999 raises ValueError. */
  function TimestampOf(x: Json): (r: Result<DateTime, PyError>)
    ensures r.Success? <==> IntOf(x).Success? && MIN_TIMESTAMP <= IntOf(x).value <= MAX_TIMESTAMP
    ensures r.Success? ==> Valid(r.value) && Timestamp(r.value) == IntOf(x).value
    ensures IntOf(x).Failure? ==> r == Failure(IntOf(x).error)
    ensures IntOf(x).Success? && r.Failure? ==> r.error == ValueError
  {
    match IntOf(x)
    case Failure(e) => Failure(e)
    case Success(t) =>
      if MIN_TIMESTAMP <= t <= MAX_TIMESTAMP then Success(FromTimestamp(t)) else Failure(ValueError)
  }

  /** The value a Numeric(10,2) column stores for a decoded JSON value: None is NULL, numbers
      (booleans are 0 and 1) are stored, and anything else cannot be bound (the commit fails). */
  function Column(j: Json): (c: Option<Option<int>>)
    ensures c == Some(None) <==> j == JNull
    ensures j.JBool? ==> c == Some(Some(if j.b then 100 else 0))
    ensures j.JInt? ==> c == Some(Some(100 * j.i))
    ensures j.JDecimal? ==> c == Some(Some(j.hundredths))
    ensures c.None? <==> j.JString? || j.JArray? || j.JObject?
  {
    match j
    case JNull => Some(None)
    case JBool(b) => Some(Some(if b then 100 else 0))
    case JInt(i) => Some(Some(100 * i))
    case JDecimal(h) => Some(Some(h))
    case _ => None
  }

  /** The row the commit writes for a new Registro, or None when a value cannot be stored. */
  function ToRow(f: Fields): (r: Option<Row>)
    ensures r.Some? <==> Column(f.temperatura).Some? && Column(f.pressao).Some? && Column(f.altitude).Some?
                         && Column(f.umidade).Some? && Column(f.co2).Some?
    ensures r.Some? ==> r.value.tempoRegistro == f.tempoRegistro && Some(r.value.co2) == Column(f.co2)
                        && Some(r.value.temperatura) == Column(f.temperatura)
                        && Some(r.value.pressao) == Column(f.pressao)
                        && Some(r.value.altitude) == Column(f.altitude)
                        && Some(r.value.umidade) == Column(f.umidade)
  {
    match (Column(f.temperatura), Column(f.pressao), Column(f.altitude), Column(f.umidade), Column(f.co2))
    case (Some(t), Some(p), Some(a), Some(u), Some(c)) => Some(Row(t, p, a, u, c, f.tempoRegistro))
    case _ => None
  }

  predicate HasNull(row: Row) {
    row.temperatura.None? || row.pressao.None? || row.altitude.None? || row.umidade.None? || row.co2.None?
  }

  /** `Registro.to_json()`; None when `float()` of a NULL measurement raises TypeError. */
  function ToJson(r: Registro): (j: Option<RegistroJson>)
    requires Valid(r.row.tempoRegistro)
    ensures j.Some? <==> !HasNull(r.row)
    ensures j.Some? ==> && j.value.id == r.id
                        && Some(j.value.temperatura) == r.row.temperatura
                        && Some(j.value.pressao) == r.row.pressao
                        && Some(j.value.altitude) == r.row.altitude
                        && Some(j.value.umidade) == r.row.umidade
                        && Some(j.value.co2) == r.row.co2
                        && DateFormat.ParseDateTime(j.value.tempoRegistro) == Some(r.row.tempoRegistro)
  {
    var row := r.row;
    if HasNull(row) then None
    else
      DateFormat.ParseStrftime(row.tempoRegistro);
      Some(RegistroJson(r.id, row.temperatura.value, row.pressao.value, row.altitude.value,
                        row.umidade.value, row.co2.value, DateFormat.Strftime(row.tempoRegistro)))
  }

  /** The JSON object a serialized record becomes. */
  function ToObject(j: RegistroJson): (o: Json)
    ensures o.JObject?
    ensures o.fields.Keys == {"id", "temperatura", "pressao", "altitude", "umidade", "co2", "tempo_registro"}
    ensures o.fields["id"] == JInt(j.id) && o.fields["tempo_registro"] == JString(j.tempoRegistro)
    ensures o.fields["temperatura"] == JDecimal(j.temperatura) && o.fields["pressao"] == JDecimal(j.pressao)
    ensures o.fields["altitude"] == JDecimal(j.altitude) && o.fields["umidade"] == JDecimal(j.umidade)
    ensures o.fields["co2"] == JDecimal(j.co2)
  {
    JObject(map["id" := JInt(j.id), "temperatura" := JDecimal(j.temperatura), "pressao" := JDecimal(j.pressao),
                "altitude" := JDecimal(j.altitude), "umidade" := JDecimal(j.umidade),
                "co2" := JDecimal(j.co2), "tempo_registro" := JString(j.tempoRegistro)])
  }

  predicate AllTimesValid(rs: seq<Registro>) {
    forall i :: 0 <= i < |rs| ==> Valid(rs[i].row.tempoRegistro)
  }

  /** `[registro.to_json() for registro in rs]`; None when any element raises. */
  function ToJsonAll(rs: seq<Registro>): (js: Option<seq<RegistroJson>>)
    requires AllTimesValid(rs)
    ensures js.Some? <==> forall i :: 0 <= i < |rs| ==> !HasNull(rs[i].row)
    ensures js.Some? ==> |js.value| == |rs| && forall i :: 0 <= i < |rs| ==> Some(js.value[i]) == ToJson(rs[i])
  {
    if forall i :: 0 <= i < |rs| ==> !HasNull(rs[i].row) then
      Some(seq(|rs|, i requires 0 <= i < |rs| && !HasNull(rs[i].row) && Valid(rs[i].row.tempoRegistro)
                       => ToJson(rs[i]).value))
    else
      None
  }

  /** Serializing one more record appends its JSON, and a record with a NULL stops the list. */
  lemma ToJsonAllSnoc(rs: seq<Registro>, r: Registro)
    requires AllTimesValid(rs) && Valid(r.row.tempoRegistro)
    ensures AllTimesValid(rs + [r])
    ensures ToJsonAll(rs).Some? && ToJson(r).Some? ==>
              ToJsonAll(rs + [r]) == Some(ToJsonAll(rs).value + [ToJson(r).value])
    ensures ToJsonAll(rs).None? || ToJson(r).None? ==> ToJsonAll(rs + [r]).None?
  {
    var rs2 := rs + [r];
    assert forall i :: 0 <= i < |rs| ==> rs2[i] == rs[i];
    assert rs2[|rs|] == r;
    if ToJsonAll(rs).Some? && ToJson(r).Some? {
      ToJsonAllSnocSome(rs, r);
    } else if ToJsonAll(rs).None? {
      var k :| 0 <= k < |rs| && HasNull(rs[k].row);
      assert HasNull(rs2[k].row);
    } else {
      assert HasNull(rs2[|rs|].row);
    }
  }

  /** The case of ToJsonAllSnoc where every record, the new one included, can be serialized. */
  lemma ToJsonAllSnocSome(rs: seq<Registro>, r: Registro)
    requires AllTimesValid(rs) && Valid(r.row.tempoRegistro)
    requires AllTimesValid(rs + [r]) && ToJsonAll(rs).Some? && !HasNull(r.row)
    ensures ToJsonAll(rs + [r]) == Some(ToJsonAll(rs).value + [ToJson(r).value])
  {
    var rs2 := rs + [r];
    assert forall i :: 0 <= i < |rs| ==> rs2[i] == rs[i];
    assert rs2[|rs|] == r;
    assert forall i :: 0 <= i < |rs2| ==> !HasNull(rs2[i].row);
    var js := ToJsonAll(rs).value;
    var js2 := ToJsonAll(rs2).value;
    var want := js + [ToJson(r).value];
    forall i | 0 <= i < |js2|
      ensures js2[i] == want[i]
    {
      if i < |js| {
        assert Some(js2[i]) == ToJson(rs2[i]) && Some(js[i]) == ToJson(rs[i]);
      } else {
        assert Some(js2[i]) == ToJson(r);
      }
    }
    assert js2 == want;
  }
}
