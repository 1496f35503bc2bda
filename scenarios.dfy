/**
 * Whole runs of the application from an empty store: a reading posted over HTTP and read back,
 * and readings arriving from the broker and pushed to the sheet.
 */
module Scenarios {
  import opened Wrappers
  import opened JsonValues
  import CivilTime
  import DateFormat
  import opened Registros
  import opened Sheets
  import opened Api

  /** A `POST /data` body: 21.50 degrees, 1013.25 hPa, altitude 760, 45% humidity, co2 35. */
  const POSTED: Json :=
    JObject(map["temperatura" := JDecimal(2150), "pressao" := JDecimal(101325), "altitude" := JInt(760),
                "umidade" := JDecimal(4500), "co2" := JInt(35), "tempo_registro" := JInt(1700000000)])

  /** The same reading as the sensor publishes it. */
  const PUBLISHED: Json :=
    JObject(map["temperature" := JDecimal(2150), "pressure" := JDecimal(101325), "altitude" := JInt(760),
                "humidity" := JDecimal(4500), "CO2" := JInt(35), "timestamp" := JInt(1700000000)])

  /** A published reading with co2 15, one minute later. */
  const PUBLISHED_LOW: Json :=
    JObject(map["temperature" := JDecimal(2150), "pressure" := JDecimal(101325), "altitude" := JInt(760),
                "humidity" := JDecimal(4500), "CO2" := JInt(15), "timestamp" := JInt(1700000060)])

  /** A published reading without a timestamp. */
  const UNTIMED: Json := JObject(map["temperature" := JDecimal(2150), "CO2" := JInt(35)])

  /** The stored reading serialized. */
  const SERIALIZED := RegistroJson(1, 2150, 101325, 76000, 4500, 3500, "2023-11-14 22:13:20")

  /** The row both readings are stored as. */
  const ROW :=
    Row(Some(2150), Some(101325), Some(76000), Some(4500), Some(3500), CivilTime.DateTime(2023, 11, 14, 22, 13, 20))

  /** The row the second published reading is stored as. */
  const ROW_LOW :=
    Row(Some(2150), Some(101325), Some(76000), Some(4500), Some(1500), CivilTime.DateTime(2023, 11, 14, 22, 14, 20))

  /** The body posted is stored as ROW. */
  lemma PostedRow()
    ensures PostFields(POSTED).Success? && ToRow(PostFields(POSTED).value) == Some(ROW)
  {
    CivilTime.FromTimestampExample();
    assert Get(POSTED.fields, "tempo_registro") == JInt(1700000000);
  }

  /** The first message is stored as ROW too. */
  lemma PublishedRow()
    ensures MessageFields(PUBLISHED).Success? && ToRow(MessageFields(PUBLISHED).value) == Some(ROW)
  {
    CivilTime.FromTimestampExample();
    assert Get(PUBLISHED.fields, "timestamp") == JInt(1700000000);
  }

  /** `to_json` of the stored row, with the time of 1700000000 formatted. */
  lemma RowSerialized()
    ensures ToJson(Registro(1, ROW)) == Some(SERIALIZED)
  {
    CivilTime.FromTimestampExample();
    DateFormat.StrftimeExample();
  }

  /** The body of the 200 answer to the lookup. */
  lemma FetchedBody()
    ensures GeraResponse(200, "registro", ToObject(SERIALIZED))
         == JsonResponse(200, JObject(map["registro" := ToObject(SERIALIZED)]))
  {
  }

  /** The body of the 200 answer to the delete. */
  lemma DeletedBody()
    ensures GeraResponse(200, "registro", ToObject(SERIALIZED), JString(DELETED))
         == JsonResponse(200, JObject(map["registro" := ToObject(SERIALIZED), "mensagem" := JString(DELETED)]))
  {
  }

  /** Post a reading and read it back. */
  method PostThenGet() returns (created: HttpResponse, fetched: HttpResponse)
    ensures created == JsonResponse(201, JObject(map["message" := JString(RECEIVED)]))
    ensures fetched == JsonResponse(200, JObject(map["registro" := ToObject(SERIALIZED)]))
  {
    var app := new App();
    PostedRow();
    created := app.PostData(POSTED, true);
    assert 1 in app.table.rows && app.table.rows[1] == Registro(1, ROW);
    RowSerialized();
    assert !HasNull(app.table.rows[1].row) && ToJson(app.table.rows[1]) == Some(SERIALIZED);
    fetched := app.SelecionaRegistroId(1);
    assert fetched == GeraResponse(200, "registro", ToObject(SERIALIZED));
    FetchedBody();
  }

  /** Post a reading, delete it, and look for it again. */
  method DeleteThenGet() returns (deleted: HttpResponse, refetched: HttpResponse)
    ensures deleted == JsonResponse(200, JObject(map["registro" := ToObject(SERIALIZED),
                                                     "mensagem" := JString(DELETED)]))
    ensures refetched == NotFound()
  {
    var app := new App();
    PostedRow();
    var _ := app.PostData(POSTED, true);
    assert 1 in app.table.rows && app.table.rows[1] == Registro(1, ROW);
    RowSerialized();
    assert !HasNull(app.table.rows[1].row) && ToJson(app.table.rows[1]) == Some(SERIALIZED);
    deleted := app.DeletaRegistro(1, true);
    assert deleted == GeraResponse(200, "registro", ToObject(SERIALIZED), JString(DELETED));
    DeletedBody();
    assert 1 !in app.table.rows;
    refetched := app.SelecionaRegistroId(1);
  }

  /** The second message is stored as ROW_LOW. */
  lemma PublishedLowRow()
    ensures MessageFields(PUBLISHED_LOW).Success? && ToRow(MessageFields(PUBLISHED_LOW).value) == Some(ROW_LOW)
  {
    var dt := CivilTime.DateTime(2023, 11, 14, 22, 14, 20);
    assert CivilTime.Valid(dt);
    CivilTime.FromTimestampOfTimestamp(dt);
    assert CivilTime.Timestamp(dt) == 1700000060;
    assert Get(PUBLISHED_LOW.fields, "timestamp") == JInt(1700000060);
  }

  /** The sync after the first message: the header and the reading. */
  lemma FirstSync()
    ensures Sync([Registro(1, ROW)]) == Some([HEADER, Project(SERIALIZED)])
  {
    RowSerialized();
    assert CivilTime.Valid(ROW.tempoRegistro);
    var rs := [Registro(1, ROW)];
    assert !HasNull(rs[0].row);
    var js := ToJsonAll(rs);
    assert js.Some? && Some(js.value[0]) == ToJson(rs[0]);
    assert js.value == [SERIALIZED];
    assert [SERIALIZED][..0] == [];
    assert DataRows([SERIALIZED]) == [Project(SERIALIZED)];
    assert SheetValues([SERIALIZED]) == [HEADER, Project(SERIALIZED)];
  }

  /** Two readings from the broker, the second below the co2 threshold: both syncs carry the
      header and the first reading only. */
  method ListenerSync() returns (first: MessageOutcome, second: MessageOutcome)
    ensures first == Stored(1, Some([HEADER, Project(SERIALIZED)]))
    ensures second == Stored(2, Some([HEADER, Project(SERIALIZED)]))
  {
    var app := new App();
    PublishedRow();
    first := app.OnMessage(PUBLISHED, true);
    assert app.table.Scan() == [Registro(1, ROW)];
    FirstSync();
    PublishedLowRow();
    var before := app.table.Scan();
    assert CivilTime.Valid(ROW_LOW.tempoRegistro);
    second := app.OnMessage(PUBLISHED_LOW, true);
    SyncSkipsLow(before, Registro(2, ROW_LOW));
  }

  /** A message without a timestamp is not stored, yet `GET /data` answers with it. */
  method ListenerDiscard() returns (outcome: MessageOutcome, latest: HttpResponse, listed: HttpResponse)
    ensures outcome == Discarded(MissingTimestamp)
    ensures latest == JsonResponse(200, UNTIMED)
    ensures listed == JsonResponse(200, JObject(map["registro" := JArray([])]))
  {
    var app := new App();
    assert Get(UNTIMED.fields, "timestamp") == JNull;
    outcome := app.OnMessage(UNTIMED, true);
    latest := app.GetData();
    listed := app.SelecionaRegistro();
  }
}
