/**
 * The two ingress handlers and the query API of the Flask application, over the record
 * store, the `mqtt_data` slot and the spreadsheet sink.  Each handler is one atomic step;
 * a storage failure is the parameter `commitOk`, and the sink is the `values` array that
 * would be sent.
 */
module Api {
  import opened Wrappers
  import opened JsonValues
  import opened PyInt
  import CivilTime
  import opened Registros
  import opened RecordStore
  import opened Sheets

  /** A Flask response: a JSON body with a status, or Flask's own error page for an
      exception the view does not catch. */
  datatype HttpResponse = JsonResponse(status: int, body: Json) | ErrorPage(status: int)

  const NOT_FOUND := "Registro não encontrado"
  const DELETED := "Deletado com sucesso"
  const DELETE_FAILED := "Erro ao deletar"
  const NO_DATA := "Nenhum dado fornecido"
  const BAD_TIMESTAMP := "Timestamp inválido"
  const PROCESSING_FAILED := "Falha ao processar os dados"
  const RECEIVED := "Data received successfully"

  /** `gera_response(status, nome_do_conteudo, conteudo, mensagem)`: the content under its key,
      and a `mensagem` key only when the message is truthy. */
  function GeraResponse(status: int, nome: string, conteudo: Json, mensagem: Json := JBool(false)): (r: HttpResponse)
    ensures r.JsonResponse? && r.status == status && r.body.JObject?
    ensures r.body.fields.Keys == {nome} + (if Truthy(mensagem) then {"mensagem"} else {})
    ensures Truthy(mensagem) ==> r.body.fields["mensagem"] == mensagem
    ensures nome != "mensagem" || !Truthy(mensagem) ==> r.body.fields[nome] == conteudo
  {
    var body := map[nome := conteudo];
    JsonResponse(status, JObject(if Truthy(mensagem) then body["mensagem" := mensagem] else body))
  }

  /** The 404 answer of both `/registro/<id>` routes. */
  function NotFound(): (r: HttpResponse)
    ensures r == JsonResponse(404, JObject(map["registro" := JObject(map[]), "mensagem" := JString(NOT_FOUND)]))
  {
    GeraResponse(404, "registro", JObject(map[]), JString(NOT_FOUND))
  }

  /** `jsonify({"error": message}), status` (and `{"message": ...}` for the 201). */
  function Message(status: int, key: string, text: string): (r: HttpResponse)
    ensures r.JsonResponse? && r.status == status && r.body.JObject?
    ensures r.body.fields.Keys == {key} && r.body.fields[key] == JString(text)
  {
    JsonResponse(status, JObject(map[key := JString(text)]))
  }

  /** A JSON array of serialized records. */
  function ToArray(js: seq<RegistroJson>): (a: Json)
    ensures a.JArray? && |a.items| == |js|
    ensures forall i :: 0 <= i < |js| ==> a.items[i] == ToObject(js[i])
  {
    JArray(seq(|js|, i requires 0 <= i < |js| => ToObject(js[i])))
  }

  // ---------------------------------------------------------------------------------------
  // Normalizing the two kinds of payload

  /** Why `on_message` returns without storing a decoded message. */
  datatype Discard = NotAnObject | MissingTimestamp | BadTimestamp(error: PyError)

  /** The Registro `on_message` builds from a decoded message (keys temperature, pressure,
      altitude, humidity, CO2, timestamp), or why it gives up before the insert. */
  function MessageFields(payload: Json): (r: Result<Fields, Discard>)
    ensures !payload.JObject? ==> r == Failure(NotAnObject)
    ensures payload.JObject? && Get(payload.fields, "timestamp") == JNull ==> r == Failure(MissingTimestamp)
    ensures payload.JObject? && Get(payload.fields, "timestamp") != JNull ==>
        match TimestampOf(Get(payload.fields, "timestamp"))
          case Failure(e) => r == Failure(BadTimestamp(e))
          case Success(dt) => r.Success? && r.value.tempoRegistro == dt
                              && r.value.co2 == Get(payload.fields, "CO2")
                              && r.value.temperatura == Get(payload.fields, "temperature")
                              && r.value.pressao == Get(payload.fields, "pressure")
                              && r.value.altitude == Get(payload.fields, "altitude")
                              && r.value.umidade == Get(payload.fields, "humidity")
    ensures r.Success? ==> CivilTime.Valid(r.value.tempoRegistro)
  {
    match payload
    case JObject(m) =>
      var ts := Get(m, "timestamp");
      if ts == JNull then Failure(MissingTimestamp)
      else
        (match TimestampOf(ts)
         case Failure(e) => Failure(BadTimestamp(e))
         case Success(dt) =>
           Success(Fields(Get(m, "temperature"), Get(m, "pressure"), Get(m, "altitude"), Get(m, "humidity"),
                          Get(m, "CO2"), dt)))
    case _ => Failure(NotAnObject)
  }

  /** The Registro `post_data` builds from a request body (Portuguese keys), or the response it
      gives before the insert.  There is no None check: a missing `tempo_registro` reaches
      `int(None)`, whose TypeError only the outer handler catches. */
  function PostFields(body: Json): (r: Result<Fields, HttpResponse>)
    ensures !Truthy(body) ==> r == Failure(Message(400, "error", NO_DATA))
    ensures Truthy(body) && !body.JObject? ==> r == Failure(Message(500, "error", PROCESSING_FAILED))
    ensures body.JObject? && Truthy(body) ==> r == PostObjectFields(body.fields)
    ensures r.Success? ==> CivilTime.Valid(r.value.tempoRegistro)
  {
    if !Truthy(body) then Failure(Message(400, "error", NO_DATA))
    else
      match body
      case JObject(m) => PostObjectFields(m)
      case _ => Failure(Message(500, "error", PROCESSING_FAILED))
  }

  /** The part of `post_data` after the emptiness check, for a body that is an object. */
  function PostObjectFields(m: map<string, Json>): (r: Result<Fields, HttpResponse>)
    ensures match TimestampOf(Get(m, "tempo_registro"))
              case Failure(ValueError) => r == Failure(Message(400, "error", BAD_TIMESTAMP))
              case Failure(TypeError) => r == Failure(Message(500, "error", PROCESSING_FAILED))
              case Success(dt) => r.Success? && r.value.tempoRegistro == dt
                                  && r.value.co2 == Get(m, "co2")
                                  && r.value.temperatura == Get(m, "temperatura")
                                  && r.value.pressao == Get(m, "pressao")
                                  && r.value.altitude == Get(m, "altitude")
                                  && r.value.umidade == Get(m, "umidade")
    ensures "tempo_registro" !in m ==> r == Failure(Message(500, "error", PROCESSING_FAILED))
    ensures r.Success? ==> CivilTime.Valid(r.value.tempoRegistro)
  {
    match TimestampOf(Get(m, "tempo_registro"))
    case Failure(ValueError) => Failure(Message(400, "error", BAD_TIMESTAMP))
    case Failure(TypeError) => Failure(Message(500, "error", PROCESSING_FAILED))
    case Success(dt) =>
      Success(Fields(Get(m, "temperatura"), Get(m, "pressao"), Get(m, "altitude"), Get(m, "umidade"),
                     Get(m, "co2"), dt))
  }

  /** The sink update that follows a scan: the `values` array, or None when `to_json` raises. */
  function Sync(rs: seq<Registro>): (v: Option<seq<seq<Json>>>)
    requires AllTimesValid(rs)
    ensures v.Some? <==> forall i :: 0 <= i < |rs| ==> !HasNull(rs[i].row)
    ensures v.Some? ==> v.value == SheetValues(ToJsonAll(rs).value)
  {
    match ToJsonAll(rs)
    case None => None
    case Some(js) => Some(SheetValues(js))
  }

  /** A stored record extends the next sync by its own row when its co2 is above 20, and a
      record that cannot be serialized prevents the sync. */
  lemma SyncAfterInsert(rs: seq<Registro>, r: Registro)
    requires AllTimesValid(rs) && CivilTime.Valid(r.row.tempoRegistro)
    ensures AllTimesValid(rs + [r])
    ensures Sync(rs).Some? && ToJson(r).Some? ==>
        Sync(rs + [r]) == Some(Sync(rs).value + (if Selected(ToJson(r).value) then [Project(ToJson(r).value)] else []))
    ensures Sync(rs).None? || ToJson(r).None? ==> Sync(rs + [r]).None?
  {
    ToJsonAllSnoc(rs, r);
    if Sync(rs).Some? && ToJson(r).Some? {
      SheetValuesAppend(ToJsonAll(rs).value, ToJson(r).value);
    }
  }

  /** A stored reading whose co2 is at most 20 leaves the sync as it was. */
  lemma SyncSkipsLow(rs: seq<Registro>, r: Registro)
    requires AllTimesValid(rs) && CivilTime.Valid(r.row.tempoRegistro)
    requires Sync(rs).Some? && !HasNull(r.row) && r.row.co2.value <= CO2_THRESHOLD
    ensures AllTimesValid(rs + [r]) && Sync(rs + [r]) == Sync(rs)
  {
    SyncAfterInsert(rs, r);
    var j := ToJson(r);
    assert j.Some? && !Selected(j.value);
    var v := Sync(rs).value;
    assert v + [] == v;
  }

  /** What `on_message` did with one message. */
  datatype MessageOutcome =
    | Discarded(reason: Discard)
    | CommitFailed
    | Stored(id: int, sync: Option<seq<seq<Json>>>)

  // ---------------------------------------------------------------------------------------
  // The application state and its handlers

  class App {
    /** The `registro` table. */
    const table: Table
    /** `mqtt_data`: the last decoded message, whatever it held. */
    var mqttData: Json

    ghost predicate Valid()
      reads this, table
    {
      table.Valid()
    }

    constructor ()
      ensures Valid() && fresh(table)
      ensures table.rows == map[] && table.nextId == 1 && mqttData == JArray([])
    {
      table := new Table();
      mqttData := JArray([]);
    }

    /** `on_message`: keep the message, store it if it has a usable timestamp, then push the
        whole table, filtered, to the sheet. */
    method OnMessage(payload: Json, commitOk: bool) returns (outcome: MessageOutcome)
      requires Valid()
      modifies this, table
      ensures Valid() && mqttData == payload
      ensures MessageFields(payload).Failure? ==>
          outcome == Discarded(MessageFields(payload).error)
            && table.rows == old(table.rows) && table.nextId == old(table.nextId)
            && table.issued == old(table.issued)
      ensures MessageFields(payload).Success? && (!commitOk || ToRow(MessageFields(payload).value).None?) ==>
          outcome == CommitFailed
            && table.rows == old(table.rows) && table.nextId == old(table.nextId)
            && table.issued == old(table.issued)
      ensures MessageFields(payload).Success? && commitOk && ToRow(MessageFields(payload).value).Some? ==>
          var stored := Registro(old(table.nextId), ToRow(MessageFields(payload).value).value);
          && table.rows == old(table.rows)[stored.id := stored]
          && table.nextId == old(table.nextId) + 1 && table.issued == old(table.issued) + {stored.id}
          && table.Scan() == old(table.Scan()) + [stored]
          && outcome == Stored(stored.id, Sync(table.Scan()))
    {
      mqttData := payload;
      var fields := MessageFields(payload);
      if fields.Failure? {
        outcome := Discarded(fields.error);
        return;
      }
      var row := ToRow(fields.value);
      if !commitOk || row.None? {
        // the exception handler rolls the session back
        outcome := CommitFailed;
        return;
      }
      var id := table.Insert(row.value);
      var registros := table.Scan();
      var registrosJson := ToJsonAll(registros);
      if registrosJson.None? {
        // float(None) in to_json raised after the commit; the rollback undoes nothing
        outcome := Stored(id, None);
      } else {
        var sent := UpdateGoogleSheet(registrosJson.value);
        outcome := Stored(id, sent);
      }
    }

    /** `POST /data`: store one reading; never touches the sheet. */
    method PostData(body: Json, commitOk: bool) returns (resp: HttpResponse)
      requires Valid()
      modifies table
      ensures Valid() && mqttData == old(mqttData)
      ensures PostFields(body).Failure? ==>
          resp == PostFields(body).error
            && table.rows == old(table.rows) && table.nextId == old(table.nextId)
            && table.issued == old(table.issued)
      ensures PostFields(body).Success? && (!commitOk || ToRow(PostFields(body).value).None?) ==>
          resp == Message(500, "error", PROCESSING_FAILED)
            && table.rows == old(table.rows) && table.nextId == old(table.nextId)
            && table.issued == old(table.issued)
      ensures PostFields(body).Success? && commitOk && ToRow(PostFields(body).value).Some? ==>
          var stored := Registro(old(table.nextId), ToRow(PostFields(body).value).value);
          && resp == Message(201, "message", RECEIVED)
          && table.rows == old(table.rows)[stored.id := stored]
          && table.nextId == old(table.nextId) + 1 && table.issued == old(table.issued) + {stored.id}
    {
      var fields := PostFields(body);
      if fields.Failure? {
        resp := fields.error;
        return;
      }
      var row := ToRow(fields.value);
      if !commitOk || row.None? {
        resp := Message(500, "error", PROCESSING_FAILED);
        return;
      }
      var _ := table.Insert(row.value);
      resp := Message(201, "message", RECEIVED);
    }

    /** `GET /data`: the last decoded message, not the table. */
    method GetData() returns (resp: HttpResponse)
      requires Valid()
      ensures resp == JsonResponse(200, mqttData)
    {
      resp := JsonResponse(200, mqttData);
    }

    /** `GET /registro`: every record, in id order; a NULL measurement makes `to_json` raise,
        which Flask answers with its 500 page. */
    method SelecionaRegistro() returns (resp: HttpResponse)
      requires Valid()
      ensures (forall k :: k in table.rows ==> !HasNull(table.rows[k].row)) ==>
          resp == GeraResponse(200, "registro", ToArray(ToJsonAll(table.Scan()).value))
      ensures (exists k :: k in table.rows && HasNull(table.rows[k].row)) ==> resp == ErrorPage(500)
    {
      var registros := table.Scan();
      var registrosJson := ToJsonAll(registros);
      if registrosJson.None? {
        resp := ErrorPage(500);
      } else {
        resp := GeraResponse(200, "registro", ToArray(registrosJson.value));
      }
    }

    /** `GET /registro/<id>`. */
    method SelecionaRegistroId(id: int) returns (resp: HttpResponse)
      requires Valid()
      ensures id !in table.rows ==> resp == NotFound()
      ensures id in table.rows && !HasNull(table.rows[id].row) ==>
          resp == GeraResponse(200, "registro", ToObject(ToJson(table.rows[id]).value))
            && resp.body.fields.Keys == {"registro"}
      ensures id in table.rows && HasNull(table.rows[id].row) ==> resp == ErrorPage(500)
    {
      var registro := table.Get(id);
      if registro.None? {
        resp := NotFound();
      } else {
        var registroJson := ToJson(registro.value);
        if registroJson.None? {
          resp := ErrorPage(500);
        } else {
          resp := GeraResponse(200, "registro", ToObject(registroJson.value));
        }
      }
    }

    /** `DELETE /registro/<id>`.  A failed commit is rolled back.  After a successful commit
        the response still needs `to_json` of the deleted row: a NULL measurement there makes
        it raise, and the row is gone although the answer is "Erro ao deletar". */
    method DeletaRegistro(id: int, commitOk: bool) returns (resp: HttpResponse)
      requires Valid()
      modifies table
      ensures Valid() && mqttData == old(mqttData)
      ensures table.nextId == old(table.nextId) && table.issued == old(table.issued)
      ensures id !in old(table.rows) ==> resp == NotFound() && table.rows == old(table.rows)
      ensures id in old(table.rows) && !commitOk ==>
          resp == GeraResponse(400, "registro", JObject(map[]), JString(DELETE_FAILED))
            && table.rows == old(table.rows)
      ensures id in old(table.rows) && commitOk ==>
          && table.rows == old(table.rows) - {id}
          && table.Scan() == RemoveId(old(table.Scan()), id)
          && table.Get(id).None?
          && resp == if HasNull(old(table.rows)[id].row)
                     then GeraResponse(400, "registro", JObject(map[]), JString(DELETE_FAILED))
                     else GeraResponse(200, "registro", ToObject(ToJson(old(table.rows)[id]).value),
                                       JString(DELETED))
    {
      var registro := table.Get(id);
      if registro.None? {
        resp := NotFound();
        return;
      }
      if !commitOk {
        resp := GeraResponse(400, "registro", JObject(map[]), JString(DELETE_FAILED));
        return;
      }
      table.Delete(id);
      var registroJson := ToJson(registro.value);
      if registroJson.None? {
        resp := GeraResponse(400, "registro", JObject(map[]), JString(DELETE_FAILED));
      } else {
        resp := GeraResponse(200, "registro", ToObject(registroJson.value), JString(DELETED));
      }
    }
  }
}
