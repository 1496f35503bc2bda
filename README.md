# Sensor reading ingestion, modelled in Dafny

The system takes in environmental sensor readings: temperature, pressure, altitude, humidity
and CO2, each with a Unix timestamp. Readings arrive two ways:

- as MQTT messages, handled by `on_message`;
- over HTTP, as `POST /data`.

Both paths store the readings in the MySQL table `registro`. The HTTP API lists, reads and
deletes stored records (`/registro`, `/registro/<id>`). After each MQTT insert, the whole
table is pushed to a Google Sheet: a fixed header, then one row for every record whose co2
is above 20.

This project models `main.py` as the following modules.

- `Wrappers`, `JsonValues`: `Option`/`Result`, and the decoded JSON values the handlers receive.
  - Numbers are exact: an integer, or a decimal counted in hundredths.
- `DecimalDigits`: the digit characters and the division truncated towards zero that the other modules share.
- `PyInt`: Python's `int()` on such a value.
  - `None`, lists and dicts raise TypeError.
  - Booleans give 0 and 1.
  - A decimal is truncated towards zero.
  - A string is stripped of the white space `int()` skips: ' ', `\t` to `\r`, and the characters beyond ASCII that `str.isspace()` accepts (the ASCII separators U+001C to U+001F are not skipped). It may then have a sign, and single underscores may sit between its digits. Anything else raises ValueError.
- `CivilTime`: `datetime.fromtimestamp(t, tz=timezone.utc)` as integer arithmetic on the proleptic Gregorian calendar.
  - It splits days into 400-, 100-, 4- and 1-year cycles, covering the years 1 to 9999.
  - It has the inverse `Timestamp`.
  - For years from 1970 on, it is proved to agree with the "Seconds Since the Epoch" formula in section 4.16 of the Base Definitions volume of POSIX.1-2017, which uses C's truncating division. POSIX leaves the formula undefined for earlier years, and there it does give other values: `PosixDiffersBefore1970` shows one.
- `DateFormat`: `strftime('%Y-%m-%d %H:%M:%S')`, and a reader for the strings it produces.
- `Registros`: the `Registro` model (`main.py:180-199`).
  - The row a commit stores: `Numeric(10,2)` columns become `Option<int>` hundredths, where `None` is NULL.
  - `to_json`, which fails (Python's TypeError) when `float()` meets a NULL column.
- `RecordStore`: the table as a class.
  - Its state is a map from id to row and the auto-increment counter, with a ghost set of every id ever issued.
  - Operations: insert, look up by id, scan in id order, delete.
- `Sheets`: `update_google_sheet` builds `values_novos` in a `for` loop.
  - The array that would be sent is also given as a function, and the properties of that function are proved.
- `Api`: the application as a class.
  - Its state is the table and the `mqtt_data` slot.
  - Its methods are the handlers `on_message`, `post_data`, `get_data`, `seleciona_registro`, `seleciona_registro_id` and `deleta_registro`, with `gera_response`.
  - Each handler states the response and the new state for every path, including every modelled failure: a failing commit, and the errors `int()`, `fromtimestamp` and `to_json` raise.
- `Scenarios`: whole runs from an empty store.
  - A reading is posted and read back with time `2023-11-14 22:13:20`.
  - A posted reading is deleted, and is not found afterwards.
  - Two broker messages are stored, and the sheet gets only the reading whose co2 is above 20.
  - An untimed message is not stored, yet `GET /data` answers with it.

The outside world becomes parameters or plain outputs:

- Storage success is a `commitOk` parameter of each handler that commits.
- The Sheets call is the `values` array that would be sent: the outcome `Stored(id, sync)` of a message, or the result of `UpdateGoogleSheet`.
- Each handler is one atomic step.

Behaviour that follows from the code, and that the model follows:

- **No-timestamp branch in `post_data`.** There is no such branch. A body without `tempo_registro` reaches `int(None)`. The TypeError it raises passes the inner `except ValueError` (`main.py:151`), and the outer handler answers 500, not 400.
- **The sheet update is always sent.** `values_novos` starts with the header, so the `if not values_novos` branch (`main.py:53-55`) can never run. `Sheets.RowCount` proves the array is never empty. When no record passes the filter, a header-only array goes to the sheet and the update is not skipped.
- **A failed delete commit answers 400, not 500.** The commit is rolled back and answered with 400 "Erro ao deletar". Only the delete, the commit and `to_json` sit inside the `try`; the lookup before it does not. After a successful commit the response still calls `to_json` on the deleted row. If that row holds a NULL measurement, the call raises, and the row is gone although the answer is 400 "Erro ao deletar".
- **A failed sync leaves the insert in place.** In `on_message`, the rollback at `main.py:121` runs after the commit at `main.py:111`. A record that cannot be serialized prevents the sync, but the insert stays.
- **An out-of-range timestamp is ValueError.** A timestamp outside the years 1 to 9999 is answered as CPython answers "year is out of range" (ValueError): `on_message` drops the message, and `POST /data` answers 400.

## Model

| member | source | states |
|---|---|---|
| `DecimalDigits.TruncDiv` | main.py:96 | the quotient truncated towards zero: q·b ≤ a < q·b + b for a ≥ 0, and q·b − b < a ≤ q·b for a < 0 |
| `PyInt.IntOf` | main.py:96 | `int()` raises TypeError exactly for None, a list or a dict; ValueError only comes from a string; True and False give 1 and 0, an integer itself, and a decimal always converts |
| `PyInt.ParseInt` | main.py:150 | `int()` of a string fails only with ValueError; when it succeeds, the stripped text is digits and underscores after an optional sign, ending in a digit, and a negative result has a leading `-` |
| `PyInt.IntOfDecimal` | main.py:96 | `int()` of a decimal keeps its integer part, truncated towards zero, for both signs |
| `PyInt.ParseIntOfStr` | main.py:150 | `int()` of the decimal text of any integer, with any of `int()`'s white space around it (' ', `\t` to `\r`, or the non-ASCII `str.isspace()` characters), gives that integer |
| `PyInt.ParseIntRejects` | main.py:149-153 | a string holding a character other than a digit, a sign, an underscore or white space raises ValueError |
| `PyInt.ParseIntRejectsSeparator` | main.py:149-153 | a timestamp string led by one of the separators U+001C to U+001F raises ValueError, so `post_data` answers 400 |
| `CivilTime.YearOfOrdinal` | main.py:96 | a day count since 0001-01-01 splits into a year and a day within that year, and the year's start plus that day is the count |
| `CivilTime.MonthOfDay` | main.py:96 | the month found contains the given day of the year |
| `CivilTime.CivilFromDays` | main.py:96 | the date is a valid calendar date, and it lies the given number of days after 1970-01-01 |
| `CivilTime.FromTimestamp` | main.py:96 | for times within the years 1 to 9999: a valid calendar time (month 1-12, day within the month, hour below 24, minute and second below 60) whose timestamp is the input |
| `CivilTime.FromTimestampOfTimestamp` | main.py:150 | round trip: every valid calendar time has an in-range timestamp and is recovered from it |
| `CivilTime.TimestampInjective` | main.py:96 | distinct calendar times have distinct timestamps |
| `CivilTime.PosixAgrees` | main.py:96 | from 1970 on, the timestamp equals the POSIX.1-2017 section 4.16 formula |
| `CivilTime.PosixDiffersBefore1970` | main.py:96 | the limit to 1970 is needed: at 1968-01-01 the POSIX formula and the timestamp differ |
| `CivilTime.FromTimestampExample` | main.py:96 | 1700000000 is 2023-11-14 22:13:20 UTC |
| `DateFormat.Strftime` | main.py:198 | the text has the shape `YYYY-MM-DD HH:MM:SS`: 19 characters, separators in place, digits elsewhere |
| `DateFormat.ParseDateTime` | main.py:198 | whatever it reads back is a valid calendar time |
| `DateFormat.ParseStrftime` | main.py:198 | round trip: reading the formatted text gives back the calendar time |
| `DateFormat.StrftimeInjective` | main.py:198 | distinct calendar times are formatted differently |
| `DateFormat.StrftimeExample` | main.py:198 | 1700000000 is formatted as `2023-11-14 22:13:20` |
| `Registros.TimestampOf` | main.py:95-99 | conversion succeeds exactly when `int()` succeeds within the years 1 to 9999, and then gives the calendar time of that timestamp; `int()`'s own error is passed on, and a timestamp out of range is ValueError |
| `Registros.Column` | main.py:183-187 | a NULL value is stored as NULL; True as 1.00 and False as 0.00; an integer as 100 times itself and a decimal as its hundredths; a string, list or object cannot be stored |
| `Registros.ToRow` | main.py:101-111 | a row is written exactly when every measurement can be stored, and then it holds each stored value and the time |
| `Registros.ToJson` | main.py:190-199 | `to_json` succeeds exactly when no measurement is NULL; then it keeps the id and every measurement, and its `tempo_registro` text reads back as the stored time |
| `Registros.ToObject` | main.py:191-199 | the serialized record has exactly the keys id, temperatura, pressao, altitude, umidade, co2, tempo_registro; `id` holds the record's id, each measurement key its value and `tempo_registro` the formatted time |
| `Registros.ToJsonAllSnoc` | main.py:115-116 | serializing a scan with one more record appends that record's JSON, and a NULL anywhere makes the comprehension raise |
| `Registros.ToJsonAll` | main.py:116 | the list comprehension succeeds exactly when no record has a NULL measurement, and then keeps length and order, element by element |
| `RecordStore.Collect` | main.py:115 | the scan lists every row whose id lies in the range and nothing else, in strictly ascending id order |
| `RecordStore.RemoveId` | main.py:221-222 | the records kept are exactly those whose id differs |
| `RecordStore.CollectInsert` | main.py:110-111 | a row stored under the next id is appended to the scan, and the earlier rows are left in place |
| `RecordStore.CollectDelete` | main.py:221-222 | after deleting an id, the scan is the old scan without that id |
| `RecordStore.Table.constructor` | main.py:180-182 | a new table is empty and its first id is 1 |
| `RecordStore.Table.Get` | main.py:209 | `filter_by(id=id).first()` finds a record exactly when the id is stored, and returns the record under that id |
| `RecordStore.Table.Scan` | main.py:203 | `query.all()` returns every stored record once, in ascending id order, each findable by its id |
| `RecordStore.Table.Insert` | main.py:164-166 | the new id was never issued and is above every issued id, the rest of the table is unchanged, a lookup of the new id gives the inserted row, and the scan gains that row at its end |
| `RecordStore.Table.Delete` | main.py:221-222 | only that id is removed, the counter is kept, and the scan loses exactly that record |
| `Sheets.UpdateGoogleSheet` | main.py:35-63 | the loop always reaches the update call, and the array it sends is the header followed by the selected rows |
| `Sheets.Selection` | main.py:42-51 | the rows below the header come from the records with co2 above 20, each projected as co2, temperatura, pressao, altitude, umidade, tempo_registro, in input order, and every such record is there |
| `Sheets.RowCount` | main.py:40-55 | the array has one row more than the number of records with co2 above 20, and its first row is the header, so it is never empty |
| `Sheets.OnlySelectedRows` | main.py:43 | every row below the header is the projection of an input record with co2 above 20 |
| `Sheets.SheetValuesAppend` | main.py:42-51 | a record appended to the input appends its row, and only when its co2 is above 20 |
| `Api.GeraResponse` | main.py:231-236 | the body holds the content under its key, and a `mensagem` key exactly when the message is truthy |
| `Api.Message` | main.py:138-174 | the `jsonify({key: text}), status` answers: that status, and an object holding exactly the one key with the text |
| `Api.NotFound` | main.py:228-229 | the 404 body is exactly `{"registro": {}, "mensagem": "Registro não encontrado"}` |
| `Api.ToArray` | main.py:204-205 | the JSON list holds each serialized record, in order |
| `Api.MessageFields` | main.py:84-99 | a message that is not an object, has no timestamp, or has one `int()`/`fromtimestamp` rejects is dropped for that reason; otherwise the fields are read from the English keys with the converted time |
| `Api.PostFields` | main.py:135-174 | an empty body gives 400 "Nenhum dado fornecido", a non-object body gives 500, and a non-empty object goes on to `PostObjectFields` |
| `Api.PostObjectFields` | main.py:142-174 | a ValueError timestamp gives 400 "Timestamp inválido"; a TypeError timestamp, a missing one among them, gives 500; otherwise the fields are read from the Portuguese keys with the converted time |
| `Api.Sync` | main.py:115-117 | the sync happens exactly when every record can be serialized, and then sends the projection of the serialized scan |
| `Api.SyncAfterInsert` | main.py:110-117 | a new record extends the next sync by its own row when its co2 is above 20; a record that cannot be serialized stops the sync |
| `Api.SyncSkipsLow` | main.py:43 | a new record with co2 of 20 or less leaves the sync as it was |
| `Api.App.constructor` | main.py:70 | the application starts with an empty table and `mqtt_data` set to an empty list |
| `Api.App.OnMessage` | main.py:76-121 | every message becomes `mqtt_data`. A dropped message or a failed commit leaves the table unchanged. Otherwise exactly one record is added under the next id, and the sync covers the full scan after the insert |
| `Api.App.PostData` | main.py:133-174 | every early answer and a failed commit leave the table unchanged. Success answers 201 and adds exactly one record under the next id. `mqtt_data` is not touched and nothing is synced |
| `Api.App.GetData` | main.py:176-178 | the answer is the last message as received, not the table |
| `Api.App.SelecionaRegistro` | main.py:201-205 | 200 with every record in id order when all can be serialized, and Flask's 500 page otherwise |
| `Api.App.SelecionaRegistroId` | main.py:207-214 | a present id gives 200 with that record alone (or the 500 page when it holds a NULL); an absent id gives the 404 body |
| `Api.App.DeletaRegistro` | main.py:216-229 | an absent id gives 404 and changes nothing. A failed commit rolls back and gives 400 "Erro ao deletar". A committed delete removes only that record, so a following GET gives 404; the answer is 200 with the record and "Deletado com sucesso", or 400 when the record held a NULL |
| `Scenarios.PostThenGet` | main.py:133-214 | posting the 1700000000 reading answers 201, and reading id 1 gives it back with `2023-11-14 22:13:20` |
| `Scenarios.DeleteThenGet` | main.py:133-229 | after posting the reading, deleting id 1 answers 200 with it and "Deletado com sucesso", and reading id 1 again gives 404 |
| `Scenarios.ListenerSync` | main.py:76-121 | two messages both sync the header followed only by the co2 35 reading, under ids 1 and 2 |
| `Scenarios.ListenerDiscard` | main.py:76-205 | an untimed message is dropped and the table stays empty, yet `GET /data` returns that message |

## Left out

- `dash.py`: the Streamlit dashboard. It only reads data, and its logic is floating-point data-frame and chart manipulation.
- The Google Sheets client:
  - credential loading, `build` and the `update(...).execute()` network call (`main.py:27-33`, `main.py:57-67`);
  - `HttpError` handling.
  The model ends with the `values` array that would be sent. Whether the call succeeds changes no state of the application.
- The MQTT transport: `mqtt.Client`, `connect`, `loop_start`, the subscription and `on_connect` (`main.py:72-74`, `main.py:123-129`). A handler receives the decoded message.
- JSON decoding: `msg.payload.decode` and `json.loads` (`main.py:78-79`, outside the `try`), and `request.get_json`, with its version-dependent answers to bodies that are not JSON.
- Concurrency: the MQTT thread and the Flask request threads share one session. Each handler is modelled as one atomic step.
- Flask, SQLAlchemy and MySQL plumbing:
  - routing, `Response`/`jsonify` serialization to text;
  - sessions and engine configuration, `create_all`;
  - the `print` logging.
- Floating point: the `float()` calls in `to_json` return exact hundredths. JSON numbers with more than two decimals, and `Numeric(10,2)` rounding and range limits, are not modelled.
- Storage details:
  - A JSON string, list or object in a measurement is treated as a value the commit cannot store. MySQL's coercion of numeric strings is not modelled.
  - The route parameter `id` is taken as an integer. MySQL's conversion of non-numeric text is not modelled.
  - A failed MySQL insert can consume an auto-increment value. In the model the counter is untouched.
- `int()` details not modelled:
  - digits outside ASCII;
  - the 4300-digit limit on string conversion (which is also a ValueError).
- Database reads: the queries and scans `Registro.query.all()` and `filter_by(id=id).first()` (`main.py:115`, `main.py:203`, `main.py:209`, `main.py:218`) are assumed not to fail. A failing lookup would end the handler with Flask's 500 (in `deleta_registro` too, since its lookup is outside the `try`), and in the listener a failing scan at `main.py:115` would be caught after the commit, leaving the sheet not updated.
- `DateFormat.Pad4`: years below 1000 are written with four digits. Python's `%Y` for them depends on the platform's `strftime` and the CPython version, and such years are outside MySQL's DATETIME range, so that form is not pinned down.
- `fromtimestamp` limits: platform `time_t` limits and `OverflowError`/`OSError` are left out. For the same reason, timestamps outside the years 1 to 9999 become ValueError.
