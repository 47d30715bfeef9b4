/**
 * The record handlers of the bakery backend over an in-memory store that
 * stands for the `registro` table: create, count, delete all, delete one by
 * id, and remove one amasadora from a record by position.
 *
 * Every call the handlers make into the persistence client is a method of
 * RecordStore. A failure of the database itself (lost connection, a row
 * deleted by a concurrent request between a read and a write, ...) is
 * outside what the map can produce on its own, so each call takes a `fault`
 * argument: when it holds an error, the call throws that error and changes
 * nothing.
 */
module Registros {
  import opened Wrappers
  import opened JsonValue
  import opened JsParseInt
  import opened PrismaErrors
  import opened Amasadoras

  /** One row of the `registro` table. */
  datatype Registro = Registro(id: int, fecha: string, data: Json, createdAt: int)

  /** The JSON body of a response. */
  datatype Body =
    | Error(error: Option<string>)                              // { error } (no key when undefined)
    | Created(row: Registro)                                    // the created row
    | Deleted(deleted: int)                                     // { deleted }: a count or an id
    | Count(count: nat)                                         // { count }
    | DeletedRegistro(deletedRegistro: int, amasadorasRestantes: nat)
    | UpdatedId(updatedId: int, amasadorasRestantes: nat)

  datatype Response = Response(status: int, body: Body)

  /** The round trips made to the persistence client, in order. */
  datatype Call =
    | CreateCall
    | CountCall
    | DeleteManyCall
    | DeleteCall(id: int)
    | FindUniqueCall(id: int)
    | UpdateCall(id: int)

  const InvalidId: string := "ID inválido"
  const InvalidParams: string := "Parámetros inválidos"
  const RecordNotFound: string := "Registro no encontrado"
  const AmasadoraNotFound: string := "Amasadora no encontrada en el registro"

  /** The message of the TypeError thrown when a `null` body is destructured. */
  const NullBodyMessage: string := "Cannot destructure property 'fecha' of 'req.body' as it is null."

  /** The error the client raises for a `fecha` that is not a string. */
  const FechaNotString: DbError := DbError(None, Some("Argument `fecha`: Invalid value provided. Expected String."))

  /** The `catch` block of the delete handlers: 404 for a missing record, 500
      with the error's own message for anything else. */
  function CatchResponse(e: DbError): (r: Response)
    ensures r.status == 404 <==> IsNotFound(e)
    ensures IsNotFound(e) ==> r.body == Error(Some(RecordNotFound))
    ensures !IsNotFound(e) ==> r == Response(500, Error(e.message))
  {
    if IsNotFound(e) then Response(404, Error(Some(RecordNotFound))) else Response(500, Error(e.message))
  }

  /** `fecha || ''` for the `fecha` of a request body: the body's own value
      when it is truthy, the empty string otherwise (no such key, `null`,
      `false`, `0`, `""`, or a body that is not an object). */
  function FechaOf(body: Json): (f: Json)
    ensures Truthy(f) || f == JStr("")
    ensures Truthy(f) ==> body.JObj? && "fecha" in body.fields && body.fields["fecha"] == f
    ensures body.JObj? && "fecha" in body.fields && Truthy(body.fields["fecha"]) ==> f == body.fields["fecha"]
  {
    if body.JObj? && "fecha" in body.fields then Or(body.fields["fecha"], JStr("")) else JStr("")
  }

  /** What removing amasadora `index` of record `id` does, given parsed
      parameters, from the store `records0` and call log `calls0` before to
      `records1`, `calls1` and the response `resp`:
      - No such record: 404, one read and no write.
      - `index` negative or past the end (every index when `amasadoras` is
        missing or not an array): 404, one read and no write.
      - Otherwise one read and exactly one write: a delete of the record
        when that was its last amasadora, else an update of its `data`
        with only `amasadoras` replaced by the spliced sequence. Other
        records never change.
      A failing read or write leaves the store as it was and is answered
      by the `catch` block. */
  ghost predicate RemovalDone(records0: map<int, Registro>, calls0: seq<Call>,
                              records1: map<int, Registro>, calls1: seq<Call>, resp: Response,
                              id: int, index: int, readFault: Option<DbError>, writeFault: Option<DbError>)
    ensures RemovalDone(records0, calls0, records1, calls1, resp, id, index, readFault, writeFault) ==>
              && records1.Keys <= records0.Keys
              && (forall other :: other in records0 && other != id ==> other in records1 && records1[other] == records0[other])
              && (resp.status != 200 ==> records1 == records0)
  {
    && (readFault.Some? ==>
          resp == CatchResponse(readFault.value)
          && records1 == records0 && calls1 == calls0 + [FindUniqueCall(id)])
    && (readFault.None? && id !in records0 ==>
          resp == Response(404, Error(Some(RecordNotFound)))
          && records1 == records0 && calls1 == calls0 + [FindUniqueCall(id)])
    && (readFault.None? && id in records0 ==>
          WriteBackDone(records0, calls0, records1, calls1, resp, id, index, writeFault))
  }

  /** RemovalDone once the record has been read. */
  ghost predicate WriteBackDone(records0: map<int, Registro>, calls0: seq<Call>,
                                records1: map<int, Registro>, calls1: seq<Call>, resp: Response,
                                id: int, index: int, writeFault: Option<DbError>)
    requires id in records0
  {
    var data := records0[id].data;
    var s := AmasadorasOf(data);
    && (!(0 <= index < |s|) ==>
          resp == Response(404, Error(Some(AmasadoraNotFound)))
          && records1 == records0 && calls1 == calls0 + [FindUniqueCall(id)])
    && (0 <= index < |s| && |s| == 1 ==>
          calls1 == calls0 + [FindUniqueCall(id), DeleteCall(id)]
          && (writeFault.None? ==>
                resp == Response(200, DeletedRegistro(id, 0)) && records1 == records0 - {id})
          && (writeFault.Some? ==>
                resp == CatchResponse(writeFault.value) && records1 == records0))
    && (0 <= index < |s| && |s| > 1 ==>
          calls1 == calls0 + [FindUniqueCall(id), UpdateCall(id)]
          && (writeFault.None? ==>
                resp == Response(200, UpdatedId(id, |s| - 1))
                && records1 == records0[id := records0[id].(data := WithAmasadoras(data, Spliced(s, index)))])
          && (writeFault.Some? ==>
                resp == CatchResponse(writeFault.value) && records1 == records0))
  }

  /** The scenario of a three-element array: removing index 1 of record 7
      keeps "A" and "C" in that order and reports two left. */
  lemma RemovalUpdatesScenario(records1: map<int, Registro>, calls1: seq<Call>, resp: Response)
    requires RemovalDone(map[7 := Registro(7, "", JObj(map[Key := JArr([JStr("A"), JStr("B"), JStr("C")])]), 0)], [],
                         records1, calls1, resp, 7, 1, None, None)
    ensures resp == Response(200, UpdatedId(7, 2))
    ensures records1.Keys == {7} && AmasadorasOf(records1[7].data) == [JStr("A"), JStr("C")]
    ensures calls1 == [FindUniqueCall(7), UpdateCall(7)]
  {
    var s := [JStr("A"), JStr("B"), JStr("C")];
    var records0 := map[7 := Registro(7, "", JObj(map[Key := JArr(s)]), 0)];
    assert records0[7].data == JObj(map[Key := JArr(s)]);
    assert AmasadorasOf(records0[7].data) == s;
    var rest := Spliced(s, 1);
    assert rest[0] == JStr("A") && rest[1] == JStr("C");
    assert rest == [JStr("A"), JStr("C")];
    assert WriteBackDone(records0, [], records1, calls1, resp, 7, 1, None);
  }

  /** The scenario of a one-element array: removing index 0 of record 9
      deletes the record. */
  lemma RemovalDeletesScenario(records1: map<int, Registro>, calls1: seq<Call>, resp: Response)
    requires RemovalDone(map[9 := Registro(9, "", JObj(map[Key := JArr([JStr("X")])]), 0)], [],
                         records1, calls1, resp, 9, 0, None, None)
    ensures resp == Response(200, DeletedRegistro(9, 0))
    ensures records1 == map[]
    ensures calls1 == [FindUniqueCall(9), DeleteCall(9)]
  {
    assert AmasadorasOf(JObj(map[Key := JArr([JStr("X")])])) == [JStr("X")];
    assert map[9 := Registro(9, "", JObj(map[Key := JArr([JStr("X")])]), 0)] - {9} == map[];
  }

  /** The scenario of an index past the end: 404 and no change. */
  lemma RemovalOutOfRangeScenario(records1: map<int, Registro>, calls1: seq<Call>, resp: Response)
    requires RemovalDone(map[3 := Registro(3, "", JObj(map[Key := JArr([JStr("A")])]), 0)], [],
                         records1, calls1, resp, 3, 5, None, None)
    ensures resp == Response(404, Error(Some(AmasadoraNotFound)))
    ensures records1 == map[3 := Registro(3, "", JObj(map[Key := JArr([JStr("A")])]), 0)]
  {
    assert AmasadorasOf(JObj(map[Key := JArr([JStr("A")])])) == [JStr("A")];
  }

  /** When amasadoras remain, the removal keeps the record's id, `fecha`
      and creation time, keeps every other key of its `data` with its value,
      and leaves exactly the spliced sequence under `amasadoras`. */
  lemma RemovalUpdateKeepsOtherFields(records0: map<int, Registro>, calls0: seq<Call>,
                                      records1: map<int, Registro>, calls1: seq<Call>, resp: Response,
                                      id: int, index: int)
    requires RemovalDone(records0, calls0, records1, calls1, resp, id, index, None, None)
    requires id in records0 && 0 <= index < |AmasadorasOf(records0[id].data)|
    requires |AmasadorasOf(records0[id].data)| > 1
    ensures id in records1
    ensures records1[id].id == records0[id].id && records1[id].fecha == records0[id].fecha
    ensures records1[id].createdAt == records0[id].createdAt
    ensures records0[id].data.JObj? && records1[id].data.JObj?
    ensures records1[id].data.fields.Keys == records0[id].data.fields.Keys
    ensures forall k :: k in records0[id].data.fields && k != Key ==>
              records1[id].data.fields[k] == records0[id].data.fields[k]
    ensures AmasadorasOf(records1[id].data) == Spliced(AmasadorasOf(records0[id].data), index)
  {
  }

  /** A successful removal shrinks the record's amasadoras by exactly the
      removed element, and a record never stays behind with none: it either
      keeps a shorter non-empty sequence or is gone. No other record changes. */
  lemma RemovalLeavesNoEmptyRecord(records0: map<int, Registro>, calls0: seq<Call>,
                                   records1: map<int, Registro>, calls1: seq<Call>, resp: Response,
                                   id: int, index: int)
    requires RemovalDone(records0, calls0, records1, calls1, resp, id, index, None, None)
    requires id in records0 && 0 <= index < |AmasadorasOf(records0[id].data)|
    ensures resp.status == 200
    ensures forall other :: other in records0 && other != id ==> other in records1 && records1[other] == records0[other]
    ensures records1.Keys <= records0.Keys
    ensures id in records1 ==>
              var s := AmasadorasOf(records0[id].data);
              && AmasadorasOf(records1[id].data) == Spliced(s, index)
              && |AmasadorasOf(records1[id].data)| == |s| - 1 > 0
              && multiset(AmasadorasOf(records1[id].data)) + multiset{s[index]} == multiset(s)
    ensures id !in records1 <==> |AmasadorasOf(records0[id].data)| == 1
  {
    var data := records0[id].data;
    var s := AmasadorasOf(data);
    if |s| > 1 {
      RemovalUpdateKeepsOtherFields(records0, calls0, records1, calls1, resp, id, index);
    }
  }

  /** Invalid input is answered without a write: a record that is missing or
      an index out of range leaves the store as it was, after one read. */
  lemma RemovalRejectsWithoutWrite(records0: map<int, Registro>, calls0: seq<Call>,
                                   records1: map<int, Registro>, calls1: seq<Call>, resp: Response,
                                   id: int, index: int, writeFault: Option<DbError>)
    requires RemovalDone(records0, calls0, records1, calls1, resp, id, index, None, writeFault)
    requires id !in records0 || !(0 <= index < |AmasadorasOf(records0[id].data)|)
    ensures resp.status == 404
    ensures records1 == records0 && calls1 == calls0 + [FindUniqueCall(id)]
  {
  }

  class RecordStore {
    /** The rows of the table, by id. */
    var records: map<int, Registro>
    /** The id the next created row receives (an autoincrement sequence). */
    var nextId: int
    /** Every call made to the persistence client so far. */
    ghost var calls: seq<Call>

    /** Every row is stored under its own id, and ids are handed out in
        increasing order starting from 1, so a new id is never in use. */
    ghost predicate Valid()
      reads this
    {
      nextId >= 1
      && forall id :: id in records ==> 1 <= id < nextId && records[id].id == id
    }

    constructor ()
      ensures Valid()
      ensures records == map[] && nextId == 1 && calls == []
    {
      records := map[];
      nextId := 1;
      calls := [];
    }

    // The persistence client: one method per call the handlers make.

    /** `registro.create({ data: { fecha, data } })`: a `fecha` that is not a
        string is rejected; otherwise the row gets the next id and `now` as
        its creation time. */
    method Create(fecha: Json, data: Json, now: int, fault: Option<DbError>) returns (r: Result<Registro, DbError>)
      requires Valid()
      modifies this
      ensures Valid()
      ensures calls == old(calls) + [CreateCall]
      ensures fault.Some? ==> r == Failure(fault.value)
      ensures fault.None? && !fecha.JStr? ==> r == Failure(FechaNotString)
      ensures r.Failure? ==> records == old(records) && nextId == old(nextId)
      ensures fault.None? && fecha.JStr? ==>
                && r == Success(Registro(old(nextId), fecha.s, data, now))
                && old(nextId) !in old(records)
                && records == old(records)[old(nextId) := r.value]
                && nextId == old(nextId) + 1
    {
      calls := calls + [CreateCall];
      if fault.Some? {
        r := Failure(fault.value);
      } else if !fecha.JStr? {
        r := Failure(FechaNotString);
      } else {
        var row := Registro(nextId, fecha.s, data, now);
        records := records[nextId := row];
        nextId := nextId + 1;
        r := Success(row);
      }
    }

    /** `registro.count()`. */
    method CountRows(fault: Option<DbError>) returns (r: Result<nat, DbError>)
      modifies this`calls
      ensures calls == old(calls) + [CountCall]
      ensures fault.Some? ==> r == Failure(fault.value)
      ensures fault.None? ==> r == Success(|records|)
    {
      calls := calls + [CountCall];
      if fault.Some? {
        r := Failure(fault.value);
      } else {
        r := Success(|records|);
      }
    }

    /** `registro.deleteMany({})`: every row goes, and their number is returned. */
    method DeleteMany(fault: Option<DbError>) returns (r: Result<nat, DbError>)
      requires Valid()
      modifies this`records, this`calls
      ensures Valid()
      ensures calls == old(calls) + [DeleteManyCall]
      ensures fault.Some? ==> r == Failure(fault.value) && records == old(records)
      ensures fault.None? ==> r == Success(|old(records)|) && records == map[]
    {
      calls := calls + [DeleteManyCall];
      if fault.Some? {
        r := Failure(fault.value);
      } else {
        r := Success(|records|);
        records := map[];
      }
    }

    /** `registro.findUnique({ where: { id } })`: the row, or `null`. */
    method FindUnique(id: int, fault: Option<DbError>) returns (r: Result<Option<Registro>, DbError>)
      modifies this`calls
      ensures calls == old(calls) + [FindUniqueCall(id)]
      ensures fault.Some? ==> r == Failure(fault.value)
      ensures fault.None? && id in records ==> r == Success(Some(records[id]))
      ensures fault.None? && id !in records ==> r == Success(None)
    {
      calls := calls + [FindUniqueCall(id)];
      if fault.Some? {
        r := Failure(fault.value);
      } else if id in records {
        r := Success(Some(records[id]));
      } else {
        r := Success(None);
      }
    }

    /** `registro.delete({ where: { id } })`: the deleted row, or a P2025
        error when there is none. */
    method Delete(id: int, fault: Option<DbError>) returns (r: Result<Registro, DbError>)
      requires Valid()
      modifies this`records, this`calls
      ensures Valid()
      ensures calls == old(calls) + [DeleteCall(id)]
      ensures fault.Some? ==> r == Failure(fault.value)
      ensures fault.None? && id !in old(records) ==> r == Failure(MissingRecord("delete"))
      ensures r.Failure? ==> records == old(records)
      ensures fault.None? && id in old(records) ==>
                r == Success(old(records)[id]) && records == old(records) - {id}
    {
      calls := calls + [DeleteCall(id)];
      if fault.Some? {
        r := Failure(fault.value);
      } else if id !in records {
        r := Failure(MissingRecord("delete"));
      } else {
        r := Success(records[id]);
        records := records - {id};
      }
    }

    /** `registro.update({ where: { id }, data: { data } })`: replaces the
        row's `data` and nothing else, or a P2025 error when there is no row. */
    method UpdateData(id: int, data: Json, fault: Option<DbError>) returns (r: Result<Registro, DbError>)
      requires Valid()
      modifies this`records, this`calls
      ensures Valid()
      ensures calls == old(calls) + [UpdateCall(id)]
      ensures fault.Some? ==> r == Failure(fault.value)
      ensures fault.None? && id !in old(records) ==> r == Failure(MissingRecord("update"))
      ensures r.Failure? ==> records == old(records)
      ensures fault.None? && id in old(records) ==>
                && records == old(records)[id := old(records)[id].(data := data)]
                && r == Success(records[id])
    {
      calls := calls + [UpdateCall(id)];
      if fault.Some? {
        r := Failure(fault.value);
      } else if id !in records {
        r := Failure(MissingRecord("update"));
      } else {
        var row := records[id].(data := data);
        records := records[id := row];
        r := Success(row);
      }
    }

    // The handlers.

    /** POST /registros: stores the whole body as `data`, with `fecha` taken
        from the body or the empty string; 201 with the new row, 400 with the
        error's message when the body cannot be destructured or the store
        refuses the row. */
    method PostRegistro(body: Json, now: int, fault: Option<DbError>) returns (resp: Response)
      requires Valid()
      modifies this
      ensures Valid()
      ensures body == JNull ==>
                resp == Response(400, Error(Some(NullBodyMessage)))
                && records == old(records) && nextId == old(nextId) && calls == old(calls)
      ensures body != JNull ==> calls == old(calls) + [CreateCall]
      ensures body != JNull && fault.Some? ==>
                resp == Response(400, Error(fault.value.message))
                && records == old(records) && nextId == old(nextId)
      ensures body != JNull && fault.None? && !FechaOf(body).JStr? ==>
                resp == Response(400, Error(FechaNotString.message))
                && records == old(records) && nextId == old(nextId)
      ensures body != JNull && fault.None? && FechaOf(body).JStr? ==>
                var row := Registro(old(nextId), FechaOf(body).s, body, now);
                && resp == Response(201, Created(row))
                && old(nextId) !in old(records)
                && records == old(records)[old(nextId) := row]
                && nextId == old(nextId) + 1
    {
      if body == JNull {
        resp := Response(400, Error(Some(NullBodyMessage)));
        return;
      }
      var fecha := FechaOf(body);
      var r := Create(fecha, body, now, fault);
      match r
      case Success(row) =>
        resp := Response(201, Created(row));
      case Failure(e) =>
        resp := Response(400, Error(e.message));
    }

    /** GET /registros/count: the number of rows, or 500. */
    method GetCount(fault: Option<DbError>) returns (resp: Response)
      modifies this`calls
      ensures calls == old(calls) + [CountCall]
      ensures fault.None? ==> resp == Response(200, Count(|records|))
      ensures fault.Some? ==> resp == Response(500, Error(fault.value.message))
    {
      var r := CountRows(fault);
      match r
      case Success(n) =>
        resp := Response(200, Count(n));
      case Failure(e) =>
        resp := Response(500, Error(e.message));
    }

    /** DELETE /registros: removes every row and reports how many there were,
        or 500 and no change. */
    method DeleteAll(fault: Option<DbError>) returns (resp: Response)
      requires Valid()
      modifies this`records, this`calls
      ensures Valid()
      ensures calls == old(calls) + [DeleteManyCall]
      ensures fault.None? ==> resp == Response(200, Deleted(|old(records)|)) && records == map[]
      ensures fault.Some? ==> resp == Response(500, Error(fault.value.message)) && records == old(records)
    {
      var r := DeleteMany(fault);
      match r
      case Success(n) =>
        resp := Response(200, Deleted(n));
      case Failure(e) =>
        resp := Response(500, Error(e.message));
    }

    /** DELETE /registros/:id: 400 for an id that is not a number, without
        touching the store; otherwise exactly that row is deleted and its id
        returned, or nothing changes and the error is classified (404 for a
        missing row, 500 for anything else). */
    method DeleteRegistro(rawId: string, fault: Option<DbError>) returns (resp: Response)
      requires Valid()
      modifies this`records, this`calls
      ensures Valid()
      ensures ParseInt(rawId).None? ==>
                resp == Response(400, Error(Some(InvalidId)))
                && records == old(records) && calls == old(calls)
      ensures ParseInt(rawId).Some? ==>
                var id := ParseInt(rawId).value;
                && calls == old(calls) + [DeleteCall(id)]
                && (fault.None? && id in old(records) ==>
                      resp == Response(200, Deleted(id)) && records == old(records) - {id})
                && (fault.None? && id !in old(records) ==>
                      resp == Response(404, Error(Some(RecordNotFound))) && records == old(records))
                && (fault.Some? ==> resp == CatchResponse(fault.value) && records == old(records))
    {
      var id := ParseInt(rawId);
      if id.None? {
        resp := Response(400, Error(Some(InvalidId)));
        return;
      }
      var r := Delete(id.value, fault);
      match r
      case Success(row) =>
        resp := Response(200, Deleted(row.id));
      case Failure(e) =>
        resp := CatchResponse(e);
    }

    /** DELETE /registros/:id/amasadoras/:index: removes the amasadora at
        `index` from the record's `data.amasadoras`, keeping the others in
        order, and deletes the whole record when none is left. Either
        parameter not a number: 400, and no call to the store at all; the
        rest is RemoveAmasadora. */
    method DeleteAmasadora(rawId: string, rawIndex: string, readFault: Option<DbError>, writeFault: Option<DbError>)
      returns (resp: Response)
      requires Valid()
      modifies this`records, this`calls
      ensures Valid()
      ensures ParseInt(rawId).None? || ParseInt(rawIndex).None? ==>
                resp == Response(400, Error(Some(InvalidParams)))
                && records == old(records) && calls == old(calls)
      ensures ParseInt(rawId).Some? && ParseInt(rawIndex).Some? ==>
                RemovalDone(old(records), old(calls), records, calls, resp,
                            ParseInt(rawId).value, ParseInt(rawIndex).value, readFault, writeFault)
    {
      var id := ParseInt(rawId);
      var index := ParseInt(rawIndex);
      if id.None? || index.None? {
        resp := Response(400, Error(Some(InvalidParams)));
        return;
      }
      resp := RemoveAmasadora(id.value, index.value, readFault, writeFault);
    }

    /** The body of the removal handler after both parameters parsed. */
    method RemoveAmasadora(id: int, index: int, readFault: Option<DbError>, writeFault: Option<DbError>)
      returns (resp: Response)
      requires Valid()
      modifies this`records, this`calls
      ensures Valid()
      ensures RemovalDone(old(records), old(calls), records, calls, resp, id, index, readFault, writeFault)
    {
      var found := FindUnique(id, readFault);
      if found.Failure? {
        resp := CatchResponse(found.error);
        return;
      }
      if found.value.None? {
        resp := Response(404, Error(Some(RecordNotFound)));
        return;
      }
      var data := found.value.value.data;
      var s := AmasadorasOf(data);
      if index < 0 || index >= |s| {
        resp := Response(404, Error(Some(AmasadoraNotFound)));
        return;
      }
      resp := WriteBack(id, data, s, index, writeFault);
    }

    /** The write that follows a successful read: splice a copy, then delete
        the record or update its `data`. */
    method WriteBack(id: int, data: Json, s: seq<Json>, index: int, writeFault: Option<DbError>)
      returns (resp: Response)
      requires Valid()
      requires id in records && data == records[id].data && s == AmasadorasOf(data) && 0 <= index < |s|
      requires |calls| > 0 && calls[|calls| - 1] == FindUniqueCall(id)
      modifies this`records, this`calls
      ensures Valid()
      ensures WriteBackDone(old(records), old(calls)[..|old(calls)| - 1], records, calls, resp, id, index, writeFault)
    {
      ghost var calls0 := calls[..|calls| - 1];
      assert calls == calls0 + [FindUniqueCall(id)];
      var amasadoras := SplicedCopy(s, index);
      if |amasadoras| == 0 {
        resp := DeleteEmptied(id, writeFault);
      } else {
        resp := UpdateRemaining(id, data, amasadoras, writeFault);
      }
    }

    /** The write when no amasadora is left: delete the record. */
    method DeleteEmptied(id: int, writeFault: Option<DbError>) returns (resp: Response)
      requires Valid()
      modifies this`records, this`calls
      ensures Valid()
      ensures calls == old(calls) + [DeleteCall(id)]
      ensures writeFault.None? && id in old(records) ==>
                resp == Response(200, DeletedRegistro(id, 0)) && records == old(records) - {id}
      ensures writeFault.None? && id !in old(records) ==>
                resp == Response(404, Error(Some(RecordNotFound))) && records == old(records)
      ensures writeFault.Some? ==> resp == CatchResponse(writeFault.value) && records == old(records)
    {
      var r := Delete(id, writeFault);
      if r.Failure? {
        resp := CatchResponse(r.error);
        return;
      }
      resp := Response(200, DeletedRegistro(id, 0));
    }

    /** The write when amasadoras are left: update the record's `data` with
        only `amasadoras` replaced. */
    method UpdateRemaining(id: int, data: Json, amasadoras: seq<Json>, writeFault: Option<DbError>) returns (resp: Response)
      requires Valid()
      requires data.JObj?
      modifies this`records, this`calls
      ensures Valid()
      ensures calls == old(calls) + [UpdateCall(id)]
      ensures writeFault.None? && id in old(records) ==>
                resp == Response(200, UpdatedId(id, |amasadoras|))
                && records == old(records)[id := old(records)[id].(data := WithAmasadoras(data, amasadoras))]
      ensures writeFault.None? && id !in old(records) ==>
                resp == Response(404, Error(Some(RecordNotFound))) && records == old(records)
      ensures writeFault.Some? ==> resp == CatchResponse(writeFault.value) && records == old(records)
    {
      var r := UpdateData(id, WithAmasadoras(data, amasadoras), writeFault);
      if r.Failure? {
        resp := CatchResponse(r.error);
        return;
      }
      resp := Response(200, UpdatedId(r.value.id, |amasadoras|));
    }
  }
}
