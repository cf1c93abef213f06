/**
 * The protected note routes (routes/routes.go): every request under /notes
 * first passes the gate, and only an authorized request reaches its handler,
 * which runs once with the user id the gate attached.
 */
module Routes {
  import opened Wrappers
  import opened Models
  import opened Jwt
  import opened Gate
  import opened StrConv
  import opened Notes

  datatype NoteRequest =
    | CreateRequest(body: Option<NoteInput>, storeFails: bool)
    | ListRequest(query: map<string, string>, scan: seq<nat>, findFails: bool)
    | GetRequest(idParam: string)
    | UpdateRequest(idParam: string, body: Option<NoteInput>, storeFails: bool)
    | DeleteRequest(idParam: string, storeFails: bool)

  /**
   * One protected request. A list request carries the database's scan
   * order, which holds every row of the table once.
   */
  method ServeNotes(table: NoteTable, users: map<nat, User>, header: string, env: string, now: int,
                    decode: string -> Option<Token>, request: NoteRequest) returns (r: Response)
    requires table.Valid()
    requires request.ListRequest? ==> IsScan(request.scan, table.notes)
    modifies table
    ensures table.Valid()
    ensures var d := Authorize(header, env, now, decode, users);
            d.Rejected? ==>
              r == d.response && r.status == StatusUnauthorized &&
              table.notes == old(table.notes) && table.nextId == old(table.nextId)
    ensures var d := Authorize(header, env, now, decode, users);
            d.Authorized? ==>
              forall other :: other != d.userId ==>
                OwnedBy(table.notes, other) == OwnedBy(old(table.notes), other)
    ensures request.ListRequest? || request.GetRequest? ==>
              table.notes == old(table.notes) && table.nextId == old(table.nextId)
    ensures var d := Authorize(header, env, now, decode, users);
            d.Authorized? && request.GetRequest? ==>
              r == GetNote(old(table.notes), d.userId, request.idParam)
    ensures var d := Authorize(header, env, now, decode, users);
            d.Authorized? && request.ListRequest? ==>
              r == GetNotes(old(table.notes), request.scan, d.userId, request.query, request.findFails)
    ensures var d := Authorize(header, env, now, decode, users);
            d.Authorized? && request.CreateRequest? ==>
              var body := request.body;
              var complete := body.Some? && body.value.title != "" && body.value.content != "";
              && (body.None? ==> r == Fail(StatusBadRequest, "Invalid request body"))
              && (body.Some? && !complete ==> r == Fail(StatusBadRequest, "Title and content are required"))
              && (complete && request.storeFails ==> r == Fail(StatusInternalServerError, "Failed to create note"))
              && (r.status == StatusCreated <==> complete && !request.storeFails)
              && (r.status != StatusCreated ==> table.notes == old(table.notes) && table.nextId == old(table.nextId))
              && (r.status == StatusCreated ==>
                    var n := Note(old(table.nextId), body.value.title, body.value.content, d.userId);
                    && table.notes == old(table.notes)[n.id := n]
                    && table.nextId == old(table.nextId) + 1
                    && r == Response(StatusCreated, NoteBody(n)))
    ensures var d := Authorize(header, env, now, decode, users);
            d.Authorized? && request.UpdateRequest? ==>
              var idParam, body := request.idParam, request.body;
              var complete := body.Some? && body.value.title != "" && body.value.content != "";
              var target := if IsDecimal(idParam) then SignedValue(idParam) else -1;
              && table.nextId == old(table.nextId)
              && (!IsDecimal(idParam) ==> r == Fail(StatusBadRequest, "Invalid note ID"))
              && (IsDecimal(idParam) && body.None? ==> r == Fail(StatusBadRequest, "Invalid request body"))
              && (IsDecimal(idParam) && body.Some? && !complete ==>
                    r == Fail(StatusBadRequest, "Title and content are required"))
              && (IsDecimal(idParam) && complete && !Owned(old(table.notes), target, d.userId) ==>
                    r == Fail(StatusNotFound, "Note not found"))
              && (IsDecimal(idParam) && complete && Owned(old(table.notes), target, d.userId) && request.storeFails ==>
                    r == Fail(StatusInternalServerError, "Failed to update note"))
              && (r.status == StatusOK <==>
                    IsDecimal(idParam) && complete && Owned(old(table.notes), target, d.userId) && !request.storeFails)
              && (r.status != StatusOK ==> table.notes == old(table.notes))
              && (r.status == StatusOK ==>
                    var n := old(table.notes)[target as nat].(title := body.value.title, content := body.value.content);
                    table.notes == old(table.notes)[target as nat := n] && r == Response(StatusOK, NoteBody(n)))
    ensures var d := Authorize(header, env, now, decode, users);
            d.Authorized? && request.DeleteRequest? ==>
              var idParam := request.idParam;
              var target := if IsDecimal(idParam) then SignedValue(idParam) else -1;
              && table.nextId == old(table.nextId)
              && (!IsDecimal(idParam) ==> r == Fail(StatusBadRequest, "Invalid note ID"))
              && (IsDecimal(idParam) && !Owned(old(table.notes), target, d.userId) ==>
                    r == Fail(StatusNotFound, "Note not found"))
              && (IsDecimal(idParam) && Owned(old(table.notes), target, d.userId) && request.storeFails ==>
                    r == Fail(StatusInternalServerError, "Failed to delete note"))
              && (r.status == StatusOK <==>
                    IsDecimal(idParam) && Owned(old(table.notes), target, d.userId) && !request.storeFails)
              && (r.status != StatusOK ==> table.notes == old(table.notes))
              && (r.status == StatusOK ==>
                    && table.notes == old(table.notes) - {target as nat}
                    && r == Response(StatusOK, MessageBody("Note deleted successfully")))
  {
    var d := Authorize(header, env, now, decode, users);
    if d.Rejected? {
      return d.response;
    }
    var caller := d.userId;
    match request
    case CreateRequest(body, storeFails) =>
      r := table.CreateNote(caller, body, storeFails);
    case ListRequest(query, scan, findFails) =>
      r := GetNotes(table.notes, scan, caller, query, findFails);
    case GetRequest(idParam) =>
      r := GetNote(table.notes, caller, idParam);
    case UpdateRequest(idParam, body, storeFails) =>
      r := table.UpdateNote(caller, idParam, body, storeFails);
    case DeleteRequest(idParam, storeFails) =>
      r := table.DeleteNote(caller, idParam, storeFails);
  }
}
