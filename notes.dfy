/**
 * The note handlers (handlers/notes.go) over the `notes` table. Every query
 * is scoped by `caller`, the user id the gate attached to the request.
 * The visible table is a map from primary key to row; a soft-deleted row is
 * no longer in it. `Find` has no ORDER BY, so the order in which the
 * database scans the rows is a parameter `scan`.
 */
module Notes {
  import opened Wrappers
  import opened Models
  import opened StrConv
  import opened Text

  /** The rows of `notes` that `caller` owns: all that caller can ever observe. */
  function OwnedBy(notes: map<nat, Note>, caller: nat): map<nat, Note>
  {
    map k | k in notes && notes[k].userId == caller :: notes[k]
  }

  /** `WHERE id = ? AND user_id = ?` finds a row. */
  predicate Owned(notes: map<nat, Note>, id: int, caller: nat)
  {
    0 <= id && id as nat in notes && notes[id as nat].userId == caller
  }

  /** `c.Query(key, default)`: the default stands in for an absent or empty value. */
  function QueryValue(query: map<string, string>, key: string, default: string): string
  {
    if key in query && query[key] != "" then query[key] else default
  }

  /** `n, _ := strconv.Atoi(c.Query(key, default))`. */
  function IntQuery(query: map<string, string>, key: string, default: string): int
  {
    AtoiOrZero(QueryValue(query, key, default))
  }

  function Page(query: map<string, string>): int { IntQuery(query, "page", "1") }

  function Limit(query: map<string, string>): int { IntQuery(query, "limit", "10") }

  function SearchTerm(query: map<string, string>): string { QueryValue(query, "search", "") }

  /**
   * The defaults 1 and 10 apply only to an absent or empty parameter; a
   * present value that is not a decimal number becomes 0.
   */
  lemma PaginationDefaults(query: map<string, string>, key: string)
    requires key == "page" || key == "limit"
    ensures var v := if key == "page" then Page(query) else Limit(query);
            && ((key !in query || query[key] == "") ==> v == (if key == "page" then 1 else 10))
            && (key in query && query[key] != "" && !IsDecimal(query[key]) ==> v == 0)
            && (key in query && IsDecimal(query[key]) ==> v == SignedValue(query[key]))
  {
    assert IsDecimal("1") && Value("1") == 1 by {
      assert "1"[..0] == [];
    }
    assert IsDecimal("10") && Value("10") == 10 by {
      assert "10"[..1] == "1" && "1"[..0] == [];
    }
  }

  /** The LIKE filter on title or content; an empty search term filters nothing. */
  predicate Matches(n: Note, search: string)
  {
    search == "" || Contains(n.title, search) || Contains(n.content, search)
  }

  /** The rows `Find` would return without OFFSET and LIMIT, in scan order. */
  function Select(notes: map<nat, Note>, scan: seq<nat>, caller: nat, search: string): (r: seq<Note>)
    ensures |r| <= |scan|
    ensures forall i | 0 <= i < |r| :: r[i] in notes.Values && r[i].userId == caller && Matches(r[i], search)
  {
    if scan == [] then []
    else
      var rest := Select(notes, scan[1..], caller, search);
      var k := scan[0];
      if k in notes && notes[k].userId == caller && Matches(notes[k], search) then [notes[k]] + rest
      else rest
  }

  /**
   * `Offset(offset).Limit(limit)`. GORM's handling of a negative offset or
   * limit is not claimed; the model skips nothing for a non-positive offset
   * and takes everything for a negative limit.
   */
  function Window(s: seq<Note>, offset: int, limit: int): (r: seq<Note>)
    ensures limit >= 0 ==> |r| <= limit
    ensures forall i | 0 <= i < |r| :: r[i] in s
    ensures 0 <= offset && 0 <= limit ==>
              |r| == (if offset >= |s| then 0 else if |s| - offset < limit then |s| - offset else limit)
    ensures 0 <= offset ==> forall i | 0 <= i < |r| :: offset + i < |s| && r[i] == s[offset + i]
  {
    var start := if offset <= 0 then 0 else if offset > |s| then |s| else offset;
    var rest := s[start..];
    if limit < 0 || limit >= |rest| then rest else rest[..limit]
  }

  /** `offset := (page - 1) * limit`. */
  function Offset(page: int, limit: int): (offset: int)
    ensures page >= 1 && limit >= 0 ==> offset >= 0
  {
    (page - 1) * limit
  }

  /** GetNotes: owner filter, optional search, then the page window. */
  function GetNotes(notes: map<nat, Note>, scan: seq<nat>, caller: nat,
                    query: map<string, string>, findFails: bool): (r: Response)
    ensures findFails ==> r == Fail(StatusInternalServerError, "Failed to fetch notes")
    ensures !findFails ==>
              && r.status == StatusOK && r.body.NotesPage?
              && r.body.page == Page(query) && r.body.limit == Limit(query)
    ensures !findFails ==>
              forall i | 0 <= i < |r.body.data| ::
                var n := r.body.data[i];
                n in notes.Values && n.userId == caller &&
                (SearchTerm(query) != "" ==>
                   Contains(n.title, SearchTerm(query)) || Contains(n.content, SearchTerm(query)))
  {
    var page := Page(query);
    var limit := Limit(query);
    var offset := Offset(page, limit);
    var matching := Select(notes, scan, caller, SearchTerm(query));
    var data := Window(matching, offset, limit);
    assert forall i | 0 <= i < |data| :: data[i] in notes.Values && data[i].userId == caller &&
                                         Matches(data[i], SearchTerm(query)) by {
      forall i | 0 <= i < |data|
        ensures data[i] in notes.Values && data[i].userId == caller && Matches(data[i], SearchTerm(query))
      {
        var j :| 0 <= j < |matching| && matching[j] == data[i];
      }
    }
    if findFails then Fail(StatusInternalServerError, "Failed to fetch notes")
    else Response(StatusOK, NotesPage(data, page, limit))
  }

  /**
   * For a page and a limit of at least 1, GetNotes answers the run of the
   * owner's matching rows that starts at `offset = (page - 1) * limit`: all
   * `limit` of them when that many remain, otherwise every remaining one.
   * Over a scan the database can produce, those rows are the owner's
   * matching notes, each once.
   */
  lemma GetNotesPage(notes: map<nat, Note>, scan: seq<nat>, caller: nat, query: map<string, string>)
    requires Page(query) >= 1 && Limit(query) >= 1
    requires IsScan(scan, notes) && KeyedById(notes)
    ensures var data := GetNotes(notes, scan, caller, query, false).body.data;
            var all := Select(notes, scan, caller, SearchTerm(query));
            var offset := Offset(Page(query), Limit(query));
            && |data| == (if offset >= |all| then 0
                          else if |all| - offset < Limit(query) then |all| - offset
                          else Limit(query))
            && (forall i | 0 <= i < |data| :: offset + i < |all| && data[i] == all[offset + i])
            && (forall n :: n in all <==> n in OwnedBy(notes, caller).Values && Matches(n, SearchTerm(query)))
            && Distinct(data)
  {
    SelectExact(notes, scan, caller, SearchTerm(query));
  }

  /** GetNote: a malformed id is refused before any lookup; absent and foreign notes look alike. */
  function GetNote(notes: map<nat, Note>, caller: nat, idParam: string): (r: Response)
    ensures !IsDecimal(idParam) ==> r == Fail(StatusBadRequest, "Invalid note ID")
    ensures IsDecimal(idParam) && !Owned(notes, SignedValue(idParam), caller) ==>
              r == Fail(StatusNotFound, "Note not found")
    ensures r.status == StatusOK <==> IsDecimal(idParam) && Owned(notes, SignedValue(idParam), caller)
    ensures r.status == StatusOK ==>
              r.body.NoteBody? && r.body.note.userId == caller &&
              r.body.note == notes[SignedValue(idParam) as nat]
  {
    match Atoi(idParam)
    case None => Fail(StatusBadRequest, "Invalid note ID")
    case Some(id) =>
      if !Owned(notes, id, caller) then Fail(StatusNotFound, "Note not found")
      else Response(StatusOK, NoteBody(notes[id as nat]))
  }

  /** Every owned, matching row the scan reaches is selected. */
  lemma {:induction false} SelectComplete(notes: map<nat, Note>, scan: seq<nat>, caller: nat, search: string, k: nat)
    requires k in scan && k in notes && notes[k].userId == caller && Matches(notes[k], search)
    ensures notes[k] in Select(notes, scan, caller, search)
  {
    if scan[0] != k {
      SelectComplete(notes, scan[1..], caller, search, k);
    }
  }

  /**
   * A scan order the database can produce: every row of the table exactly
   * once, and no id that is not in it.
   */
  ghost predicate IsScan(scan: seq<nat>, notes: map<nat, Note>)
  {
    && (forall i | 0 <= i < |scan| :: scan[i] in notes)
    && (forall k | k in notes :: k in scan)
    && (forall i, j | 0 <= i < j < |scan| :: scan[i] != scan[j])
  }

  /** Every row is stored under its own primary key. */
  ghost predicate KeyedById(notes: map<nat, Note>)
  {
    forall k | k in notes :: notes[k].id == k
  }

  /** No row occurs twice. */
  predicate Distinct(s: seq<Note>)
  {
    forall i, j | 0 <= i < j < |s| :: s[i] != s[j]
  }

  /** A selected row carries the id under which the scan reached it. */
  lemma {:induction false} SelectIds(notes: map<nat, Note>, scan: seq<nat>, caller: nat, search: string)
    requires KeyedById(notes)
    ensures forall n | n in Select(notes, scan, caller, search) :: n.id in scan
  {
    if scan != [] {
      SelectIds(notes, scan[1..], caller, search);
      assert forall k | k in scan[1..] :: k in scan;
    }
  }

  /** Distinct ids in the scan give distinct selected rows. */
  lemma {:induction false} SelectDistinct(notes: map<nat, Note>, scan: seq<nat>, caller: nat, search: string)
    requires KeyedById(notes)
    requires forall i, j | 0 <= i < j < |scan| :: scan[i] != scan[j]
    ensures Distinct(Select(notes, scan, caller, search))
  {
    if scan != [] {
      var tail := scan[1..];
      assert forall i, j | 0 <= i < j < |tail| :: tail[i] != tail[j] by {
        forall i, j | 0 <= i < j < |tail| ensures tail[i] != tail[j] {
          assert tail[i] == scan[i + 1] && tail[j] == scan[j + 1];
        }
      }
      SelectDistinct(notes, tail, caller, search);
      SelectIds(notes, tail, caller, search);
      var rest := Select(notes, tail, caller, search);
      var k := scan[0];
      if k in notes && notes[k].userId == caller && Matches(notes[k], search) {
        assert k !in tail by {
          forall i | 0 <= i < |tail| ensures tail[i] != k {
            assert tail[i] == scan[i + 1];
          }
        }
        assert notes[k] !in rest;
        var r := [notes[k]] + rest;
        forall i, j | 0 <= i < j < |r| ensures r[i] != r[j] {
          if i == 0 {
            assert r[0] == notes[k] && r[j] == rest[j - 1] && rest[j - 1] in rest;
          } else {
            assert r[i] == rest[i - 1] && r[j] == rest[j - 1];
          }
        }
        assert Select(notes, scan, caller, search) == r;
      } else {
        assert Select(notes, scan, caller, search) == rest;
      }
    }
  }

  /**
   * Over a scan the database can produce, the selection holds every owned
   * row that matches the term, each exactly once, and nothing else. With an
   * empty term that is every row the caller owns.
   */
  lemma SelectExact(notes: map<nat, Note>, scan: seq<nat>, caller: nat, search: string)
    requires IsScan(scan, notes) && KeyedById(notes)
    ensures var r := Select(notes, scan, caller, search);
            && (forall n :: n in r <==> n in OwnedBy(notes, caller).Values && Matches(n, search))
            && Distinct(r)
  {
    var r := Select(notes, scan, caller, search);
    var owned := OwnedBy(notes, caller);
    SelectDistinct(notes, scan, caller, search);
    forall n ensures n in r <==> n in owned.Values && Matches(n, search) {
      if n in owned.Values && Matches(n, search) {
        var k :| k in owned && owned[k] == n;
        SelectComplete(notes, scan, caller, search, k);
      }
      if n in r {
        var k :| k in notes && notes[k] == n;
        assert k in owned && owned[k] == n;
      }
    }
  }

  /** The list a caller gets depends on that caller's own rows only. */
  lemma {:induction false} SelectIsolated(n1: map<nat, Note>, n2: map<nat, Note>, scan: seq<nat>,
                                           caller: nat, search: string)
    requires OwnedBy(n1, caller) == OwnedBy(n2, caller)
    ensures Select(n1, scan, caller, search) == Select(n2, scan, caller, search)
  {
    if scan != [] {
      SelectIsolated(n1, n2, scan[1..], caller, search);
      var k := scan[0];
      assert (k in n1 && n1[k].userId == caller) <==> k in OwnedBy(n1, caller);
      assert (k in n2 && n2[k].userId == caller) <==> k in OwnedBy(n2, caller);
      if k in OwnedBy(n1, caller) {
        assert n1[k] == OwnedBy(n1, caller)[k] == n2[k];
      }
    }
  }

  /** Notes of other users never influence what GetNotes answers. */
  lemma GetNotesIsolated(n1: map<nat, Note>, n2: map<nat, Note>, scan: seq<nat>, caller: nat,
                         query: map<string, string>, findFails: bool)
    requires OwnedBy(n1, caller) == OwnedBy(n2, caller)
    ensures GetNotes(n1, scan, caller, query, findFails) == GetNotes(n2, scan, caller, query, findFails)
  {
    SelectIsolated(n1, n2, scan, caller, SearchTerm(query));
  }

  /** Notes of other users never influence what GetNote answers. */
  lemma GetNoteIsolated(n1: map<nat, Note>, n2: map<nat, Note>, caller: nat, idParam: string)
    requires OwnedBy(n1, caller) == OwnedBy(n2, caller)
    ensures GetNote(n1, caller, idParam) == GetNote(n2, caller, idParam)
  {
    if IsDecimal(idParam) {
      var id := SignedValue(idParam);
      if 0 <= id {
        var k := id as nat;
        assert Owned(n1, id, caller) <==> k in OwnedBy(n1, caller);
        assert Owned(n2, id, caller) <==> k in OwnedBy(n2, caller);
        if k in OwnedBy(n1, caller) {
          assert n1[k] == OwnedBy(n1, caller)[k] == n2[k];
        }
      }
    }
  }

  /** A missing note and another user's note give the same 404 for the same id. */
  lemma AbsentAndForeignAlike(notes: map<nat, Note>, caller: nat, id: nat, foreign: Note)
    requires id !in notes && foreign.userId != caller
    ensures GetNote(notes, caller, Itoa(id)) == Fail(StatusNotFound, "Note not found")
    ensures GetNote(notes[id := foreign], caller, Itoa(id)) == Fail(StatusNotFound, "Note not found")
  {
    AtoiItoa(id);
  }

  /** Writing a row that neither was nor becomes `other`'s leaves `other`'s rows as they were. */
  lemma OwnedByUpdate(notes: map<nat, Note>, k: nat, n: Note, other: nat)
    requires k in notes ==> notes[k].userId != other
    requires n.userId != other
    ensures OwnedBy(notes[k := n], other) == OwnedBy(notes, other)
  {
    var a, b := OwnedBy(notes[k := n], other), OwnedBy(notes, other);
    assert a.Keys == b.Keys;
  }

  /** Removing a row that is not `other`'s leaves `other`'s rows as they were. */
  lemma OwnedByRemove(notes: map<nat, Note>, k: nat, other: nat)
    requires k in notes ==> notes[k].userId != other
    ensures OwnedBy(notes - {k}, other) == OwnedBy(notes, other)
  {
    var a, b := OwnedBy(notes - {k}, other), OwnedBy(notes, other);
    assert a.Keys == b.Keys;
  }

  /** The `notes` table with its auto-increment counter. */
  class NoteTable {
    var notes: map<nat, Note>
    var nextId: nat

    ghost predicate Valid()
      reads this
    {
      && 1 <= nextId
      && forall id :: id in notes ==> 1 <= id < nextId && notes[id].id == id
    }

    constructor ()
      ensures Valid() && notes == map[] && nextId == 1
    {
      notes := map[];
      nextId := 1;
    }

    /** CreateNote: the owner is always the caller, whatever the body holds. */
    method CreateNote(caller: nat, body: Option<NoteInput>, storeFails: bool) returns (r: Response)
      requires Valid()
      modifies this
      ensures Valid()
      ensures body.None? ==> r == Fail(StatusBadRequest, "Invalid request body")
      ensures body.Some? && (body.value.title == "" || body.value.content == "") ==>
                r == Fail(StatusBadRequest, "Title and content are required")
      ensures body.Some? && body.value.title != "" && body.value.content != "" && storeFails ==>
                r == Fail(StatusInternalServerError, "Failed to create note")
      ensures r.status == StatusCreated <==>
                body.Some? && body.value.title != "" && body.value.content != "" && !storeFails
      ensures r.status != StatusCreated ==> notes == old(notes) && nextId == old(nextId)
      ensures r.status == StatusCreated ==>
                var n := Note(old(nextId), body.value.title, body.value.content, caller);
                && old(nextId) !in old(notes)
                && notes == old(notes)[n.id := n]
                && nextId == old(nextId) + 1
                && r.body == NoteBody(n)
      ensures forall other :: other != caller ==> OwnedBy(notes, other) == OwnedBy(old(notes), other)
    {
      if body.None? {
        return Fail(StatusBadRequest, "Invalid request body");
      }
      var input := body.value;
      if input.title == "" || input.content == "" {
        return Fail(StatusBadRequest, "Title and content are required");
      }
      var note := Note(nextId, input.title, input.content, caller);
      if storeFails {
        return Fail(StatusInternalServerError, "Failed to create note");
      }
      forall other | other != caller
        ensures OwnedBy(notes[note.id := note], other) == OwnedBy(notes, other)
      {
        OwnedByUpdate(notes, note.id, note, other);
      }
      notes := notes[note.id := note];
      nextId := nextId + 1;
      r := Response(StatusCreated, NoteBody(note));
    }

    /**
     * UpdateNote: the id, the body and the empty-field checks all answer 400
     * before the ownership lookup can answer 404; on success only the
     * target's title and content change.
     */
    method UpdateNote(caller: nat, idParam: string, body: Option<NoteInput>, storeFails: bool)
      returns (r: Response)
      requires Valid()
      modifies this
      ensures Valid() && nextId == old(nextId)
      ensures !IsDecimal(idParam) ==> r == Fail(StatusBadRequest, "Invalid note ID")
      ensures IsDecimal(idParam) && body.None? ==> r == Fail(StatusBadRequest, "Invalid request body")
      ensures IsDecimal(idParam) && body.Some? && (body.value.title == "" || body.value.content == "") ==>
                r == Fail(StatusBadRequest, "Title and content are required")
      ensures IsDecimal(idParam) && body.Some? && body.value.title != "" && body.value.content != "" ==>
                var id := SignedValue(idParam);
                && (!Owned(old(notes), id, caller) ==> r == Fail(StatusNotFound, "Note not found"))
                && (Owned(old(notes), id, caller) && storeFails ==>
                      r == Fail(StatusInternalServerError, "Failed to update note"))
      ensures r.status == StatusOK <==>
                IsDecimal(idParam) && body.Some? && body.value.title != "" && body.value.content != "" &&
                Owned(old(notes), SignedValue(idParam), caller) && !storeFails
      ensures r.status != StatusOK ==> notes == old(notes)
      ensures r.status == StatusOK ==>
                var id := SignedValue(idParam) as nat;
                var n := old(notes)[id].(title := body.value.title, content := body.value.content);
                notes == old(notes)[id := n] && r == Response(StatusOK, NoteBody(n))
      ensures forall other :: other != caller ==> OwnedBy(notes, other) == OwnedBy(old(notes), other)
    {
      var parsed := Atoi(idParam);
      if parsed.None? {
        return Fail(StatusBadRequest, "Invalid note ID");
      }
      var id := parsed.value;
      if body.None? {
        return Fail(StatusBadRequest, "Invalid request body");
      }
      var input := body.value;
      if input.title == "" || input.content == "" {
        return Fail(StatusBadRequest, "Title and content are required");
      }
      if !Owned(notes, id, caller) {
        return Fail(StatusNotFound, "Note not found");
      }
      var note := notes[id as nat];
      note := note.(title := input.title, content := input.content);
      if storeFails {
        return Fail(StatusInternalServerError, "Failed to update note");
      }
      forall other | other != caller
        ensures OwnedBy(notes[id as nat := note], other) == OwnedBy(notes, other)
      {
        OwnedByUpdate(notes, id as nat, note, other);
      }
      notes := notes[id as nat := note];
      r := Response(StatusOK, NoteBody(note));
    }

    /**
     * DeleteNote: soft deletion hides exactly the target, after which a
     * lookup of that id answers 404 to every caller.
     */
    method DeleteNote(caller: nat, idParam: string, storeFails: bool) returns (r: Response)
      requires Valid()
      modifies this
      ensures Valid() && nextId == old(nextId)
      ensures !IsDecimal(idParam) ==> r == Fail(StatusBadRequest, "Invalid note ID")
      ensures IsDecimal(idParam) && !Owned(old(notes), SignedValue(idParam), caller) ==>
                r == Fail(StatusNotFound, "Note not found")
      ensures IsDecimal(idParam) && Owned(old(notes), SignedValue(idParam), caller) && storeFails ==>
                r == Fail(StatusInternalServerError, "Failed to delete note")
      ensures r.status == StatusOK <==>
                IsDecimal(idParam) && Owned(old(notes), SignedValue(idParam), caller) && !storeFails
      ensures r.status != StatusOK ==> notes == old(notes)
      ensures r.status == StatusOK ==>
                && notes == old(notes) - {SignedValue(idParam) as nat}
                && r == Response(StatusOK, MessageBody("Note deleted successfully"))
                && forall anyone :: GetNote(notes, anyone, idParam) == Fail(StatusNotFound, "Note not found")
      ensures forall other :: other != caller ==> OwnedBy(notes, other) == OwnedBy(old(notes), other)
    {
      var parsed := Atoi(idParam);
      if parsed.None? {
        return Fail(StatusBadRequest, "Invalid note ID");
      }
      var id := parsed.value;
      if !Owned(notes, id, caller) {
        return Fail(StatusNotFound, "Note not found");
      }
      if storeFails {
        return Fail(StatusInternalServerError, "Failed to delete note");
      }
      forall other | other != caller
        ensures OwnedBy(notes - {id as nat}, other) == OwnedBy(notes, other)
      {
        OwnedByRemove(notes, id as nat, other);
      }
      notes := notes - {id as nat};
      r := Response(StatusOK, MessageBody("Note deleted successfully"));
    }
  }
}
