/**
 * The records of the notes service (models/User.go, models/Note.go), the
 * request bodies the handlers decode, and the HTTP responses they send.
 * The gorm.Model timestamps are not modelled; soft deletion is modelled by
 * removing a row from the visible table.
 */
module Models {

  /** A row of the `users` table. `password` holds whatever the hasher produced. */
  datatype User = User(id: nat, name: string, email: string, password: string)

  /** A row of the `notes` table, owned by the user `userId`. */
  datatype Note = Note(id: nat, title: string, content: string, userId: nat)

  /** The JSON bodies the handlers decode (field names as in the Go structs). */
  datatype NoteInput = NoteInput(title: string, content: string)
  datatype RegisterInput = RegisterInput(name: string, email: string, password: string)
  datatype LoginInput = LoginInput(email: string, password: string)

  /** The JSON bodies the handlers send. */
  datatype Body =
    | ErrorBody(error: string)
    | MessageBody(message: string)
    | NoteBody(note: Note)
    | NotesPage(data: seq<Note>, page: int, limit: int)
    | AccountBody(id: nat, name: string, email: string)
    | TokenBody(token: string)

  datatype Response = Response(status: int, body: Body)

  const StatusOK := 200
  const StatusCreated := 201
  const StatusBadRequest := 400
  const StatusUnauthorized := 401
  const StatusNotFound := 404
  const StatusConflict := 409
  const StatusInternalServerError := 500

  function Fail(status: int, message: string): Response
  {
    Response(status, ErrorBody(message))
  }
}
