/** Records shared by the collaboration engine and the server
    (apps/backend/src/types.ts). */
module Types {

  /** An optional value, used for configuration entries and headers that may be absent. */
  datatype Option<+T> = None | Some(value: T)

  /** A positional edit request sent by one client against one document.
      Numbers are whole numbers here; the payload schema only lets
      integers through to the engine. */
  datatype TextOperation = TextOperation(
    docId: string,
    position: int,
    deleteCount: int,
    insertText: string,
    clientId: string,
    baseVersion: int
  )

  /** The full current state of one document. `updatedAt` is an opaque
      clock reading supplied by the caller. */
  datatype DocumentSnapshot = DocumentSnapshot(
    id: string,
    content: string,
    version: int,
    updatedAt: int
  )
}
