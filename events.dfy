/** The stored event as the web handlers see it, and the HTTP status codes
    their error paths answer with. */
module Events {

  /** An event row: its database ID, tags, body, source and creation time
      (nanoseconds). */
  datatype Event = Event(id: int, tags: seq<string>, data: string, source: string, createdAt: int)

  const StatusBadRequest: int := 400
  const StatusNotFound: int := 404
  const StatusInternalServerError: int := 500
}
