/** Shared vocabulary: optional values, results with an error, and the shape of a
    stored play-event document. */
module Common {

  datatype Option<T> = None | Some(value: T)

  datatype Result<T, E> = Ok(value: T) | Err(error: E)

  /** A stored document: field name to text value. Every field the two components
      read or write is text (the storage `_id` is not modelled as a field). */
  type Doc = map<string, string>

  const ArtistKey: string := "artist"
  const TitleKey: string := "title"
  const PlayedAtKey: string := "played_at"
  const DurationKey: string := "duration"
  const AlbumKey: string := "album"
  const TimeTakenKey: string := "time_taken"
}
