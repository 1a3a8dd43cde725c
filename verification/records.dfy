/**
 The two input record shapes, as the JSON reader hands them over: every column
 may be SQL null, so every column other than the event timestamp is an `Option`; the
 timestamp is bounded as `Timestamps.Millis` says.
 */
module Records {
  import opened Wrappers
  import opened Timestamps

  /**
   A floating-point column value (`duration`, `artist_latitude`,
   `artist_longitude`). The transformation only copies such values and compares
   them for equality, so they are kept opaque.
   */
  datatype Double = Double(bits: int)

  /** One record of the music-catalog feed (one per song). */
  datatype CatalogRecord = CatalogRecord(
    songId: Option<string>,
    title: Option<string>,
    artistId: Option<string>,
    year: Option<int>,
    duration: Option<Double>,
    artistName: Option<string>,
    artistLocation: Option<string>,
    artistLatitude: Option<Double>,
    artistLongitude: Option<Double>)

  /**
   One record of the user-activity log. `ts` is the event time in epoch
   milliseconds; `page` discriminates the kind of event.
   */
  datatype EventRecord = EventRecord(
    page: Option<string>,
    userId: Option<string>,
    firstName: Option<string>,
    lastName: Option<string>,
    gender: Option<string>,
    level: Option<string>,
    ts: Millis,
    song: Option<string>,
    artist: Option<string>,
    sessionId: Option<int>,
    location: Option<string>,
    userAgent: Option<string>)
}
