/**
 The catalog side of the pipeline (`process_song_data`): the songs and artists
 dimension tables, each the duplicate-free projection of the catalog records.
 */
module Catalog {
  import opened Wrappers
  import opened Records
  import opened Dedup

  /** A row of the songs table: `song_id, title, artist_id, year, duration`. */
  datatype SongRow = SongRow(
    songId: Option<string>,
    title: Option<string>,
    artistId: Option<string>,
    year: Option<int>,
    duration: Option<Double>)

  /** A row of the artists table, with the catalog's `artist_*` columns renamed. */
  datatype ArtistRow = ArtistRow(
    name: Option<string>,
    location: Option<string>,
    latitude: Option<Double>,
    longitude: Option<Double>)

  function SongOf(c: CatalogRecord): SongRow {
    SongRow(c.songId, c.title, c.artistId, c.year, c.duration)
  }

  function ArtistOf(c: CatalogRecord): ArtistRow {
    ArtistRow(c.artistName, c.artistLocation, c.artistLatitude, c.artistLongitude)
  }

  /** An artist projection in which every column is null. */
  const NullArtist := ArtistRow(None, None, None, None)

  /**
   The songs table: exactly the song projections of the catalog records, no
   row twice.
   */
  function SongsTable(records: seq<CatalogRecord>): (t: seq<SongRow>)
    ensures NoDup(t)
    ensures forall row :: row in t <==>
      exists c :: c in records && row == SongRow(c.songId, c.title, c.artistId, c.year, c.duration)
  {
    DistinctProjection(SongOf, records)
  }

  /**
   The artists table: exactly the renamed artist projections of the catalog
   records, no row twice.
   */
  function ArtistsTable(records: seq<CatalogRecord>): (t: seq<ArtistRow>)
    ensures NoDup(t)
    ensures forall row :: row in t <==>
      exists c :: c in records &&
        row == ArtistRow(c.artistName, c.artistLocation, c.artistLatitude, c.artistLongitude)
  {
    DistinctProjection(ArtistOf, records)
  }

  /**
   Two songs sharing a `song_id` but differing in another column are both
   kept: the table is deduplicated on the whole tuple, not on the id.
   */
  lemma SongsKeyedByFullTuple(records: seq<CatalogRecord>, c1: CatalogRecord, c2: CatalogRecord)
    requires c1 in records && c2 in records
    requires c1.songId == c2.songId && c1.duration != c2.duration
    ensures SongOf(c1) in SongsTable(records) && SongOf(c2) in SongsTable(records)
    ensures SongOf(c1) != SongOf(c2)
  {
  }

  /** Appending exact duplicates of catalog records leaves the songs table unchanged. */
  lemma SongsIgnoreDuplicates(records: seq<CatalogRecord>, extra: seq<CatalogRecord>)
    requires SubsetOf(extra, records)
    ensures SongsTable(records + extra) == SongsTable(records)
  {
    ProjectAppend(SongOf, records, extra);
    ProjectSubset(SongOf, records, extra);
    DistinctAbsorbsDuplicates(Project(SongOf, records), Project(SongOf, extra));
  }

  /** Appending exact duplicates of catalog records leaves the artists table unchanged. */
  lemma ArtistsIgnoreDuplicates(records: seq<CatalogRecord>, extra: seq<CatalogRecord>)
    requires SubsetOf(extra, records)
    ensures ArtistsTable(records + extra) == ArtistsTable(records)
  {
    ProjectAppend(ArtistOf, records, extra);
    ProjectSubset(ArtistOf, records, extra);
    DistinctAbsorbsDuplicates(Project(ArtistOf, records), Project(ArtistOf, extra));
  }

  /** Deduplicating either table again changes nothing. */
  lemma CatalogTablesIdempotent(records: seq<CatalogRecord>)
    ensures Distinct(SongsTable(records)) == SongsTable(records)
    ensures Distinct(ArtistsTable(records)) == ArtistsTable(records)
  {
    DistinctOfNoDup(SongsTable(records));
    DistinctOfNoDup(ArtistsTable(records));
  }

  /**
   Catalog records whose artist columns are all null still give an artists
   row: the all-null row, exactly once however many such records there are.
   */
  lemma NullArtistKeptOnce(records: seq<CatalogRecord>, c: CatalogRecord)
    requires c in records && ArtistOf(c) == NullArtist
    ensures multiset(ArtistsTable(records))[NullArtist] == 1
  {
    NoDupCount(ArtistsTable(records), NullArtist);
  }

  /**
   Both tables depend only on which records occur, not on their order or
   repetition.
   */
  lemma CatalogTablesOrderIrrelevant(r1: seq<CatalogRecord>, r2: seq<CatalogRecord>)
    requires forall c :: c in r1 <==> c in r2
    ensures multiset(SongsTable(r1)) == multiset(SongsTable(r2))
    ensures multiset(ArtistsTable(r1)) == multiset(ArtistsTable(r2))
  {
    DistinctOrderIrrelevant(Project(SongOf, r1), Project(SongOf, r2));
    DistinctOrderIrrelevant(Project(ArtistOf, r1), Project(ArtistOf, r2));
  }
}
