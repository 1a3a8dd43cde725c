/**
 A small end-to-end run of the pipeline: a catalog holding the same song twice
 and a log of three events, one of them a page view.
 */
module Scenario {
  import opened Wrappers
  import opened Records
  import opened Dedup
  import opened Catalog
  import opened Events
  import opened Songplays

  const Song := CatalogRecord(Some("SOABC"), Some("Intro"), Some("ARXYZ"), Some(2004),
                              Some(Double(218)), Some("The XX"), Some("London"), None, None)

  function Visit(page: string, song: Option<string>, artist: Option<string>): EventRecord {
    EventRecord(Some(page), Some("26"), Some("Ryan"), Some("Smith"), Some("M"), Some("free"),
                1541121934796, song, artist, Some(583), Some("San Jose"), Some("Mozilla"))
  }

  const Home := Visit("Home", None, None)
  const Play := Visit("NextSong", Some("Intro"), Some("The XX"))
  const UnknownPlay := Visit("NextSong", Some("Outro"), Some("The XX"))

  /** Two identical catalog records give one songs row. */
  lemma DuplicateSongCollapses()
    ensures SongsTable([Song, Song]) == [SongOf(Song)]
  {
    assert Project(SongOf, [Song, Song]) == [SongOf(Song), SongOf(Song)];
    assert [SongOf(Song), SongOf(Song)][..1] == [SongOf(Song)];
    assert [SongOf(Song)][..0] == [];
  }

  lemma CatalogDeduplicated()
    ensures Distinct([Song, Song]) == [Song]
  {
    assert [Song, Song][..1] == [Song];
    assert [Song][..0] == [];
  }

  lemma PageViewGatedOut()
    ensures Gate([Home, Play, UnknownPlay]) == [Play, UnknownPlay]
  {
    var events := [Home, Play, UnknownPlay];
    assert KeepPlays(events[1..][1..]) == [UnknownPlay] by {
      assert events[1..][1..][1..] == [];
    }
    assert KeepPlays(events[1..]) == [Play, UnknownPlay];
  }

  lemma OnlyKnownSongJoins()
    ensures JoinPairs([Play, UnknownPlay], [Song]) == [Pair(Play, Song)]
  {
    assert Probe(Play, [Song]) == [Pair(Play, Song)] by {
      assert [Song][1..] == [];
    }
    assert Probe(UnknownPlay, [Song]) == [] by {
      assert [Song][1..] == [];
    }
    assert [Play, UnknownPlay][1..] == [UnknownPlay];
    assert [UnknownPlay][1..] == [];
  }

  /**
   Of three events, the page view is gated out and only one of the two plays
   matches the catalog, so the fact table has exactly one row.
   */
  lemma OnePlayMatches()
    ensures |SongplaysTable([Home, Play, UnknownPlay], [Song, Song])| == 1
  {
    CatalogDeduplicated();
    PageViewGatedOut();
    OnlyKnownSongJoins();
  }

  /** A second catalog entry for the same title and artist, under another song id. */
  const Reissue := CatalogRecord(Some("SODEF"), Some("Intro"), Some("ARXYZ"), Some(2009),
                                 Some(Double(218)), Some("The XX"), Some("London"), None, None)

  /**
   The fact table can hold more rows than there are plays: one play whose
   title and artist match two distinct catalog records gives two rows.
   */
  lemma OnePlayTwoRows()
    ensures |Gate([Play])| == 1
    ensures |SongplaysTable([Play], [Song, Reissue])| == 2
  {
    SinglePlayPasses();
    ReissueIsDistinct();
    PlayMatchesBoth();
    assert [Play][1..] == [];
    assert JoinPairs([Play], [Song, Reissue]) == Probe(Play, [Song, Reissue]) + JoinPairs([], [Song, Reissue]);
  }

  lemma SinglePlayPasses()
    ensures Gate([Play]) == [Play]
  {
    assert [Play][1..] == [];
  }

  lemma ReissueIsDistinct()
    ensures Distinct([Song, Reissue]) == [Song, Reissue]
  {
    assert [Song, Reissue][..1] == [Song];
    assert [Song][..0] == [];
  }

  lemma PlayMatchesBoth()
    ensures Probe(Play, [Song, Reissue]) == [Pair(Play, Song), Pair(Play, Reissue)]
  {
    assert [Song, Reissue][1..] == [Reissue];
    assert [Reissue][1..] == [];
  }
}
