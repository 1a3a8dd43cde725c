/**
 The songplays fact table: the inner join of the gated events with the
 deduplicated catalog on `event.song == catalog.title` and
 `event.artist == catalog.artist_name`, one row per matched pair.
 */
module Songplays {
  import opened Wrappers
  import opened Records
  import opened Dedup
  import opened Timestamps
  import opened Events

  /**
   The join condition. Titles and artist names must be equal as strings; SQL
   equality with a null on either side is null, so a null never matches.
   */
  predicate Matches(e: EventRecord, c: CatalogRecord) {
    e.song.Some? && e.artist.Some? && e.song == c.title && e.artist == c.artistName
  }

  /** A matched (event, catalog record) pair of the join. */
  datatype Pair = Pair(event: EventRecord, song: CatalogRecord)

  /** The pairs one event forms with a list of catalog records, in catalog order. */
  function Probe(e: EventRecord, cs: seq<CatalogRecord>): (r: seq<Pair>)
    ensures |r| <= |cs|
    ensures forall p :: p in r ==> p.event == e && p.song in cs && Matches(e, p.song)
    ensures NoDup(cs) ==> forall p :: multiset(r)[p] ==
                                      (if p.event == e && p.song in cs && Matches(e, p.song) then 1 else 0)
  {
    if |cs| == 0 then []
    else
      var rest := Probe(e, cs[1..]);
      assert cs == [cs[0]] + cs[1..];
      assert NoDup(cs) ==> NoDup(cs[1..]) && cs[0] !in cs[1..] by {
        if NoDup(cs) {
          forall i | 0 <= i < |cs[1..]| ensures cs[1..][i] != cs[0] {
            assert cs[1..][i] == cs[i + 1];
          }
        }
      }
      (if Matches(e, cs[0]) then [Pair(e, cs[0])] else []) + rest
  }

  lemma MulStep(a: nat, b: nat)
    requires a > 0
    ensures b + (a - 1) * b == a * b
  {
  }

  /**
   The nested-loop join of a list of events with a list of catalog records.
   When the catalog side has no duplicates, every matching (event, record)
   pair occurs exactly as often as the event does, and nothing else occurs.
   */
  function JoinPairs(es: seq<EventRecord>, cs: seq<CatalogRecord>): (r: seq<Pair>)
    ensures |r| <= |es| * |cs|
    ensures forall p :: p in r ==> p.event in es && p.song in cs && Matches(p.event, p.song)
    ensures NoDup(cs) ==> forall p :: multiset(r)[p] ==
                                      (if p.song in cs && Matches(p.event, p.song) then multiset(es)[p.event] else 0)
  {
    if |es| == 0 then []
    else
      var here := Probe(es[0], cs);
      var rest := JoinPairs(es[1..], cs);
      assert es == [es[0]] + es[1..];
      MulStep(|es|, |cs|);
      here + rest
  }

  /** The join distributes over a split of the event list. */
  lemma {:induction false} JoinPairsAppend(a: seq<EventRecord>, b: seq<EventRecord>, cs: seq<CatalogRecord>)
    ensures JoinPairs(a + b, cs) == JoinPairs(a, cs) + JoinPairs(b, cs)
    decreases |a|
  {
    if |a| == 0 {
      assert a + b == b;
    } else {
      assert (a + b)[1..] == a[1..] + b;
      assert (a + b)[0] == a[0];
      JoinPairsAppend(a[1..], b, cs);
    }
  }

  /**
   `log_df.join(songs_data.distinct(), ...)`: the catalog is deduplicated on
   the full record first, then inner-joined with the events that pass the
   gate. Sound: every pair is a passing event and a catalog record that match.
   Complete and exact: each such pair occurs exactly as many times as the
   event occurs in the log, however often the record repeats in the catalog.
   */
  function Joined(events: seq<EventRecord>, catalog: seq<CatalogRecord>): (r: seq<Pair>)
    ensures |r| <= |Gate(events)| * |Distinct(catalog)|
    ensures forall p :: p in r ==>
      p.event in Gate(events) && p.event in events && Passes(p.event) &&
      p.song in catalog && Matches(p.event, p.song)
    ensures forall p :: multiset(r)[p] ==
                        (if Passes(p.event) && p.song in catalog && Matches(p.event, p.song)
                         then multiset(events)[p.event] else 0)
  {
    var g := Gate(events);
    assert forall e :: e in g ==> e in events by {
      forall e | e in g ensures e in events {
        assert multiset(g)[e] > 0;
      }
    }
    JoinPairs(g, Distinct(catalog))
  }

  /** A row of the songplays fact table. */
  datatype SongplayRow = SongplayRow(
    songplayId: nat,
    startTime: string,
    userId: Option<string>,
    level: Option<string>,
    songId: Option<string>,
    artistId: Option<string>,
    sessionId: Option<int>,
    location: Option<string>,
    userAgent: Option<string>,
    year: Option<int>,
    month: int)

  /**
   Where each column of a fact row comes from: the event supplies the user,
   session and client columns and the time columns; the catalog record
   supplies the song, artist and year columns.
   */
  predicate FromPair(row: SongplayRow, p: Pair) {
    && row.userId == p.event.userId && row.level == p.event.level
    && row.sessionId == p.event.sessionId && row.location == p.event.location
    && row.userAgent == p.event.userAgent
    && row.songId == p.song.songId && row.artistId == p.song.artistId
    && row.year == p.song.year
    && row.month == TimeRowOf(p.event.ts).month
    && row.startTime == TimeRowOf(p.event.ts).startTime
  }

  /**
   The fact row of a matched pair. `year` resolves to the catalog record's
   release year (the only `year` column of the joined frame); `month` and
   `start_time` come from the event's timestamp.
   */
  function RowOf(id: nat, p: Pair): (r: SongplayRow)
    ensures r.songplayId == id && FromPair(r, p)
  {
    var t := TimeRowOf(p.event.ts);
    SongplayRow(id, t.startTime, p.event.userId, p.event.level, p.song.songId,
                p.song.artistId, p.event.sessionId, p.event.location,
                p.event.userAgent, p.song.year, t.month)
  }

  /**
   The songplays table: one row per joined pair, each with a distinct
   `songplay_id` (`monotonically_increasing_id` is modelled by the row index).
   */
  function SongplaysTable(events: seq<EventRecord>, catalog: seq<CatalogRecord>): (t: seq<SongplayRow>)
    ensures |t| == |Joined(events, catalog)|
    ensures forall i, j :: 0 <= i < j < |t| ==> t[i].songplayId != t[j].songplayId
    ensures forall i :: 0 <= i < |t| ==> FromPair(t[i], Joined(events, catalog)[i])
  {
    var ps := Joined(events, catalog);
    seq(|ps|, i requires 0 <= i < |ps| => RowOf(i, ps[i]))
  }

  /** The fact table has at most one row per play and distinct catalog record. */
  lemma SongplaysBound(events: seq<EventRecord>, catalog: seq<CatalogRecord>)
    ensures |SongplaysTable(events, catalog)| <= |Gate(events)| * |Distinct(catalog)|
  {
  }

  /** The songplays table is determined by the joined pairs alone. */
  lemma SongplaysFollowJoin(e1: seq<EventRecord>, c1: seq<CatalogRecord>,
                            e2: seq<EventRecord>, c2: seq<CatalogRecord>)
    requires Joined(e1, c1) == Joined(e2, c2)
    ensures SongplaysTable(e1, c1) == SongplaysTable(e2, c2)
  {
    var t1, t2 := SongplaysTable(e1, c1), SongplaysTable(e2, c2);
    forall i | 0 <= i < |t1| ensures t1[i] == t2[i] {
      assert t1[i] == RowOf(i, Joined(e1, c1)[i]);
    }
  }

  /**
   Every fact row shares its `start_time` and `month` with the time-table row
   of the same event.
   */
  lemma SongplayTimeAgreesWithTimeTable(events: seq<EventRecord>, catalog: seq<CatalogRecord>, i: nat)
    requires i < |SongplaysTable(events, catalog)|
    ensures exists j :: (0 <= j < |TimeTable(events)| &&
                         Gate(events)[j] == Joined(events, catalog)[i].event &&
                         TimeTable(events)[j].startTime == SongplaysTable(events, catalog)[i].startTime &&
                         TimeTable(events)[j].month == SongplaysTable(events, catalog)[i].month)
  {
    var p := Joined(events, catalog)[i];
    assert p in Joined(events, catalog);
    var j :| 0 <= j < |Gate(events)| && Gate(events)[j] == p.event;
    assert TimeTable(events)[j] == TimeRowOf(p.event.ts);
  }

  /**
   Events that fail the gate contribute nothing: inserting one anywhere in the
   log leaves the users, time and songplays tables unchanged.
   */
  lemma NonPlaysContributeNothing(a: seq<EventRecord>, e: EventRecord, b: seq<EventRecord>,
                                  catalog: seq<CatalogRecord>)
    requires !Passes(e)
    ensures UsersTable(a + [e] + b) == UsersTable(a + b)
    ensures TimeTable(a + [e] + b) == TimeTable(a + b)
    ensures SongplaysTable(a + [e] + b, catalog) == SongplaysTable(a + b, catalog)
  {
    GateIgnoresNonPlays(a, e, b);
    SongplaysFollowJoin(a + [e] + b, catalog, a + b, catalog);
  }

  /** An event that matches no catalog record forms no pair. */
  lemma {:induction false} ProbeUnmatched(e: EventRecord, cs: seq<CatalogRecord>)
    requires forall c :: c in cs ==> !Matches(e, c)
    ensures Probe(e, cs) == []
  {
    if |cs| > 0 {
      assert forall c :: c in cs[1..] ==> c in cs;
      ProbeUnmatched(e, cs[1..]);
    }
  }

  /** Joining a list of events none of which matches anything gives no pairs. */
  lemma {:induction false} JoinPairsUnmatched(g: seq<EventRecord>, cs: seq<CatalogRecord>)
    requires forall e, c :: e in g && c in cs ==> !Matches(e, c)
    ensures JoinPairs(g, cs) == []
    decreases |g|
  {
    if |g| > 0 {
      ProbeUnmatched(g[0], cs);
      assert forall e :: e in g[1..] ==> e in g;
      JoinPairsUnmatched(g[1..], cs);
    }
  }

  /** Joining around a slice of unmatched events gives the same pairs as without it. */
  lemma JoinPairsSkipsUnmatched(ga: seq<EventRecord>, ge: seq<EventRecord>, gb: seq<EventRecord>,
                                cs: seq<CatalogRecord>)
    requires forall e, c :: e in ge && c in cs ==> !Matches(e, c)
    ensures JoinPairs(ga + ge + gb, cs) == JoinPairs(ga + gb, cs)
  {
    JoinPairsUnmatched(ge, cs);
    JoinPairsAppend(ga + ge, gb, cs);
    JoinPairsAppend(ga, ge, cs);
    JoinPairsAppend(ga, gb, cs);
  }

  /** Inserting an event that matches no catalog record adds no joined pair. */
  lemma JoinedIgnoresUnmatched(a: seq<EventRecord>, e: EventRecord, b: seq<EventRecord>,
                               catalog: seq<CatalogRecord>)
    requires forall c :: c in catalog ==> !Matches(e, c)
    ensures Joined(a + [e] + b, catalog) == Joined(a + b, catalog)
  {
    var cs := Distinct(catalog);
    var ga, ge, gb := Gate(a), Gate([e]), Gate(b);
    GateAroundOne(a, e, b);
    assert forall x :: x in ge ==> x == e;
    JoinPairsSkipsUnmatched(ga, ge, gb, cs);
  }

  /**
   An event that matches no catalog record is silently dropped: inserting it
   leaves the songplays table unchanged.
   */
  lemma UnmatchedPlaysDropped(a: seq<EventRecord>, e: EventRecord, b: seq<EventRecord>,
                              catalog: seq<CatalogRecord>)
    requires forall c :: c in catalog ==> !Matches(e, c)
    ensures SongplaysTable(a + [e] + b, catalog) == SongplaysTable(a + b, catalog)
  {
    JoinedIgnoresUnmatched(a, e, b, catalog);
    SongplaysFollowJoin(a + [e] + b, catalog, a + b, catalog);
  }

  /** Exact duplicates in the catalog never multiply fact rows. */
  lemma CatalogDuplicatesDoNotMultiply(events: seq<EventRecord>, catalog: seq<CatalogRecord>,
                                       extra: seq<CatalogRecord>)
    requires SubsetOf(extra, catalog)
    ensures SongplaysTable(events, catalog + extra) == SongplaysTable(events, catalog)
  {
    DistinctAbsorbsDuplicates(catalog, extra);
    SongplaysFollowJoin(events, catalog + extra, events, catalog);
  }
}
