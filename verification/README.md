# Song-play ETL: a Dafny model of the transformation core

The pipeline in `home/workspace/etl.py` turns two JSON record streams into a
star schema. One stream is the music catalog (one record per song). The other
is the user-activity log (one record per event). The schema has four dimension
tables (songs, artists, users, time) and one fact table (songplays). Spark
runs the work, but each step is plain relational algebra over finite
collections of records. This project states that algebra in Dafny and proves
its properties.

Each DataFrame is a `seq` of immutable records. Every nullable column is an
`Option` (`None` is SQL null). The modules follow the pipeline:

- `Wrappers`: `Option`.
- `Dedup`: `distinct()` as first-occurrence deduplication (`Distinct`),
  column projection (`Project`), and their laws.
- `Records`: the catalog record and the event record.
- `Catalog`: the songs and artists tables (`process_song_data`).
- `Calendar`: proleptic Gregorian arithmetic on epoch day numbers, plus the
  ISO 8601 week date (section 4.1.4: weeks start on Monday, and week 1 holds
  the year's first Thursday).
- `Timestamps`: epoch milliseconds to UTC civil time, and the time-table row
  with its `'HH:MM:ss'` and `'u'` renderings.
- `Events`: the `page == 'NextSong'` gate, the users table and the time table.
- `Songplays`: the join of the gated events with the deduplicated catalog,
  and the fact rows.
- `Scenario`: small end-to-end instances of the pipeline.

Points where the code's behaviour is easy to misread:

- `start_time` is rendered with the pattern `'HH:MM:ss'`. In that pattern
  language `MM` is the month of the year, so the middle field is the month,
  not the minute. `Timestamps.StartTime` does exactly this, and
  `Timestamps.StartTimeIgnoresMinute` shows the result cannot tell minutes
  apart.
- The songplays `year` is `col('year')` after the join. The log records have
  no `year` column, so this resolves to the catalog record's release year.
  The `month` comes from the event timestamp.
- Nothing checks that required catalog fields are present. A null title or
  artist name simply never matches in the join.
- The fact table is not bounded by the number of plays. One play can match
  several distinct catalog records that share a title and artist name
  (`Scenario.OnePlayTwoRows`). The bound that holds is plays × distinct
  catalog records.
- Time columns are taken in UTC: `1541121934796` ms is 2018-11-02 01:25:34
  UTC, so its `hour` is 1 and its `start_time` is "01:11:34"
  (`Timestamps.ExampleTimestamp`).

## Model

| member | source | states |
|---|---|---|
| `Dedup.Distinct` | home/workspace/etl.py:46 | the result has no duplicate rows and holds exactly the input's rows |
| `Dedup.DistinctProjection` | home/workspace/etl.py:53-56 | `select(...).distinct()` holds exactly the projections of the input rows, each once |
| `Dedup.DistinctIdempotent` | home/workspace/etl.py:46 | deduplicating twice gives the same table as deduplicating once |
| `Dedup.DistinctOfNoDup` | home/workspace/etl.py:116 | a table with no duplicate rows comes out of `distinct()` unchanged |
| `Dedup.DistinctAbsorbsDuplicates` | home/workspace/etl.py:116 | appending exact duplicates of present rows leaves the result unchanged |
| `Dedup.DistinctOrderIrrelevant` | home/workspace/etl.py:46 | inputs with the same rows, in any order or repetition, give the same multiset of rows |
| `Dedup.NoDupCount` | home/workspace/etl.py:46 | a duplicate-free table holds each of its rows exactly once |
| `Catalog.SongsTable` | home/workspace/etl.py:46 | the songs table is exactly the `(song_id, title, artist_id, year, duration)` projections of the catalog, with no duplicates |
| `Catalog.ArtistsTable` | home/workspace/etl.py:53-56 | the artists table is exactly the renamed `artist_*` projections, with no duplicates |
| `Catalog.SongsKeyedByFullTuple` | home/workspace/etl.py:46 | two songs with the same `song_id` but a different `duration` both stay in the table |
| `Catalog.SongsIgnoreDuplicates` | home/workspace/etl.py:46 | duplicate catalog records do not change the songs table |
| `Catalog.ArtistsIgnoreDuplicates` | home/workspace/etl.py:53-56 | duplicate catalog records do not change the artists table |
| `Catalog.CatalogTablesIdempotent` | home/workspace/etl.py:46-56 | deduplicating either table again changes nothing |
| `Catalog.NullArtistKeptOnce` | home/workspace/etl.py:53-56 | an artist projection whose columns are all null is kept, exactly once |
| `Catalog.CatalogTablesOrderIrrelevant` | home/workspace/etl.py:46-56 | both tables depend only on the set of catalog records |
| `Events.KeepPlaysCounts` | home/workspace/etl.py:87 | the row-by-row filter keeps only passing events, each as often as it occurs in the input |
| `Events.Gate` | home/workspace/etl.py:87 | only `page == 'NextSong'` events pass (a null page fails), each with its original multiplicity |
| `Events.GateAppend` | home/workspace/etl.py:87 | the gate is a row-wise filter and commutes with concatenation |
| `Events.KeepPlaysAppend` | home/workspace/etl.py:87 | the underlying filter commutes with concatenation |
| `Events.GateAroundOne` | home/workspace/etl.py:87 | filtering around one event keeps that event alone or drops it |
| `Events.GateIgnoresNonPlays` | home/workspace/etl.py:87 | inserting an event that fails the gate does not change what passes |
| `Events.UsersTable` | home/workspace/etl.py:90-94 | the users table is exactly the renamed user projections of the passing events, with no duplicates |
| `Events.UserWithTwoLevelsGivesTwoRows` | home/workspace/etl.py:90-94 | one `user_id` seen with two `level`s gives two rows |
| `Events.UsersIgnoreDuplicates` | home/workspace/etl.py:90-94 | duplicate events do not change the users table |
| `Events.TimeTable` | home/workspace/etl.py:103-109 | one time row per passing event, in correspondence with them and not deduplicated, and every row within calendar bounds |
| `Events.TimeTableKeepsRepeats` | home/workspace/etl.py:103-109 | a passing event appends its own time row even when an identical row is already present, so repeated timestamps are not collapsed |
| `Timestamps.EpochSeconds` | home/workspace/etl.py:100 | `ts / 1000` gives the whole second that contains the millisecond timestamp |
| `Timestamps.ToUtc` | home/workspace/etl.py:100 | the UTC civil time of an epoch second is valid and converts back to that second |
| `Timestamps.UtcRoundTrip` | home/workspace/etl.py:100 | every valid instant from 1970 on survives the trip to seconds and back |
| `Timestamps.Pad2` | home/workspace/etl.py:103 | the two-digit zero-padded field reads back as its number |
| `Timestamps.StartTime` | home/workspace/etl.py:103 | `'HH:MM:ss'` is 8 characters with colons at positions 2 and 5, and reads back as hour, month and second |
| `Timestamps.StartTimeIgnoresMinute` | home/workspace/etl.py:103 | timestamps that differ only in the minute get the same `start_time` |
| `Timestamps.WeekdayText` | home/workspace/etl.py:109 | `'u'` is a single digit from "1" to "7" equal to the ISO weekday |
| `Timestamps.TimeRowOf` | home/workspace/etl.py:103-109 | the row is within bounds; its date is the UTC day of the timestamp and its hour the UTC hour; `start_time` is the `'HH:MM:ss'` rendering of the UTC instant; `week` is the ISO week and `weekday` the `'u'` digit of that UTC day |
| `Timestamps.TimeRowYearInRange` | home/workspace/etl.py:100-108 | every modelled event time falls in a year from 1970 to 9999 |
| `Timestamps.ExampleTimestamp` | home/workspace/etl.py:100-109 | 1541121934796 ms gives start "01:11:34", hour 1, day 2, ISO week 44, month 11, year 2018, weekday "5" |
| `Calendar.MonthTable` | home/workspace/etl.py:105-107 | the cumulative month-start table agrees with the month lengths |
| `Calendar.YearLength` | home/workspace/etl.py:108 | the closed form for a year's first day advances by that year's length |
| `Calendar.DaysFromCivil` | home/workspace/etl.py:105-108 | a valid date's day number lies inside its year, at its month offset plus the day |
| `Calendar.YearFrom` | home/workspace/etl.py:108 | the year search returns the year whose days contain the given day |
| `Calendar.MonthFrom` | home/workspace/etl.py:107 | the month search returns the month whose days contain the given day of the year |
| `Calendar.CivilFromDays` | home/workspace/etl.py:105-108 | the UTC date of an epoch day is a valid date from 1970 on that converts back to the same day |
| `Calendar.YearUnique` | home/workspace/etl.py:108 | a day lies in exactly one year |
| `Calendar.DaysFromCivilInjective` | home/workspace/etl.py:105-108 | distinct valid dates have distinct day numbers |
| `Calendar.CivilRoundTrip` | home/workspace/etl.py:105-108 | a valid date converts to its day number and back to itself |
| `Calendar.IsoWeekday` | home/workspace/etl.py:109 | the ISO weekday is in 1..7, and 1970-01-01 is a Thursday (4) |
| `Calendar.WeekdayNext` | home/workspace/etl.py:109 | weekdays advance by one per day, and Sunday wraps to Monday |
| `Calendar.WeekThursday` | home/workspace/etl.py:106 | the Thursday of a day's Monday-to-Sunday week is within three days of it |
| `Calendar.IsoWeek` | home/workspace/etl.py:106 | `weekofyear` is between 1 and 53 |
| `Calendar.IsoWeekJanuaryFourth` | home/workspace/etl.py:106 | January 4th of every year is in week 1 |
| `Calendar.IsoWeekWithinWeek` | home/workspace/etl.py:106 | Tuesday to Sunday keep the week number of the day before |
| `Calendar.IsoWeekOnMonday` | home/workspace/etl.py:106 | a Monday starts the next week number, or week 1 when its week belongs to a new year |
| `Calendar.IsoWeekOrdinalFormula` | home/workspace/etl.py:106 | where the week's Thursday is in the same year, the week is (ordinal − weekday + 10) / 7 |
| `Songplays.Probe` | home/workspace/etl.py:120 | one event's pairs are exactly its matching catalog records, each once when the catalog has no duplicates |
| `Songplays.JoinPairs` | home/workspace/etl.py:120 | the join is sound, and against a duplicate-free catalog each matching pair occurs as often as its event |
| `Songplays.JoinPairsAppend` | home/workspace/etl.py:120 | the join distributes over a split of the event list |
| `Songplays.Joined` | home/workspace/etl.py:116-120 | pairs are passing events with matching catalog records; each such pair occurs as often as the event; at most plays × distinct records |
| `Songplays.SongplaysTable` | home/workspace/etl.py:121-133 | one row per joined pair; ids are pairwise distinct; `user_id`, `level`, `session_id`, `location`, `user_agent` come from the event; `song_id`, `artist_id`, `year` come from the catalog record; `month` and `start_time` come from the event time |
| `Songplays.SongplaysBound` | home/workspace/etl.py:116-133 | the fact table has at most plays × distinct catalog records rows |
| `Songplays.SongplaysFollowJoin` | home/workspace/etl.py:121-133 | the fact table is determined by the joined pairs alone |
| `Songplays.SongplayTimeAgreesWithTimeTable` | home/workspace/etl.py:103-124 | each fact row has the same `start_time` and `month` as the time row of its event |
| `Songplays.NonPlaysContributeNothing` | home/workspace/etl.py:87-133 | an event that fails the gate changes none of the users, time or songplays tables |
| `Songplays.ProbeUnmatched` | home/workspace/etl.py:120 | an event that matches no catalog record forms no pair |
| `Songplays.JoinPairsUnmatched` | home/workspace/etl.py:120 | a list of events none of which matches any catalog record joins to no pairs |
| `Songplays.JoinPairsSkipsUnmatched` | home/workspace/etl.py:120 | any slice of events none of which matches a catalog record can be removed from the join input without changing the pairs |
| `Songplays.JoinedIgnoresUnmatched` | home/workspace/etl.py:120 | an event that matches nothing adds no pair |
| `Songplays.UnmatchedPlaysDropped` | home/workspace/etl.py:120 | an event that matches nothing leaves the fact table unchanged |
| `Songplays.CatalogDuplicatesDoNotMultiply` | home/workspace/etl.py:116-120 | duplicate catalog records do not multiply fact rows |
| `Scenario.DuplicateSongCollapses` | home/workspace/etl.py:46 | two identical catalog records give one songs row |
| `Scenario.CatalogDeduplicated` | home/workspace/etl.py:116 | two identical catalog records deduplicate to one |
| `Scenario.PageViewGatedOut` | home/workspace/etl.py:87 | a "Home" event is gated out and both plays pass |
| `Scenario.OnlyKnownSongJoins` | home/workspace/etl.py:120 | only the play whose title and artist are in the catalog joins |
| `Scenario.OnePlayMatches` | home/workspace/etl.py:87-133 | a page view, a matching play and an unknown play give exactly one fact row |
| `Scenario.OnePlayTwoRows` | home/workspace/etl.py:116-133 | one play that matches two distinct catalog records gives two fact rows |

## Left out

- Reading `dl.cfg`, exporting AWS credentials, creating the Spark session and `main` (`etl.py:9-23`, `37-40`, `78-81`, `139-150`): configuration and runtime plumbing, with no transformation logic.
- Loading the JSON files (`etl.py:43`, `84`): the model takes parsed records as input.
- The Parquet writes, `partitionBy` layout and overwrite mode (`etl.py:50`, `60`, `97`, `113`, `136`): these belong to the output sink.
- Row order: Spark gives no order to `distinct()` or join output. The model produces one particular order, and order-free facts are stated over multisets.
- `monotonically_increasing_id`: its bit layout (partition id shifted left by 33, plus the offset in the partition) is not modelled. The id is the row index, which keeps only its uniqueness.
- Time zone: `from_unixtime` and `date_format` read the session time zone. The model uses UTC.
- `ts`: the source divides it as a double. The model uses integer division on a non-negative `ts`, so a null or negative timestamp is not modelled.
- `Records.EventRecord`: `ts` is a `Timestamps.Millis`, below 253402300800000 (10000-01-01 UTC), not a 64-bit long. `from_unixtime` renders the time as a `yyyy-MM-dd HH:mm:ss` string that `hour`, `dayofmonth` and the other date functions parse back. For a five-digit year that round trip is expected to give null time columns. The model has no such events.
- Floating-point columns (`duration`, `artist_latitude`, `artist_longitude`) are opaque values compared by equality. Spark's grouping treatment of NaN and negative zero in `distinct()` is not modelled.
- Columns the model does not name, such as `num_songs` in the catalog or `auth` in the log, are left out. The full-record `distinct()` at `etl.py:116` compares every column of the catalog. The model compares the nine catalog columns listed in `Records.CatalogRecord`.
- The `'u'` pattern is the day-number-of-week letter of the legacy `java.text.SimpleDateFormat` pattern language that Spark 2.x uses (1 = Monday). The session pulls in `hadoop-aws:2.7.0` (`etl.py:21`), which points to a Spark 2.x runtime. Spark 3's datetime patterns treat `'u'` differently, and that behaviour is not modelled. `weekofyear` follows ISO 8601 weeks. Both are modelled on epoch days from 1970 on.
