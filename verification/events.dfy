/**
 The event side of the pipeline (`process_log_data`): the `page == 'NextSong'`
 gate, the users dimension and the time dimension.
 */
module Events {
  import opened Wrappers
  import opened Records
  import opened Dedup
  import opened Timestamps

  /**
   The gate `col('page') == 'NextSong'`. A null page compares as SQL null,
   which `filter` treats as false.
   */
  predicate Passes(e: EventRecord) {
    e.page == Some("NextSong")
  }

  /** The filter itself: the head event is kept exactly when it passes. */
  function KeepPlays(events: seq<EventRecord>): seq<EventRecord> {
    if |events| == 0 then []
    else (if Passes(events[0]) then [events[0]] else []) + KeepPlays(events[1..])
  }

  lemma {:induction false} KeepPlaysCounts(events: seq<EventRecord>)
    ensures |KeepPlays(events)| <= |events|
    ensures forall e :: e in KeepPlays(events) ==> Passes(e)
    ensures forall e :: multiset(KeepPlays(events))[e] == if Passes(e) then multiset(events)[e] else 0
    decreases |events|
  {
    if |events| > 0 {
      assert events == [events[0]] + events[1..];
      KeepPlaysCounts(events[1..]);
    }
  }

  /**
   The events that pass the gate, in their original order and with their
   original multiplicity; every other event is dropped.
   */
  function Gate(events: seq<EventRecord>): (r: seq<EventRecord>)
    ensures |r| <= |events|
    ensures forall e :: e in r ==> Passes(e)
    ensures forall e :: multiset(r)[e] == if Passes(e) then multiset(events)[e] else 0
  {
    KeepPlaysCounts(events);
    KeepPlays(events)
  }

  /** The gate commutes with concatenation. */
  lemma {:induction false} GateAppend(a: seq<EventRecord>, b: seq<EventRecord>)
    ensures Gate(a + b) == Gate(a) + Gate(b)
  {
    KeepPlaysAppend(a, b);
  }

  lemma {:induction false} KeepPlaysAppend(a: seq<EventRecord>, b: seq<EventRecord>)
    ensures KeepPlays(a + b) == KeepPlays(a) + KeepPlays(b)
    decreases |a|
  {
    if |a| > 0 {
      assert (a + b)[1..] == a[1..] + b;
      KeepPlaysAppend(a[1..], b);
    } else {
      assert a + b == b;
    }
  }

  /** The gate applied around one event: that event passes alone or not at all. */
  lemma GateAroundOne(a: seq<EventRecord>, e: EventRecord, b: seq<EventRecord>)
    ensures Gate(a + [e] + b) == Gate(a) + Gate([e]) + Gate(b)
    ensures Gate(a + b) == Gate(a) + Gate(b)
    ensures Gate([e]) == if Passes(e) then [e] else []
  {
    assert KeepPlays([e]) == if Passes(e) then [e] else [] by {
      assert [e][1..] == [];
    }
    KeepPlaysAppend(a + [e], b);
    KeepPlaysAppend(a, [e]);
    KeepPlaysAppend(a, b);
  }

  /** Inserting an event that fails the gate anywhere does not change what passes. */
  lemma GateIgnoresNonPlays(a: seq<EventRecord>, e: EventRecord, b: seq<EventRecord>)
    requires !Passes(e)
    ensures Gate(a + [e] + b) == Gate(a + b)
  {
    GateAroundOne(a, e, b);
  }

  /** A row of the users table. */
  datatype UserRow = UserRow(
    userId: Option<string>,
    firstName: Option<string>,
    lastName: Option<string>,
    gender: Option<string>,
    level: Option<string>)

  function UserOf(e: EventRecord): UserRow {
    UserRow(e.userId, e.firstName, e.lastName, e.gender, e.level)
  }

  /**
   The users table: exactly the renamed user projections of the events that
   pass the gate, no row twice.
   */
  function UsersTable(events: seq<EventRecord>): (t: seq<UserRow>)
    ensures NoDup(t)
    ensures forall row :: row in t <==>
      exists e :: e in events && Passes(e) &&
        row == UserRow(e.userId, e.firstName, e.lastName, e.gender, e.level)
  {
    var g := Gate(events);
    assert forall e :: e in g <==> e in events && Passes(e) by {
      forall e ensures e in g <==> e in events && Passes(e) {
        assert e in g <==> multiset(g)[e] > 0;
        assert e in events <==> multiset(events)[e] > 0;
      }
    }
    DistinctProjection(UserOf, g)
  }

  /**
   A user seen with two different levels (a free user who upgraded) appears
   twice: the table is deduplicated on the whole tuple, not on `user_id`.
   */
  lemma UserWithTwoLevelsGivesTwoRows(events: seq<EventRecord>, e1: EventRecord, e2: EventRecord)
    requires e1 in events && e2 in events && Passes(e1) && Passes(e2)
    requires e1.userId == e2.userId && e1.level != e2.level
    ensures UserOf(e1) in UsersTable(events) && UserOf(e2) in UsersTable(events)
    ensures UserOf(e1) != UserOf(e2) && UserOf(e1).userId == UserOf(e2).userId
  {
  }

  /** Appending exact duplicates of events leaves the users table unchanged. */
  lemma UsersIgnoreDuplicates(events: seq<EventRecord>, extra: seq<EventRecord>)
    requires SubsetOf(extra, events)
    ensures UsersTable(events + extra) == UsersTable(events)
  {
    GateAppend(events, extra);
    var g, gx := Gate(events), Gate(extra);
    assert SubsetOf(gx, g) by {
      forall e | e in gx ensures e in g {
        assert multiset(gx)[e] > 0;
        assert e in extra;
        assert multiset(events)[e] > 0;
      }
    }
    var p, px := Project(UserOf, g), Project(UserOf, gx);
    ProjectSubset(UserOf, g, gx);
    ProjectAppend(UserOf, g, gx);
    DistinctAbsorbsDuplicates(p, px);
  }

  /** The time row an event contributes, derived from its `ts` alone. */
  function TimeOf(e: EventRecord): TimeRow {
    TimeRowOf(e.ts)
  }

  /**
   The time table: one row per event that passes the gate, in correspondence
   with those events and NOT deduplicated. Every row satisfies the calendar
   bounds.
   */
  function TimeTable(events: seq<EventRecord>): (t: seq<TimeRow>)
    ensures |t| == |Gate(events)|
    ensures forall i :: 0 <= i < |t| ==> t[i] == TimeRowOf(Gate(events)[i].ts)
    ensures forall i :: 0 <= i < |t| ==> ValidTimeRow(t[i])
  {
    Project(TimeOf, Gate(events))
  }

  /**
   The time table is not deduplicated: a passing event appends its own row even
   when an earlier play at the same timestamp already produced an identical one.
   */
  lemma TimeTableKeepsRepeats(events: seq<EventRecord>, e: EventRecord)
    requires Passes(e)
    ensures TimeTable(events + [e]) == TimeTable(events) + [TimeRowOf(e.ts)]
    ensures |TimeTable(events + [e])| == |TimeTable(events)| + 1
  {
    assert Gate(events + [e]) == Gate(events) + [e] by {
      assert [e][1..] == [];
      GateAppend(events, [e]);
    }
    ProjectSnoc(TimeOf, Gate(events), e);
  }
}
