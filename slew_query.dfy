/** The concurrent force aggregator and the Script/Scheduler table helpers of
    the analysis package (query.py). The archive's answers are inputs: an
    archive is a function from an event's time window (begin, end) to what the
    three aggregate queries return for it. Gathering the per-event coroutines
    is an ordered map over the events. */
module SlewQuery {
  import opened Frames
  import opened Seqs
  import opened Tma
  import BlockFilter

  /** FIRST and LAST of `actualPosition` over an event's window. */
  datatype AxisAnswer = AxisAnswer(first: real, last: real)

  /** One value per hardpoint channel, `measuredForce0` to `measuredForce5`. */
  type Channels = s: seq<real> | |s| == 6 witness [0.0, 0.0, 0.0, 0.0, 0.0, 0.0]

  /** MIN and MAX of each channel's measured force over an event's window. */
  datatype ForceAnswer = ForceAnswer(mins: Channels, maxs: Channels)

  /** The archive's answers to the azimuth, elevation and hardpoint-force
      queries for one window; None stands for an empty answer. */
  datatype Answers = Answers(
    azimuth: Option<AxisAnswer>,
    elevation: Option<AxisAnswer>,
    forces: Option<ForceAnswer>)

  /** `az_start, az_end, az_diff` (or the `el_` columns); None is a null cell. */
  datatype AxisColumns = AxisColumns(start: Option<real>, end: Option<real>, diff: Option<real>)

  /** `min_forces_0 .. min_forces_5`, `max_forces_0 .. max_forces_5`,
      `min_forces`, `max_forces`. */
  datatype ForceColumns = ForceColumns(
    channelMins: seq<Option<real>>,
    channelMaxs: seq<Option<real>>,
    minForces: Option<real>,
    maxForces: Option<real>)

  /** One combined per-event row: the three partial rows side by side, then
      the event's metadata columns. */
  datatype SlewRow = SlewRow(
    azimuth: AxisColumns,
    elevation: AxisColumns,
    forces: ForceColumns,
    begin: string,
    end: string,
    seqNum: int,
    dayObs: int)

  /** What one per-event coroutine returns (its table) and prints (its notice). */
  datatype EventOutcome = EventOutcome(table: seq<SlewRow>, notice: Option<FaultNotice>)

  datatype BatchResult = BatchResult(notices: seq<FaultNotice>, table: Result<seq<SlewRow>>)

  predicate AxisHasNull(c: AxisColumns) {
    c.start.None? || c.end.None? || c.diff.None?
  }

  predicate ForceHasNull(c: ForceColumns) {
    || (exists k :: 0 <= k < |c.channelMins| && c.channelMins[k].None?)
    || (exists k :: 0 <= k < |c.channelMaxs| && c.channelMaxs[k].None?)
    || c.minForces.None? || c.maxForces.None?
  }

  predicate RowHasNull(row: SlewRow) {
    AxisHasNull(row.azimuth) || AxisHasNull(row.elevation) || ForceHasNull(row.forces)
  }

  /** `df.isnull().any().any()`: an empty table has no null. */
  predicate TableHasNull(t: seq<SlewRow>): (b: bool)
    ensures t == [] ==> !b
    ensures b <==> exists k :: 0 <= k < |t| && RowHasNull(t[k])
  {
    exists k :: 0 <= k < |t| && RowHasNull(t[k])
  }

  /** `mtmount_azimuth` / `mtmount_elevation` after the query: an empty answer
      becomes one row of three nulls; otherwise the start and end positions
      are kept and the difference column is the end minus the start. */
  function AxisColumnsOf(answer: Option<AxisAnswer>): (c: AxisColumns)
    ensures answer.None? ==> c == AxisColumns(None, None, None)
    ensures AxisHasNull(c) <==> answer.None?
    ensures answer.Some? ==>
      && c.start == Some(answer.value.first)
      && c.end == Some(answer.value.last)
      && c.start.value + c.diff.value == c.end.value
  {
    match answer
    case None => AxisColumns(None, None, None)
    case Some(a) => AxisColumns(Some(a.first), Some(a.last), Some(a.last - a.first))
  }

  function Present(s: seq<real>): (r: seq<Option<real>>)
    ensures |r| == |s| && forall k :: 0 <= k < |s| ==> r[k] == Some(s[k])
  {
    seq(|s|, k requires 0 <= k < |s| => Some(s[k]))
  }

  function Nulls(n: nat): (r: seq<Option<real>>)
    ensures |r| == n && forall k :: 0 <= k < n ==> r[k].None?
  {
    seq(n, k => None)
  }

  /** `m1m3_hp_minmax_measured_forces` after the query: an empty answer
      becomes one row of fourteen nulls; otherwise `min_forces` is the
      smallest of the six channel minimums and `max_forces` the largest of the
      six channel maximums, each one of the channel values. */
  function ForceColumnsOf(answer: Option<ForceAnswer>): (c: ForceColumns)
    ensures |c.channelMins| == 6 && |c.channelMaxs| == 6
    ensures ForceHasNull(c) <==> answer.None?
    ensures answer.None? ==>
      && c.minForces.None? && c.maxForces.None?
      && (forall k :: 0 <= k < 6 ==> c.channelMins[k].None? && c.channelMaxs[k].None?)
    ensures answer.Some? ==>
      && (forall k :: 0 <= k < 6 ==>
            c.channelMins[k] == Some(answer.value.mins[k]) && c.channelMaxs[k] == Some(answer.value.maxs[k]))
      && c.minForces.Some? && c.minForces.value in answer.value.mins
      && (forall k :: 0 <= k < 6 ==> c.minForces.value <= answer.value.mins[k])
      && c.maxForces.Some? && c.maxForces.value in answer.value.maxs
      && (forall k :: 0 <= k < 6 ==> answer.value.maxs[k] <= c.maxForces.value)
  {
    match answer
    case None => ForceColumns(Nulls(6), Nulls(6), None, None)
    case Some(f) => ForceColumns(Present(f.mins), Present(f.maxs), Some(Min(f.mins)), Some(Max(f.maxs)))
  }

  /** An event passes the gate, yet one of its three answers is empty. */
  predicate Incomplete(archive: (string, string) -> Answers, evt: SlewEvent, eventType: TmaState) {
    var a := archive(evt.begin, evt.end);
    Admit(evt, eventType) == Admitted && (a.azimuth.None? || a.elevation.None? || a.forces.None?)
  }

  /** The three normalised partial rows side by side, with the event's
      begin and end timestamps, sequence number and day attached. */
  function CombinedRow(evt: SlewEvent, a: Answers): (row: SlewRow)
    ensures row.begin == evt.begin && row.end == evt.end
    ensures row.seqNum == evt.seqNum && row.dayObs == evt.dayObs
    ensures RowHasNull(row) <==> a.azimuth.None? || a.elevation.None? || a.forces.None?
  {
    SlewRow(AxisColumnsOf(a.azimuth), AxisColumnsOf(a.elevation), ForceColumnsOf(a.forces),
            evt.begin, evt.end, evt.seqNum, evt.dayObs)
  }

  /** `hp_forces_and_azimuth_elevation_per_event`: an event of another type
      gives an empty table and prints nothing; a faulted event of the
      requested type gives an empty table and prints its notice; any other
      event gives one row that carries the event's metadata and holds a null
      exactly when one of its three answers is empty. */
  function HpForcesAndAzimuthElevationPerEvent(
    archive: (string, string) -> Answers, evt: SlewEvent, eventType: TmaState): (o: EventOutcome)
    ensures o.notice == NoticeFor(evt, eventType)
    ensures Admit(evt, eventType) != Admitted ==> o.table == []
    ensures Admit(evt, eventType) == Admitted ==>
      && |o.table| == 1
      && o.table[0] == CombinedRow(evt, archive(evt.begin, evt.end))
      && o.table[0].begin == evt.begin && o.table[0].end == evt.end
      && o.table[0].seqNum == evt.seqNum && o.table[0].dayObs == evt.dayObs
    ensures TableHasNull(o.table) <==> Incomplete(archive, evt, eventType)
  {
    match Admit(evt, eventType)
    case WrongType => EventOutcome([], None)
    case Faulted => EventOutcome([], Some(FaultNotice(evt.seqNum, evt.dayObs)))
    case Admitted =>
      var row := CombinedRow(evt, archive(evt.begin, evt.end));
      assert [row][0] == row;
      EventOutcome([row], None)
  }

  /** The per-event tables, in the order of the events (what `gather` returns). */
  function EventTables(archive: (string, string) -> Answers, events: seq<SlewEvent>, eventType: TmaState)
    : (tables: seq<seq<SlewRow>>)
    ensures |tables| == |events|
    ensures forall i :: 0 <= i < |events| ==>
      tables[i] == HpForcesAndAzimuthElevationPerEvent(archive, events[i], eventType).table
  {
    seq(|events|, i requires 0 <= i < |events| =>
      HpForcesAndAzimuthElevationPerEvent(archive, events[i], eventType).table)
  }

  predicate NullFree(t: seq<SlewRow>): (b: bool)
    ensures b <==> forall k :: 0 <= k < |t| ==> !RowHasNull(t[k])
  {
    !TableHasNull(t)
  }

  /** `get_hp_minmax_forces`: runs the per-event helper on every event, drops
      every per-event table that holds a null, and concatenates the others in
      event order. Concatenating an empty list fails, which happens exactly
      when every event passed the gate but had an empty answer (in particular
      when there are no events). The result never holds a null. */
  function GetHpMinMaxForces(
    archive: (string, string) -> Answers, events: seq<SlewEvent>, eventType: TmaState): (r: BatchResult)
    ensures r.table.Err? <==> forall i :: 0 <= i < |events| ==> Incomplete(archive, events[i], eventType)
    ensures r.table.Err? ==> r.table.failure == NothingToConcatenate
    ensures r.table.Ok? ==> forall k :: 0 <= k < |r.table.value| ==> !RowHasNull(r.table.value[k])
  {
    var outcomes := seq(|events|, i requires 0 <= i < |events| =>
      HpForcesAndAzimuthElevationPerEvent(archive, events[i], eventType));
    var notices := FilterMap(outcomes, (o: EventOutcome) => o.notice);
    var tables := EventTables(archive, events, eventType);
    var kept := Filter(tables, NullFree);
    if kept == [] then
      assert forall i :: 0 <= i < |events| ==> TableHasNull(tables[i]);
      BatchResult(notices, Err(NothingToConcatenate))
    else
      assert NullFree(kept[0]);
      var rows := Concat(kept);
      assert forall k :: 0 <= k < |rows| ==> !RowHasNull(rows[k]) by {
        forall k | 0 <= k < |rows| ensures !RowHasNull(rows[k]) {
          var j :| 0 <= j < |kept| && rows[k] in kept[j];
          assert NullFree(kept[j]);
        }
      }
      BatchResult(notices, Ok(rows))
  }

  /** Reference definition of a surviving row: an event that passes the gate
      and has all three answers gives its combined row; any other event gives
      none. */
  function CompleteRow(archive: (string, string) -> Answers, evt: SlewEvent, eventType: TmaState)
    : (r: Option<SlewRow>)
    ensures r.Some? <==> Admit(evt, eventType) == Admitted && !Incomplete(archive, evt, eventType)
    ensures r.Some? ==>
      && !RowHasNull(r.value)
      && r.value.seqNum == evt.seqNum && r.value.dayObs == evt.dayObs
      && r.value.begin == evt.begin && r.value.end == evt.end
  {
    var a := archive(evt.begin, evt.end);
    if Admit(evt, eventType) == Admitted && a.azimuth.Some? && a.elevation.Some? && a.forces.Some?
    then Some(CombinedRow(evt, a))
    else None
  }

  lemma {:induction false} SurvivorsAreCompleteRows(
    archive: (string, string) -> Answers, events: seq<SlewEvent>, eventType: TmaState)
    ensures Concat(Filter(EventTables(archive, events, eventType), NullFree))
         == FilterMap(events, e => CompleteRow(archive, e, eventType))
  {
    if events != [] {
      var tables := EventTables(archive, events, eventType);
      var rest := EventTables(archive, events[1..], eventType);
      var t0 := tables[0];
      assert tables == [t0] + rest;
      ConcatFilterCons(t0, rest, NullFree);
      SurvivorOfEvent(archive, events[0], eventType);
      SurvivorsAreCompleteRows(archive, events[1..], eventType);
    }
  }

  /** One event's table survives the null filter exactly when the event has a
      reference row, and then it holds just that row. */
  lemma SurvivorOfEvent(archive: (string, string) -> Answers, evt: SlewEvent, eventType: TmaState)
    ensures var t := HpForcesAndAzimuthElevationPerEvent(archive, evt, eventType).table;
            var c := CompleteRow(archive, evt, eventType);
            (if NullFree(t) then t else []) == (if c.Some? then [c.value] else [])
  {
  }

  /** The batch result is the reference rows in event order: one row for each
      event that passes the gate and has all three answers, at increasing
      event positions, and no row for any other event. */
  lemma BatchRowsFollowEvents(archive: (string, string) -> Answers, events: seq<SlewEvent>, eventType: TmaState)
    requires GetHpMinMaxForces(archive, events, eventType).table.Ok?
    ensures var rows := GetHpMinMaxForces(archive, events, eventType).table.value;
            var idx := ProducingPositions(events, e => CompleteRow(archive, e, eventType));
            && |rows| == |idx|
            && IncreasingBelow(idx, |events|)
            && (forall k :: 0 <= k < |rows| ==>
                  rows[k] == CombinedRow(events[idx[k]], archive(events[idx[k]].begin, events[idx[k]].end)))
            && (forall i :: 0 <= i < |events| ==>
                  (i in idx <==> Admit(events[i], eventType) == Admitted && !Incomplete(archive, events[i], eventType)))
  {
    BatchRowsAreCompleteRows(archive, events, eventType);
    CompleteRowsFollowEvents(archive, events, eventType);
  }

  /** A successful batch table is the sequence of reference rows. */
  lemma BatchRowsAreCompleteRows(archive: (string, string) -> Answers, events: seq<SlewEvent>, eventType: TmaState)
    requires GetHpMinMaxForces(archive, events, eventType).table.Ok?
    ensures GetHpMinMaxForces(archive, events, eventType).table.value
         == FilterMap(events, e => CompleteRow(archive, e, eventType))
  {
    SurvivorsAreCompleteRows(archive, events, eventType);
  }

  /** The reference rows are the combined rows of the events that pass the
      gate with all answers present, at increasing event positions. */
  lemma CompleteRowsFollowEvents(archive: (string, string) -> Answers, events: seq<SlewEvent>, eventType: TmaState)
    ensures var rows := FilterMap(events, e => CompleteRow(archive, e, eventType));
            var idx := ProducingPositions(events, e => CompleteRow(archive, e, eventType));
            && |rows| == |idx|
            && IncreasingBelow(idx, |events|)
            && (forall k :: 0 <= k < |rows| ==>
                  rows[k] == CombinedRow(events[idx[k]], archive(events[idx[k]].begin, events[idx[k]].end)))
            && (forall i :: 0 <= i < |events| ==>
                  (i in idx <==> Admit(events[i], eventType) == Admitted && !Incomplete(archive, events[i], eventType)))
  {
    FilterMapIsSelection(events, e => CompleteRow(archive, e, eventType));
  }

  /** The batch prints one notice per faulted event of the requested type, in
      event order, and nothing for any other event. */
  lemma BatchNoticesFollowEvents(archive: (string, string) -> Answers, events: seq<SlewEvent>, eventType: TmaState)
    ensures var notices := GetHpMinMaxForces(archive, events, eventType).notices;
            var outcomes := seq(|events|, i requires 0 <= i < |events| =>
              HpForcesAndAzimuthElevationPerEvent(archive, events[i], eventType));
            var idx := ProducingPositions(outcomes, (o: EventOutcome) => o.notice);
            && |notices| == |idx|
            && IncreasingBelow(idx, |events|)
            && (forall k :: 0 <= k < |notices| ==>
                  notices[k] == FaultNotice(events[idx[k]].seqNum, events[idx[k]].dayObs))
            && (forall i :: 0 <= i < |events| ==>
                  (i in idx <==> events[i].eventType == eventType && events[i].endReason == Fault))
  {
    var outcomes := seq(|events|, i requires 0 <= i < |events| =>
      HpForcesAndAzimuthElevationPerEvent(archive, events[i], eventType));
    FilterMapIsSelection(outcomes, (o: EventOutcome) => o.notice);
  }

  /** `script_states`: without a block id the fetched table is returned as
      it is; with one, the result is `filter_by_block_id` of the table. */
  function ScriptStates(fetched: Table<StateRow>, blockId: Option<string>): (r: Result<Table<StateRow>>)
    ensures blockId.None? ==> r == Ok(fetched)
    ensures blockId.Some? ==> r == BlockFilter.FilterByBlockId(fetched, blockId.value)
  {
    match blockId
    case None => Ok(fetched)
    case Some(b) => BlockFilter.FilterByBlockId(fetched, b)
  }

  predicate HasId(row: BlockStatusRow, blockName: string): (b: bool)
    ensures b <==> row.id == blockName
  {
    row.id == blockName
  }

  /** `block_status`: without a block name the fetched table is returned as
      it is; with one, `df.id` fails on a table without an `id` column, and
      otherwise exactly the rows whose `id` equals the name are kept, in order. */
  function BlockStatus(fetched: Table<BlockStatusRow>, blockName: Option<string>): (r: Result<Table<BlockStatusRow>>)
    ensures blockName.None? ==> r == Ok(fetched)
    ensures blockName.Some? ==> (r.Err? <==> "id" !in fetched.columns)
    ensures blockName.Some? && r.Err? ==> r.failure == MissingColumn("id")
    ensures blockName.Some? && r.Ok? ==>
      && r.value.columns == fetched.columns
      && (forall k :: 0 <= k < |r.value.rows| ==>
            r.value.rows[k] in fetched.rows && r.value.rows[k].id == blockName.value)
      && (forall k :: 0 <= k < |fetched.rows| && fetched.rows[k].id == blockName.value ==>
            fetched.rows[k] in r.value.rows)
  {
    match blockName
    case None => Ok(fetched)
    case Some(b) =>
      if "id" !in fetched.columns then Err(MissingColumn("id"))
      else Ok(Table(fetched.columns, Filter(fetched.rows, row => HasId(row, b))))
  }

  /** The rows `block_status` keeps are the fetched rows at the increasing
      positions whose `id` equals the name. */
  lemma BlockStatusKeepsOrder(fetched: Table<BlockStatusRow>, blockName: string)
    requires "id" in fetched.columns
    ensures var rows := BlockStatus(fetched, Some(blockName)).value.rows;
            var idx := KeptPositions(fetched.rows, row => HasId(row, blockName));
            && |rows| == |idx|
            && IncreasingBelow(idx, |fetched.rows|)
            && (forall k :: 0 <= k < |rows| ==> rows[k] == fetched.rows[idx[k]])
            && (forall i :: 0 <= i < |fetched.rows| ==> (i in idx <==> fetched.rows[i].id == blockName))
  {
    FilterIsSelection(fetched.rows, row => HasId(row, blockName));
  }

  /** Azimuth 10.0 to 15.0 gives a difference of exactly 5.0. */
  lemma AxisDifferenceExample()
    ensures AxisColumnsOf(Some(AxisAnswer(10.0, 15.0))).diff == Some(5.0)
  {
  }

  /** A channel minimum no larger than any other is the reported minimum, and
      a channel maximum no smaller than any other is the reported maximum. */
  lemma ForceExtremesAreChannels(f: ForceAnswer, lo: nat, hi: nat)
    requires |f.mins| == 6 && |f.maxs| == 6 && lo < 6 && hi < 6
    requires forall k :: 0 <= k < 6 ==> f.mins[lo] <= f.mins[k]
    requires forall k :: 0 <= k < 6 ==> f.maxs[k] <= f.maxs[hi]
    ensures ForceColumnsOf(Some(f)).minForces == Some(f.mins[lo])
    ensures ForceColumnsOf(Some(f)).maxForces == Some(f.maxs[hi])
  {
    MinIsLowest(f.mins, lo);
    MaxIsHighest(f.maxs, hi);
  }

  /** Channel minimums -100, -50, -900, -20, -10, -30 and maximums 100, 50,
      30, 20, 900, 30 give a minimum of -900 and a maximum of 900. */
  lemma ForceExtremesExample()
    ensures var c := ForceColumnsOf(Some(ForceAnswer([-100.0, -50.0, -900.0, -20.0, -10.0, -30.0],
                                                    [100.0, 50.0, 30.0, 20.0, 900.0, 30.0])));
            c.minForces == Some(-900.0) && c.maxForces == Some(900.0)
  {
    ForceExtremesAreChannels(ForceAnswer([-100.0, -50.0, -900.0, -20.0, -10.0, -30.0],
                                         [100.0, 50.0, 30.0, 20.0, 900.0, 30.0]), 2, 4);
  }
}
