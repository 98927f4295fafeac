/** The notebook helpers for block T227 (BLOCK_T227_utils.py): the sequential
    force aggregator, a loop that appends one summary row per processed event,
    and the block-status selection. Its `filter_by_block_id` is a verbatim
    copy of the package's and is modelled by BlockFilter.FilterByBlockId. The
    archive is a function from an event to the raw samples `getEfdData`
    returns for it. */
module T227Notebook {
  import opened Frames
  import opened Seqs
  import opened Tma
  import SlewQuery

  /** The `actualPosition` samples of one axis during an event, oldest first. */
  type Positions = s: seq<real> | |s| > 0 witness [0.0]

  /** One sample of `measuredForce0` to `measuredForce5`. */
  type ForceSample = s: seq<real> | |s| == 6 witness [0.0, 0.0, 0.0, 0.0, 0.0, 0.0]

  /** The samples fetched for one event. An axis is None when the frame has
      no `actualPosition` column (the archive had no data for it). */
  datatype SampleAnswers = SampleAnswers(
    azimuth: Option<Positions>,
    elevation: Option<Positions>,
    forces: seq<ForceSample>)

  /** The row appended for a processed event; a force extreme is None (NaN)
      when the event has no force sample. */
  datatype SummaryRow = SummaryRow(
    seqNum: int,
    deltaAz: real,
    deltaEl: real,
    minForces: Option<real>,
    maxForces: Option<real>)

  /** How far an axis moved during the event: its last position minus its
      first. */
  function Travel(positions: Positions): (d: real)
    ensures positions[0] + d == positions[|positions| - 1]
  {
    positions[|positions| - 1] - positions[0]
  }

  /** The samples of one channel, in time order. */
  function Column(samples: seq<ForceSample>, c: nat): (col: seq<real>)
    requires c < 6
    ensures |col| == |samples|
    ensures forall i :: 0 <= i < |samples| ==> col[i] == samples[i][c]
  {
    seq(|samples|, i requires 0 <= i < |samples| => samples[i][c])
  }

  /** `forces.min()`: the minimum of each channel. */
  function ChannelMins(samples: seq<ForceSample>): (r: seq<real>)
    requires |samples| > 0
    ensures |r| == 6 && forall c :: 0 <= c < 6 ==> r[c] == Min(Column(samples, c))
  {
    seq(6, c requires 0 <= c < 6 => Min(Column(samples, c)))
  }

  /** `forces.max()`: the maximum of each channel. */
  function ChannelMaxs(samples: seq<ForceSample>): (r: seq<real>)
    requires |samples| > 0
    ensures |r| == 6 && forall c :: 0 <= c < 6 ==> r[c] == Max(Column(samples, c))
  {
    seq(6, c requires 0 <= c < 6 => Max(Column(samples, c)))
  }

  /** The smallest channel minimum is a force of some channel at some sample. */
  lemma MinOfMinsIsSample(samples: seq<ForceSample>)
    requires |samples| > 0
    ensures exists i, c :: 0 <= i < |samples| && 0 <= c < 6 && samples[i][c] == Min(ChannelMins(samples))
  {
    var mins := ChannelMins(samples);
    var c :| 0 <= c < 6 && mins[c] == Min(mins);
    var col := Column(samples, c);
    var i :| 0 <= i < |col| && col[i] == mins[c];
    assert samples[i][c] == Min(mins);
  }

  /** No force of any channel at any sample is below the smallest channel minimum. */
  lemma MinOfMinsIsLowest(samples: seq<ForceSample>)
    requires |samples| > 0
    ensures forall i, c :: 0 <= i < |samples| && 0 <= c < 6 ==> Min(ChannelMins(samples)) <= samples[i][c]
  {
    var mins := ChannelMins(samples);
    forall i, c | 0 <= i < |samples| && 0 <= c < 6 ensures Min(mins) <= samples[i][c] {
      assert Min(mins) <= mins[c];
      assert mins[c] <= Column(samples, c)[i];
    }
  }

  /** The largest channel maximum is a force of some channel at some sample. */
  lemma MaxOfMaxsIsSample(samples: seq<ForceSample>)
    requires |samples| > 0
    ensures exists i, c :: 0 <= i < |samples| && 0 <= c < 6 && samples[i][c] == Max(ChannelMaxs(samples))
  {
    var maxs := ChannelMaxs(samples);
    var c :| 0 <= c < 6 && maxs[c] == Max(maxs);
    var col := Column(samples, c);
    var i :| 0 <= i < |col| && col[i] == maxs[c];
    assert samples[i][c] == Max(maxs);
  }

  /** No force of any channel at any sample is above the largest channel maximum. */
  lemma MaxOfMaxsIsHighest(samples: seq<ForceSample>)
    requires |samples| > 0
    ensures forall i, c :: 0 <= i < |samples| && 0 <= c < 6 ==> samples[i][c] <= Max(ChannelMaxs(samples))
  {
    var maxs := ChannelMaxs(samples);
    forall i, c | 0 <= i < |samples| && 0 <= c < 6 ensures samples[i][c] <= Max(maxs) {
      assert maxs[c] <= Max(maxs);
      assert Column(samples, c)[i] <= maxs[c];
    }
  }

  /** `forces.min().min()`: the minimum of every channel, then the minimum of
      those; it is the smallest force of any channel at any sample, and None
      when there is no sample. */
  function OverallMin(samples: seq<ForceSample>): (m: Option<real>)
    ensures m.None? <==> |samples| == 0
    ensures m.Some? ==> forall i, c :: 0 <= i < |samples| && 0 <= c < 6 ==> m.value <= samples[i][c]
    ensures m.Some? ==> exists i, c :: 0 <= i < |samples| && 0 <= c < 6 && samples[i][c] == m.value
  {
    if |samples| == 0 then None
    else
      MinOfMinsIsSample(samples);
      MinOfMinsIsLowest(samples);
      Some(Min(ChannelMins(samples)))
  }

  /** `forces.max().max()`: the largest force of any channel at any sample,
      and None when there is no sample. */
  function OverallMax(samples: seq<ForceSample>): (m: Option<real>)
    ensures m.None? <==> |samples| == 0
    ensures m.Some? ==> forall i, c :: 0 <= i < |samples| && 0 <= c < 6 ==> samples[i][c] <= m.value
    ensures m.Some? ==> exists i, c :: 0 <= i < |samples| && 0 <= c < 6 && samples[i][c] == m.value
  {
    if |samples| == 0 then None
    else
      MaxOfMaxsIsSample(samples);
      MaxOfMaxsIsHighest(samples);
      Some(Max(ChannelMaxs(samples)))
  }

  /** The row one iteration of the loop appends, or None when it skips the
      event: another type, a fault (which prints), or an axis without
      `actualPosition`. A row holds the last minus the first position of each
      axis and the overall force extremes. */
  function Summarise(archive: SlewEvent -> SampleAnswers, evt: SlewEvent, eventType: TmaState)
    : (r: Option<SummaryRow>)
    ensures r.Some? <==>
      && Admit(evt, eventType) == Admitted
      && archive(evt).azimuth.Some? && archive(evt).elevation.Some?
    ensures r.Some? ==>
      var a := archive(evt);
      var az, el := a.azimuth.value, a.elevation.value;
      && r.value.seqNum == evt.seqNum
      && az[0] + r.value.deltaAz == az[|az| - 1]
      && el[0] + r.value.deltaEl == el[|el| - 1]
      && r.value.minForces == OverallMin(a.forces)
      && r.value.maxForces == OverallMax(a.forces)
  {
    var a := archive(evt);
    if Admit(evt, eventType) != Admitted || a.azimuth.None? || a.elevation.None? then None
    else
      var az, el := a.azimuth.value, a.elevation.value;
      Some(SummaryRow(evt.seqNum, Travel(az), Travel(el),
                      OverallMin(a.forces), OverallMax(a.forces)))
  }

  /** The table the loop has built after the given events: the rows of the
      processed events, in order, each appended after the earlier ones. It
      has at most one row per event, and every row's force extremes are
      ordered. */
  function SummaryTable(archive: SlewEvent -> SampleAnswers, events: seq<SlewEvent>, eventType: TmaState)
    : (rows: seq<SummaryRow>)
    ensures |rows| <= |events|
    ensures forall k :: 0 <= k < |rows| ==> ExtremesOrdered(rows[k])
  {
    if events == [] then []
    else
      var last := Summarise(archive, events[|events| - 1], eventType);
      SummaryExtremesOrdered(archive, events[|events| - 1], eventType);
      SummaryTable(archive, events[..|events| - 1], eventType) + (if last.Some? then [last.value] else [])
  }

  /** The notice printed for a faulted event of the requested type. */
  predicate NoticeOf(notice: FaultNotice, evt: SlewEvent, eventType: TmaState) {
    NoticeFor(evt, eventType) == Some(notice)
  }

  /** The messages the loop has printed after the given events, in order:
      at most one per event, and each names a faulted event of the requested
      type. */
  function FaultNotices(events: seq<SlewEvent>, eventType: TmaState): (notices: seq<FaultNotice>)
    ensures |notices| <= |events|
    ensures forall k :: 0 <= k < |notices| ==> exists i :: 0 <= i < |events| && NoticeOf(notices[k], events[i], eventType)
  {
    if events == [] then []
    else
      var n := |events| - 1;
      var last := NoticeFor(events[n], eventType);
      var earlier := FaultNotices(events[..n], eventType);
      var notices := earlier + (if last.Some? then [last.value] else []);
      assert forall k :: 0 <= k < |notices| ==> exists i :: 0 <= i < |events| && NoticeOf(notices[k], events[i], eventType) by {
        forall k | 0 <= k < |notices|
          ensures exists i :: 0 <= i < |events| && NoticeOf(notices[k], events[i], eventType)
        {
          if k < |earlier| {
            var i :| 0 <= i < n && NoticeOf(earlier[k], events[..n][i], eventType);
            assert events[..n][i] == events[i];
            assert NoticeOf(notices[k], events[i], eventType);
          } else {
            assert NoticeOf(notices[k], events[n], eventType);
          }
        }
      }
      notices
  }

  /** The row of a processed event has ordered force extremes. */
  lemma SummaryExtremesOrdered(archive: SlewEvent -> SampleAnswers, evt: SlewEvent, eventType: TmaState)
    ensures Summarise(archive, evt, eventType).Some? ==> ExtremesOrdered(Summarise(archive, evt, eventType).value)
  {
    var forces := archive(evt).forces;
    if |forces| > 0 {
      OverallMinAtMostMax(forces);
    }
  }

  /** The table the loop builds is the order-preserving selection of the
      events' summaries. */
  lemma {:induction false} SummaryTableIsSelection(
    archive: SlewEvent -> SampleAnswers, events: seq<SlewEvent>, eventType: TmaState)
    ensures SummaryTable(archive, events, eventType) == FilterMap(events, e => Summarise(archive, e, eventType))
  {
    if events != [] {
      var n := |events| - 1;
      SummaryTableIsSelection(archive, events[..n], eventType);
      assert events == events[..n] + [events[n]];
      FilterMapSnoc(events[..n], events[n], e => Summarise(archive, e, eventType));
    }
  }

  /** The notices the loop prints are the order-preserving selection of the
      events' notices. */
  lemma {:induction false} FaultNoticesIsSelection(events: seq<SlewEvent>, eventType: TmaState)
    ensures FaultNotices(events, eventType) == FilterMap(events, e => NoticeFor(e, eventType))
  {
    if events != [] {
      var n := |events| - 1;
      FaultNoticesIsSelection(events[..n], eventType);
      assert events == events[..n] + [events[n]];
      FilterMapSnoc(events[..n], events[n], e => NoticeFor(e, eventType));
    }
  }

  /** A row's force extremes are both present or both absent, and the
      minimum never exceeds the maximum. */
  predicate ExtremesOrdered(row: SummaryRow) {
    && (row.minForces.Some? <==> row.maxForces.Some?)
    && (row.minForces.Some? ==> row.minForces.value <= row.maxForces.value)
  }

  /** On any sample set the overall minimum is at most the overall maximum. */
  lemma OverallMinAtMostMax(samples: seq<ForceSample>)
    requires |samples| > 0
    ensures OverallMin(samples).value <= OverallMax(samples).value
  {
    assert OverallMin(samples).value <= samples[0][0] <= OverallMax(samples).value;
  }

  /** The summary table has one row per processed event, at increasing event
      positions, none for any skipped event, and each row is the summary of
      its event. */
  lemma SummaryRowsFollowEvents(archive: SlewEvent -> SampleAnswers, events: seq<SlewEvent>, eventType: TmaState)
    ensures var rows := SummaryTable(archive, events, eventType);
            var idx := ProducingPositions(events, e => Summarise(archive, e, eventType));
            && |rows| == |idx| <= |events|
            && IncreasingBelow(idx, |events|)
            && (forall k :: 0 <= k < |rows| ==> Some(rows[k]) == Summarise(archive, events[idx[k]], eventType))
            && (forall k :: 0 <= k < |rows| ==> rows[k].seqNum == events[idx[k]].seqNum && ExtremesOrdered(rows[k]))
            && (forall i :: 0 <= i < |events| ==>
                  (i in idx <==> && Admit(events[i], eventType) == Admitted
                                 && archive(events[i]).azimuth.Some? && archive(events[i]).elevation.Some?))
  {
    var rows := SummaryTable(archive, events, eventType);
    var idx := ProducingPositions(events, e => Summarise(archive, e, eventType));
    SummaryTableIsSelection(archive, events, eventType);
    FilterMapIsSelection(events, e => Summarise(archive, e, eventType));
    forall k | 0 <= k < |rows| ensures ExtremesOrdered(rows[k]) {
      var forces := archive(events[idx[k]]).forces;
      if |forces| > 0 {
        OverallMinAtMostMax(forces);
      }
    }
  }

  /** Processing one more event appends at most its summary row. */
  lemma SummaryStep(archive: SlewEvent -> SampleAnswers, events: seq<SlewEvent>, i: nat, eventType: TmaState)
    requires i < |events|
    ensures SummaryTable(archive, events[..i + 1], eventType) ==
      SummaryTable(archive, events[..i], eventType) +
      (if Summarise(archive, events[i], eventType).Some? then [Summarise(archive, events[i], eventType).value] else [])
  {
    assert events[..i + 1][..i] == events[..i];
  }

  /** Processing one more event prints at most its notice. */
  lemma NoticeStep(events: seq<SlewEvent>, i: nat, eventType: TmaState)
    requires i < |events|
    ensures FaultNotices(events[..i + 1], eventType) ==
      FaultNotices(events[..i], eventType) +
      (if NoticeFor(events[i], eventType).Some? then [NoticeFor(events[i], eventType).value] else [])
  {
    assert events[..i + 1][..i] == events[..i];
  }

  /** The summary of a processed event, field by field as the loop writes it. */
  lemma SummariseProcessed(archive: SlewEvent -> SampleAnswers, evt: SlewEvent, eventType: TmaState)
    requires evt.eventType == eventType && evt.endReason != Fault
    requires archive(evt).azimuth.Some? && archive(evt).elevation.Some?
    ensures var a := archive(evt);
            var az, el := a.azimuth.value, a.elevation.value;
            Summarise(archive, evt, eventType) ==
              Some(SummaryRow(evt.seqNum, Travel(az), Travel(el),
                              OverallMin(a.forces), OverallMax(a.forces)))
  {
  }

  /** The loop skips an event of another type, or one with an axis lacking
      `actualPosition`, without printing. */
  lemma SkipStep(archive: SlewEvent -> SampleAnswers, events: seq<SlewEvent>, i: nat, eventType: TmaState)
    requires i < |events|
    requires || events[i].eventType != eventType
             || (events[i].endReason != Fault
                 && (archive(events[i]).azimuth.None? || archive(events[i]).elevation.None?))
    ensures SummaryTable(archive, events[..i + 1], eventType) == SummaryTable(archive, events[..i], eventType)
    ensures FaultNotices(events[..i + 1], eventType) == FaultNotices(events[..i], eventType)
  {
    SummaryStep(archive, events, i, eventType);
    NoticeStep(events, i, eventType);
  }

  /** A faulted event of the requested type prints its notice and adds no row. */
  lemma FaultStep(archive: SlewEvent -> SampleAnswers, events: seq<SlewEvent>, i: nat, eventType: TmaState)
    requires i < |events|
    requires events[i].eventType == eventType && events[i].endReason == Fault
    ensures SummaryTable(archive, events[..i + 1], eventType) == SummaryTable(archive, events[..i], eventType)
    ensures FaultNotices(events[..i + 1], eventType) ==
      FaultNotices(events[..i], eventType) + [FaultNotice(events[i].seqNum, events[i].dayObs)]
  {
    SummaryStep(archive, events, i, eventType);
    NoticeStep(events, i, eventType);
  }

  /** Any other event appends its row and prints nothing. */
  lemma RowStep(archive: SlewEvent -> SampleAnswers, events: seq<SlewEvent>, i: nat, eventType: TmaState)
    requires i < |events|
    requires events[i].eventType == eventType && events[i].endReason != Fault
    requires archive(events[i]).azimuth.Some? && archive(events[i]).elevation.Some?
    ensures var a := archive(events[i]);
            var az, el := a.azimuth.value, a.elevation.value;
            SummaryTable(archive, events[..i + 1], eventType) ==
              SummaryTable(archive, events[..i], eventType) +
              [SummaryRow(events[i].seqNum, Travel(az), Travel(el),
                          OverallMin(a.forces), OverallMax(a.forces))]
    ensures FaultNotices(events[..i + 1], eventType) == FaultNotices(events[..i], eventType)
  {
    SummariseProcessed(archive, events[i], eventType);
    SummaryStep(archive, events, i, eventType);
    NoticeStep(events, i, eventType);
  }

  /** `get_hp_minmax_forces` of the notebook: starting from an empty table,
      append one summary row per processed event and print a notice per
      faulted event of the requested type. The result is the summary table and
      the notice list of all events, whose properties SummaryRowsFollowEvents
      states. */
  method GetHpMinMaxForces(archive: SlewEvent -> SampleAnswers, events: seq<SlewEvent>, eventType: TmaState)
    returns (table: seq<SummaryRow>, notices: seq<FaultNotice>)
    ensures table == SummaryTable(archive, events, eventType)
    ensures notices == FaultNotices(events, eventType)
  {
    table := [];
    notices := [];
    for i := 0 to |events|
      invariant table == SummaryTable(archive, events[..i], eventType)
      invariant notices == FaultNotices(events[..i], eventType)
    {
      var evt := events[i];
      if evt.eventType != eventType {
        SkipStep(archive, events, i, eventType);
        continue;
      }
      if evt.endReason == Fault {
        FaultStep(archive, events, i, eventType);
        notices := notices + [FaultNotice(evt.seqNum, evt.dayObs)];
        continue;
      }
      var answers := archive(evt);
      if answers.azimuth.None? || answers.elevation.None? {
        SkipStep(archive, events, i, eventType);
        continue;
      }
      var az, el := answers.azimuth.value, answers.elevation.value;
      var row := SummaryRow(evt.seqNum, Travel(az), Travel(el),
                            OverallMin(answers.forces), OverallMax(answers.forces));
      RowStep(archive, events, i, eventType);
      table := table + [row];
    }
    assert events[..|events|] == events;
  }

  /** `query_block_status`: always keeps exactly the rows whose `id` equals
      the block name, in order; `df.id` fails on a table without an `id`
      column. */
  function QueryBlockStatus(fetched: Table<BlockStatusRow>, blockName: string): (r: Result<Table<BlockStatusRow>>)
    ensures r.Err? <==> "id" !in fetched.columns
    ensures r.Ok? ==>
      && r.value.columns == fetched.columns
      && (forall k :: 0 <= k < |r.value.rows| ==>
            r.value.rows[k] in fetched.rows && r.value.rows[k].id == blockName)
      && (forall k :: 0 <= k < |fetched.rows| && fetched.rows[k].id == blockName ==>
            fetched.rows[k] in r.value.rows)
  {
    SlewQuery.BlockStatus(fetched, Some(blockName))
  }
}
