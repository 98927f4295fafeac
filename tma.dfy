/** Slew events as the external event classifier describes them, and the gate
    both force aggregators apply to an event before querying anything. */
module Tma {
  import opened Frames

  /** The mount states of the external classifier. Only equality is used. */
  datatype TmaState = Uninitialized | Stopped | Tracking | Slewing | Fault | Off

  /** A slew or tracking event: its sequence number, observing day, time
      window (ISO timestamps), type and the state it ended in. */
  datatype SlewEvent = SlewEvent(
    seqNum: int,
    dayObs: int,
    begin: string,
    end: string,
    eventType: TmaState,
    endReason: TmaState)

  /** The message printed for a faulted event: "Event <seqNum> on <dayObs> faulted. Ignoring it." */
  datatype FaultNotice = FaultNotice(seqNum: int, dayObs: int)

  datatype Gate = WrongType | Faulted | Admitted

  /** The type check runs first, then the end-reason check. */
  function Admit(evt: SlewEvent, eventType: TmaState): (g: Gate)
    ensures g == WrongType <==> evt.eventType != eventType
    ensures g == Faulted <==> evt.eventType == eventType && evt.endReason == Fault
    ensures g == Admitted <==> evt.eventType == eventType && evt.endReason != Fault
  {
    if evt.eventType != eventType then WrongType
    else if evt.endReason == Fault then Faulted
    else Admitted
  }

  /** The message an event makes the aggregator print, if any: only an event
      of the requested type that ended in a fault prints one, so a faulted
      event of another type prints nothing. */
  function NoticeFor(evt: SlewEvent, eventType: TmaState): (n: Option<FaultNotice>)
    ensures n.Some? <==> evt.eventType == eventType && evt.endReason == Fault
    ensures n.Some? ==> n.value.seqNum == evt.seqNum && n.value.dayObs == evt.dayObs
  {
    if Admit(evt, eventType) == Faulted then Some(FaultNotice(evt.seqNum, evt.dayObs)) else None
  }
}
