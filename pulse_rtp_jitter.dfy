/** The jitter state machine of the current engine's render callback: the
    state it keeps between ticks and the two occupancy checks it applies, the
    coarse one at the start of a tick and the tighter one after every frame. */
module PulseRtpJitter {

  /** `PulseRtpOboeEngine::State`. The header declares only the first three
      values; `onAudioReady` also assigns and tests `State::Depleted`, so the
      model has all four. `None` is the normal state. */
  datatype State = None | Overrun | Underrun | Depleted

  /** The check made at the start of a tick when the state is `None`: below
      capacity/32 packets the ring counts as depleted, below capacity/16 as
      underrun, above capacity/2 as overrun, and otherwise nothing changes. */
  function CoarseCheck(numPkt: nat, capacity: nat): (s: State)
    ensures s == Depleted <==> numPkt < capacity / 32
    ensures s == Underrun <==> capacity / 32 <= numPkt < capacity / 16
    ensures s == Overrun <==> numPkt > capacity / 2
    ensures s == None <==> capacity / 16 <= numPkt <= capacity / 2
  {
    if numPkt < capacity / 32 then Depleted
    else if numPkt < capacity / 16 then Underrun
    else if numPkt > capacity / 2 then Overrun
    else None
  }

  /** The check made after every frame while the state is not `None`: below
      capacity/32 the ring is depleted, below capacity/8 it is underrun unless
      it is already depleted, above capacity/4 it is overrun, and otherwise
      the state goes back to `None`. */
  function Recheck(s: State, numPkt: nat, capacity: nat): (r: State)
    ensures r == Depleted <==> numPkt < capacity / 32 || (s == Depleted && numPkt < capacity / 8)
    ensures r == Underrun <==> s != Depleted && capacity / 32 <= numPkt < capacity / 8
    ensures r == Overrun <==> numPkt > capacity / 4
    ensures r == None <==> capacity / 8 <= numPkt <= capacity / 4
  {
    if numPkt < capacity / 32 then Depleted
    else if numPkt < capacity / 8 then (if s != Depleted then Underrun else s)
    else if numPkt > capacity / 4 then Overrun
    else None
  }

  /** The per-frame band that restores `None` lies inside the band that the
      coarse check leaves at `None`, and every verdict of the coarse check is
      confirmed by the per-frame check, except that an underrun gives way to a
      depletion that is already recorded. */
  lemma RecheckIsTighter(s: State, numPkt: nat, capacity: nat)
    ensures Recheck(s, numPkt, capacity) == None ==> CoarseCheck(numPkt, capacity) == None
    ensures CoarseCheck(numPkt, capacity) == Depleted ==> Recheck(s, numPkt, capacity) == Depleted
    ensures CoarseCheck(numPkt, capacity) == Overrun ==> Recheck(s, numPkt, capacity) == Overrun
    ensures CoarseCheck(numPkt, capacity) == Underrun ==>
              Recheck(s, numPkt, capacity) == (if s == Depleted then Depleted else Underrun)
  {
  }

  /** Once depleted within a tick, the per-frame check never reports an
      underrun: it stays depleted until the ring holds at least capacity/8
      packets. */
  lemma DepletedIsSticky(numPkt: nat, capacity: nat)
    ensures Recheck(Depleted, numPkt, capacity) != Underrun
    ensures numPkt < capacity / 8 ==> Recheck(Depleted, numPkt, capacity) == Depleted
  {
  }
}
