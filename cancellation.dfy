/** The two cooperative stop switches of the service: one for live stream
    downloads, one for compressions. A stop request arms a switch with the
    id to stop; the transcoder's next progress tick for that id sends the
    stop signal and disarms the switch. The target id is never cleared. */
module Cancellation {
  import opened Wrappers

  /** A pending flag and the id it is aimed at (`None` before any request). */
  datatype StopSwitch = StopSwitch(armed: bool, target: Option<string>) {
    /** A stop request for `id`, replacing any earlier target. */
    function Arm(id: string): (s: StopSwitch)
      ensures s.armed && s.target == Some(id)
    {
      StopSwitch(true, Some(id))
    }

    /** A progress tick of job `id`: the switch and whether the stop signal
        is sent. */
    function Tick(id: string): (StopSwitch, bool) {
      if armed && target == Some(id) then (StopSwitch(false, target), true)
      else (this, false)
    }
  }

  /** The switch as the service starts: unarmed, aimed at nothing. */
  const Idle := StopSwitch(false, None)

  /** A tick sends the signal exactly when the switch is armed for that id,
      and then disarms it; any other tick leaves the switch as it was. */
  lemma TickFiresIff(s: StopSwitch, id: string)
    ensures s.Tick(id).1 <==> s.armed && s.target == Some(id)
    ensures s.Tick(id).1 ==> !s.Tick(id).0.armed && s.Tick(id).0.target == s.target
    ensures !s.Tick(id).1 ==> s.Tick(id).0 == s
  {
  }

  /** After a stop request for `id`, the next tick of `id` stops it; ticks of
      other jobs before that leave the request pending. */
  lemma ArmedStopReachesTarget(s: StopSwitch, id: string, others: seq<string>)
    requires forall k | 0 <= k < |others| :: others[k] != id
    ensures AfterTicks(s.Arm(id), others) == s.Arm(id)
    ensures AfterTicks(s.Arm(id), others).Tick(id) == (StopSwitch(false, Some(id)), true)
  {
    TicksOfOthers(s.Arm(id), id, others);
  }

  /** The switch after the progress ticks of `ids`, in order. */
  function AfterTicks(s: StopSwitch, ids: seq<string>): StopSwitch
    decreases |ids|
  {
    if ids == [] then s else AfterTicks(s.Tick(ids[0]).0, ids[1..])
  }

  lemma {:induction false} TicksOfOthers(s: StopSwitch, id: string, others: seq<string>)
    requires s.armed && s.target == Some(id)
    requires forall k | 0 <= k < |others| :: others[k] != id
    ensures AfterTicks(s, others) == s
    decreases |others|
  {
    if others != [] {
      assert s.Tick(others[0]).0 == s;
      TicksOfOthers(s, id, others[1..]);
    }
  }

  /** A later request replaces the earlier one: only the last id is stopped. */
  lemma LaterRequestWins(s: StopSwitch, first: string, second: string)
    requires first != second
    ensures s.Arm(first).Arm(second).Tick(first) == (s.Arm(second), false)
    ensures s.Arm(first).Arm(second).Tick(second).1
  {
  }

  /** An idle switch never sends a signal. */
  lemma IdleNeverFires(ids: seq<string>, id: string)
    ensures AfterTicks(Idle, ids) == Idle && !Idle.Tick(id).1
  {
    IdleStays(ids);
  }

  lemma {:induction false} IdleStays(ids: seq<string>)
    ensures AfterTicks(Idle, ids) == Idle
    decreases |ids|
  {
    if ids != [] {
      IdleStays(ids[1..]);
    }
  }
}
