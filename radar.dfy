/**
 * The radar process (Radar.cpp): the table `sharedAircraftList` of
 * `max_planes` slots in shared memory, which the timer tick `printData`
 * advances, and which `changeSpeed` and the request loop of
 * `changeParameters` update with speed changes.  The clock reading of a tick
 * (`elapsedProgramTime`) is a parameter.
 */
module Radar {
  import opened Wrappers
  import opened SharedRecords

  const MaxPlanes: nat := 20

  /** Bounds of the monitored airspace; a slot is advanced while any coordinate is below its bound. */
  const BoundX: real := 100000.0
  const BoundY: real := 100000.0
  const BoundZ: real := 40000.0

  predicate InBounds(s: SharedAircraft) {
    s.positionX < BoundX || s.positionY < BoundY || s.positionZ < BoundZ
  }

  /** A slot after one tick of `printData` at `elapsed` seconds since the program started. */
  function Tick(s: SharedAircraft, elapsed: int): (r: SharedAircraft)
  {
    if s.startTime == -1 || elapsed < s.startTime then s
    else if InBounds(s) then
      var dt := (elapsed - s.startTime) as real;
      s.(positionX := s.positionX + s.speedX * dt,
         positionY := s.positionY + s.speedY * dt,
         positionZ := s.positionZ + s.speedZ * dt)
    else ZeroRecord
  }

  /** Empty slots and slots not yet started are left exactly as they are. */
  lemma TickLeavesWaitingSlots(s: SharedAircraft, elapsed: int)
    requires s.startTime == -1 || elapsed < s.startTime
    ensures Tick(s, elapsed) == s
  {
  }

  /**
   * A started slot inside the bounds moves by its speed times the time since
   * its own start; its ID, speeds and start time stay.
   */
  lemma TickAdvancesStartedSlots(s: SharedAircraft, elapsed: int)
    requires s.startTime != -1 && s.startTime <= elapsed && InBounds(s)
    ensures var r, dt := Tick(s, elapsed), (elapsed - s.startTime) as real;
            r.positionX - s.positionX == s.speedX * dt &&
            r.positionY - s.positionY == s.speedY * dt &&
            r.positionZ - s.positionZ == s.speedZ * dt
    ensures var r := Tick(s, elapsed);
            r.aircraftID == s.aircraftID && r.startTime == s.startTime &&
            r.speedX == s.speedX && r.speedY == s.speedY && r.speedZ == s.speedZ
  {
  }

  /**
   * A started slot at or beyond all three bounds is reset to the all-zero record,
   * so it does not become empty (start time -1) but a slot started at time 0.
   */
  lemma TickResetsLeavingSlots(s: SharedAircraft, elapsed: int)
    requires s.startTime != -1 && s.startTime <= elapsed && !InBounds(s)
    ensures Tick(s, elapsed) == ZeroRecord
    ensures Tick(s, elapsed).startTime == 0 && Tick(s, elapsed).startTime != -1
  {
  }

  /**
   * Each tick adds the whole time since the slot's start, not the time since the
   * previous tick: two ticks at `e1` and then `e2` move a slot by its speed
   * times `(e1 - start) + (e2 - start)`.
   */
  lemma TicksAccumulate(s: SharedAircraft, e1: int, e2: int)
    requires s.startTime != -1 && s.startTime <= e1 <= e2
    requires InBounds(s) && InBounds(Tick(s, e1))
    ensures var dt := ((e1 - s.startTime) + (e2 - s.startTime)) as real;
            Tick(Tick(s, e1), e2).positionX - s.positionX == s.speedX * dt
  {
    var d1, d2 := (e1 - s.startTime) as real, (e2 - s.startTime) as real;
    assert s.speedX * d1 + s.speedX * d2 == s.speedX * (d1 + d2);
  }

  /** `initializeSharedMemory`'s loop: every slot is marked empty; nothing else is written. */
  method InitializeSlots(slots: array<SharedAircraft>)
    requires slots.Length == MaxPlanes
    modifies slots
    ensures forall i :: 0 <= i < MaxPlanes ==> slots[i] == old(slots[i]).(startTime := -1)
    ensures forall i :: 0 <= i < MaxPlanes ==> slots[i].startTime == -1
  {
    for i := 0 to MaxPlanes
      invariant forall k :: 0 <= k < i ==> slots[k] == old(slots[k]).(startTime := -1)
      invariant forall k :: i <= k < MaxPlanes ==> slots[k] == old(slots[k])
    {
      slots[i] := slots[i].(startTime := -1);
    }
  }

  /** `printData`: one tick over the whole table at `elapsed` seconds since start. */
  method PrintData(slots: array<SharedAircraft>, elapsed: int)
    requires slots.Length == MaxPlanes
    modifies slots
    ensures forall i :: 0 <= i < MaxPlanes ==> slots[i] == Tick(old(slots[i]), elapsed)
  {
    for i := 0 to MaxPlanes
      invariant forall k :: 0 <= k < i ==> slots[k] == Tick(old(slots[k]), elapsed)
      invariant forall k :: i <= k < MaxPlanes ==> slots[k] == old(slots[k])
    {
      var aircraft := slots[i];
      if aircraft.startTime == -1 {
        continue;
      }
      if elapsed < aircraft.startTime {
        continue;
      }
      var elapsedTime := (elapsed - aircraft.startTime) as real;
      if aircraft.positionX < BoundX || aircraft.positionY < BoundY || aircraft.positionZ < BoundZ {
        slots[i] := aircraft.(positionX := aircraft.positionX + aircraft.speedX * elapsedTime,
                              positionY := aircraft.positionY + aircraft.speedY * elapsedTime,
                              positionZ := aircraft.positionZ + aircraft.speedZ * elapsedTime);
      } else {
        slots[i] := ZeroRecord;
      }
    }
  }

  /** The table after `changeSpeed(id, vx, vy, vz)`. */
  function ChangedSpeeds(table: seq<SharedAircraft>, id: int, vx: int, vy: int, vz: int): (r: seq<SharedAircraft>)
    ensures |r| == |table|
  {
    seq(|table|, i requires 0 <= i < |table| =>
      if table[i].aircraftID == id then WithSpeeds(table[i], vx as real, vy as real, vz as real) else table[i])
  }

  /**
   * Every slot with the ID gets the three speeds, without stopping at the first;
   * every other slot, and every other field, is left as it was.
   */
  lemma ChangedSpeedsMeaning(table: seq<SharedAircraft>, id: int, vx: int, vy: int, vz: int, i: nat)
    requires i < |table|
    ensures var r := ChangedSpeeds(table, id, vx, vy, vz);
            r[i].aircraftID == table[i].aircraftID && r[i].startTime == table[i].startTime &&
            r[i].positionX == table[i].positionX && r[i].positionY == table[i].positionY &&
            r[i].positionZ == table[i].positionZ
    ensures var r := ChangedSpeeds(table, id, vx, vy, vz);
            table[i].aircraftID == id ==>
              r[i].speedX == vx as real && r[i].speedY == vy as real && r[i].speedZ == vz as real
    ensures table[i].aircraftID != id ==> ChangedSpeeds(table, id, vx, vy, vz)[i] == table[i]
  {
  }

  /** `changeSpeed`: a pass over all slots, updating each matching one. */
  method ChangeSpeed(slots: array<SharedAircraft>, passedID: int, speedx: int, speedy: int, speedz: int)
    requires slots.Length == MaxPlanes
    modifies slots
    ensures slots[..] == ChangedSpeeds(old(slots[..]), passedID, speedx, speedy, speedz)
  {
    ghost var before := slots[..];
    for i := 0 to MaxPlanes
      invariant forall k :: 0 <= k < i ==> slots[k] == ChangedSpeeds(before, passedID, speedx, speedy, speedz)[k]
      invariant forall k :: i <= k < MaxPlanes ==> slots[k] == before[k]
    {
      if slots[i].aircraftID == passedID {
        slots[i] := WithSpeeds(slots[i], speedx as real, speedy as real, speedz as real);
      }
    }
    assert slots[..] == ChangedSpeeds(before, passedID, speedx, speedy, speedz);
  }

  /** One request slot applied as the loop of `changeParameters` does: ID 0 is skipped, speeds are truncated. */
  function ApplyRequest(table: seq<SharedAircraft>, req: SharedAircraft): (r: seq<SharedAircraft>)
    ensures |r| == |table|
  {
    if req.aircraftID == 0 then table
    else ChangedSpeeds(table, req.aircraftID, TruncToInt(req.speedX), TruncToInt(req.speedY), TruncToInt(req.speedZ))
  }

  /** The first `k` request slots applied in index order. */
  function ApplyRequests(table: seq<SharedAircraft>, reqs: seq<SharedAircraft>, k: nat): (r: seq<SharedAircraft>)
    requires k <= |reqs|
    ensures |r| == |table|
    decreases k
  {
    if k == 0 then table else ApplyRequest(ApplyRequests(table, reqs, k - 1), reqs[k - 1])
  }

  /** The index of the last of the first `k` requests naming a non-zero `id`. */
  function LastRequestFor(reqs: seq<SharedAircraft>, id: int, k: nat): (j: Option<nat>)
    requires k <= |reqs|
    ensures j.Some? ==> j.value < k && reqs[j.value].aircraftID == id && id != 0
    ensures j.Some? ==> forall m :: j.value < m < k ==> reqs[m].aircraftID != id
    ensures j.None? ==> id == 0 || forall m :: 0 <= m < k ==> reqs[m].aircraftID != id
    decreases k
  {
    if k == 0 then None
    else if reqs[k - 1].aircraftID == id && id != 0 then Some(k - 1)
    else LastRequestFor(reqs, id, k - 1)
  }

  /**
   * The outcome of the request loop for one slot: its ID never changes, and it
   * carries the truncated speeds of the last request naming it, or is
   * unchanged when no request names it.
   */
  lemma {:induction false} LastRequestWins(table: seq<SharedAircraft>, reqs: seq<SharedAircraft>, k: nat, i: nat)
    requires k <= |reqs| && i < |table|
    ensures var r := ApplyRequests(table, reqs, k);
            match LastRequestFor(reqs, table[i].aircraftID, k)
            case None => r[i] == table[i]
            case Some(j) => r[i] == WithSpeeds(table[i], TruncToInt(reqs[j].speedX) as real,
                                               TruncToInt(reqs[j].speedY) as real, TruncToInt(reqs[j].speedZ) as real)
    decreases k
  {
    if k > 0 {
      LastRequestWins(table, reqs, k - 1, i);
      var prev := ApplyRequests(table, reqs, k - 1);
      var req := reqs[k - 1];
      if req.aircraftID != 0 {
        ChangedSpeedsMeaning(prev, req.aircraftID, TruncToInt(req.speedX), TruncToInt(req.speedY), TruncToInt(req.speedZ), i);
      }
    }
  }

  /** One pass of the `changeParameters` loop over the request slots the radar reads. */
  method ChangeParameters(slots: array<SharedAircraft>, requests: seq<SharedAircraft>)
    requires slots.Length == MaxPlanes && |requests| == MaxPlanes
    modifies slots
    ensures slots[..] == ApplyRequests(old(slots[..]), requests, MaxPlanes)
  {
    ghost var before := slots[..];
    for i := 0 to MaxPlanes
      invariant slots[..] == ApplyRequests(before, requests, i)
    {
      var aircraftComms := requests[i];
      if aircraftComms.aircraftID == 0 {
        continue;
      }
      ChangeSpeed(slots, aircraftComms.aircraftID,
                  TruncToInt(aircraftComms.speedX), TruncToInt(aircraftComms.speedY), TruncToInt(aircraftComms.speedZ));
    }
  }
}
