/**
 * The aircraft record of the system (Aircraft.h): its entry time, its ID, a
 * position and a velocity in three axes and a violation flag, together with
 * the kinematic step `updatePosition`.  Doubles are modelled as reals.
 */
module AircraftModel {

  type AircraftId = int

  /** The value of an aircraft: what a copy of an `Aircraft` object holds. */
  datatype AircraftState = AircraftState(
    time: int,
    aircraftID: AircraftId,
    positionX: real, positionY: real, positionZ: real,
    speedX: real, speedY: real, speedZ: real,
    isViolation: bool)

  /** The state after flying `elapsed` seconds at constant speed. */
  function Advance(s: AircraftState, elapsed: real): (r: AircraftState)
    ensures r.positionX - s.positionX == s.speedX * elapsed
    ensures r.positionY - s.positionY == s.speedY * elapsed
    ensures r.positionZ - s.positionZ == s.speedZ * elapsed
    ensures r.(positionX := s.positionX, positionY := s.positionY, positionZ := s.positionZ) == s
  {
    s.(positionX := s.positionX + s.speedX * elapsed,
       positionY := s.positionY + s.speedY * elapsed,
       positionZ := s.positionZ + s.speedZ * elapsed)
  }

  /** A step of no time leaves the aircraft where it is. */
  lemma AdvanceZero(s: AircraftState)
    ensures Advance(s, 0.0) == s
  {
  }

  /** Speeds do not change between steps, so two steps make one step of the summed time. */
  lemma AdvanceAdditive(s: AircraftState, a: real, b: real)
    ensures Advance(Advance(s, a), b) == Advance(s, a + b)
  {
    assert s.speedX * a + s.speedX * b == s.speedX * (a + b);
    assert s.speedY * a + s.speedY * b == s.speedY * (a + b);
    assert s.speedZ * a + s.speedZ * b == s.speedZ * (a + b);
  }

  /** The `Aircraft` object, whose setters and kinematic step update its fields in place. */
  class Aircraft {
    var time: int
    var aircraftID: AircraftId
    var positionX: real
    var positionY: real
    var positionZ: real
    var speedX: real
    var speedY: real
    var speedZ: real
    var isViolation: bool

    /** The value a copy of this object would hold. */
    function State(): AircraftState
      reads this
    {
      AircraftState(time, aircraftID, positionX, positionY, positionZ, speedX, speedY, speedZ, isViolation)
    }

    constructor (t: int, id: AircraftId, posX: real, posY: real, posZ: real,
                 sX: real, sY: real, sZ: real, violation: bool)
      ensures State() == AircraftState(t, id, posX, posY, posZ, sX, sY, sZ, violation)
    {
      time := t;
      aircraftID := id;
      positionX := posX;
      positionY := posY;
      positionZ := posZ;
      speedX := sX;
      speedY := sY;
      speedZ := sZ;
      isViolation := violation;
    }

    function GetTime(): (t: int) reads this ensures t == State().time { time }
    function GetAircraftID(): (id: AircraftId) reads this ensures id == State().aircraftID { aircraftID }
    function GetPositionX(): (x: real) reads this ensures x == State().positionX { positionX }
    function GetPositionY(): (y: real) reads this ensures y == State().positionY { positionY }
    function GetPositionZ(): (z: real) reads this ensures z == State().positionZ { positionZ }
    function GetSpeedX(): (v: real) reads this ensures v == State().speedX { speedX }
    function GetSpeedY(): (v: real) reads this ensures v == State().speedY { speedY }
    function GetSpeedZ(): (v: real) reads this ensures v == State().speedZ { speedZ }
    function GetIsViolation(): (b: bool) reads this ensures b == State().isViolation { isViolation }

    method SetTime(t: int)
      modifies this
      ensures State() == old(State()).(time := t) && GetTime() == t
    {
      time := t;
    }

    method SetAircraftID(id: AircraftId)
      modifies this
      ensures State() == old(State()).(aircraftID := id) && GetAircraftID() == id
    {
      aircraftID := id;
    }

    method SetPositionX(posX: real)
      modifies this
      ensures State() == old(State()).(positionX := posX) && GetPositionX() == posX
    {
      positionX := posX;
    }

    method SetPositionY(posY: real)
      modifies this
      ensures State() == old(State()).(positionY := posY) && GetPositionY() == posY
    {
      positionY := posY;
    }

    method SetPositionZ(posZ: real)
      modifies this
      ensures State() == old(State()).(positionZ := posZ) && GetPositionZ() == posZ
    {
      positionZ := posZ;
    }

    method SetSpeedX(sX: real)
      modifies this
      ensures State() == old(State()).(speedX := sX) && GetSpeedX() == sX
    {
      speedX := sX;
    }

    method SetSpeedY(sY: real)
      modifies this
      ensures State() == old(State()).(speedY := sY) && GetSpeedY() == sY
    {
      speedY := sY;
    }

    method SetSpeedZ(sZ: real)
      modifies this
      ensures State() == old(State()).(speedZ := sZ) && GetSpeedZ() == sZ
    {
      speedZ := sZ;
    }

    method SetIsViolation(violation: bool)
      modifies this
      ensures State() == old(State()).(isViolation := violation) && GetIsViolation() == violation
    {
      isViolation := violation;
    }

    /** Moves the aircraft by its speed times `timeElapsed`; nothing else changes. */
    method UpdatePosition(timeElapsed: real)
      modifies this
      ensures State() == Advance(old(State()), timeElapsed)
    {
      positionX := positionX + (speedX * timeElapsed);
      positionY := positionY + (speedY * timeElapsed);
      positionZ := positionZ + (speedZ * timeElapsed);
    }
  }
}
