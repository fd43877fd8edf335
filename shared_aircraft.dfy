/**
 * The `SharedAircraft` record that the radar and communication processes keep
 * in shared memory, and the C++ conversions applied when speeds move between
 * `double` and `int`.
 */
module SharedRecords {

  /** One slot: `aircraftID`, position, speed and `startTime` (-1 marks an empty slot). */
  datatype SharedAircraft = SharedAircraft(
    aircraftID: int,
    positionX: real, positionY: real, positionZ: real,
    speedX: real, speedY: real, speedZ: real,
    startTime: int)

  /** The value-initialised record `{}`: every field zero. */
  const ZeroRecord: SharedAircraft := SharedAircraft(0, 0.0, 0.0, 0.0, 0.0, 0.0, 0.0, 0)

  /**
   * `sizeof(SharedAircraft)` on the 64-bit target: the `int` ID padded to 8,
   * six 8-byte doubles, the `int` start time, and tail padding to a multiple of 8.
   */
  const RecordSize: nat := 64

  /** The record with its three speeds replaced. */
  function WithSpeeds(s: SharedAircraft, vx: real, vy: real, vz: real): (r: SharedAircraft)
    ensures r.speedX == vx && r.speedY == vy && r.speedZ == vz
    ensures r.(speedX := s.speedX, speedY := s.speedY, speedZ := s.speedZ) == s
  {
    s.(speedX := vx, speedY := vy, speedZ := vz)
  }

  /** The `double` to `int` conversion of a call argument: towards zero. */
  function TruncToInt(x: real): (n: int)
    ensures 0.0 <= x ==> n as real <= x < n as real + 1.0
    ensures x < 0.0 ==> n as real - 1.0 < x <= n as real
  {
    if x >= 0.0 then x.Floor else -((-x).Floor)
  }

  /** Whole numbers convert unchanged, and the conversion never moves away from zero. */
  lemma TruncToIntProperties(x: real, k: int)
    ensures TruncToInt(k as real) == k
    ensures TruncToInt(x) <= 0 <= TruncToInt(-x) || TruncToInt(-x) <= 0 <= TruncToInt(x)
    ensures TruncToInt(-x) == -TruncToInt(x)
  {
  }
}
