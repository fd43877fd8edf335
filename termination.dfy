/**
 * The termination handshake every process takes part in: a 64-byte region
 * whose first `int` is set to 1 to ask for shutdown, and into which each
 * process writes its name, NUL-padded, to acknowledge.
 */
module Termination {
  import opened Bytes

  const TerminationRegionSize: nat := 64

  /** `checkTermination`: the `int` at the start of the region is 1. */
  function CheckTermination(region: seq<byte>): (terminated: bool)
    requires |region| >= Int32Size
    ensures terminated <==> region[..Int32Size] == [1, 0, 0, 0]
  {
    DecodeIsOne(region);
    DecodeInt32(region) == 1
  }

  /**
   * The region after `strncpy(region, name, 63)` and `region[63] = '\0'`: the
   * name cut to 63 bytes, then NULs to the end.
   */
  function Acknowledgement(name: seq<byte>): (r: seq<byte>)
    ensures |r| == TerminationRegionSize
  {
    var n := if |name| < TerminationRegionSize - 1 then |name| else TerminationRegionSize - 1;
    name[..n] + Zeros(TerminationRegionSize - n)
  }

  /** The acknowledgement write of `monitorTermination`. */
  method Acknowledge(region: array<byte>, name: seq<byte>)
    requires region.Length == TerminationRegionSize
    requires NUL !in name
    modifies region
    ensures region[..] == Acknowledgement(name)
  {
    var i: nat := 0;
    while i < TerminationRegionSize - 1
      invariant 0 <= i <= TerminationRegionSize - 1
      invariant forall k :: 0 <= k < i ==> region[k] == if k < |name| then name[k] else NUL
    {
      region[i] := if i < |name| then name[i] else NUL;
      i := i + 1;
    }
    region[TerminationRegionSize - 1] := NUL;
    assert region[..] == Acknowledgement(name);
  }

  /**
   * The last byte of the region is always NUL, and a name shorter than the
   * region reads back as a C string unchanged.
   */
  lemma AcknowledgementReadsBack(name: seq<byte>)
    requires NUL !in name
    ensures Acknowledgement(name)[TerminationRegionSize - 1] == NUL
    ensures |name| < TerminationRegionSize ==> CString(Acknowledgement(name)) == name
    ensures |name| >= TerminationRegionSize ==> CString(Acknowledgement(name)) == name[..TerminationRegionSize - 1]
  {
    var n := if |name| < TerminationRegionSize - 1 then |name| else TerminationRegionSize - 1;
    assert Acknowledgement(name) == name[..n] + [NUL] + Zeros(TerminationRegionSize - n - 1);
    CStringOfTerminated(name[..n], Zeros(TerminationRegionSize - n - 1));
  }

  /** The acknowledgement overwrites the request: afterwards the region no longer asks for termination. */
  lemma AcknowledgementClearsRequest(name: seq<byte>)
    requires name != [] && name[0] != 1
    ensures !CheckTermination(Acknowledgement(name))
  {
  }

  /** The ASCII bytes of "Radar" and of "Communications". */
  const RadarName: seq<byte> := [82, 97, 100, 97, 114]
  const CommunicationsName: seq<byte> := [67, 111, 109, 109, 117, 110, 105, 99, 97, 116, 105, 111, 110, 115]

  /** What the radar and communication processes leave in the region. */
  lemma ProcessAcknowledgements()
    ensures CString(Acknowledgement(RadarName)) == RadarName
    ensures CString(Acknowledgement(CommunicationsName)) == CommunicationsName
    ensures !CheckTermination(Acknowledgement(RadarName)) && !CheckTermination(Acknowledgement(CommunicationsName))
  {
    AcknowledgementReadsBack(RadarName);
    AcknowledgementReadsBack(CommunicationsName);
    AcknowledgementClearsRequest(RadarName);
    AcknowledgementClearsRequest(CommunicationsName);
  }
}
