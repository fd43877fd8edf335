/**
 * The communication process (Communication.cpp): a region of a 256-byte
 * command area followed by a table of `max_planes` = 10 `SharedAircraft`
 * slots.  `CommunicationCommand` reads a speed-change command from the
 * command area, applies it to the first slot with the requested ID and clears
 * the command area.
 */
module Communication {
  import opened Wrappers
  import opened Bytes
  import opened SharedRecords
  import opened IntExtraction

  const MaxPlanes: nat := 10

  /** `size2`, the command area at the start of the region. */
  const CommandAreaSize: nat := 256

  /** `size`, the slot table. */
  const SlotTableSize: nat := RecordSize * MaxPlanes

  /** The region as mapped: `size2 + size` bytes. */
  const RegionSize: nat := CommandAreaSize + SlotTableSize

  /** Where slot `i` starts: the table begins right after the command area. */
  function SlotOffset(i: nat): (off: nat)
    ensures off >= CommandAreaSize
  {
    CommandAreaSize + RecordSize * i
  }

  /** The table begins at byte 256 and exactly 10 records fill the rest of the region, without overlap. */
  lemma RegionLayout(i: nat, j: nat)
    ensures SlotOffset(0) == CommandAreaSize && SlotOffset(MaxPlanes) == RegionSize
    ensures i < MaxPlanes ==> SlotOffset(i) + RecordSize <= RegionSize
    ensures i < j ==> SlotOffset(i) + RecordSize <= SlotOffset(j)
  {
  }

  /** The index of the first slot with the ID, if any. */
  function FirstMatch(table: seq<SharedAircraft>, id: int, from: nat): (m: Option<nat>)
    requires from <= |table|
    ensures m.Some? ==> from <= m.value < |table| && table[m.value].aircraftID == id
    ensures m.Some? ==> forall k :: from <= k < m.value ==> table[k].aircraftID != id
    ensures m.None? <==> forall k :: from <= k < |table| ==> table[k].aircraftID != id
    decreases |table| - from
  {
    if from == |table| then None
    else if table[from].aircraftID == id then Some(from)
    else FirstMatch(table, id, from + 1)
  }

  /** The slot after the command is applied to it: the ID rewritten to itself and the speeds set. */
  function Updated(s: SharedAircraft, req: SpeedRequest): SharedAircraft {
    WithSpeeds(s.(aircraftID := req.aircraftID), req.speedX as real, req.speedY as real, req.speedZ as real)
  }

  /** The table after a request is relayed: only the first slot with the requested ID changes. */
  function Relayed(table: seq<SharedAircraft>, req: SpeedRequest): (r: seq<SharedAircraft>)
    ensures |r| == |table|
  {
    match FirstMatch(table, req.aircraftID, 0)
    case None => table
    case Some(i) => table[i := Updated(table[i], req)]
  }

  /**
   * What relaying does to each slot: the first slot with the requested ID gets
   * the new speeds and keeps its ID, position and start time; every other slot,
   * later matching ones included, is unchanged, and so is the whole table when
   * no slot matches.
   */
  lemma RelayedMeaning(table: seq<SharedAircraft>, req: SpeedRequest, i: nat)
    requires i < |table|
    ensures var r := Relayed(table, req);
            (forall k :: 0 <= k < i ==> table[k].aircraftID != req.aircraftID) && table[i].aircraftID == req.aircraftID ==>
              r[i].aircraftID == req.aircraftID &&
              r[i].speedX == req.speedX as real && r[i].speedY == req.speedY as real && r[i].speedZ == req.speedZ as real &&
              r[i].positionX == table[i].positionX && r[i].positionY == table[i].positionY &&
              r[i].positionZ == table[i].positionZ && r[i].startTime == table[i].startTime
    ensures var r := Relayed(table, req);
            table[i].aircraftID != req.aircraftID || (exists k :: 0 <= k < i && table[k].aircraftID == req.aircraftID) ==>
              r[i] == table[i]
    ensures (forall k :: 0 <= k < |table| ==> table[k].aircraftID != req.aircraftID) ==> Relayed(table, req) == table
  {
    var m := FirstMatch(table, req.aircraftID, 0);
    if m.Some? && table[i].aircraftID == req.aircraftID && forall k :: 0 <= k < i ==> table[k].aircraftID != req.aircraftID {
      assert m.value == i;
    }
  }

  /**
   * `CommunicationCommand`.  `init` stands for the indeterminate values the four
   * `int` locals hold before extraction.  An empty command (a NUL first byte)
   * changes nothing; any other is parsed as four integers, relayed to the first
   * matching slot, and the whole command area is zeroed.
   */
  method CommunicationCommand(command: array<byte>, slots: array<SharedAircraft>, init: SpeedRequest)
    requires command.Length == CommandAreaSize && slots.Length == MaxPlanes
    modifies command, slots
    ensures CString(old(command[..])) == [] ==> command[..] == old(command[..]) && slots[..] == old(slots[..])
    ensures CString(old(command[..])) != [] ==>
              command[..] == Zeros(CommandAreaSize) &&
              slots[..] == Relayed(old(slots[..]), ParseRequest(CString(old(command[..])), init))
  {
    var commandBuffer := command[..];
    var text := CString(commandBuffer);
    if text == [] {
      return;
    }
    var req := ParseRequest(text, init);
    ghost var before := slots[..];
    var i: nat := 0;
    while i < MaxPlanes
      invariant 0 <= i <= MaxPlanes
      invariant slots[..] == before
      invariant FirstMatch(before, req.aircraftID, 0) == FirstMatch(before, req.aircraftID, i)
    {
      if slots[i].aircraftID == req.aircraftID {
        slots[i] := Updated(slots[i], req);
        break;
      }
      i := i + 1;
    }
    assert slots[..] == Relayed(before, req);
    Clear(command);
  }
}
