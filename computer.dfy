/**
 * The analysis process of Computer.h: a `Computer` object holding the roster
 * of aircraft it monitors, the shared alert queue and, for each of its two
 * publishers, a version counter and the semaphore it brackets each publish
 * with.  Each thread body of the class is modelled as one pass of its
 * `while (!terminate)` loop.
 */
module ComputerEngine {
  import opened Wrappers
  import opened Bytes
  import opened AircraftModel
  import opened Alerts
  import opened ConflictDetector
  import opened Monitoring
  import opened Frames

  /** The roster that the `aircrafts` member is initialised with: "A1".."A10" entered at "12:00". */
  const InitialRoster: seq<AircraftState> := [
    AircraftState(1200, 1, 1000.0, 2005.0, 3000.0, 100.0, 100.0, 0.0, false),
    AircraftState(1200, 2, 4000.0, 5500.0, 3500.0, -100.0, -100.0, 0.0, false),
    AircraftState(1200, 3, 5000.0, 5000.0, 3000.0, 5.0, 5.0, 0.0, false),
    AircraftState(1200, 4, 1500.0, 2000.0, 3000.0, -5.0, -5.0, 0.0, false),
    AircraftState(1200, 5, 7000.0, 4000.0, 5000.0, 15.0, 15.0, 0.0, false),
    AircraftState(1200, 6, 8000.0, 4500.0, 5500.0, -15.0, -15.0, 0.0, false),
    AircraftState(1200, 7, 9000.0, 5000.0, 6000.0, 20.0, 20.0, 0.0, false),
    AircraftState(1200, 8, 10000.0, 5500.0, 6500.0, -20.0, -20.0, 0.0, false),
    AircraftState(1200, 9, 11000.0, 6000.0, 7000.0, 25.0, 25.0, 0.0, false),
    AircraftState(1200, 10, 12000.0, 6500.0, 7500.0, -25.0, -25.0, 0.0, false)
  ]

  /** Base size of a published region, and the estimate added per aircraft and per alert. */
  const FrameBase: nat := 1024
  const AircraftRecordEstimate: nat := 150
  const AlertRecordEstimate: nat := 200

  /** How the `shm_open` / `ftruncate` / `mmap` sequence of one publish ended. */
  datatype ShmStatus = Mapped | OpenFailed | TruncateFailed | MapFailed

  /** One text record per element, formatted by `format`. */
  function Records<T>(xs: seq<T>, format: T -> seq<byte>): (rs: seq<seq<byte>>)
    ensures |rs| == |xs|
    ensures forall i :: 0 <= i < |xs| ==> rs[i] == format(xs[i])
  {
    seq(|xs|, i requires 0 <= i < |xs| => format(xs[i]))
  }

  /** The region size `writeAircraftDataToSharedMemoryAndLog` asks for. */
  method AircraftFrameSize(roster: seq<AircraftState>) returns (size: nat)
    ensures size == FrameBase + AircraftRecordEstimate * |roster|
  {
    size := FrameBase;
    var i: nat := 0;
    while i < |roster|
      invariant 0 <= i <= |roster|
      invariant size == FrameBase + AircraftRecordEstimate * i
    {
      size := size + AircraftRecordEstimate;
      i := i + 1;
    }
  }

  /** The region size `writeAlertsToSharedMemory` asks for, counted by emptying a copy of the queue. */
  method AlertsFrameSize(alerts: AlertQueue) returns (size: nat)
    ensures size == FrameBase + AlertRecordEstimate * |alerts.contents|
  {
    var temp := alerts.Copy();
    size := FrameBase;
    while !temp.Empty()
      invariant fresh(temp)
      invariant size + AlertRecordEstimate * |temp.contents| == FrameBase + AlertRecordEstimate * |alerts.contents|
      decreases |temp.contents|
    {
      size := size + AlertRecordEstimate;
      var _ := temp.PopTop();
    }
  }

  /** The frame published for a roster, with the version given. */
  function AircraftFrame(roster: seq<AircraftState>, version: int, format: AircraftState -> seq<byte>): (f: seq<byte>)
    ensures |f| == FrameBase + AircraftRecordEstimate * |roster|
  {
    Frame(FrameBase + AircraftRecordEstimate * |roster|, version, Records(roster, format))
  }

  /** The frame published for the alerts in the given (priority) order. */
  function AlertsFrame(order: seq<Alert>, version: int, format: Alert -> seq<byte>): (f: seq<byte>)
    ensures |f| == FrameBase + AlertRecordEstimate * |order|
  {
    Frame(FrameBase + AlertRecordEstimate * |order|, version, Records(order, format))
  }

  /**
   * A reader of an aircraft frame finds the version at offset 0 and the record
   * of aircraft `k` right after the records of the aircraft before it.
   */
  lemma AircraftFrameLayout(roster: seq<AircraftState>, version: int, format: AircraftState -> seq<byte>, k: nat)
    requires IsInt32(version)
    requires k < |roster|
    requires Int32Size + |Concat(Records(roster, format))| <= FrameBase + AircraftRecordEstimate * |roster|
    ensures DecodeInt32(AircraftFrame(roster, version, format)) == version
    ensures HoldsAt(AircraftFrame(roster, version, format), Int32Size + |ConcatUpTo(Records(roster, format), k)|,
                    format(roster[k]))
  {
    var size, rs := FrameBase + AircraftRecordEstimate * |roster|, Records(roster, format);
    assert rs[k] == format(roster[k]);
    FrameVersion(size, version, rs);
    FrameRecordAt(size, version, rs, k);
  }

  /**
   * A reader of an alerts frame finds the version at offset 0 and the record of
   * the `k`-th alert of the order right after those before it; the alerts come
   * earliest first.
   */
  lemma AlertsFrameLayout(order: seq<Alert>, version: int, format: Alert -> seq<byte>, k: nat)
    requires IsInt32(version)
    requires k < |order|
    requires Int32Size + |Concat(Records(order, format))| <= FrameBase + AlertRecordEstimate * |order|
    ensures DecodeInt32(AlertsFrame(order, version, format)) == version
    ensures HoldsAt(AlertsFrame(order, version, format), Int32Size + |ConcatUpTo(Records(order, format), k)|,
                    format(order[k]))
  {
    var size, rs := FrameBase + AlertRecordEstimate * |order|, Records(order, format);
    assert rs[k] == format(order[k]);
    FrameVersion(size, version, rs);
    FrameRecordAt(size, version, rs, k);
  }

  /**
   * The mapped part of `writeAlertsToSharedMemory`: a copy of the queue is
   * emptied earliest first, and its alerts are written in that order into a
   * region of the size counted before.  The queue itself is not touched.
   */
  method WriteAlertsFrame(alerts: AlertQueue, size: nat, version: int, format: Alert -> seq<byte>)
    returns (frame: seq<byte>, order: seq<Alert>)
    requires size == FrameBase + AlertRecordEstimate * |alerts.contents|
    ensures multiset(order) == alerts.contents && SortedByTime(order)
    ensures frame == AlertsFrame(order, version, format)
  {
    var region := new byte[size];
    var temp := alerts.Copy();
    order := Drain(temp);
    assert |order| == |alerts.contents| by {
      assert |multiset(order)| == |order|;
    }
    WriteFrame(region, version, Records(order, format));
    frame := region[..];
  }

  class Computer {
    /** The roster `aircrafts`; no member of the class changes it. */
    var aircrafts: seq<AircraftState>
    /** `alerts`, shared by the scanning, display and publishing threads. */
    var alerts: AlertQueue
    /** The `version` local of each publisher, which lives as long as its thread. */
    var aircraftVersion: int
    var alertsVersion: int
    /** Whether each publisher holds its semaphore (between `sem_wait` and `sem_post`). */
    var aircraftSemaphoreHeld: bool
    var alertsSemaphoreHeld: bool
    /** Whether each publisher has left its loop after a failed `shm_open`, `ftruncate` or `mmap`. */
    var aircraftWriterStopped: bool
    var alertsWriterStopped: bool

    /** The object as constructed, with each publisher about to start with version 0. */
    constructor ()
      ensures aircrafts == InitialRoster
      ensures fresh(alerts) && alerts.contents == multiset{}
      ensures aircraftVersion == 0 && alertsVersion == 0
      ensures !aircraftSemaphoreHeld && !alertsSemaphoreHeld
      ensures !aircraftWriterStopped && !alertsWriterStopped
    {
      aircrafts := InitialRoster;
      alerts := new AlertQueue();
      aircraftVersion := 0;
      alertsVersion := 0;
      aircraftSemaphoreHeld := false;
      alertsSemaphoreHeld := false;
      aircraftWriterStopped := false;
      alertsWriterStopped := false;
    }

    /** `checkAircraftPair`: pushes the alert of the priority chain for the pair, if any. */
    method CheckAircraftPair(a1: AircraftState, a2: AircraftState, sqrt: real -> real)
      requires IsSqrt(sqrt)
      modifies alerts
      ensures alerts.contents == old(alerts.contents) + multiset(AlertsOf(PairAlert(a1, a2, sqrt)))
    {
      Monitoring.CheckAircraftPair(a1, a2, alerts, sqrt);
    }

    /**
     * One pass of `monitorAircrafts`: every unordered pair of the roster is
     * checked once, on copies; the roster is left as it was.
     */
    method MonitorAircrafts(sqrt: real -> real)
      requires IsSqrt(sqrt)
      modifies alerts
      ensures alerts.contents == old(alerts.contents) + multiset(AllPairsAlerts(aircrafts, MonitorCheck(sqrt)))
      ensures aircrafts == old(aircrafts)
    {
      ScanRoster(aircrafts, alerts, MonitorCheck(sqrt));
    }

    /** One pass of `checkSeparation`: a time-0 alert for each pair in violation now. */
    method CheckSeparation()
      modifies alerts
      ensures alerts.contents == old(alerts.contents) + multiset(AllPairsAlerts(aircrafts, SeparationCheck))
      ensures aircrafts == old(aircrafts)
    {
      ScanRoster(aircrafts, alerts, SeparationCheck);
    }

    /** One pass of `displayAlerts`: every queued alert is sent once, earliest first, and the queue is left empty. */
    method DisplayAlerts() returns (sent: seq<Alert>)
      modifies alerts
      ensures alerts.contents == multiset{}
      ensures multiset(sent) == old(alerts.contents)
      ensures SortedByTime(sent)
    {
      sent := Drain(alerts);
    }

    /**
     * One pass of `writeAircraftDataToSharedMemoryAndLog`.  `status` is how the
     * mapping went and `format` renders one aircraft record (timestamp and
     * number formatting are kept abstract).  On success the frame is the
     * mapped region's new contents and the version goes up by one; on a
     * failure the semaphore is released, nothing is published and the writer
     * stops with its version unchanged.
     */
    method PublishAircraftData(status: ShmStatus, format: AircraftState -> seq<byte>) returns (frame: Option<seq<byte>>)
      requires !aircraftWriterStopped
      modifies this
      ensures !aircraftSemaphoreHeld
      ensures status == Mapped ==>
                frame == Some(AircraftFrame(aircrafts, old(aircraftVersion), format)) &&
                aircraftVersion == old(aircraftVersion) + 1 && !aircraftWriterStopped
      ensures status != Mapped ==>
                frame == None && aircraftVersion == old(aircraftVersion) && aircraftWriterStopped
      ensures aircrafts == old(aircrafts) && alerts == old(alerts)
      ensures alertsVersion == old(alertsVersion) && alertsSemaphoreHeld == old(alertsSemaphoreHeld)
      ensures alertsWriterStopped == old(alertsWriterStopped)
    {
      aircraftSemaphoreHeld := true;
      if status == OpenFailed {
        aircraftSemaphoreHeld := false;
        aircraftWriterStopped := true;
        return None;
      }
      var size := AircraftFrameSize(aircrafts);
      if status != Mapped {
        aircraftSemaphoreHeld := false;
        aircraftWriterStopped := true;
        return None;
      }
      var region := new byte[size];
      WriteFrame(region, aircraftVersion, Records(aircrafts, format));
      frame := Some(region[..]);
      aircraftVersion := aircraftVersion + 1;
      aircraftSemaphoreHeld := false;
    }

    /**
     * One pass of `writeAlertsToSharedMemory`.  The alerts are read from a
     * copy of the queue, so the queue keeps all its alerts; they are written
     * in the order the copy pops them, `order`, earliest first.
     */
    method PublishAlerts(status: ShmStatus, format: Alert -> seq<byte>) returns (frame: Option<seq<byte>>, order: seq<Alert>)
      requires !alertsWriterStopped
      modifies this
      ensures alerts.contents == old(alerts.contents)
      ensures !alertsSemaphoreHeld
      ensures status == Mapped ==>
                multiset(order) == alerts.contents && SortedByTime(order) &&
                frame == Some(AlertsFrame(order, old(alertsVersion), format)) &&
                alertsVersion == old(alertsVersion) + 1 && !alertsWriterStopped
      ensures status != Mapped ==>
                frame == None && alertsVersion == old(alertsVersion) && alertsWriterStopped
      ensures aircrafts == old(aircrafts) && alerts == old(alerts)
      ensures aircraftVersion == old(aircraftVersion) && aircraftSemaphoreHeld == old(aircraftSemaphoreHeld)
      ensures aircraftWriterStopped == old(aircraftWriterStopped)
    {
      alertsSemaphoreHeld := true;
      order := [];
      if status == OpenFailed {
        alertsSemaphoreHeld := false;
        alertsWriterStopped := true;
        return None, order;
      }
      var size := AlertsFrameSize(alerts);
      if status != Mapped {
        alertsSemaphoreHeld := false;
        alertsWriterStopped := true;
        return None, order;
      }
      var content;
      content, order := WriteAlertsFrame(alerts, size, alertsVersion, format);
      frame := Some(content);
      alertsVersion := alertsVersion + 1;
      alertsSemaphoreHeld := false;
    }
  }

  /**
   * Versions count completed publishes: after `k` successful passes from a
   * fresh object, the next frame carries version `k`.
   */
  method PublishTwice(format: AircraftState -> seq<byte>) returns (first: Option<seq<byte>>, second: Option<seq<byte>>)
    ensures first == Some(AircraftFrame(InitialRoster, 0, format))
    ensures second == Some(AircraftFrame(InitialRoster, 1, format))
  {
    var c := new Computer();
    first := c.PublishAircraftData(Mapped, format);
    second := c.PublishAircraftData(Mapped, format);
  }
}
