/**
 * The all-pairs scans of the analysis process: the nested `i < j` loops of
 * `main` in Computer.cpp and of `monitorAircrafts` / `checkSeparation` in
 * Computer.h, which check every unordered pair of the roster once and push what
 * the check reports onto the alert queue.
 *
 * `Pairs(n)` is the visiting order of the two loops; `AllPairsAlerts` is what a scan
 * pushes, in push order, and `Reporting` the visited pairs that push something.
 */
module Monitoring {
  import opened Wrappers
  import opened AircraftModel
  import opened Alerts
  import opened ConflictDetector

  /** An index pair `(i, j)` of the roster. */
  type Pair = (int, int)

  /** What one visit of a pair pushes: nothing or one alert. */
  type PairCheck = (AircraftState, AircraftState) -> Option<Alert>

  /** The inner loop for a fixed `i`, up to bound `j`: `(i, i + 1), ..., (i, j - 1)`. */
  function Row(i: nat, j: nat): (r: seq<Pair>)
    ensures |r| == if i + 1 < j then j - i - 1 else 0
    decreases j
  {
    if j <= i + 1 then [] else Row(i, j - 1) + [(i, j - 1)]
  }

  /** The `k`-th pair of row `i` is `(i, i + 1 + k)`. */
  lemma {:induction false} RowElements(i: nat, j: nat)
    ensures forall k :: 0 <= k < |Row(i, j)| ==> Row(i, j)[k] == (i, i + 1 + k)
    decreases j
  {
    if j > i + 1 {
      RowElements(i, j - 1);
      assert Row(i, j) == Row(i, j - 1) + [(i, j - 1)];
    }
  }

  lemma RowElementAt(i: nat, j: nat, k: nat)
    requires k < |Row(i, j)|
    ensures Row(i, j)[k] == (i, i + 1 + k)
  {
    RowElements(i, j);
  }

  /** Row `i` up to `j` holds exactly the pairs `(i, m)` with `i < m < j`. */
  lemma {:induction false} RowMembership(i: nat, j: nat, p: Pair)
    ensures p in Row(i, j) <==> p.0 == i && i < p.1 < j
    decreases j
  {
    if j > i + 1 {
      RowMembership(i, j - 1, p);
      assert Row(i, j) == Row(i, j - 1) + [(i, j - 1)];
    }
  }

  /** The pairs visited by the first `i` rounds of the outer loop over `n` aircraft. */
  function PairsBefore(i: nat, n: nat): seq<Pair> {
    if i == 0 then [] else PairsBefore(i - 1, n) + Row(i - 1, n)
  }

  /** Every pair of the first `i` rounds has its first index below `i` and below its second. */
  lemma {:induction false} PairsBeforeBounds(i: nat, n: nat)
    ensures forall k :: 0 <= k < |PairsBefore(i, n)| ==>
              0 <= PairsBefore(i, n)[k].0 < i && PairsBefore(i, n)[k].0 < PairsBefore(i, n)[k].1 < n
  {
    if i > 0 {
      PairsBeforeBounds(i - 1, n);
      RowElements(i - 1, n);
      var prev, r := PairsBefore(i - 1, n), Row(i - 1, n);
      var all: seq<Pair> := prev + r;
      assert PairsBefore(i, n) == all;
      forall k | 0 <= k < |all| ensures 0 <= all[k].0 < i && all[k].0 < all[k].1 < n {
        if k >= |prev| {
          assert all[k] == r[k - |prev|];
        } else {
          assert all[k] == prev[k];
        }
      }
    }
  }

  /** The pairs the nested loops visit over a roster of `n` aircraft, in visiting order. */
  function Pairs(n: nat): seq<Pair> {
    PairsBefore(n, n)
  }

  /** Lexicographic order on index pairs. */
  predicate LexLess(p: Pair, q: Pair) {
    p.0 < q.0 || (p.0 == q.0 && p.1 < q.1)
  }

  /** A pair is visited by the first `i` rounds exactly when its first index is below `i`. */
  lemma {:induction false} PairsBeforeMembership(i: nat, n: nat, p: Pair)
    ensures p in PairsBefore(i, n) <==> 0 <= p.0 < i && p.0 < p.1 < n
  {
    if i > 0 {
      var prev, row := PairsBefore(i - 1, n), Row(i - 1, n);
      PairsBeforeMembership(i - 1, n, p);
      RowMembership(i - 1, n, p);
      assert PairsBefore(i, n) == prev + row;
      assert (p in prev + row) == (p in prev || p in row);
    }
  }

  /** Exactly the unordered pairs `i < j < n` are visited. */
  lemma PairsMembership(n: nat, p: Pair)
    ensures p in Pairs(n) <==> 0 <= p.0 < p.1 < n
  {
    PairsBeforeMembership(n, n, p);
  }

  /** The first `i` rounds visit `i (2n - i - 1) / 2` pairs. */
  lemma {:induction false} PairsBeforeCount(i: nat, n: nat)
    requires i <= n
    ensures 2 * |PairsBefore(i, n)| == i * (2 * n - i - 1)
  {
    if i > 0 {
      PairsBeforeCount(i - 1, n);
      assert |PairsBefore(i, n)| == |PairsBefore(i - 1, n)| + (n - i);
      assert i * (2 * n - i - 1) == (i - 1) * (2 * n - (i - 1) - 1) + 2 * (n - i);
    }
  }

  /** `checkAircraftPair` is called `n (n - 1) / 2` times per cycle. */
  lemma PairsCount(n: nat)
    ensures 2 * |Pairs(n)| == n * (n - 1)
  {
    PairsBeforeCount(n, n);
  }

  /** The visiting order is strictly increasing, so no pair is visited twice. */
  lemma {:induction false} PairsBeforeIncreasing(i: nat, n: nat)
    ensures forall a, b :: 0 <= a < b < |PairsBefore(i, n)| ==>
              LexLess(PairsBefore(i, n)[a], PairsBefore(i, n)[b])
  {
    if i > 0 {
      PairsBeforeIncreasing(i - 1, n);
      PairsBeforeBounds(i - 1, n);
      RowElements(i - 1, n);
      var prev, r := PairsBefore(i - 1, n), Row(i - 1, n);
      var all := PairsBefore(i, n);
      assert all == prev + r;
      forall a, b | 0 <= a < b < |all| ensures LexLess(all[a], all[b]) {
        if b < |prev| {
          assert all[a] == prev[a] && all[b] == prev[b];
        } else if a < |prev| {
          assert all[a] == prev[a] && all[b] == r[b - |prev|];
        } else {
          assert all[a] == r[a - |prev|] && all[b] == r[b - |prev|];
        }
      }
    }
  }

  lemma PairsNoDuplicates(n: nat)
    ensures forall a, b :: 0 <= a < b < |Pairs(n)| ==> Pairs(n)[a] != Pairs(n)[b]
  {
    PairsBeforeIncreasing(n, n);
  }

  /** The `PairsBefore` of fewer rounds is a prefix of that of more rounds. */
  lemma {:induction false} PairsBeforePrefix(i: nat, m: nat, n: nat)
    requires i <= m
    ensures |PairsBefore(i, n)| <= |PairsBefore(m, n)|
    ensures forall k :: 0 <= k < |PairsBefore(i, n)| ==> PairsBefore(m, n)[k] == PairsBefore(i, n)[k]
  {
    if i < m {
      PairsBeforePrefix(i, m - 1, n);
      assert PairsBefore(m, n) == PairsBefore(m - 1, n) + Row(m - 1, n);
    }
  }

  /** Row `i` of `n` aircraft occupies `ps[k ..]`: pair `(i, j)` sits at `k + (j - i - 1)`. */
  ghost predicate RowStartsAt(ps: seq<Pair>, n: nat, i: nat, k: nat) {
    && i < n
    && k + (n - i - 1) <= |ps|
    && forall m :: k <= m < k + (n - i - 1) ==> ps[m] == (i, i + 1 + (m - k))
  }

  lemma PairsBeforeLonger(i: nat, m: nat, n: nat)
    requires i <= m
    ensures |PairsBefore(i, n)| <= |PairsBefore(m, n)|
  {
    PairsBeforePrefix(i, m, n);
  }

  lemma PairsBeforePrefixAt(i: nat, m: nat, n: nat, k: nat)
    requires i <= m && k < |PairsBefore(i, n)|
    ensures k < |PairsBefore(m, n)| && PairsBefore(m, n)[k] == PairsBefore(i, n)[k]
  {
    PairsBeforePrefix(i, m, n);
  }

  /** In the visiting order, row `i` starts after the first `i` rounds and fills the next `n - i - 1` places. */
  lemma PairsRow(n: nat, i: nat)
    requires i < n
    ensures RowStartsAt(Pairs(n), n, i, |PairsBefore(i, n)|)
    ensures |PairsBefore(i + 1, n)| == |PairsBefore(i, n)| + (n - i - 1)
  {
    var prev, r := PairsBefore(i, n), Row(i, n);
    var next := PairsBefore(i + 1, n);
    assert next == prev + r;
    PairsBeforeLonger(i + 1, n, n);
    forall m | |prev| <= m < |prev| + (n - i - 1) ensures Pairs(n)[m] == (i, i + 1 + (m - |prev|)) {
      RowElementAt(i, n, m - |prev|);
      assert next[m] == r[m - |prev|];
      PairsBeforePrefixAt(i + 1, n, n, m);
    }
  }

  function AlertsOf(o: Option<Alert>): seq<Alert> {
    if o.Some? then [o.value] else []
  }

  /** What one visit of the two aircraft pushes. */
  function Reported(check: PairCheck, a1: AircraftState, a2: AircraftState): seq<Alert> {
    AlertsOf(check(a1, a2))
  }

  /** What visiting pair `p` pushes; a pair outside the roster pushes nothing. */
  function Visit(roster: seq<AircraftState>, p: Pair, check: PairCheck): seq<Alert> {
    if 0 <= p.0 < |roster| && 0 <= p.1 < |roster| then AlertsOf(check(roster[p.0], roster[p.1])) else []
  }

  lemma VisitInRoster(roster: seq<AircraftState>, i: nat, j: nat, check: PairCheck)
    requires i < |roster| && j < |roster|
    ensures Visit(roster, (i, j), check) == AlertsOf(check(roster[i], roster[j]))
  {
  }

  /** What visiting the first `k` pairs of `ps` pushes, in push order. */
  function AlertsAlong(roster: seq<AircraftState>, ps: seq<Pair>, k: nat, check: PairCheck): seq<Alert>
    requires k <= |ps|
  {
    if k == 0 then [] else AlertsAlong(roster, ps, k - 1, check) + Visit(roster, ps[k - 1], check)
  }

  /** What one full scan of the roster pushes: a visit of every pair, in visiting order. */
  function AllPairsAlerts(roster: seq<AircraftState>, check: PairCheck): seq<Alert> {
    AlertsAlong(roster, Pairs(|roster|), |Pairs(|roster|)|, check)
  }

  /** The check of pair `p` reports an alert. */
  predicate Fires(roster: seq<AircraftState>, p: Pair, check: PairCheck) {
    0 <= p.0 < |roster| && 0 <= p.1 < |roster| && check(roster[p.0], roster[p.1]).Some?
  }

  /** The pairs among the first `k` of `ps` for which the check reports an alert. */
  function ReportingUpTo(roster: seq<AircraftState>, ps: seq<Pair>, k: nat, check: PairCheck): seq<Pair>
    requires k <= |ps|
  {
    if k == 0 then []
    else ReportingUpTo(roster, ps, k - 1, check) + (if Fires(roster, ps[k - 1], check) then [ps[k - 1]] else [])
  }

  /** The visited pairs, among `ps`, for which the check reports an alert. */
  function Reporting(roster: seq<AircraftState>, ps: seq<Pair>, check: PairCheck): seq<Pair> {
    ReportingUpTo(roster, ps, |ps|, check)
  }

  lemma {:induction false} ReportingUpToMembership(roster: seq<AircraftState>, ps: seq<Pair>, k: nat, check: PairCheck, p: Pair)
    requires k <= |ps|
    ensures p in ReportingUpTo(roster, ps, k, check) <==> p in ps[..k] && Fires(roster, p, check)
  {
    if k > 0 {
      ReportingUpToMembership(roster, ps, k - 1, check, p);
      assert ps[..k] == ps[..k - 1] + [ps[k - 1]];
    }
  }

  /** A pair is reporting exactly when it is visited and its check reports something. */
  lemma ReportingMembership(roster: seq<AircraftState>, ps: seq<Pair>, check: PairCheck, p: Pair)
    ensures p in Reporting(roster, ps, check) <==> p in ps && Fires(roster, p, check)
  {
    ReportingUpToMembership(roster, ps, |ps|, check, p);
    assert ps[..|ps|] == ps;
  }

  /** Visiting pushes one alert per reporting pair, so at most one per visited pair. */
  lemma {:induction false} AlertsAlongCount(roster: seq<AircraftState>, ps: seq<Pair>, k: nat, check: PairCheck)
    requires k <= |ps|
    ensures |AlertsAlong(roster, ps, k, check)| == |ReportingUpTo(roster, ps, k, check)| <= k
  {
    if k > 0 {
      AlertsAlongCount(roster, ps, k - 1, check);
    }
  }

  /** One scan pushes one alert per pair whose check reports, so at most `n (n - 1) / 2`. */
  lemma AllPairsAlertsCount(roster: seq<AircraftState>, check: PairCheck)
    ensures |AllPairsAlerts(roster, check)| == |Reporting(roster, Pairs(|roster|), check)|
    ensures 2 * |AllPairsAlerts(roster, check)| <= |roster| * (|roster| - 1)
  {
    AlertsAlongCount(roster, Pairs(|roster|), |Pairs(|roster|)|, check);
    PairsCount(|roster|);
  }

  /** Every alert pushed along `ps` comes from one of its first `k` pairs. */
  lemma {:induction false} AlertsAlongSound(roster: seq<AircraftState>, ps: seq<Pair>, k: nat, check: PairCheck, x: Alert)
    requires k <= |ps|
    requires x in AlertsAlong(roster, ps, k, check)
    ensures exists m :: 0 <= m < k && x in Visit(roster, ps[m], check)
  {
    if x in AlertsAlong(roster, ps, k - 1, check) {
      AlertsAlongSound(roster, ps, k - 1, check, x);
      var m :| 0 <= m < k - 1 && x in Visit(roster, ps[m], check);
      assert 0 <= m < k;
    } else {
      assert x in Visit(roster, ps[k - 1], check);
    }
  }

  /** Visiting the first `k` pairs pushes what each of them reports. */
  lemma {:induction false} AlertsAlongComplete(roster: seq<AircraftState>, ps: seq<Pair>, k: nat, check: PairCheck, m: nat)
    requires m < k <= |ps|
    ensures forall x :: x in Visit(roster, ps[m], check) ==> x in AlertsAlong(roster, ps, k, check)
  {
    if m < k - 1 {
      AlertsAlongComplete(roster, ps, k - 1, check, m);
    }
  }

  /** Every alert of a scan comes from a pair `a < b` of the roster. */
  lemma AllPairsAlertsSound(roster: seq<AircraftState>, check: PairCheck, x: Alert)
    requires x in AllPairsAlerts(roster, check)
    ensures exists a, b :: 0 <= a < b < |roster| && check(roster[a], roster[b]) == Some(x)
  {
    var ps := Pairs(|roster|);
    AlertsAlongSound(roster, ps, |ps|, check, x);
    var m :| 0 <= m < |ps| && x in Visit(roster, ps[m], check);
    var p := ps[m];
    PairsMembership(|roster|, p);
    assert check(roster[p.0], roster[p.1]) == Some(x);
  }

  /** What any pair `a < b` of the roster reports is pushed by a scan. */
  lemma AllPairsAlertsComplete(roster: seq<AircraftState>, check: PairCheck, a: nat, b: nat)
    requires a < b < |roster|
    ensures forall x :: check(roster[a], roster[b]) == Some(x) ==> x in AllPairsAlerts(roster, check)
  {
    var ps := Pairs(|roster|);
    PairsRow(|roster|, a);
    var m := |PairsBefore(a, |roster|)| + (b - a - 1);
    assert ps[m] == (a, b);
    AlertsAlongComplete(roster, ps, |ps|, check, m);
  }

  /** An alert is pushed exactly when some pair `a < b` of the roster reports it. */
  lemma AllPairsAlertsMembership(roster: seq<AircraftState>, check: PairCheck, x: Alert)
    ensures x in AllPairsAlerts(roster, check) <==>
              exists a, b :: 0 <= a < b < |roster| && check(roster[a], roster[b]) == Some(x)
  {
    if x in AllPairsAlerts(roster, check) {
      AllPairsAlertsSound(roster, check, x);
    }
    if exists a, b :: 0 <= a < b < |roster| && check(roster[a], roster[b]) == Some(x) {
      var a, b :| 0 <= a < b < |roster| && check(roster[a], roster[b]) == Some(x);
      AllPairsAlertsComplete(roster, check, a, b);
    }
  }

  /** The check of `checkAircraftPair`, for the scan of `monitorAircrafts` and of `main`. */
  function MonitorCheck(sqrt: real -> real): (check: PairCheck)
    requires IsSqrt(sqrt)
    ensures forall a1, a2 :: check(a1, a2) == PairAlert(a1, a2, sqrt)
  {
    (a1, a2) => PairAlert(a1, a2, sqrt)
  }

  /** The check of `checkSeparation`: a time-0 alert exactly for a current violation. */
  function SeparationCheck(a1: AircraftState, a2: AircraftState): (r: Option<Alert>)
    ensures r.Some? <==> ViolationCheck(a1, a2)
    ensures r.Some? ==> r.value == Alert(0.0, SeparationViolation(a1.aircraftID, a2.aircraftID))
  {
    if ViolationCheck(a1, a2) then Some(Alert(0.0, SeparationViolation(a1.aircraftID, a2.aircraftID)))
    else None
  }

  /** Every alert of the monitoring scan comes from one pair `a < b` and lies within the horizon. */
  lemma MonitorAlertsWithinHorizon(roster: seq<AircraftState>, sqrt: real -> real, x: Alert)
    requires IsSqrt(sqrt)
    requires x in AllPairsAlerts(roster, MonitorCheck(sqrt))
    ensures 0.0 <= x.time <= MaxTime
    ensures exists a, b :: 0 <= a < b < |roster| && PairAlert(roster[a], roster[b], sqrt) == Some(x)
  {
    AllPairsAlertsMembership(roster, MonitorCheck(sqrt), x);
    var a, b :| 0 <= a < b < |roster| && MonitorCheck(sqrt)(roster[a], roster[b]) == Some(x);
    assert PairAlert(roster[a], roster[b], sqrt) == Some(x);
  }

  /**
   * `checkSeparation` pushes one alert per violating pair `a < b` and nothing
   * else: each alert is a time-0 separation alert of a violating pair, and each
   * violating pair has its alert in the queue.
   */
  lemma SeparationScanReportsViolatingPairs(roster: seq<AircraftState>, x: Alert)
    ensures var alerts := AllPairsAlerts(roster, SeparationCheck);
            |alerts| == |Reporting(roster, Pairs(|roster|), SeparationCheck)| &&
            (x in alerts <==>
              exists a, b :: 0 <= a < b < |roster| && ViolationCheck(roster[a], roster[b]) &&
                x == Alert(0.0, SeparationViolation(roster[a].aircraftID, roster[b].aircraftID)))
  {
    AllPairsAlertsCount(roster, SeparationCheck);
    AllPairsAlertsMembership(roster, SeparationCheck, x);
  }

  /** A pair reports in the separation scan exactly when it is a current violation. */
  lemma SeparationReportingIsViolating(roster: seq<AircraftState>, p: Pair)
    ensures p in Reporting(roster, Pairs(|roster|), SeparationCheck) <==>
              0 <= p.0 < p.1 < |roster| && ViolationCheck(roster[p.0], roster[p.1])
  {
    ReportingMembership(roster, Pairs(|roster|), SeparationCheck, p);
    PairsMembership(|roster|, p);
  }

  /** One pair visit: push what `check` reports, if anything. */
  method VisitPair(a1: AircraftState, a2: AircraftState, alerts: AlertQueue, check: PairCheck)
    returns (ghost found: seq<Alert>)
    modifies alerts
    ensures found == Reported(check, a1, a2)
    ensures alerts.contents == old(alerts.contents) + multiset(found)
  {
    found := Reported(check, a1, a2);
    var r := check(a1, a2);
    if r.Some? {
      alerts.Push(r.value);
    } else {
      assert alerts.contents + multiset{} == alerts.contents;
    }
  }

  /** `checkAircraftPair` (Computer.cpp): pushes what the priority chain reports, if anything. */
  method CheckAircraftPair(a1: AircraftState, a2: AircraftState, alerts: AlertQueue, sqrt: real -> real)
    requires IsSqrt(sqrt)
    modifies alerts
    ensures alerts.contents == old(alerts.contents) + multiset(AlertsOf(PairAlert(a1, a2, sqrt)))
  {
    ghost var found := VisitPair(a1, a2, alerts, MonitorCheck(sqrt));
  }

  /** Pushing the alerts of `more` onto a queue holding `base` and those of `done` leaves `base` and those of `done + more`. */
  lemma AddStep(base: multiset<Alert>, before: multiset<Alert>, after: multiset<Alert>,
                done: seq<Alert>, more: seq<Alert>, whole: seq<Alert>)
    requires before == base + multiset(done)
    requires after == before + multiset(more)
    requires whole == done + more
    ensures after == base + multiset(whole)
  {
    assert multiset(whole) == multiset(done) + multiset(more);
  }

  /** What the inner loop for `i` pushes, in push order, while `j` runs up to the bound `j`. */
  function RowAlerts(roster: seq<AircraftState>, i: nat, j: nat, check: PairCheck): seq<Alert>
    requires i < |roster| && j <= |roster|
    decreases j
  {
    if j <= i + 1 then [] else RowAlerts(roster, i, j - 1, check) + Reported(check, roster[i], roster[j - 1])
  }

  lemma RowAlertsStep(roster: seq<AircraftState>, i: nat, j: nat, check: PairCheck)
    requires i < j < |roster|
    ensures RowAlerts(roster, i, j + 1, check) == RowAlerts(roster, i, j, check) + Reported(check, roster[i], roster[j])
  {
  }

  /** Visiting row `i` where it sits in the visiting order pushes what the inner loop pushes. */
  lemma {:induction false} RowAlong(roster: seq<AircraftState>, ps: seq<Pair>, i: nat, k: nat, j: nat, check: PairCheck)
    requires RowStartsAt(ps, |roster|, i, k)
    requires i + 1 <= j <= |roster|
    ensures AlertsAlong(roster, ps, k + (j - i - 1), check) ==
              AlertsAlong(roster, ps, k, check) + RowAlerts(roster, i, j, check)
    decreases j
  {
    if j > i + 1 {
      var m := k + (j - 1 - i - 1);
      RowAlong(roster, ps, i, k, j - 1, check);
      assert ps[m] == (i, j - 1);
      VisitInRoster(roster, i, j - 1, check);
      var found := AlertsOf(check(roster[i], roster[j - 1]));
      assert AlertsAlong(roster, ps, m + 1, check) == AlertsAlong(roster, ps, m, check) + found;
      assert RowAlerts(roster, i, j, check) == RowAlerts(roster, i, j - 1, check) + found;
      assert AlertsAlong(roster, ps, k, check) + RowAlerts(roster, i, j - 1, check) + found ==
             AlertsAlong(roster, ps, k, check) + (RowAlerts(roster, i, j - 1, check) + found);
    }
  }

  /** One pass of the inner loop: the visit of `(i, j)` extends the pushes of row `i` by one pair. */
  method ScanPair(roster: seq<AircraftState>, i: nat, j: nat, alerts: AlertQueue, check: PairCheck,
                  ghost base: multiset<Alert>)
    requires i < j < |roster|
    requires alerts.contents == base + multiset(RowAlerts(roster, i, j, check))
    modifies alerts
    ensures alerts.contents == base + multiset(RowAlerts(roster, i, j + 1, check))
  {
    ghost var before := alerts.contents;
    ghost var found := VisitPair(roster[i], roster[j], alerts, check);
    RowAlertsStep(roster, i, j, check);
    AddStep(base, before, alerts.contents, RowAlerts(roster, i, j, check), found, RowAlerts(roster, i, j + 1, check));
  }

  /** The inner loop `for (j = i + 1; j < n; ++j)` for one `i`. */
  method ScanRow(roster: seq<AircraftState>, i: nat, alerts: AlertQueue, check: PairCheck)
    requires i < |roster|
    modifies alerts
    ensures alerts.contents == old(alerts.contents) + multiset(RowAlerts(roster, i, |roster|, check))
  {
    var j: nat := i + 1;
    while j < |roster|
      invariant i + 1 <= j <= |roster|
      invariant alerts.contents == old(alerts.contents) + multiset(RowAlerts(roster, i, j, check))
    {
      ScanPair(roster, i, j, alerts, check, old(alerts.contents));
      j := j + 1;
    }
  }

  /** What round `i` of the outer loop adds to the pushes of the rounds before it: the pushes of row `i`. */
  lemma RoundAlong(roster: seq<AircraftState>, i: nat, k: nat, check: PairCheck)
    requires i < |roster| && k == |PairsBefore(i, |roster|)|
    ensures |PairsBefore(i + 1, |roster|)| <= |Pairs(|roster|)|
    ensures AlertsAlong(roster, Pairs(|roster|), |PairsBefore(i + 1, |roster|)|, check) ==
              AlertsAlong(roster, Pairs(|roster|), k, check) + RowAlerts(roster, i, |roster|, check)
  {
    RoundBounds(|roster|, i, k);
    RowAlong(roster, Pairs(|roster|), i, k, |roster|, check);
  }

  /** What the first `i` rounds of the outer loop push: the rows `0 .. i - 1`, one after the other. */
  function RoundsAlerts(roster: seq<AircraftState>, i: nat, check: PairCheck): seq<Alert>
    requires i <= |roster|
    decreases i
  {
    if i == 0 then [] else RoundsAlerts(roster, i - 1, check) + RowAlerts(roster, i - 1, |roster|, check)
  }

  lemma RoundsAlertsStep(roster: seq<AircraftState>, i: nat, check: PairCheck)
    requires i < |roster|
    ensures RoundsAlerts(roster, i + 1, check) == RoundsAlerts(roster, i, check) + RowAlerts(roster, i, |roster|, check)
  {
  }

  /** The first `i` rounds push what visiting the pairs of those rounds, in visiting order, pushes. */
  lemma {:induction false} RoundsAlertsAlong(roster: seq<AircraftState>, i: nat, check: PairCheck)
    requires i <= |roster|
    ensures |PairsBefore(i, |roster|)| <= |Pairs(|roster|)|
    ensures RoundsAlerts(roster, i, check) == AlertsAlong(roster, Pairs(|roster|), |PairsBefore(i, |roster|)|, check)
    decreases i
  {
    if i > 0 {
      RoundsAlertsAlong(roster, i - 1, check);
      RoundAlong(roster, i - 1, |PairsBefore(i - 1, |roster|)|, check);
    }
  }

  /** All the rounds together push the alerts of all pairs. */
  lemma ScanCoversAllPairs(roster: seq<AircraftState>, check: PairCheck)
    ensures RoundsAlerts(roster, |roster|, check) == AllPairsAlerts(roster, check)
  {
    RoundsAlertsAlong(roster, |roster|, check);
  }

  /** One round of the outer loop: the inner loop over row `i`. */
  method ScanRound(roster: seq<AircraftState>, i: nat, alerts: AlertQueue, check: PairCheck,
                   ghost base: multiset<Alert>)
    requires i < |roster|
    requires alerts.contents == base + multiset(RoundsAlerts(roster, i, check))
    modifies alerts
    ensures alerts.contents == base + multiset(RoundsAlerts(roster, i + 1, check))
  {
    ghost var before := alerts.contents;
    ScanRow(roster, i, alerts, check);
    RoundsAlertsStep(roster, i, check);
    AddStep(base, before, alerts.contents, RoundsAlerts(roster, i, check), RowAlerts(roster, i, |roster|, check),
            RoundsAlerts(roster, i + 1, check));
  }

  /** Where round `i` of the outer loop starts and ends in the visiting order. */
  lemma RoundBounds(n: nat, i: nat, k: nat)
    requires i < n && k == |PairsBefore(i, n)|
    ensures RowStartsAt(Pairs(n), n, i, k)
    ensures k + (n - i - 1) == |PairsBefore(i + 1, n)| <= |Pairs(n)|
  {
    PairsRow(n, i);
  }

  /**
   * The nested loops `for i; for j = i + 1`: visits every pair of the roster
   * (copies of its aircraft, which it does not change) in the order `Pairs(n)`
   * and pushes what `check` reports.
   */
  method ScanRoster(roster: seq<AircraftState>, alerts: AlertQueue, check: PairCheck)
    modifies alerts
    ensures alerts.contents == old(alerts.contents) + multiset(AllPairsAlerts(roster, check))
  {
    var i: nat := 0;
    while i < |roster|
      invariant 0 <= i <= |roster|
      invariant alerts.contents == old(alerts.contents) + multiset(RoundsAlerts(roster, i, check))
    {
      ScanRound(roster, i, alerts, check, old(alerts.contents));
      i := i + 1;
    }
    ScanCoversAllPairs(roster, check);
  }

  /**
   * `main` of Computer.cpp: scans the roster into a fresh queue, then drains
   * it. Every alert of the scan is sent exactly once, earliest first.
   */
  method RunMonitoring(roster: seq<AircraftState>, sqrt: real -> real) returns (sent: seq<Alert>)
    requires IsSqrt(sqrt)
    ensures multiset(sent) == multiset(AllPairsAlerts(roster, MonitorCheck(sqrt)))
    ensures SortedByTime(sent)
  {
    var alerts := new AlertQueue();
    ScanRoster(roster, alerts, MonitorCheck(sqrt));
    sent := Drain(alerts);
  }
}
