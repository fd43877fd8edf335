/**
 * Alerts and the alert queue of the analysis process: an `Alert` is a time
 * (0 for a current violation, else predicted seconds) and a message naming two
 * aircraft; the queue is a `std::priority_queue<Alert>` whose reversed
 * `operator<` puts the earliest alert on top.
 */
module Alerts {
  import opened AircraftModel

  /** The messages the analysis process builds; their text is kept abstract. */
  datatype Message =
    | CurrentViolation(first: AircraftId, second: AircraftId)
    | PredictedCollision(first: AircraftId, second: AircraftId, seconds: real)
    | ViolationWithinHorizon(first: AircraftId, second: AircraftId)
    | SeparationViolation(first: AircraftId, second: AircraftId)

  datatype Alert = Alert(time: real, message: Message)

  /** `Alert::operator<`: an alert is "less" (lower priority) when it is later. */
  predicate AlertLess(a: Alert, b: Alert) {
    a.time > b.time
  }

  /** The ordering is a strict weak order, as `std::priority_queue` requires of it. */
  lemma AlertLessIsStrictWeakOrder(a: Alert, b: Alert, c: Alert)
    ensures !AlertLess(a, a)
    ensures AlertLess(a, b) && AlertLess(b, c) ==> AlertLess(a, c)
    ensures !AlertLess(a, b) && !AlertLess(b, a) && !AlertLess(b, c) && !AlertLess(c, b) ==>
              !AlertLess(a, c) && !AlertLess(c, a)
  {
  }

  /** `top()` of a priority queue: an element that no other element outranks under `operator<`. */
  predicate IsTop(a: Alert, q: multiset<Alert>) {
    a in q && forall b :: b in q ==> !AlertLess(a, b)
  }

  /** Because `operator<` is reversed, the top of the queue is an alert of earliest time. */
  lemma TopIsEarliest(a: Alert, q: multiset<Alert>)
    ensures IsTop(a, q) <==> a in q && forall b :: b in q ==> a.time <= b.time
  {
  }

  /** Adding an alert to a queue: the earlier of it and the old top is the new top. */
  lemma TopAfterAdding(y: Alert, rest: multiset<Alert>, x: Alert)
    requires IsTop(y, rest)
    ensures IsTop(if x.time <= y.time then x else y, rest + multiset{x})
  {
    var t := if x.time <= y.time then x else y;
    forall b | b in rest + multiset{x} ensures !AlertLess(t, b) {
      assert b in rest || b == x;
    }
  }

  /** Every non-empty queue has a top. */
  lemma {:induction false} TopExists(q: multiset<Alert>)
    requires |q| > 0
    ensures exists a :: IsTop(a, q)
    decreases |q|
  {
    var x :| x in q;
    var rest := q - multiset{x};
    assert q == rest + multiset{x};
    if |rest| == 0 {
      assert q == multiset{x};
      assert IsTop(x, q);
    } else {
      TopExists(rest);
      var y :| IsTop(y, rest);
      TopAfterAdding(y, rest, x);
    }
  }

  /** Times in non-decreasing order, the order in which alerts leave the queue. */
  ghost predicate SortedByTime(s: seq<Alert>) {
    forall i, j :: 0 <= i < j < |s| ==> s[i].time <= s[j].time
  }

  /** The time of each alert of a sequence. */
  function Times(s: seq<Alert>): (ts: seq<real>)
    ensures |ts| == |s|
    ensures forall i :: 0 <= i < |s| ==> ts[i] == s[i].time
  {
    if s == [] then [] else [s[0].time] + Times(s[1..])
  }

  /** An alert of earliest time in a multiset. */
  predicate IsEarliest(a: Alert, q: multiset<Alert>) {
    a in q && forall b :: b in q ==> a.time <= b.time
  }

  /**
   * Two time-ordered arrangements of the same alerts carry the same sequence of
   * times: draining a queue fixes the order of times, whatever the order of ties.
   */
  lemma {:induction false} SortedArrangementsAgreeOnTimes(s1: seq<Alert>, s2: seq<Alert>)
    requires SortedByTime(s1) && SortedByTime(s2)
    requires multiset(s1) == multiset(s2)
    ensures Times(s1) == Times(s2)
    decreases |s1|
  {
    if s1 != [] {
      assert |s2| == |multiset(s2)| == |multiset(s1)| == |s1|;
      assert s2[0] in multiset(s1);
      assert s1[0] in multiset(s2);
      var i :| 0 <= i < |s1| && s1[i] == s2[0];
      var j :| 0 <= j < |s2| && s2[j] == s1[0];
      assert s1[0].time == s2[0].time;
      var r2 := RemoveAt(s2, j);
      RemoveAtMultiset(s2, j);
      RemoveAtSorted(s2, j);
      RemoveFirst(s1);
      SortedArrangementsAgreeOnTimes(s1[1..], r2);
      TieRun(s2, j);
      TimesAfterRemovingTie(s2, j);
      assert Times(s1) == [s1[0].time] + Times(s1[1..]);
    }
  }

  /** The sequence without its element at index `j`. */
  function RemoveAt(s: seq<Alert>, j: nat): (r: seq<Alert>)
    requires j < |s|
    ensures |r| == |s| - 1
    ensures forall k :: 0 <= k < j ==> r[k] == s[k]
    ensures forall k :: j <= k < |r| ==> r[k] == s[k + 1]
  {
    s[..j] + s[j + 1..]
  }

  lemma RemoveAtMultiset(s: seq<Alert>, j: nat)
    requires j < |s|
    ensures multiset(RemoveAt(s, j)) == multiset(s) - multiset{s[j]}
  {
    assert s == s[..j] + [s[j]] + s[j + 1..];
  }

  lemma RemoveAtSorted(s: seq<Alert>, j: nat)
    requires j < |s| && SortedByTime(s)
    ensures SortedByTime(RemoveAt(s, j))
  {
    var r := RemoveAt(s, j);
    forall a, b | 0 <= a < b < |r| ensures r[a].time <= r[b].time {
      var a' := if a < j then a else a + 1;
      var b' := if b < j then b else b + 1;
      assert r[a] == s[a'] && r[b] == s[b'];
    }
  }

  lemma RemoveFirst(s: seq<Alert>)
    requires SortedByTime(s) && s != []
    ensures SortedByTime(s[1..])
    ensures multiset(s[1..]) == multiset(s) - multiset{s[0]}
  {
    assert s == [s[0]] + s[1..];
    forall a, b | 0 <= a < b < |s| - 1 ensures s[1..][a].time <= s[1..][b].time {
      assert s[1..][a] == s[a + 1] && s[1..][b] == s[b + 1];
    }
  }

  /** Between the first alert and a tie of it, all times are equal. */
  lemma TieSpan(s: seq<Alert>, j: nat, k: nat)
    requires SortedByTime(s) && j < |s| && s[j].time == s[0].time
    requires 0 < k <= j
    ensures s[k - 1].time == s[k].time
  {
    assert s[0].time <= s[k - 1].time;
    assert s[k - 1].time <= s[k].time;
    assert k == j || s[k].time <= s[j].time;
  }

  /** Position `k` of the times with alert `j` removed and the first time put back in front. */
  lemma TimeAfterRemovingTie(s: seq<Alert>, j: nat, k: nat)
    requires j < |s| && k < |s|
    requires 0 < k <= j ==> s[k - 1].time == s[k].time
    ensures ([s[0].time] + Times(RemoveAt(s, j)))[k] == s[k].time
  {
    var r := RemoveAt(s, j);
    var ts := Times(r);
    if k > 0 {
      assert ([s[0].time] + ts)[k] == ts[k - 1] == r[k - 1].time;
      if k <= j {
        assert r[k - 1] == s[k - 1];
      } else {
        assert r[k - 1] == s[k];
      }
    }
  }

  /** In a time-ordered sequence, everything up to an alert that ties with the first ties with its neighbour. */
  lemma TieRun(s: seq<Alert>, j: nat)
    requires SortedByTime(s) && j < |s| && s[j].time == s[0].time
    ensures forall k :: 0 < k <= j ==> s[k - 1].time == s[k].time
  {
    forall k | 0 < k <= j ensures s[k - 1].time == s[k].time {
      TieSpan(s, j, k);
    }
  }

  /** Removing an alert that ties with all before it keeps the sequence of times after the first. */
  lemma TimesAfterRemovingTie(s: seq<Alert>, j: nat)
    requires j < |s| && forall k :: 0 < k <= j ==> s[k - 1].time == s[k].time
    ensures Times(s) == [s[0].time] + Times(RemoveAt(s, j))
  {
    var lhs, rhs := Times(s), [s[0].time] + Times(RemoveAt(s, j));
    assert |lhs| == |rhs|;
    forall k | 0 <= k < |s| ensures lhs[k] == rhs[k] {
      TimeAfterRemovingTie(s, j, k);
    }
  }

  /** The `std::priority_queue<Alert>` of the analysis process, as the multiset of alerts it holds. */
  class AlertQueue {
    var contents: multiset<Alert>

    constructor ()
      ensures contents == multiset{}
    {
      contents := multiset{};
    }

    function Empty(): (e: bool)
      reads this
      ensures e <==> contents == multiset{}
    {
      |contents| == 0
    }

    function Size(): (n: nat)
      reads this
      ensures n == |contents|
    {
      |contents|
    }

    method Push(a: Alert)
      modifies this
      ensures contents == old(contents) + multiset{a}
    {
      contents := contents + multiset{a};
    }

    /** `top()` followed by `pop()`: hands back an earliest alert and removes it. */
    method PopTop() returns (a: Alert)
      requires contents != multiset{}
      modifies this
      ensures IsTop(a, old(contents)) && IsEarliest(a, old(contents))
      ensures contents == old(contents) - multiset{a}
    {
      TopExists(contents);
      a :| a in contents && IsTop(a, contents);
      contents := contents - multiset{a};
    }

    /** The copy `auto tempAlerts = alerts` the publisher works on. */
    method Copy() returns (q: AlertQueue)
      ensures fresh(q) && q.contents == contents
    {
      q := new AlertQueue();
      q.contents := contents;
    }
  }

  /** Appending an alert no earlier than the last keeps the order. */
  lemma SortedSnoc(s: seq<Alert>, a: Alert)
    requires SortedByTime(s)
    requires s != [] ==> s[|s| - 1].time <= a.time
    ensures SortedByTime(s + [a])
  {
    var t := s + [a];
    forall i, j | 0 <= i < j < |t| ensures t[i].time <= t[j].time {
      if j == |s| && i < |s| - 1 {
        assert t[i].time <= s[|s| - 1].time;
      }
    }
  }

  /**
   * What the drain loop keeps: `sent` and the queue's `rest` together are the
   * original alerts, `sent` is in time order and nothing left is earlier than
   * its last alert.
   */
  ghost predicate Drained(sent: seq<Alert>, rest: multiset<Alert>, orig: multiset<Alert>) {
    && multiset(sent) + rest == orig
    && SortedByTime(sent)
    && (sent != [] ==> forall y :: y in rest ==> sent[|sent| - 1].time <= y.time)
  }

  /** One round of the drain loop: `top()`, `pop()`, send. */
  method DrainStep(q: AlertQueue, sent: seq<Alert>, ghost orig: multiset<Alert>) returns (sent': seq<Alert>)
    requires q.contents != multiset{}
    requires Drained(sent, q.contents, orig)
    modifies q
    ensures Drained(sent', q.contents, orig)
    ensures |q.contents| < old(|q.contents|)
  {
    ghost var before := q.contents;
    var a := q.PopTop();
    SortedSnoc(sent, a);
    assert q.contents + multiset{a} == before;
    sent' := sent + [a];
  }

  /**
   * The loop `while (!alerts.empty()) { top(); pop(); ... }`: empties the queue
   * and hands back every alert it held, once, earliest first.
   */
  method Drain(q: AlertQueue) returns (sent: seq<Alert>)
    modifies q
    ensures q.contents == multiset{}
    ensures multiset(sent) == old(q.contents)
    ensures SortedByTime(sent)
  {
    sent := [];
    while !q.Empty()
      invariant Drained(sent, q.contents, old(q.contents))
      decreases |q.contents|
    {
      sent := DrainStep(q, sent, old(q.contents));
    }
  }
}
