/**
 The ring of the last eleven block timestamps and its median (BIP 113).
 */
module Timestamps {
  import opened Sorting

  const TIMESTAMPS_FOR_MEDIAN: nat := 11
  const MEDIAN_TIMESTAMP_INDEX: nat := 5

  function MedianOf(window: seq<nat>): nat
    requires |window| == TIMESTAMPS_FOR_MEDIAN
  {
    SortCorrect((t: nat) => t, window);
    Sort((t: nat) => t, window)[MEDIAN_TIMESTAMP_INDEX]
  }

  /** The window after a new timestamp displaces the oldest. */
  function Slide(window: seq<nat>, t: nat): (r: seq<nat>)
    requires window != []
    ensures |r| == |window|
  {
    window[1..] + [t]
  }

  // ---- The median by counting -------------------------------------------------

  function CountAtMost(s: seq<nat>, v: nat): nat {
    if s == [] then 0 else (if s[0] <= v then 1 else 0) + CountAtMost(s[1..], v)
  }

  lemma {:induction false} CountAppend(s: seq<nat>, t: seq<nat>, v: nat)
    ensures CountAtMost(s + t, v) == CountAtMost(s, v) + CountAtMost(t, v)
  {
    if s == [] {
      assert s + t == t;
    } else {
      assert (s + t)[1..] == s[1..] + t;
      CountAppend(s[1..], t, v);
    }
  }

  lemma {:induction false} CountInsert(rank: nat -> int, x: nat, s: seq<nat>, v: nat)
    ensures CountAtMost(Insert(rank, x, s), v) == CountAtMost([x] + s, v)
  {
    assert ([x] + s)[1..] == s;
    if s != [] && rank(x) > rank(s[0]) {
      var tail := Insert(rank, x, s[1..]);
      CountInsert(rank, x, s[1..], v);
      assert ([x] + s[1..])[1..] == s[1..];
      assert ([s[0]] + tail)[1..] == tail;
    }
  }

  lemma {:induction false} CountSort(rank: nat -> int, s: seq<nat>, v: nat)
    ensures CountAtMost(Sort(rank, s), v) == CountAtMost(s, v)
  {
    if s != [] {
      CountSort(rank, s[1..], v);
      CountInsert(rank, s[0], Sort(rank, s[1..]), v);
      assert ([s[0]] + Sort(rank, s[1..]))[1..] == Sort(rank, s[1..]);
    }
  }

  lemma {:induction false} SortedCount(r: seq<nat>, v: nat, k: nat)
    requires Sorted((t: nat) => t, r) && k < |r|
    ensures r[k] <= v <==> CountAtMost(r, v) > k
  {
    var rank := (t: nat) => t;
    forall i | 0 <= i < k ensures r[i] <= r[k] {
      assert rank(r[i]) <= rank(r[k]);
    }
    assert Sorted(rank, r[1..]);
    if k > 0 {
      SortedCount(r[1..], v, k - 1);
    } else if r[0] > v {
      forall i | 0 <= i < |r| ensures r[i] > v {
        assert i == 0 || rank(r[0]) <= rank(r[i]);
      }
      CountNone(r, v);
    }
  }

  lemma {:induction false} CountNone(r: seq<nat>, v: nat)
    ensures (forall i :: 0 <= i < |r| ==> r[i] > v) ==> CountAtMost(r, v) == 0
  {
    if r != [] {
      CountNone(r[1..], v);
    }
  }

  /** The median is the least value with six timestamps at or below it. */
  lemma {:induction false} MedianByCount(window: seq<nat>, v: nat)
    requires |window| == TIMESTAMPS_FOR_MEDIAN
    ensures MedianOf(window) <= v <==> CountAtMost(window, v) >= 6
  {
    var rank := (t: nat) => t;
    SortCorrect(rank, window);
    CountSort(rank, window, v);
    SortedCount(Sort(rank, window), v, MEDIAN_TIMESTAMP_INDEX);
  }

  function CountBelow(s: seq<nat>, v: nat): nat {
    if s == [] then 0 else (if s[0] < v then 1 else 0) + CountBelow(s[1..], v)
  }

  lemma {:induction false} CountBelowIsAtMost(s: seq<nat>, v: nat)
    requires v > 0
    ensures CountBelow(s, v) == CountAtMost(s, v - 1)
  {
    if s != [] {
      CountBelowIsAtMost(s[1..], v);
    }
  }

  lemma {:induction false} NoneBelowZero(s: seq<nat>)
    ensures CountBelow(s, 0) == 0
  {
    if s != [] {
      NoneBelowZero(s[1..]);
    }
  }

  /** A time is above the median exactly when six of the eleven timestamps lie strictly below it. */
  lemma {:induction false} AboveMedianIff(window: seq<nat>, t: nat)
    requires |window| == TIMESTAMPS_FOR_MEDIAN
    ensures t > MedianOf(window) <==> CountBelow(window, t) >= 6
  {
    if t == 0 {
      NoneBelowZero(window);
    } else {
      CountBelowIsAtMost(window, t);
      MedianByCount(window, t - 1);
    }
  }

  /** A rotated window has the same median. */
  lemma {:induction false} MedianOfRotation(a: seq<nat>, b: seq<nat>)
    requires |a + b| == TIMESTAMPS_FOR_MEDIAN
    ensures MedianOf(a + b) == MedianOf(b + a)
  {
    forall v: nat ensures CountAtMost(a + b, v) == CountAtMost(b + a, v) {
      CountAppend(a, b, v);
      CountAppend(b, a, v);
    }
    MedianByCount(a + b, MedianOf(b + a));
    MedianByCount(b + a, MedianOf(b + a));
    MedianByCount(a + b, MedianOf(a + b));
    MedianByCount(b + a, MedianOf(a + b));
  }

  // ---- Progress -------------------------------------------------------------------

  /** Every timestamp is above the median of the window it meets. */
  ghost predicate AcceptedTimes(window: seq<nat>, times: seq<nat>)
    requires |window| == TIMESTAMPS_FOR_MEDIAN
    decreases |times|
  {
    times == [] || (times[0] > MedianOf(window) && AcceptedTimes(Slide(window, times[0]), times[1..]))
  }

  /** Six of the eleven timestamps before the `j`-th of `times` lie strictly below it. */
  predicate TimelyAt(window: seq<nat>, times: seq<nat>, j: nat)
    requires |window| == TIMESTAMPS_FOR_MEDIAN && j < |times|
  {
    CountBelow((window + times)[j..j + 11], times[j]) >= 6
  }

  lemma {:induction false} AcceptedTimesIff(window: seq<nat>, times: seq<nat>)
    requires |window| == TIMESTAMPS_FOR_MEDIAN
    ensures AcceptedTimes(window, times) <==> forall j: nat :: j < |times| ==> TimelyAt(window, times, j)
    decreases |times|
  {
    if times != [] {
      AboveMedianIff(window, times[0]);
      assert (window + times)[0..11] == window;
      AcceptedTimesIff(Slide(window, times[0]), times[1..]);
      forall j: nat | 0 < j < |times|
        ensures TimelyAt(window, times, j) <==> TimelyAt(Slide(window, times[0]), times[1..], j - 1)
      {
        LaterTime(window, times, j);
      }
      AllByFirst(window, times);
    }
  }

  /** The eleven before a later timestamp are the same after sliding. */
  lemma {:induction false} LaterTime(window: seq<nat>, times: seq<nat>, j: nat)
    requires |window| == TIMESTAMPS_FOR_MEDIAN && 0 < j < |times|
    ensures TimelyAt(window, times, j) <==> TimelyAt(Slide(window, times[0]), times[1..], j - 1)
  {
    var all, later := window + times, Slide(window, times[0]) + times[1..];
    assert later == all[1..];
    assert all[j..j + 11] == later[j - 1..j + 10];
  }

  lemma {:induction false} AllByFirst(window: seq<nat>, times: seq<nat>)
    requires |window| == TIMESTAMPS_FOR_MEDIAN && times != []
    requires forall j: nat :: 0 < j < |times| ==>
      (TimelyAt(window, times, j) <==> TimelyAt(Slide(window, times[0]), times[1..], j - 1))
    ensures (forall j: nat :: j < |times| ==> TimelyAt(window, times, j)) <==>
            && TimelyAt(window, times, 0)
            && forall j: nat :: j < |times| - 1 ==> TimelyAt(Slide(window, times[0]), times[1..], j)
  {
    var slid, rest := Slide(window, times[0]), times[1..];
    if forall j: nat :: j < |times| ==> TimelyAt(window, times, j) {
      forall j: nat | j < |rest| ensures TimelyAt(slid, rest, j) {
        assert TimelyAt(window, times, j + 1);
      }
    }
  }

  ghost function SlideAll(window: seq<nat>, times: seq<nat>): (r: seq<nat>)
    requires window != []
    ensures |r| == |window|
    decreases |times|
  {
    if times == [] then window else SlideAll(Slide(window, times[0]), times[1..])
  }

  lemma {:induction false} SlideKeepsMedian(window: seq<nat>, t: nat, bound: nat)
    requires |window| == TIMESTAMPS_FOR_MEDIAN
    requires bound <= MedianOf(window) < t
    ensures bound <= MedianOf(Slide(window, t))
  {
    var m := MedianOf(Slide(window, t));
    CountAppend(window[1..], [t], m);
    assert m < t ==> CountAtMost([t], m) == 0;
    MedianByCount(Slide(window, t), m);
    MedianByCount(window, m);
  }

  /** The window holds exactly the most recent eleven timestamps. */
  lemma {:induction false} SlideAllIsLastEleven(window: seq<nat>, times: seq<nat>)
    requires window != []
    ensures SlideAll(window, times) == (window + times)[|times|..]
    decreases |times|
  {
    if times == [] {
      assert (window + times)[0..] == window;
    } else {
      SlideAllIsLastEleven(Slide(window, times[0]), times[1..]);
      assert (window + times)[1..] == Slide(window, times[0]) + times[1..];
      assert (window + times)[1..][|times| - 1..] == (window + times)[|times|..];
    }
  }

  /** Along every accepted run the median never falls, and all accepted times exceed the first median. */
  lemma {:induction false} MedianNeverFalls(window: seq<nat>, times: seq<nat>, bound: nat)
    requires |window| == TIMESTAMPS_FOR_MEDIAN && AcceptedTimes(window, times)
    requires bound <= MedianOf(window)
    ensures bound <= MedianOf(SlideAll(window, times))
    ensures forall i :: 0 <= i < |times| ==> times[i] > bound
    decreases |times|
  {
    if times != [] {
      SlideKeepsMedian(window, times[0], bound);
      MedianNeverFalls(Slide(window, times[0]), times[1..], bound);
    }
  }

  /** Six accepted headers push the median strictly up. */
  lemma {:induction false} SixHeadersRaiseMedian(window: seq<nat>, times: seq<nat>)
    requires |window| == TIMESTAMPS_FOR_MEDIAN && AcceptedTimes(window, times)
    requires |times| >= 6
    ensures MedianOf(window) < MedianOf(SlideAll(window, times))
  {
    var m := MedianOf(window);
    var after := SlideAll(window, times);
    MedianNeverFalls(window, times, m);
    SlideAllIsLastEleven(window, times);
    var old5, new6 := after[..5], after[5..];
    forall i | 0 <= i < 6 ensures new6[i] > m {
      assert new6[i] == (window + times)[|times| + 5 + i];
      assert new6[i] == times[|times| - 6 + i];
    }
    assert after == old5 + new6;
    CountAppend(old5, new6, m);
    CountNone(new6, m);
    CountBound(old5, m);
    MedianByCount(after, m);
  }

  lemma {:induction false} CountBound(s: seq<nat>, v: nat)
    ensures CountAtMost(s, v) <= |s|
  {
    if s != [] {
      CountBound(s[1..], v);
    }
  }

  // ---- The ring buffer --------------------------------------------------------------

  class TimestampStore {
    var buffer: array<nat>
    var head: nat

    ghost predicate Valid()
      reads this
    {
      buffer.Length == TIMESTAMPS_FOR_MEDIAN && head < TIMESTAMPS_FOR_MEDIAN
    }

    /** The timestamps, oldest first. */
    ghost function Window(): (w: seq<nat>)
      requires Valid()
      reads this, buffer
      ensures |w| == TIMESTAMPS_FOR_MEDIAN
    {
      buffer[head..] + buffer[..head]
    }

    constructor (initial: seq<nat>)
      requires |initial| == TIMESTAMPS_FOR_MEDIAN
      ensures Valid() && fresh(buffer)
      ensures Window() == initial
    {
      buffer := new nat[TIMESTAMPS_FOR_MEDIAN](i requires 0 <= i < |initial| => initial[i]);
      head := 0;
    }

    method Insert(timestamp: nat)
      requires Valid()
      modifies this`head, buffer
      ensures Valid() && buffer == old(buffer)
      ensures Window() == Slide(old(Window()), timestamp)
    {
      buffer[head] := timestamp;
      head := (head + 1) % TIMESTAMPS_FOR_MEDIAN;
    }

    /** Sorts a copy of the buffer as it lies, head or no head. */
    method Median() returns (m: nat)
      requires Valid()
      ensures m == MedianOf(Window())
    {
      var timestamps := buffer[..];
      var rank := (t: nat) => t;
      SortCorrect(rank, timestamps);
      m := Sort(rank, timestamps)[MEDIAN_TIMESTAMP_INDEX];
      assert timestamps == buffer[..head] + buffer[head..];
      MedianOfRotation(buffer[..head], buffer[head..]);
    }
  }
}
