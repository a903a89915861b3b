// The three sliding-window limiters of src/state.py, all built on lists of
// timestamps that are pruned only when their key is touched.
//
//  * GENERAL_RATE_LIMITS records a call first and decides afterwards.
//  * UPLOAD_RATE_LIMITS and AUTH_RATE_LIMITS answer a check first; the caller
//    records later, so several callers can be between check and record.
//
// The reference for each is the complete, never pruned history.
module RateLimits {
  import opened PyDict
  import opened Wrappers

  const GENERAL_MAX := 120
  const GENERAL_WINDOW := 60.0
  const UPLOAD_WINDOW := 3600.0
  const AUTH_MAX := 8
  const AUTH_WINDOW := 300.0

  // ---------- timestamp lists ----------

  /** `[ts for ts in stamps if ts >= cutoff]` */
  function Pruned(stamps: seq<real>, cutoff: real): seq<real> {
    if stamps == [] then []
    else
      var n := |stamps| - 1;
      if stamps[n] >= cutoff then Pruned(stamps[..n], cutoff) + [stamps[n]] else Pruned(stamps[..n], cutoff)
  }

  predicate Ordered(times: seq<real>) {
    forall i, j :: 0 <= i < j < |times| ==> times[i] <= times[j]
  }

  /** What a pruned list is: the stamps at or after the cutoff, however often they occur,
      in their order. */
  lemma {:induction false} PrunedIs(stamps: seq<real>, cutoff: real, at: real)
    ensures multiset(Pruned(stamps, cutoff))[at] == if at >= cutoff then multiset(stamps)[at] else 0
  {
    if stamps != [] {
      var n := |stamps| - 1;
      PrunedIs(stamps[..n], cutoff, at);
      assert stamps == stamps[..n] + [stamps[n]];
    }
  }

  lemma PrunedSnoc(stamps: seq<real>, last: real, cutoff: real)
    ensures Pruned(stamps + [last], cutoff) ==
            if last >= cutoff then Pruned(stamps, cutoff) + [last] else Pruned(stamps, cutoff)
  {
    assert (stamps + [last])[..|stamps|] == stamps;
  }

  function Later(a: real, b: real): real {
    if a <= b then b else a
  }

  /** Only the later cutoff of two prunings matters. */
  lemma {:induction false} PrunedTwice(stamps: seq<real>, first: real, second: real)
    ensures Pruned(Pruned(stamps, first), second) == Pruned(stamps, Later(first, second))
  {
    if stamps != [] {
      var n := |stamps| - 1;
      PrunedTwice(stamps[..n], first, second);
      if stamps[n] >= first {
        PrunedSnoc(Pruned(stamps[..n], first), stamps[n], second);
      }
    }
  }

  lemma {:induction false} PrunedShrinks(stamps: seq<real>, low: real, high: real)
    requires low <= high
    ensures |Pruned(stamps, high)| <= |Pruned(stamps, low)| <= |stamps|
  {
    if stamps != [] {
      PrunedShrinks(stamps[..|stamps| - 1], low, high);
    }
  }

  // ---------- the general limiter, one key ----------

  /** The list kept for a key after calls at `times`, in lock order. */
  function Stored(times: seq<real>, window: real): seq<real> {
    if times == [] then []
    else
      var now := times[|times| - 1];
      Pruned(Stored(times[..|times| - 1], window), now - window) + [now]
  }

  /** The answer given to the last call of `times`. */
  predicate Admitted(times: seq<real>)
    requires times != []
  {
    |Stored(times, GENERAL_WINDOW)| <= GENERAL_MAX
  }

  /** With a clock that never runs backwards the lazily pruned list is the full
      history restricted to the window that ends at the last call. */
  lemma {:induction false} StoredIsWindow(times: seq<real>, window: real)
    requires Ordered(times) && times != [] && window >= 0.0
    ensures Stored(times, window) == Pruned(times, times[|times| - 1] - window)
  {
    var n := |times| - 1;
    if n > 0 {
      StoredIsWindow(times[..n], window);
      LaterWindow(times, window);
    }
  }

  lemma LaterWindow(times: seq<real>, window: real)
    requires |times| > 1 && times[|times| - 2] <= times[|times| - 1]
    requires var n := |times| - 1; Stored(times[..n], window) == Pruned(times[..n], times[n - 1] - window)
    requires window >= 0.0
    ensures Stored(times, window) == Pruned(times, times[|times| - 1] - window)
  {
    var n := |times| - 1;
    PrunedAgain(times[..n], times[n - 1] - window, times[n] - window);
  }

  lemma PrunedAgain(stamps: seq<real>, first: real, second: real)
    requires first <= second
    ensures Pruned(Pruned(stamps, first), second) == Pruned(stamps, second)
  {
    PrunedTwice(stamps, first, second);
  }

  /** The decision, stated on the full history: this call and all earlier ones of
      the last 60 seconds, allowed or not, number at most 120. */
  lemma AdmittedIffWindowCount(times: seq<real>)
    requires Ordered(times) && times != []
    ensures Admitted(times) <==> |Pruned(times, times[|times| - 1] - 60.0)| <= 120
  {
    StoredIsWindow(times, GENERAL_WINDOW);
  }

  /** The number of admitted calls with a time in the closed window from `start`. */
  function AdmittedIn(times: seq<real>, start: real): nat {
    if times == [] then 0
    else
      var n := |times| - 1;
      AdmittedIn(times[..n], start) +
      if start <= times[n] <= start + 60.0 && Admitted(times) then 1 else 0
  }

  lemma {:induction false} AdmittedAreCalls(times: seq<real>, start: real)
    ensures AdmittedIn(times, start) <= |Pruned(times, start)|
  {
    if times != [] {
      var n := |times| - 1;
      AdmittedAreCalls(times[..n], start);
    }
  }

  // ---------- stale clock readings ----------

  /** Call `i` was never more than a window behind a later call. */
  predicate NeverOvertaken(times: seq<real>, window: real, i: nat)
    requires i < |times|
  {
    forall j :: i < j < |times| ==> times[i] >= times[j] - window
  }

  /** The calls at or after `cutoff`, and those among them that are still stored. */
  function Since(times: seq<real>, cutoff: real): set<nat> {
    set i: nat | i < |times| && times[i] >= cutoff
  }

  function Remembered(times: seq<real>, window: real, cutoff: real): set<nat> {
    set i: nat | i < |times| && times[i] >= cutoff && NeverOvertaken(times, window, i)
  }

  lemma {:induction false} PrunedCounts(times: seq<real>, cutoff: real)
    ensures |Pruned(times, cutoff)| == |Since(times, cutoff)|
  {
    if times == [] {
      assert Since(times, cutoff) == {};
    } else {
      var n := |times| - 1;
      PrunedCounts(times[..n], cutoff);
      assert Since(times, cutoff) == Since(times[..n], cutoff) + if times[n] >= cutoff then {n} else {};
    }
  }

  /** One more call: of those remembered before, the ones it overtakes are gone. */
  lemma RememberedSnoc(times: seq<real>, window: real, cutoff: real)
    requires times != []
    ensures var n := |times| - 1;
            var now := times[n];
            Remembered(times, window, cutoff) ==
            Remembered(times[..n], window, Later(now - window, cutoff)) + if now >= cutoff then {n} else {}
  {
    var n := |times| - 1;
    forall i: nat | i < n
      ensures NeverOvertaken(times, window, i) <==>
              NeverOvertaken(times[..n], window, i) && times[i] >= times[n] - window
    {
      if NeverOvertaken(times[..n], window, i) && times[i] >= times[n] - window {
        forall j | i < j < |times|
          ensures times[i] >= times[j] - window
        {
          assert j < n ==> times[..n][j] == times[j];
        }
      }
    }
  }

  lemma RememberedSize(times: seq<real>, window: real, cutoff: real)
    requires times != []
    ensures var n := |times| - 1;
            |Remembered(times, window, cutoff)| ==
            |Remembered(times[..n], window, Later(times[n] - window, cutoff))| + if times[n] >= cutoff then 1 else 0
  {
    var n := |times| - 1;
    RememberedSnoc(times, window, cutoff);
    AddedSize(Remembered(times[..n], window, Later(times[n] - window, cutoff)), n);
  }

  lemma AddedSize(part: set<nat>, n: nat)
    requires n !in part
    ensures |part + {n}| == |part| + 1
  {
  }

  /** A call comes to a list: the list is pruned and grows by one. */
  lemma ArrivalSize(before: seq<real>, now: real, window: real, cutoff: real)
    ensures |Pruned(Pruned(before, now - window) + [now], cutoff)| ==
            |Pruned(before, Later(now - window, cutoff))| + if now >= cutoff then 1 else 0
  {
    PrunedTwice(before, now - window, cutoff);
    PrunedSnoc(Pruned(before, now - window), now, cutoff);
  }

  lemma ArrivalIsPruned(before: seq<real>, now: real, window: real)
    requires window >= 0.0
    ensures Pruned(Pruned(before, now - window) + [now], now - window) == Pruned(before, now - window) + [now]
  {
    PrunedTwice(before, now - window, now - window);
    PrunedSnoc(Pruned(before, now - window), now, now - window);
  }

  lemma CountsStep(times: seq<real>, window: real, cutoff: real)
    requires times != []
    requires var n := |times| - 1;
             var later := Later(times[n] - window, cutoff);
             |Pruned(Stored(times[..n], window), later)| == |Remembered(times[..n], window, later)|
    ensures |Pruned(Stored(times, window), cutoff)| == |Remembered(times, window, cutoff)|
  {
    StoredSize(times, window, cutoff);
    RememberedSize(times, window, cutoff);
  }

  lemma NoneRemembered(window: real, cutoff: real)
    ensures Remembered([], window, cutoff) == {}
  {
  }

  lemma StoredSize(times: seq<real>, window: real, cutoff: real)
    requires times != []
    ensures var n := |times| - 1;
            |Pruned(Stored(times, window), cutoff)| ==
            |Pruned(Stored(times[..n], window), Later(times[n] - window, cutoff))| + if times[n] >= cutoff then 1 else 0
  {
    var n := |times| - 1;
    ArrivalSize(Stored(times[..n], window), times[n], window, cutoff);
  }

  /** For any clock readings the lazily pruned list has one entry for each call that
      no later call left more than a window behind. */
  lemma {:induction false} StoredCounts(times: seq<real>, window: real, cutoff: real)
    ensures |Pruned(Stored(times, window), cutoff)| == |Remembered(times, window, cutoff)|
  {
    if times == [] {
      NoneRemembered(window, cutoff);
    } else {
      var n := |times| - 1;
      StoredCounts(times[..n], window, Later(times[n] - window, cutoff));
      CountsStep(times, window, cutoff);
    }
  }

  lemma StoredIsPruned(times: seq<real>, window: real)
    requires times != [] && window >= 0.0
    ensures Pruned(Stored(times, window), times[|times| - 1] - window) == Stored(times, window)
  {
    var n := |times| - 1;
    ArrivalIsPruned(Stored(times[..n], window), times[n], window);
  }

  lemma StoredLength(times: seq<real>, window: real)
    requires times != [] && window >= 0.0
    ensures |Stored(times, window)| == |Remembered(times, window, times[|times| - 1] - window)|
  {
    StoredCounts(times, window, times[|times| - 1] - window);
    StoredIsPruned(times, window);
  }

  /** The two lists counted by the calls they stand for. */
  lemma StoredLengths(times: seq<real>, window: real)
    requires times != [] && window >= 0.0
    ensures var cutoff := times[|times| - 1] - window;
            && |Stored(times, window)| == |Remembered(times, window, cutoff)|
            && |Pruned(times, cutoff)| == |Since(times, cutoff)|
            && Remembered(times, window, cutoff) <= Since(times, cutoff)
  {
    var cutoff := times[|times| - 1] - window;
    StoredLength(times, window);
    PrunedCounts(times, cutoff);
    RememberedAmong(times, window, cutoff);
  }

  lemma RememberedAmong(times: seq<real>, window: real, cutoff: real)
    ensures Remembered(times, window, cutoff) <= Since(times, cutoff)
  {
  }

  /** The decision for any clock readings: this call and those earlier ones of the last
      60 seconds that no later one left more than 60 seconds behind number at most 120.
      So a stale reading can only admit too much, and the decision is the one on the
      full history unless it lies between the two counts. */
  lemma AdmittedIffRemembered(times: seq<real>)
    requires times != []
    ensures var last := times[|times| - 1];
            && (Admitted(times) <==> |Remembered(times, 60.0, last - 60.0)| <= 120)
            && Remembered(times, 60.0, last - 60.0) <= Since(times, last - 60.0)
            && |Since(times, last - 60.0)| == |Pruned(times, last - 60.0)|
  {
    StoredLengths(times, GENERAL_WINDOW);
  }

  /** No earlier call of the current window was overtaken by more than a window. */
  ghost predicate NothingForgotten(times: seq<real>, window: real)
    requires times != []
  {
    var n := |times| - 1;
    forall i, j :: 0 <= i < j < n && times[i] >= times[n] - window ==> times[i] >= times[j] - window
  }

  /** Exactly when the lazily pruned list is as long as the window of the full history,
      for any clock readings. */
  lemma StoredMissesIff(times: seq<real>, window: real)
    requires times != [] && window >= 0.0
    ensures var last := times[|times| - 1];
            && |Stored(times, window)| <= |Pruned(times, last - window)|
            && (|Stored(times, window)| == |Pruned(times, last - window)| <==> NothingForgotten(times, window))
  {
    var cutoff := times[|times| - 1] - window;
    StoredLengths(times, window);
    SubsetSize(Remembered(times, window, cutoff), Since(times, cutoff));
    AllRememberedIff(times, window);
  }

  lemma AllRememberedIff(times: seq<real>, window: real)
    requires times != [] && window >= 0.0
    ensures var cutoff := times[|times| - 1] - window;
            Remembered(times, window, cutoff) == Since(times, cutoff) <==> NothingForgotten(times, window)
  {
    var n := |times| - 1;
    var cutoff := times[n] - window;
    var remembered, since := Remembered(times, window, cutoff), Since(times, cutoff);
    if NothingForgotten(times, window) {
      forall i | i in since
        ensures i in remembered
      {
        assert NeverOvertaken(times, window, i);
      }
    } else {
      var i, j :| 0 <= i < j < n && times[i] >= times[n] - window && times[i] < times[j] - window;
      assert i in since && i !in remembered;
    }
  }

  lemma SubsetSize(part: set<nat>, whole: set<nat>)
    requires part <= whole
    ensures |part| <= |whole|
    ensures |part| == |whole| <==> part == whole
  {
    assert whole == part + (whole - part);
  }

  /** So the decision is right whenever nothing was forgotten. Otherwise it is wrong
      exactly when the calls of the window exceed 120 and the remembered ones do not. */
  lemma DecisionRightIff(times: seq<real>)
    requires times != []
    ensures var last := times[|times| - 1];
            && (NothingForgotten(times, 60.0) ==> (Admitted(times) <==> |Pruned(times, last - 60.0)| <= 120))
            && ((Admitted(times) <==> |Pruned(times, last - 60.0)| <= 120) <==>
                |Pruned(times, last - 60.0)| <= 120 || |Remembered(times, 60.0, last - 60.0)| > 120)
  {
    StoredMissesIff(times, 60.0);
    AdmittedIffRemembered(times);
  }

  /** No call of the run found an earlier one of its window forgotten. */
  ghost predicate NeverForgets(times: seq<real>) {
    forall m :: 0 < m <= |times| ==> NothingForgotten(times[..m], GENERAL_WINDOW)
  }

  lemma NeverForgetsPrefix(times: seq<real>, n: nat)
    requires NeverForgets(times) && n <= |times|
    ensures NeverForgets(times[..n])
  {
    forall m | 0 < m <= n
      ensures NothingForgotten(times[..n][..m], GENERAL_WINDOW)
    {
      assert times[..n][..m] == times[..m];
    }
  }

  lemma OrderedNeverForgets(times: seq<real>)
    requires Ordered(times)
    ensures NeverForgets(times)
  {
    forall m | 0 < m <= |times|
      ensures NothingForgotten(times[..m], GENERAL_WINDOW)
    {
      var part := times[..m];
      forall i, j | 0 <= i < j < m - 1 && part[i] >= part[m - 1] - GENERAL_WINDOW
        ensures part[i] >= part[j] - GENERAL_WINDOW
      {
        assert times[j] <= times[m - 1];
      }
    }
  }

  /** Safety over whole runs, for any clock readings under which nothing is forgotten:
      no closed 60-second window, wherever it starts, holds more than 120 admitted
      calls of one key. */
  lemma {:induction false} CapUnlessForgotten(times: seq<real>, start: real)
    requires NeverForgets(times)
    ensures AdmittedIn(times, start) <= GENERAL_MAX
  {
    if times != [] {
      var n := |times| - 1;
      var last := times[n];
      if start <= last <= start + GENERAL_WINDOW && Admitted(times) {
        assert times[..|times|] == times;
        AdmittedAreCalls(times, start);
        StoredMissesIff(times, GENERAL_WINDOW);
        PrunedShrinks(times, last - GENERAL_WINDOW, start);
      } else {
        NeverForgetsPrefix(times, n);
        CapUnlessForgotten(times[..n], start);
      }
    }
  }

  /** In particular with a clock that never runs backwards. */
  lemma NoWindowExceedsCap(times: seq<real>, start: real)
    requires Ordered(times)
    ensures AdmittedIn(times, start) <= 120
  {
    OrderedNeverForgets(times);
    CapUnlessForgotten(times, start);
  }

  /** A run in which it is wrong: the clock is read before the lock is taken, so a
      stalled caller can present a reading older than one already processed. After
      120 calls at 0 and one at 61, a late call read at 0 is the 121st admitted
      call of one window. */
  lemma StaleReadingBreaksCap()
    ensures var times := BURST + [61.0] + [0.0];
            !Ordered(times) && AdmittedIn(times, 0.0) == GENERAL_MAX + 1
  {
    var late := BURST + [61.0];
    var times := late + [0.0];
    ZerosAdmitted(BURST);
    AdmittedSnoc(BURST, 61.0, 0.0);
    AdmittedSnoc(late, 0.0, 0.0);
    LateStored(BURST);
    assert times[GENERAL_MAX] == 61.0 && times[GENERAL_MAX + 1] == 0.0;
  }

  /** What is stored after a burst at 0, a call at 61 and a late call read at 0. */
  lemma LateStored(zeros: seq<real>)
    requires AllZero(zeros)
    ensures |Stored(zeros + [61.0], GENERAL_WINDOW)| == 1
    ensures |Stored(zeros + [61.0] + [0.0], GENERAL_WINDOW)| <= 2
  {
    ZerosStored(zeros);
    ForgottenBurst(Stored(zeros, GENERAL_WINDOW));
    StoredSnoc(zeros, 61.0, GENERAL_WINDOW);
    StoredSnoc(zeros + [61.0], 0.0, GENERAL_WINDOW);
    PrunedShrinks(Stored(zeros + [61.0], GENERAL_WINDOW), 0.0 - GENERAL_WINDOW, 0.0 - GENERAL_WINDOW);
  }

  lemma ForgottenBurst(kept: seq<real>)
    requires AllZero(kept)
    ensures Pruned(kept, 61.0 - GENERAL_WINDOW) == []
  {
    ZerosPruned(kept, 61.0 - GENERAL_WINDOW);
  }

  lemma AdmittedSnoc(times: seq<real>, now: real, start: real)
    ensures AdmittedIn(times + [now], start) ==
            AdmittedIn(times, start) +
            if start <= now <= start + GENERAL_WINDOW && Admitted(times + [now]) then 1 else 0
  {
    assert (times + [now])[..|times|] == times;
  }

  /** As many calls as the cap admits, all read at 0. */
  const BURST := seq(GENERAL_MAX, i => 0.0)

  predicate AllZero(times: seq<real>) {
    forall i :: 0 <= i < |times| ==> times[i] == 0.0
  }

  lemma ZerosSnoc(times: seq<real>)
    requires times != [] && AllZero(times)
    ensures AllZero(times[..|times| - 1]) && times == times[..|times| - 1] + [0.0]
  {
  }

  lemma {:induction false} ZerosPruned(times: seq<real>, cutoff: real)
    requires AllZero(times)
    ensures Pruned(times, cutoff) == if cutoff <= 0.0 then times else []
  {
    if times != [] {
      var front := times[..|times| - 1];
      ZerosSnoc(times);
      ZerosPruned(front, cutoff);
      PrunedSnoc(front, 0.0, cutoff);
    }
  }

  /** Nothing of a burst is pruned. */
  lemma {:induction false} ZerosStored(times: seq<real>)
    requires AllZero(times)
    ensures AllZero(Stored(times, GENERAL_WINDOW)) && |Stored(times, GENERAL_WINDOW)| == |times|
  {
    if times != [] {
      var n := |times| - 1;
      ZerosStored(times[..n]);
      BurstStep(Stored(times[..n], GENERAL_WINDOW));
      assert times[n] == 0.0;
    }
  }

  lemma BurstStep(kept: seq<real>)
    requires AllZero(kept)
    ensures AllZero(Pruned(kept, 0.0 - GENERAL_WINDOW) + [0.0])
    ensures |Pruned(kept, 0.0 - GENERAL_WINDOW) + [0.0]| == |kept| + 1
  {
    ZerosPruned(kept, 0.0 - GENERAL_WINDOW);
  }

  lemma {:induction false} ZerosAdmitted(times: seq<real>)
    requires AllZero(times) && |times| <= GENERAL_MAX
    ensures AdmittedIn(times, 0.0) == |times|
  {
    if times != [] {
      var front := times[..|times| - 1];
      ZerosSnoc(times);
      ZerosAdmitted(front);
      ZerosStored(times);
      AdmittedSnoc(front, 0.0, 0.0);
    }
  }

  // ---------- the general limiter, all keys ----------

  datatype Call = Call(key: string, at: real)

  function StampsOf(table: map<string, seq<real>>, key: string): seq<real> {
    if key in table then table[key] else []
  }

  function CallsOf(log: seq<Call>, key: string): seq<real> {
    if log == [] then []
    else
      var n := |log| - 1;
      if log[n].key == key then CallsOf(log[..n], key) + [log[n].at] else CallsOf(log[..n], key)
  }

  /** What one call does to the table. */
  function Counted(table: map<string, seq<real>>, call: Call): map<string, seq<real>> {
    table[call.key := Pruned(StampsOf(table, call.key), call.at - GENERAL_WINDOW) + [call.at]]
  }

  /** The table after the calls in `log`, whatever their keys. */
  function TableAfter(log: seq<Call>): map<string, seq<real>> {
    if log == [] then map[]
    else
      var n := |log| - 1;
      Counted(TableAfter(log[..n]), log[n])
  }

  lemma StoredSnoc(times: seq<real>, now: real, window: real)
    ensures Stored(times + [now], window) == Pruned(Stored(times, window), now - window) + [now]
  {
    assert (times + [now])[..|times|] == times;
  }

  /** Any interleaving over many keys behaves as one limiter per key. */
  lemma {:induction false} KeysAreIndependent(log: seq<Call>, key: string)
    ensures StampsOf(TableAfter(log), key) == Stored(CallsOf(log, key), GENERAL_WINDOW)
  {
    if log != [] {
      var n := |log| - 1;
      KeysAreIndependent(log[..n], key);
      CountedStep(TableAfter(log[..n]), CallsOf(log[..n], key), log[n], key);
    }
  }

  lemma CountedStep(table: map<string, seq<real>>, times: seq<real>, call: Call, key: string)
    requires StampsOf(table, key) == Stored(times, GENERAL_WINDOW)
    ensures StampsOf(Counted(table, call), key) ==
            Stored(if call.key == key then times + [call.at] else times, GENERAL_WINDOW)
  {
    StoredSnoc(times, call.at, GENERAL_WINDOW);
  }

  lemma LogSnoc(log: seq<Call>, call: Call)
    ensures TableAfter(log + [call]) == Counted(TableAfter(log), call)
    ensures CallsOf(log + [call], call.key) == CallsOf(log, call.key) + [call.at]
  {
    assert (log + [call])[..|log|] == log;
  }

  /** The decision on a call that comes after the calls in `log`. */
  lemma DecisionByHistory(log: seq<Call>, key: string, now: real)
    ensures var kept := Pruned(StampsOf(TableAfter(log), key), now - GENERAL_WINDOW) + [now];
            var times := CallsOf(log, key) + [now];
            && (|kept| <= GENERAL_MAX <==> Admitted(times))
            && (Ordered(times) ==> (Admitted(times) <==> |Pruned(CallsOf(log, key), now - 60.0)| + 1 <= 120))
  {
    var times := CallsOf(log, key) + [now];
    KeysAreIndependent(log, key);
    StoredSnoc(CallsOf(log, key), now, GENERAL_WINDOW);
    if Ordered(times) {
      AdmittedIffWindowCount(times);
      PrunedSnoc(CallsOf(log, key), now, now - 60.0);
    }
  }

  /** One more call: what its decision and the table after it are. */
  lemma CallTaken(log: seq<Call>, key: string, now: real)
    ensures var before, after := TableAfter(log), TableAfter(log + [Call(key, now)]);
            var times := CallsOf(log + [Call(key, now)], key);
            && after == before[key := Pruned(StampsOf(before, key), now - GENERAL_WINDOW) + [now]]
            && (|StampsOf(after, key)| <= GENERAL_MAX <==> Admitted(times))
            && (Ordered(times) ==> (Admitted(times) <==> |Pruned(CallsOf(log, key), now - 60.0)| + 1 <= 120))
            && forall other :: other != key ==> StampsOf(after, other) == StampsOf(before, other)
  {
    LogSnoc(log, Call(key, now));
    DecisionByHistory(log, key, now);
  }

  class GeneralLimiter {
    var limits: map<string, seq<real>>
    ghost var log: seq<Call>

    ghost predicate Valid()
      reads this
    {
      limits == TableAfter(log)
    }

    constructor ()
      ensures Valid() && log == []
    {
      limits, log := map[], [];
    }

    /** `general_request_allowed`: the answer is fixed by the key's full history. */
    method RequestAllowed(key: string, now: real) returns (allowed: bool)
      requires Valid()
      modifies this
      ensures Valid() && log == old(log) + [Call(key, now)]
      ensures allowed == Admitted(CallsOf(log, key))
      ensures Ordered(CallsOf(log, key)) ==>
                (allowed <==> |Pruned(CallsOf(old(log), key), now - 60.0)| + 1 <= 120)
      ensures forall other :: other != key ==> StampsOf(limits, other) == StampsOf(old(limits), other)
    {
      var cutoff := now - GENERAL_WINDOW;
      var attempts := Pruned(StampsOf(limits, key), cutoff);
      attempts := attempts + [now];
      limits := limits[key := attempts];
      allowed := |attempts| <= GENERAL_MAX;
      CallTaken(log, key, now);
      log := log + [Call(key, now)];
    }
  }

  // ---------- check-then-record limiters, one key ----------

  /** What callers do around one key. A passed check puts its caller in flight
      until it records or gives up (an authentication that succeeds records
      nothing); `Clear` is `clear_auth_failures`. */
  datatype Act =
    | Check(at: real, max: int)   // with the limit in force, which can change
    | Record(at: real)
    | Abandon(at: real)
    | Clear(at: real)

  datatype Gate = Gate(stamps: seq<real>, inFlight: int)

  function Step(gate: Gate, act: Act, window: real): Gate {
    match act
    case Check(at, max) =>
      var kept := Pruned(gate.stamps, at - window);
      Gate(kept, gate.inFlight + if |kept| < max then 1 else 0)
    case Record(at) => Gate(Pruned(gate.stamps, at - window) + [at], gate.inFlight - 1)
    case Abandon(_) => gate.(inFlight := gate.inFlight - 1)
    case Clear(_) => gate.(stamps := [])
  }

  function Run(acts: seq<Act>, window: real): Gate {
    if acts == [] then Gate([], 0)
    else Step(Run(acts[..|acts| - 1], window), acts[|acts| - 1], window)
  }

  /** Callers record or give up only after a passed check, at most `k` at a time, and
      no limit in force along the way exceeds `max`. */
  predicate Disciplined(acts: seq<Act>, max: int, window: real, k: nat) {
    acts == [] ||
    var n := |acts| - 1;
    && Disciplined(acts[..n], max, window, k)
    && 0 <= Run(acts, window).inFlight <= k
    && (acts[n].Check? ==> acts[n].max <= max)
  }

  /** The clock does not run backwards. */
  predicate Forward(acts: seq<Act>) {
    acts == [] ||
    var n := |acts| - 1;
    Forward(acts[..n]) && (n > 0 ==> acts[n - 1].at <= acts[n].at)
  }

  predicate Orderly(acts: seq<Act>, max: int, window: real, k: nat) {
    Disciplined(acts, max, window, k) && Forward(acts)
  }

  /** Everything recorded since the last clear, never pruned. */
  function Recorded(acts: seq<Act>): seq<real> {
    if acts == [] then []
    else
      var n := |acts| - 1;
      match acts[n]
      case Record(at) => Recorded(acts[..n]) + [at]
      case Clear(_) => []
      case _ => Recorded(acts[..n])
  }

  /** The stored list holds exactly the records of the window that ends now, plus
      possibly some that no check has pruned yet. */
  lemma {:induction false} GateIsWindow(acts: seq<Act>, window: real, now: real)
    requires window >= 0.0 && Forward(acts)
    requires acts != [] ==> acts[|acts| - 1].at <= now
    ensures Pruned(Run(acts, window).stamps, now - window) == Pruned(Recorded(acts), now - window)
  {
    if acts != [] {
      var n := |acts| - 1;
      var gate := Run(acts[..n], window);
      var at := acts[n].at;
      GateIsWindow(acts[..n], window, now);
      WindowStep(gate.stamps, Recorded(acts[..n]), at, now, window);
    }
  }

  lemma WindowStep(stored: seq<real>, recorded: seq<real>, at: real, now: real, window: real)
    requires at <= now && Pruned(stored, now - window) == Pruned(recorded, now - window)
    ensures Pruned(Pruned(stored, at - window), now - window) == Pruned(recorded, now - window)
    ensures Pruned(Pruned(stored, at - window) + [at], now - window) == Pruned(recorded + [at], now - window)
  {
    PrunedTwice(stored, at - window, now - window);
    PrunedSnoc(Pruned(stored, at - window), at, now - window);
    PrunedSnoc(recorded, at, now - window);
  }

  /** What the limiter promises about overshoot, with `max` the largest limit in force
      and `k` the largest number of callers in flight. */
  function Bound(max: int, k: nat): int {
    if max <= 0 || k == 0 then 0 else max - 1 + k
  }

  lemma {:induction false} StoredPlusInFlight(acts: seq<Act>, max: int, window: real, k: nat)
    requires Disciplined(acts, max, window, k)
    ensures var gate := Run(acts, window); |gate.stamps| + gate.inFlight <= Bound(max, k)
  {
    if acts != [] {
      var n := |acts| - 1;
      StoredPlusInFlight(acts[..n], max, window, k);
      var gate := Run(acts[..n], window);
      PrunedShrinks(gate.stamps, acts[n].at - window, acts[n].at - window);
    }
  }

  /** Record `i` counts towards the window from `cutoff`: it came after the last clear,
      and no later check or record left it more than a window behind. */
  predicate StillCounts(acts: seq<Act>, window: real, cutoff: real, i: nat)
    requires i < |acts|
  {
    && acts[i].Record? && acts[i].at >= cutoff
    && forall j :: i < j < |acts| ==>
         !acts[j].Clear? && (acts[j].Check? || acts[j].Record? ==> acts[i].at >= acts[j].at - window)
  }

  function Counting(acts: seq<Act>, window: real, cutoff: real): set<nat> {
    set i: nat | i < |acts| && StillCounts(acts, window, cutoff, i)
  }

  /** What the last act does to an earlier record. */
  lemma StillCountsStep(acts: seq<Act>, window: real, cutoff: real, i: nat)
    requires i < |acts| - 1
    ensures var last := acts[|acts| - 1];
            StillCounts(acts, window, cutoff, i) <==>
            && !last.Clear? && StillCounts(acts[..|acts| - 1], window, cutoff, i)
            && (last.Check? || last.Record? ==> acts[i].at >= last.at - window)
  {
    var n := |acts| - 1;
    if StillCounts(acts[..n], window, cutoff, i) {
      forall j | i < j < n
        ensures !acts[j].Clear? && (acts[j].Check? || acts[j].Record? ==> acts[i].at >= acts[j].at - window)
      {
        assert acts[..n][j] == acts[j];
      }
    }
  }

  /** The last act: a clear forgets everything, a check or a record what it overtakes. */
  lemma CountingStep(acts: seq<Act>, window: real, cutoff: real)
    requires acts != []
    ensures var n := |acts| - 1;
            Counting(acts, window, cutoff) ==
            match acts[n]
            case Clear(_) => {}
            case Abandon(_) => Counting(acts[..n], window, cutoff)
            case Check(at, _) => Counting(acts[..n], window, Later(at - window, cutoff))
            case Record(at) =>
              Counting(acts[..n], window, Later(at - window, cutoff)) + if at >= cutoff then {n} else {}
  {
    var n := |acts| - 1;
    forall i: nat | i < n
      ensures StillCounts(acts, window, cutoff, i) <==>
              && !acts[n].Clear? && StillCounts(acts[..n], window, cutoff, i)
              && (acts[n].Check? || acts[n].Record? ==> acts[i].at >= acts[n].at - window)
    {
      StillCountsStep(acts, window, cutoff, i);
    }
    assert StillCounts(acts, window, cutoff, n) <==> acts[n].Record? && acts[n].at >= cutoff;
  }

  lemma CountingSize(acts: seq<Act>, window: real, cutoff: real)
    requires acts != []
    ensures var n := |acts| - 1;
            |Counting(acts, window, cutoff)| ==
            match acts[n]
            case Clear(_) => 0
            case Abandon(_) => |Counting(acts[..n], window, cutoff)|
            case Check(at, _) => |Counting(acts[..n], window, Later(at - window, cutoff))|
            case Record(at) => |Counting(acts[..n], window, Later(at - window, cutoff))| + if at >= cutoff then 1 else 0
  {
    var n := |acts| - 1;
    CountingStep(acts, window, cutoff);
    if acts[n].Record? {
      AddedSize(Counting(acts[..n], window, Later(acts[n].at - window, cutoff)), n);
    }
  }

  lemma StepSize(gate: Gate, act: Act, window: real, cutoff: real)
    ensures |Pruned(Step(gate, act, window).stamps, cutoff)| ==
            match act
            case Clear(_) => 0
            case Abandon(_) => |Pruned(gate.stamps, cutoff)|
            case Check(at, _) => |Pruned(gate.stamps, Later(at - window, cutoff))|
            case Record(at) => |Pruned(gate.stamps, Later(at - window, cutoff))| + if at >= cutoff then 1 else 0
  {
    PrunedTwice(gate.stamps, act.at - window, cutoff);
    PrunedSnoc(Pruned(gate.stamps, act.at - window), act.at, cutoff);
  }

  /** For any clock readings the stored list has one entry for each record that still
      counts. */
  lemma {:induction false} GateCounts(acts: seq<Act>, window: real, cutoff: real)
    ensures |Pruned(Run(acts, window).stamps, cutoff)| == |Counting(acts, window, cutoff)|
  {
    if acts == [] {
      assert Counting(acts, window, cutoff) == {};
    } else {
      var n := |acts| - 1;
      GateCounts(acts[..n], window, cutoff);
      GateCounts(acts[..n], window, Later(acts[n].at - window, cutoff));
      StepSize(Run(acts[..n], window), acts[n], window, cutoff);
      CountingSize(acts, window, cutoff);
    }
  }

  /** For any clock readings: the records that still count and the callers in flight
      together never exceed MAX - 1 + K. */
  lemma CountingPlusInFlightBounded(acts: seq<Act>, max: int, window: real, k: nat, cutoff: real)
    requires Disciplined(acts, max, window, k)
    ensures |Counting(acts, window, cutoff)| + Run(acts, window).inFlight <= Bound(max, k)
  {
    GateCounts(acts, window, cutoff);
    StoredPlusInFlight(acts, max, window, k);
    PrunedShrinks(Run(acts, window).stamps, cutoff, cutoff);
  }

  /** Recorded entries of the current window and callers in flight together never
      exceed MAX - 1 + K; with one caller at a time, MAX. */
  lemma RecordedPlusInFlightBounded(acts: seq<Act>, max: int, window: real, k: nat, now: real)
    requires window >= 0.0 && Orderly(acts, max, window, k)
    requires acts != [] ==> acts[|acts| - 1].at <= now
    ensures |Pruned(Recorded(acts), now - window)| + Run(acts, window).inFlight <= Bound(max, k)
    ensures k == 1 && max >= 1 ==> |Pruned(Recorded(acts), now - window)| <= max
  {
    GateIsWindow(acts, window, now);
    StoredPlusInFlight(acts, max, window, k);
    PrunedShrinks(Run(acts, window).stamps, now - window, now - window);
  }

  /** The number of records since the last clear inside one closed window. */
  function RecordedIn(times: seq<real>, start: real, window: real): nat {
    if times == [] then 0
    else
      var n := |times| - 1;
      RecordedIn(times[..n], start, window) + if start <= times[n] <= start + window then 1 else 0
  }

  lemma {:induction false} RecordedInAtMost(times: seq<real>, start: real, window: real)
    ensures RecordedIn(times, start, window) <= |Pruned(times, start)|
  {
    if times != [] {
      var n := |times| - 1;
      RecordedInAtMost(times[..n], start, window);
    }
  }

  lemma BoundAtRecord(acts: seq<Act>, max: int, window: real, k: nat, start: real)
    requires window >= 0.0 && Orderly(acts, max, window, k) && acts != []
    requires start <= acts[|acts| - 1].at <= start + window
    ensures RecordedIn(Recorded(acts), start, window) <= Bound(max, k)
  {
    var at := acts[|acts| - 1].at;
    RecordedInAtMost(Recorded(acts), start, window);
    PrunedShrinks(Recorded(acts), at - window, start);
    RecordedPlusInFlightBounded(acts, max, window, k, at);
  }

  /** Safety over whole runs: between clears no closed window, wherever it
      starts, holds more than MAX - 1 + K records. */
  lemma {:induction false} NoWindowExceedsBound(acts: seq<Act>, max: int, window: real, k: nat, start: real)
    requires window >= 0.0 && Orderly(acts, max, window, k)
    ensures RecordedIn(Recorded(acts), start, window) <= Bound(max, k)
  {
    if acts != [] {
      var n := |acts| - 1;
      NoWindowExceedsBound(acts[..n], max, window, k, start);
      var at := acts[n].at;
      if acts[n].Record? && start <= at <= start + window {
        BoundAtRecord(acts, max, window, k, start);
      } else if acts[n].Record? {
        assert Recorded(acts)[..|Recorded(acts)| - 1] == Recorded(acts[..n]);
      }
    }
  }

  // The bound is met: MAX - 1 full check-record pairs, then K checks, then K records.

  lemma RunSnoc(acts: seq<Act>, act: Act, window: real)
    ensures Run(acts + [act], window) == Step(Run(acts, window), act, window)
    ensures Recorded(acts + [act]) ==
            (match act case Record(at) => Recorded(acts) + [at] case Clear(_) => [] case _ => Recorded(acts))
  {
    assert (acts + [act])[..|acts|] == acts;
  }

  lemma OrderlySnoc(acts: seq<Act>, act: Act, max: int, window: real, k: nat)
    requires Orderly(acts, max, window, k) && (acts != [] ==> acts[|acts| - 1].at <= act.at)
    requires 0 <= Step(Run(acts, window), act, window).inFlight <= k && (act.Check? ==> act.max <= max)
    ensures Orderly(acts + [act], max, window, k)
  {
    RunSnoc(acts, act, window);
    assert (acts + [act])[..|acts|] == acts;
  }

  predicate GateAtZero(gate: Gate, stamps: nat, flying: nat) {
    AllZero(gate.stamps) && |gate.stamps| == stamps && gate.inFlight == flying
  }

  lemma GateSteps(gate: Gate, stamps: nat, flying: nat, max: int, window: real)
    requires window >= 0.0 && GateAtZero(gate, stamps, flying)
    ensures stamps < max ==> GateAtZero(Step(gate, Check(0.0, max), window), stamps, flying + 1)
    ensures flying > 0 ==> GateAtZero(Step(gate, Record(0.0), window), stamps + 1, flying - 1)
  {
    ZerosPruned(gate.stamps, 0.0 - window);
  }

  ghost predicate AtZero(acts: seq<Act>, stamps: nat, flying: nat, max: int, window: real, k: nat) {
    && Orderly(acts, max, window, k)
    && (acts != [] ==> acts[|acts| - 1].at == 0.0)
    && GateAtZero(Run(acts, window), stamps, flying)
    && |Recorded(acts)| == stamps && AllZero(Recorded(acts))
  }

  lemma AtZeroCheck(acts: seq<Act>, stamps: nat, flying: nat, max: int, window: real, k: nat)
    requires window >= 0.0 && AtZero(acts, stamps, flying, max, window, k) && stamps < max && flying < k
    ensures AtZero(acts + [Check(0.0, max)], stamps, flying + 1, max, window, k)
  {
    GateSteps(Run(acts, window), stamps, flying, max, window);
    RunSnoc(acts, Check(0.0, max), window);
    OrderlySnoc(acts, Check(0.0, max), max, window, k);
  }

  lemma AtZeroRecord(acts: seq<Act>, stamps: nat, flying: nat, max: int, window: real, k: nat)
    requires window >= 0.0 && AtZero(acts, stamps, flying, max, window, k) && 0 < flying <= k
    ensures AtZero(acts + [Record(0.0)], stamps + 1, flying - 1, max, window, k)
  {
    GateSteps(Run(acts, window), stamps, flying, max, window);
    RunSnoc(acts, Record(0.0), window);
    OrderlySnoc(acts, Record(0.0), max, window, k);
  }

  lemma {:induction false} OneByOneFills(n: nat, max: int, window: real, k: nat) returns (acts: seq<Act>)
    requires window >= 0.0 && n < max && k >= 1
    ensures AtZero(acts, n, 0, max, window, k)
  {
    acts := [];
    if n > 0 {
      acts := OneByOneFills(n - 1, max, window, k);
      AtZeroCheck(acts, n - 1, 0, max, window, k);
      AtZeroRecord(acts + [Check(0.0, max)], n - 1, 1, max, window, k);
      acts := acts + [Check(0.0, max)] + [Record(0.0)];
    }
  }

  lemma {:induction false} ChecksPileUp(before: seq<Act>, n: nat, stamps: nat, max: int, window: real, k: nat)
    returns (acts: seq<Act>)
    requires window >= 0.0 && stamps < max && n <= k && AtZero(before, stamps, 0, max, window, k)
    ensures AtZero(acts, stamps, n, max, window, k)
  {
    acts := before;
    if n > 0 {
      acts := ChecksPileUp(before, n - 1, stamps, max, window, k);
      AtZeroCheck(acts, stamps, n - 1, max, window, k);
      acts := acts + [Check(0.0, max)];
    }
  }

  lemma {:induction false} RecordsLand(before: seq<Act>, n: nat, stamps: nat, flying: nat, max: int, window: real,
                                       k: nat)
    returns (acts: seq<Act>)
    requires window >= 0.0 && n <= flying <= k && AtZero(before, stamps, flying, max, window, k)
    ensures AtZero(acts, stamps + n, flying - n, max, window, k)
  {
    acts := before;
    if n > 0 {
      acts := RecordsLand(before, n - 1, stamps, flying, max, window, k);
      AtZeroRecord(acts, stamps + n - 1, flying - n + 1, max, window, k);
      acts := acts + [Record(0.0)];
    }
  }

  /** The overshoot is real: for every limit and every number of callers some
      disciplined run records exactly MAX - 1 + K entries, all at one instant. */
  lemma BoundIsReached(max: int, window: real, k: nat) returns (acts: seq<Act>)
    requires window >= 0.0 && max >= 1 && k >= 1
    ensures Orderly(acts, max, window, k) && |Recorded(acts)| == max - 1 + k && AllZero(Recorded(acts))
  {
    acts := OneByOneFills(max - 1, max, window, k);
    acts := ChecksPileUp(acts, k, max - 1, max, window, k);
    acts := RecordsLand(acts, k, max - 1, k, max, window, k);
  }

  // ---------- check-then-record limiters, all keys ----------

  datatype TableAct = On(key: string, act: Act) | ClearPrefix(prefix: string, at: real)

  function StepTable(table: map<string, seq<real>>, op: TableAct, window: real): map<string, seq<real>> {
    match op
    case On(key, Check(at, _)) => table[key := Pruned(StampsOf(table, key), at - window)]
    case On(key, Record(at)) => table[key := Pruned(StampsOf(table, key), at - window) + [at]]
    case On(key, Abandon(_)) => table
    case On(key, Clear(_)) => table - {key}
    case ClearPrefix(prefix, _) =>
      if prefix == "" then table else map k | k in table && !(prefix <= k) :: table[k]
  }

  function RunTable(ops: seq<TableAct>, window: real): map<string, seq<real>> {
    if ops == [] then map[]
    else StepTable(RunTable(ops[..|ops| - 1], window), ops[|ops| - 1], window)
  }

  /** What one key sees of a run over many: its own acts, and a clear for every
      non-empty prefix it starts with. */
  function SeenBy(ops: seq<TableAct>, key: string): seq<Act> {
    if ops == [] then []
    else
      var n := |ops| - 1;
      match SeenIn(ops[n], key)
      case Some(act) => SeenBy(ops[..n], key) + [act]
      case None => SeenBy(ops[..n], key)
  }

  /** Keys do not disturb each other, and clearing by prefix clears exactly the
      keys that start with it. */
  lemma {:induction false} TableIsPerKey(ops: seq<TableAct>, key: string, window: real)
    ensures StampsOf(RunTable(ops, window), key) == Run(SeenBy(ops, key), window).stamps
  {
    if ops != [] {
      var n := |ops| - 1;
      TableIsPerKey(ops[..n], key, window);
      var seen := SeenBy(ops[..n], key);
      StepIsPerKey(RunTable(ops[..n], window), Run(seen, window), ops[n], key, window);
      if SeenIn(ops[n], key).Some? {
        RunSnoc(seen, SeenIn(ops[n], key).value, window);
      }
    }
  }

  function SeenIn(op: TableAct, key: string): Option<Act> {
    match op
    case On(k, act) => if k == key then Some(act) else None
    case ClearPrefix(prefix, at) => if prefix != "" && prefix <= key then Some(Clear(at)) else None
  }

  lemma StepIsPerKey(table: map<string, seq<real>>, gate: Gate, op: TableAct, key: string, window: real)
    requires StampsOf(table, key) == gate.stamps
    ensures StampsOf(StepTable(table, op, window), key) ==
            if SeenIn(op, key).Some? then Step(gate, SeenIn(op, key).value, window).stamps else gate.stamps
  {
  }

  class UploadLimiter {
    var limits: map<string, seq<real>>
    var rateLimitedIps: set<string>
    var maxPerHour: int

    constructor (maxPerHour: int)
      ensures limits == map[] && rateLimitedIps == {} && this.maxPerHour == maxPerHour
    {
      limits, rateLimitedIps := map[], {};
      this.maxPerHour := maxPerHour;
    }

    /** `upload_allowed_for_ip` */
    method AllowedForIp(ip: string, now: real) returns (allowed: bool)
      modifies this
      ensures limits == StepTable(old(limits), On(ip, Check(now, maxPerHour)), UPLOAD_WINDOW)
      ensures limits == old(limits)[ip := Pruned(StampsOf(old(limits), ip), now - 3600.0)]
      ensures allowed <==> |Pruned(StampsOf(old(limits), ip), now - 3600.0)| < maxPerHour
      ensures rateLimitedIps == old(rateLimitedIps) + if allowed then {} else {ip}
      ensures maxPerHour == old(maxPerHour)
    {
      var cutoff := now - UPLOAD_WINDOW;
      var timestamps := Pruned(StampsOf(limits, ip), cutoff);
      limits := limits[ip := timestamps];
      allowed := |timestamps| < maxPerHour;
      if !allowed {
        rateLimitedIps := rateLimitedIps + {ip};
      }
    }

    /** `record_upload_for_ip` */
    method RecordForIp(ip: string, now: real)
      modifies this`limits
      ensures limits == StepTable(old(limits), On(ip, Record(now)), UPLOAD_WINDOW)
      ensures limits == old(limits)[ip := Pruned(StampsOf(old(limits), ip), now - 3600.0) + [now]]
    {
      var cutoff := now - UPLOAD_WINDOW;
      var timestamps := Pruned(StampsOf(limits, ip), cutoff);
      timestamps := timestamps + [now];
      limits := limits[ip := timestamps];
    }
  }

  class AuthLimiter {
    var limits: map<string, seq<real>>

    constructor ()
      ensures limits == map[]
    {
      limits := map[];
    }

    /** `auth_attempt_allowed` */
    method AttemptAllowed(key: string, now: real) returns (allowed: bool)
      modifies this
      ensures limits == StepTable(old(limits), On(key, Check(now, AUTH_MAX)), AUTH_WINDOW)
      ensures limits == old(limits)[key := Pruned(StampsOf(old(limits), key), now - 300.0)]
      ensures allowed <==> |Pruned(StampsOf(old(limits), key), now - 300.0)| < 8
    {
      var attempts := Pruned(StampsOf(limits, key), now - AUTH_WINDOW);
      limits := limits[key := attempts];
      allowed := |attempts| < AUTH_MAX;
    }

    /** `record_auth_failure` */
    method RecordFailure(key: string, now: real)
      modifies this
      ensures limits == StepTable(old(limits), On(key, Record(now)), AUTH_WINDOW)
      ensures limits == old(limits)[key := Pruned(StampsOf(old(limits), key), now - 300.0) + [now]]
    {
      var attempts := Pruned(StampsOf(limits, key), now - AUTH_WINDOW);
      attempts := attempts + [now];
      limits := limits[key := attempts];
    }

    /** `clear_auth_failures` */
    method ClearFailures(key: string, ghost now: real)
      modifies this
      ensures limits == StepTable(old(limits), On(key, Clear(now)), AUTH_WINDOW)
      ensures key !in limits && forall other :: other != key ==> StampsOf(limits, other) == StampsOf(old(limits), other)
    {
      limits := limits - {key};
    }

    /** `clear_auth_failures_by_prefix`: the keys are collected first and popped
        one by one; the answer is the number of keys removed. */
    method ClearByPrefix(prefix: string, ghost now: real) returns (cleared: nat)
      modifies this
      ensures limits == StepTable(old(limits), ClearPrefix(prefix, now), AUTH_WINDOW)
      ensures cleared == |old(limits)| - |limits|
      ensures forall key :: key in limits <==> key in old(limits) && !(prefix != "" && prefix <= key)
      ensures forall key :: key in limits ==> limits[key] == old(limits)[key]
    {
      if prefix == "" {
        return 0;
      }
      var keys := set key | key in limits && prefix <= key;
      limits := PopAll(limits, keys);
      assert limits == StepTable(old(limits), ClearPrefix(prefix, now), AUTH_WINDOW);
      SizeWithout(old(limits), keys, limits);
      cleared := |keys|;
    }
  }

  lemma SizeWithout(table: map<string, seq<real>>, keys: set<string>, rest: map<string, seq<real>>)
    requires keys <= table.Keys && rest.Keys == table.Keys - keys
    ensures |keys| == |table| - |rest|
  {
    assert table.Keys == keys + rest.Keys;
    assert |table| == |table.Keys| && |rest| == |rest.Keys|;
  }
}
