/**
 * The run log (`TimerLog` in rubiks.timer.js): the completed run times in
 * order, their running total, and two extremes.  The source calls the
 * extremes `fastest` and `slowest`, but its comparisons make `fastest` the
 * LARGEST positive run and `slowest` the SMALLEST non-zero run; the names
 * are kept and the meaning is what the lemmas below state.
 */
module RunLog {
  import opened Wrappers

  /** Sum of the runs, accumulated in the order they were added. */
  function Sum(s: seq<int>): int
  {
    if s == [] then 0 else Sum(s[..|s| - 1]) + s[|s| - 1]
  }

  /**
   * What `add` does to `fastest`: it is replaced when the new run compares
   * `>=` to it (a missing value compares as 0) and the setter's truthiness
   * guard lets the run through (a run of 0 is never stored).
   */
  function NextFastest(fastest: Option<int>, t: int): Option<int>
  {
    if t >= fastest.GetOr(0) && t != 0 then Some(t) else fastest
  }

  /** What `add` does to `slowest`: replaced when missing or when the run is `<=` it, unless the run is 0. */
  function NextSlowest(slowest: Option<int>, t: int): Option<int>
  {
    if (slowest.None? || t <= slowest.value) && t != 0 then Some(t) else slowest
  }

  /** `fastest` after adding the runs `s` in order to an empty log. */
  function FastestOf(s: seq<int>): Option<int>
  {
    if s == [] then None else NextFastest(FastestOf(s[..|s| - 1]), s[|s| - 1])
  }

  /** `slowest` after adding the runs `s` in order to an empty log. */
  function SlowestOf(s: seq<int>): Option<int>
  {
    if s == [] then None else NextSlowest(SlowestOf(s[..|s| - 1]), s[|s| - 1])
  }

  /** `fastest` is missing exactly when no run is positive, and otherwise it is the largest run. */
  lemma {:induction false} FastestIsLargestPositive(s: seq<int>)
    ensures FastestOf(s).None? <==> forall i :: 0 <= i < |s| ==> s[i] <= 0
    ensures FastestOf(s).Some? ==>
      FastestOf(s).value > 0 && FastestOf(s).value in s &&
      forall i :: 0 <= i < |s| ==> s[i] <= FastestOf(s).value
  {
    if s != [] {
      var init := s[..|s| - 1];
      FastestIsLargestPositive(init);
      assert forall i :: 0 <= i < |init| ==> s[i] == init[i];
      assert s == init + [s[|s| - 1]];
    }
  }

  /** `slowest` is missing exactly when every run is 0, and otherwise it is the smallest non-zero run. */
  lemma {:induction false} SlowestIsSmallestNonZero(s: seq<int>)
    ensures SlowestOf(s).None? <==> forall i :: 0 <= i < |s| ==> s[i] == 0
    ensures SlowestOf(s).Some? ==>
      SlowestOf(s).value != 0 && SlowestOf(s).value in s &&
      forall i :: 0 <= i < |s| && s[i] != 0 ==> SlowestOf(s).value <= s[i]
  {
    if s != [] {
      var init := s[..|s| - 1];
      SlowestIsSmallestNonZero(init);
      assert forall i :: 0 <= i < |init| ==> s[i] == init[i];
      assert s == init + [s[|s| - 1]];
    }
  }

  /**
   * Whether `trimmed` counts a run of value `x` in a log of `n` runs:
   * below three runs every run counts; otherwise a run counts only when it
   * differs from both extremes (a missing extreme differs from every run).
   */
  predicate Counted(n: nat, fastest: Option<int>, slowest: Option<int>, x: int)
  {
    n < 3 || (fastest != Some(x) && slowest != Some(x))
  }

  /** The runs of `s` that `trimmed` counts in a log of `n` runs, in order. */
  function KeptRuns(s: seq<int>, n: nat, fastest: Option<int>, slowest: Option<int>): seq<int>
  {
    if s == [] then []
    else
      var init := KeptRuns(s[..|s| - 1], n, fastest, slowest);
      if Counted(n, fastest, slowest, s[|s| - 1]) then init + [s[|s| - 1]] else init
  }

  /** The kept runs are at most the log's runs, and a value is kept exactly when it was added and is counted. */
  lemma {:induction false} KeptRunsMembers(s: seq<int>, n: nat, fastest: Option<int>, slowest: Option<int>)
    ensures |KeptRuns(s, n, fastest, slowest)| <= |s|
    ensures forall x :: x in KeptRuns(s, n, fastest, slowest) <==> x in s && Counted(n, fastest, slowest, x)
  {
    if s != [] {
      KeptRunsMembers(s[..|s| - 1], n, fastest, slowest);
      assert s == s[..|s| - 1] + [s[|s| - 1]];
    }
  }

  /** Extending the prefix by one run extends the kept runs by that run exactly when it is counted. */
  lemma KeptRunsStep(s: seq<int>, n: nat, fastest: Option<int>, slowest: Option<int>, i: nat)
    requires i < |s|
    ensures var k := KeptRuns(s[..i], n, fastest, slowest);
      KeptRuns(s[..i + 1], n, fastest, slowest) ==
        if Counted(n, fastest, slowest, s[i]) then k + [s[i]] else k
    ensures var k := KeptRuns(s[..i], n, fastest, slowest);
      Sum(KeptRuns(s[..i + 1], n, fastest, slowest)) ==
        if Counted(n, fastest, slowest, s[i]) then Sum(k) + s[i] else Sum(k)
  {
    assert s[..i + 1][..i] == s[..i];
    var k := KeptRuns(s[..i], n, fastest, slowest);
    assert (k + [s[i]])[..|k|] == k;
  }

  /** The result of `trimmed`: the total of the counted runs and how many there were. */
  datatype Trim = Trim(time: int, count: nat)

  /** Below three runs `trimmed` keeps every run, so it reports the log's total and count. */
  lemma {:induction false} FewRunsKeepAll(s: seq<int>, n: nat, fastest: Option<int>, slowest: Option<int>)
    requires n < 3
    ensures KeptRuns(s, n, fastest, slowest) == s
  {
    if s != [] {
      FewRunsKeepAll(s[..|s| - 1], n, fastest, slowest);
    }
  }

  /**
   * From three runs on, the exclusion is by value: every copy of either
   * extreme goes, every other run stays as often as it was added.
   */
  lemma {:induction false} KeptRunsByValue(s: seq<int>, n: nat, fastest: Option<int>, slowest: Option<int>)
    requires n >= 3
    ensures forall x :: multiset(KeptRuns(s, n, fastest, slowest))[x] ==
                        (if Some(x) == fastest || Some(x) == slowest then 0 else multiset(s)[x])
  {
    if s != [] {
      var init := s[..|s| - 1];
      KeptRunsByValue(init, n, fastest, slowest);
      assert s == init + [s[|s| - 1]];
      assert multiset(s) == multiset(init) + multiset{s[|s| - 1]};
    }
  }

  /** When no run is negative, the trimmed time never exceeds the total. */
  lemma {:induction false} TrimmedTimeBounded(s: seq<int>, n: nat, fastest: Option<int>, slowest: Option<int>)
    requires forall i :: 0 <= i < |s| ==> s[i] >= 0
    ensures 0 <= Sum(KeptRuns(s, n, fastest, slowest)) <= Sum(s)
  {
    if s != [] {
      TrimmedTimeBounded(s[..|s| - 1], n, fastest, slowest);
    }
  }

  /** From three runs on, a run that is not counted makes the kept runs shorter than the log. */
  lemma {:induction false} DroppedRunShortens(s: seq<int>, n: nat, fastest: Option<int>, slowest: Option<int>, i: nat)
    requires i < |s| && !Counted(n, fastest, slowest, s[i])
    ensures |KeptRuns(s, n, fastest, slowest)| < |s|
  {
    var init := s[..|s| - 1];
    KeptRunsMembers(init, n, fastest, slowest);
    if i < |s| - 1 {
      assert init[i] == s[i];
      DroppedRunShortens(init, n, fastest, slowest, i);
    }
  }

  /** Two runs at different positions that are not counted make the kept runs at least two shorter. */
  lemma {:induction false} TwoDroppedRunsShorten(s: seq<int>, n: nat, fastest: Option<int>, slowest: Option<int>, i: nat, j: nat)
    requires i < j < |s|
    requires !Counted(n, fastest, slowest, s[i]) && !Counted(n, fastest, slowest, s[j])
    ensures |KeptRuns(s, n, fastest, slowest)| <= |s| - 2
  {
    var init := s[..|s| - 1];
    assert init[i] == s[i];
    if j == |s| - 1 {
      DroppedRunShortens(init, n, fastest, slowest, i);
    } else {
      assert init[j] == s[j];
      TwoDroppedRunsShorten(init, n, fastest, slowest, i, j);
    }
  }

  /**
   * With at least three runs and some non-zero run, `slowest` is set and
   * every copy of it is dropped; when `fastest` is set to a different value
   * its copies go too, so the count falls by at least two.
   */
  lemma ExtremesAreDropped(s: seq<int>)
    requires |s| >= 3 && exists i :: 0 <= i < |s| && s[i] != 0
    ensures SlowestOf(s).Some?
    ensures |KeptRuns(s, |s|, FastestOf(s), SlowestOf(s))| <= |s| - 1
    ensures FastestOf(s).Some? && FastestOf(s) != SlowestOf(s) ==>
      |KeptRuns(s, |s|, FastestOf(s), SlowestOf(s))| <= |s| - 2
  {
    var f, sl := FastestOf(s), SlowestOf(s);
    FastestIsLargestPositive(s);
    SlowestIsSmallestNonZero(s);
    var i :| 0 <= i < |s| && s[i] == sl.value;
    DroppedRunShortens(s, |s|, f, sl, i);
    if f.Some? && f != sl {
      var j :| 0 <= j < |s| && s[j] == f.value;
      if i < j {
        TwoDroppedRunsShorten(s, |s|, f, sl, i, j);
      } else {
        TwoDroppedRunsShorten(s, |s|, f, sl, j, i);
      }
    }
  }

  /**
   * The log.  `times` is the source's array of runs; the closure variables
   * become the other fields.
   */
  class TimerLog {
    var fastest: Option<int>
    var slowest: Option<int>
    var times: seq<int>
    var totalTime: int

    /** Every field is what adding `times` in order to an empty log yields. */
    ghost predicate Valid()
      reads this
    {
      && totalTime == Sum(times)
      && fastest == FastestOf(times)
      && slowest == SlowestOf(times)
    }

    constructor ()
      ensures Valid() && times == []
    {
      fastest, slowest, times, totalTime := None, None, [], 0;
    }

    /** Records one run: appends it, adds it to the total and updates the extremes. */
    method Add(timeInMs: int)
      requires Valid()
      modifies this
      ensures Valid()
      ensures times == old(times) + [timeInMs]
      ensures totalTime == old(totalTime) + timeInMs
    {
      times := times + [timeInMs];
      if timeInMs >= fastest.GetOr(0) {
        if timeInMs != 0 {
          fastest := Some(timeInMs);
        }
      }
      if slowest.None? || timeInMs <= slowest.value {
        if timeInMs != 0 {
          slowest := Some(timeInMs);
        }
      }
      totalTime := totalTime + timeInMs;
      assert times[..|times| - 1] == old(times);
    }

    /** The number of runs recorded. */
    function Count(): (n: nat)
      reads this
      requires Valid()
      ensures n == |times|
    {
      |times|
    }

    /** The largest positive run, or `None` when no run is positive. */
    function Fastest(): (r: Option<int>)
      reads this
      requires Valid()
      ensures r.None? <==> forall i :: 0 <= i < |times| ==> times[i] <= 0
      ensures r.Some? ==> (r.value > 0 && r.value in times &&
                           forall i :: 0 <= i < |times| ==> times[i] <= r.value)
    {
      FastestIsLargestPositive(times);
      fastest
    }

    /** The smallest non-zero run, or `None` when every run is 0. */
    function Slowest(): (r: Option<int>)
      reads this
      requires Valid()
      ensures r.None? <==> forall i :: 0 <= i < |times| ==> times[i] == 0
      ensures r.Some? ==> (r.value != 0 && r.value in times &&
                           forall i :: 0 <= i < |times| && times[i] != 0 ==> r.value <= times[i])
    {
      SlowestIsSmallestNonZero(times);
      slowest
    }

    /** The total of all runs. */
    function TotalTime(): (r: int)
      reads this
      requires Valid()
      ensures r == Sum(times)
    {
      totalTime
    }

    /**
     * The loop of `trimmed`: totals the runs it counts.  Below three runs
     * that is every run; from three on, every run equal to neither extreme.
     */
    method Trimmed() returns (r: Trim)
      ensures r.time == Sum(KeptRuns(times, |times|, fastest, slowest))
      ensures r.count == |KeptRuns(times, |times|, fastest, slowest)|
    {
      var runs, f, sl := times, fastest, slowest;
      var time := 0;
      var count := 0;
      var i := 0;
      while i < |runs|
        invariant 0 <= i <= |runs|
        invariant time == Sum(KeptRuns(runs[..i], |runs|, f, sl))
        invariant count == |KeptRuns(runs[..i], |runs|, f, sl)|
      {
        KeptRunsStep(runs, |runs|, f, sl, i);
        if |runs| < 3 || (f != Some(runs[i]) && sl != Some(runs[i])) {
          time := time + runs[i];
          count := count + 1;
        }
        i := i + 1;
      }
      assert runs[..i] == runs;
      r := Trim(time, count);
    }
  }

  /** Fewer than three runs: `trimmed` reports the log's own total and count. */
  lemma TrimmedFewRuns(log: TimerLog)
    requires log.Valid() && log.Count() < 3
    ensures KeptRuns(log.times, |log.times|, log.fastest, log.slowest) == log.times
    ensures Sum(KeptRuns(log.times, |log.times|, log.fastest, log.slowest)) == log.TotalTime()
  {
    FewRunsKeepAll(log.times, |log.times|, log.fastest, log.slowest);
  }

  /** Runs [500, 200, 800]: the field named `fastest` holds 800 and `slowest` 200. */
  lemma InvertedNamingExample()
    ensures FastestOf([500, 200, 800]) == Some(800)
    ensures SlowestOf([500, 200, 800]) == Some(200)
  {
    assert [500, 200, 800][..2] == [500, 200];
    assert [500, 200][..1] == [500];
    assert [500][..0] == [];
  }

  /** Runs [100, 100, 500]: both copies of the extreme 100 are dropped. */
  lemma DuplicateExtremeExample()
    ensures var s := [100, 100, 500];
      KeptRuns(s, 3, FastestOf(s), SlowestOf(s)) == []
  {
    var s := [100, 100, 500];
    assert s[..2] == [100, 100];
    assert [100, 100][..1] == [100];
    assert [100][..0] == [];
    assert FastestOf(s) == Some(500) && SlowestOf(s) == Some(100);
  }

  /** Runs [300, 100, 500]: only 300 is counted; runs [100, 200]: both are. */
  lemma TrimmedExamples()
    ensures var s := [300, 100, 500];
      KeptRuns(s, 3, FastestOf(s), SlowestOf(s)) == [300]
    ensures var s := [100, 200];
      KeptRuns(s, 2, FastestOf(s), SlowestOf(s)) == [100, 200]
  {
    var s := [300, 100, 500];
    assert s[..2] == [300, 100];
    assert [300, 100][..1] == [300];
    assert [300][..0] == [];
    assert FastestOf(s) == Some(500) && SlowestOf(s) == Some(100);
    FewRunsKeepAll([100, 200], 2, FastestOf([100, 200]), SlowestOf([100, 200]));
  }
}
