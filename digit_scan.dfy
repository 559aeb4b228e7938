/** The matches of the global regular expression `/\d+/g` in a URL: every
    maximal run of ASCII digits, left to right. */
module DigitScan {

  import opened Text

  /** The digits occupying `s[start..end]`. */
  datatype Run = Run(start: nat, end: nat)

  /** `r` is a maximal run of digits of `s`: non-empty, digits only, with no
      digit just before or just after it. */
  predicate MaximalRun(s: string, r: Run) {
    && r.start < r.end <= |s|
    && (forall k :: r.start <= k < r.end ==> IsDigit(s[k]))
    && (r.start == 0 || !IsDigit(s[r.start - 1]))
    && (r.end == |s| || !IsDigit(s[r.end]))
  }

  /** Where the greedy `\d+` that starts at `i` stops. */
  function RunEnd(s: string, i: nat): (e: nat)
    requires i <= |s|
    ensures i <= e <= |s|
    ensures forall k :: i <= k < e ==> IsDigit(s[k])
    ensures e == |s| || !IsDigit(s[e])
    decreases |s| - i
  {
    if i < |s| && IsDigit(s[i]) then RunEnd(s, i + 1) else i
  }

  /** `i` does not fall inside a run: if a digit stands at `i`, none stands
      just before it. */
  predicate RunBoundary(s: string, i: nat)
    requires i <= |s|
  {
    i < |s| && IsDigit(s[i]) ==> i == 0 || !IsDigit(s[i - 1])
  }

  /** The matches `matchAll` yields once the search has reached `i`: each is a
      maximal run at or after `i`, and each ends strictly before the next
      begins. */
  function RunsFrom(s: string, i: nat): (rs: seq<Run>)
    requires i <= |s| && RunBoundary(s, i)
    ensures forall k :: 0 <= k < |rs| ==> MaximalRun(s, rs[k]) && i <= rs[k].start
    ensures forall a, b :: 0 <= a < b < |rs| ==> rs[a].end < rs[b].start
    decreases |s| - i
  {
    if i == |s| then []
    else if IsDigit(s[i]) then
      var e := RunEnd(s, i);
      var rest := RunsFrom(s, e);
      assert forall k :: 0 <= k < |rest| ==> IsDigit(s[rest[k].start]);
      [Run(i, e)] + rest
    else RunsFrom(s, i + 1)
  }

  /** All matches of the digit pattern in `s`, as runs, left to right. */
  function DigitRuns(s: string): (rs: seq<Run>)
    ensures forall k :: 0 <= k < |rs| ==> MaximalRun(s, rs[k])
    ensures forall a, b :: 0 <= a < b < |rs| ==> rs[a].end < rs[b].start
  {
    RunsFrom(s, 0)
  }

  /** Every digit at or after `i` lies in one of the runs found from `i`. */
  lemma {:induction false} RunsFromComplete(s: string, i: nat, p: nat)
    requires i <= p < |s| && IsDigit(s[p]) && RunBoundary(s, i)
    ensures exists k :: 0 <= k < |RunsFrom(s, i)|
                        && RunsFrom(s, i)[k].start <= p < RunsFrom(s, i)[k].end
    decreases |s| - i
  {
    var rs := RunsFrom(s, i);
    if IsDigit(s[i]) {
      var e := RunEnd(s, i);
      if p < e {
        assert rs[0] == Run(i, e);
      } else {
        RunsFromComplete(s, e, p);
        var k :| 0 <= k < |RunsFrom(s, e)| && RunsFrom(s, e)[k].start <= p < RunsFrom(s, e)[k].end;
        assert rs[k + 1] == RunsFrom(s, e)[k];
      }
    } else {
      RunsFromComplete(s, i + 1, p);
    }
  }

  /** The runs found are exactly the maximal digit runs of `s`: one match per
      run, none missed, none invented. */
  lemma DigitRunsExact(s: string, r: Run)
    ensures r in DigitRuns(s) <==> MaximalRun(s, r)
  {
    var rs := DigitRuns(s);
    if MaximalRun(s, r) {
      RunsFromComplete(s, 0, r.start);
      var k :| 0 <= k < |rs| && rs[k].start <= r.start < rs[k].end;
      assert rs[k].start == r.start;
      assert rs[k].end == r.end;
    }
  }
}
