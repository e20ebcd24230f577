/**
  The analytics page: the daily solving heatmap reduced from a user's judge submission
  history, the per-contest "problems solved" graph with its total, and the heatmap's colour
  classes.

  A submission counts for the day of its creation instant (UTC day, i.e. seconds divided by
  86400) when it is the first accepted (`"OK"`) submission, in list order, of its problem
  (`contestId-index`); later submissions of a solved problem change nothing.
 */
module Analytics {

  import opened Seqs
  import opened Text
  import opened Identity
  import opened Clock

  /** A submission as the judge's `user.status` call returns it; `verdict` is missing while judging. */
  datatype Submission = Submission(contestId: nat, index: string, verdict: Option<string>, creationTimeSeconds: nat)

  /** One heatmap cell: a day (days since the epoch, UTC) and the problems first solved on it. */
  datatype HeatEntry = HeatEntry(day: nat, count: nat)

  /** The verdict string of an accepted submission. */
  const AcceptedVerdict := "OK"

  predicate IsAccepted(s: Submission) {
    s.verdict == Some(AcceptedVerdict)
  }

  /** The problem a submission is for, as the page keys it: `${contestId}-${index}`. */
  function KeyOf(s: Submission): string {
    ProblemKey(s.contestId, s.index)
  }

  /** The UTC day an instant falls on: the day whose 86400 seconds contain it. */
  function DayOf(seconds: nat): (d: nat)
    ensures d * SecondsPerDay <= seconds < (d + 1) * SecondsPerDay
  {
    seconds / SecondsPerDay
  }

  // ---------------------------------------------------------------------------------------
  // The reduction as the page performs it: one pass, a set of solved keys, and the per-day
  // counters in the order their day was first seen (the key order of the counter object).

  /** The state of the pass: solved problem keys, and the counters so far. */
  datatype Tally = Tally(solved: set<string>, entries: seq<HeatEntry>)

  function IsOnDay(d: nat): HeatEntry -> bool {
    (e: HeatEntry) => e.day == d
  }

  function DayOfEntry(e: HeatEntry): nat {
    e.day
  }

  /** One step of the pass over a submission. */
  function Record(t: Tally, s: Submission): Tally {
    if IsAccepted(s) && KeyOf(s) !in t.solved then
      var d := DayOf(s.creationTimeSeconds);
      var solved := t.solved + {KeyOf(s)};
      match FindFirst(IsOnDay(d), t.entries)
      case Some(k) => Tally(solved, t.entries[k := HeatEntry(d, t.entries[k].count + 1)])
      case None => Tally(solved, t.entries + [HeatEntry(d, 1)])
    else t
  }

  /** The pass over a whole submission list, in list order. */
  function TallyOf(subs: seq<Submission>): Tally
    decreases |subs|
  {
    if |subs| == 0 then Tally({}, [])
    else Record(TallyOf(subs[..|subs| - 1]), subs[|subs| - 1])
  }

  // ---------------------------------------------------------------------------------------
  // What the pass is meant to compute, stated independently of it.

  /** Two submissions are for the same judge problem. */
  predicate SameProblem(a: Submission, b: Submission) {
    a.contestId == b.contestId && a.index == b.index
  }

  /** Submission `i` is the first accepted one of its problem. */
  ghost predicate IsFirstSolve(subs: seq<Submission>, i: nat)
    requires i < |subs|
  {
    && IsAccepted(subs[i])
    && forall j :: 0 <= j < i ==> !(IsAccepted(subs[j]) && SameProblem(subs[j], subs[i]))
  }

  /** How many submissions are first solves made on day `d`. */
  ghost function SolveCount(subs: seq<Submission>, d: nat): nat
    decreases |subs|
  {
    if |subs| == 0 then 0
    else
      var n := |subs| - 1;
      SolveCount(subs[..n], d) + if IsFirstSolve(subs, n) && DayOf(subs[n].creationTimeSeconds) == d then 1 else 0
  }

  /** The keys of all problems with an accepted submission. */
  ghost function AcceptedKeys(subs: seq<Submission>): set<string>
    decreases |subs|
  {
    if |subs| == 0 then {}
    else
      var last := subs[|subs| - 1];
      AcceptedKeys(subs[..|subs| - 1]) + if IsAccepted(last) then {KeyOf(last)} else {}
  }

  /** The problems, as (contest, index) pairs, with an accepted submission. */
  ghost function SolvedProblems(subs: seq<Submission>): set<(nat, string)>
    decreases |subs|
  {
    if |subs| == 0 then {}
    else
      var last := subs[|subs| - 1];
      SolvedProblems(subs[..|subs| - 1]) + if IsAccepted(last) then {(last.contestId, last.index)} else {}
  }

  /** A problem's key is among the accepted keys exactly when some submission for it was accepted. */
  lemma {:induction false} AcceptedKeysMember(subs: seq<Submission>, s: Submission)
    ensures KeyOf(s) in AcceptedKeys(subs) <==>
      exists j :: 0 <= j < |subs| && IsAccepted(subs[j]) && SameProblem(subs[j], s)
    ensures (s.contestId, s.index) in SolvedProblems(subs) <==>
      exists j :: 0 <= j < |subs| && IsAccepted(subs[j]) && SameProblem(subs[j], s)
    decreases |subs|
  {
    if |subs| > 0 {
      var n := |subs| - 1;
      var init := subs[..n];
      var last := subs[n];
      AcceptedKeysMember(init, s);
      if KeyOf(last) == KeyOf(s) {
        ProblemKeyInjective(last.contestId, last.index, s.contestId, s.index);
      }
      assert forall j :: 0 <= j < n ==> subs[j] == init[j];
      if exists j :: 0 <= j < |subs| && IsAccepted(subs[j]) && SameProblem(subs[j], s) {
        var j :| 0 <= j < |subs| && IsAccepted(subs[j]) && SameProblem(subs[j], s);
        if j < n {
          assert IsAccepted(init[j]) && SameProblem(init[j], s);
        }
      }
    }
  }

  /** Sum of the counts of a list of heatmap cells. */
  function Total(entries: seq<HeatEntry>): nat {
    if |entries| == 0 then 0 else Total(entries[..|entries| - 1]) + entries[|entries| - 1].count
  }

  /** Day `d` has a cell. */
  ghost predicate HasDay(entries: seq<HeatEntry>, d: nat) {
    exists k :: 0 <= k < |entries| && entries[k].day == d
  }

  /** The tally is exactly the reduction of `subs`. */
  ghost predicate Describes(t: Tally, subs: seq<Submission>) {
    && t.solved == AcceptedKeys(subs)
    && NoDupBy(DayOfEntry, t.entries)
    && (forall k :: 0 <= k < |t.entries| ==> t.entries[k].count >= 1)
    && (forall k :: 0 <= k < |t.entries| ==> t.entries[k].count == SolveCount(subs, t.entries[k].day))
    && (forall d: nat :: !HasDay(t.entries, d) ==> SolveCount(subs, d) == 0)
    && Total(t.entries) == |t.solved|
  }

  // ---------------------------------------------------------------------------------------
  // Proof that the pass computes it.

  lemma TotalAppend(entries: seq<HeatEntry>, e: HeatEntry)
    ensures Total(entries + [e]) == Total(entries) + e.count
  {
    assert (entries + [e])[..|entries|] == entries;
  }

  /** Replacing one cell changes the total by the difference of the two counts. */
  lemma {:induction false} TotalUpdate(entries: seq<HeatEntry>, k: nat, e: HeatEntry)
    requires k < |entries|
    ensures Total(entries[k := e]) == Total(entries) - entries[k].count + e.count
    decreases |entries|
  {
    var updated := entries[k := e];
    var n := |entries| - 1;
    if k == n {
      assert updated[..n] == entries[..n];
    } else {
      assert updated[..n] == entries[..n][k := e];
      TotalUpdate(entries[..n], k, e);
    }
  }

  /** Whether the appended submission is a first solve. */
  lemma FirstSolveAppend(subs: seq<Submission>, s: Submission)
    ensures IsFirstSolve(subs + [s], |subs|) <==> IsAccepted(s) && KeyOf(s) !in AcceptedKeys(subs)
  {
    var all := subs + [s];
    var n := |subs|;
    assert all[n] == s;
    AcceptedKeysMember(subs, s);
    assert forall j :: 0 <= j < n ==> all[j] == subs[j];
  }

  /** Appending a submission adds its key to the accepted keys exactly when it is accepted. */
  lemma AcceptedKeysAppend(subs: seq<Submission>, s: Submission)
    ensures AcceptedKeys(subs + [s]) == AcceptedKeys(subs) + (if IsAccepted(s) then {KeyOf(s)} else {})
  {
    assert (subs + [s])[..|subs|] == subs;
  }

  /** Appending a submission counts it on its own day when it is a first solve. */
  lemma SolveCountAppend(subs: seq<Submission>, s: Submission, d: nat)
    ensures SolveCount(subs + [s], d) == SolveCount(subs, d)
      + (if IsFirstSolve(subs + [s], |subs|) && DayOf(s.creationTimeSeconds) == d then 1 else 0)
  {
    assert (subs + [s])[..|subs|] == subs;
  }

  /** A submission that is not a first solve leaves the tally, and what it describes, as they were. */
  lemma RecordSkip(t: Tally, subs: seq<Submission>, s: Submission)
    requires Describes(t, subs)
    requires !IsFirstSolve(subs + [s], |subs|)
    ensures Describes(Record(t, s), subs + [s])
  {
    FirstSolveAppend(subs, s);
    AcceptedKeysAppend(subs, s);
    assert Record(t, s) == t;
    forall e: nat
      ensures SolveCount(subs + [s], e) == SolveCount(subs, e)
    {
      SolveCountAppend(subs, s, e);
    }
  }

  /** A first solve on a day that already has a cell increments that cell. */
  lemma RecordBump(t: Tally, subs: seq<Submission>, s: Submission, k: nat)
    requires Describes(t, subs)
    requires IsFirstSolve(subs + [s], |subs|)
    requires FindFirst(IsOnDay(DayOf(s.creationTimeSeconds)), t.entries) == Some(k)
    ensures Describes(Record(t, s), subs + [s])
  {
    var all := subs + [s];
    var d := DayOf(s.creationTimeSeconds);
    var e := HeatEntry(d, t.entries[k].count + 1);
    var entries := t.entries[k := e];
    FirstSolveAppend(subs, s);
    AcceptedKeysAppend(subs, s);
    assert Record(t, s) == Tally(t.solved + {KeyOf(s)}, entries);
    assert t.entries[k].day == d;
    assert Total(entries) == Total(t.entries) + 1 by {
      TotalUpdate(t.entries, k, e);
    }
    BumpCounts(t, subs, s, k);
    UpdateKeepsDistinctDays(t.entries, k, e);
  }

  /** The per-day facts of `Describes` after a first solve bumps the cell of its day. */
  lemma {:induction false} BumpCounts(t: Tally, subs: seq<Submission>, s: Submission, k: nat)
    requires Describes(t, subs)
    requires IsFirstSolve(subs + [s], |subs|)
    requires k < |t.entries| && t.entries[k].day == DayOf(s.creationTimeSeconds)
    ensures var entries := t.entries[k := HeatEntry(t.entries[k].day, t.entries[k].count + 1)];
      && (forall j :: 0 <= j < |entries| ==> entries[j].count == SolveCount(subs + [s], entries[j].day))
      && (forall e: nat :: !HasDay(entries, e) ==> SolveCount(subs + [s], e) == 0)
  {
    var all := subs + [s];
    var d := t.entries[k].day;
    var entries := t.entries[k := HeatEntry(d, t.entries[k].count + 1)];
    SolveCountAppend(subs, s, d);
    forall e: nat | e != d
      ensures SolveCount(all, e) == SolveCount(subs, e)
    {
      SolveCountAppend(subs, s, e);
    }
    assert forall j :: 0 <= j < |entries| ==> entries[j].day == t.entries[j].day;
    assert DayOfEntry(t.entries[k]) == d;
  }

  /** Replacing a cell by one for the same day keeps the days pairwise distinct. */
  lemma UpdateKeepsDistinctDays(entries: seq<HeatEntry>, k: nat, e: HeatEntry)
    requires NoDupBy(DayOfEntry, entries)
    requires k < |entries| && e.day == entries[k].day
    ensures NoDupBy(DayOfEntry, entries[k := e])
  {
    var updated := entries[k := e];
    forall i, j | 0 <= i < j < |updated|
      ensures DayOfEntry(updated[i]) != DayOfEntry(updated[j])
    {
      assert DayOfEntry(entries[i]) != DayOfEntry(entries[j]);
    }
  }

  /** A first solve on a day without a cell opens a cell with count 1 at the end. */
  lemma RecordOpen(t: Tally, subs: seq<Submission>, s: Submission)
    requires Describes(t, subs)
    requires IsFirstSolve(subs + [s], |subs|)
    requires FindFirst(IsOnDay(DayOf(s.creationTimeSeconds)), t.entries).None?
    ensures Describes(Record(t, s), subs + [s])
  {
    var all := subs + [s];
    var d := DayOf(s.creationTimeSeconds);
    FirstSolveAppend(subs, s);
    AcceptedKeysAppend(subs, s);
    SolveCountAppend(subs, s, d);
    var entries := t.entries + [HeatEntry(d, 1)];
    assert Record(t, s) == Tally(t.solved + {KeyOf(s)}, entries);
    assert !HasDay(t.entries, d);
    assert SolveCount(all, d) == 1;
    TotalAppend(t.entries, HeatEntry(d, 1));
    forall j | 0 <= j < |entries|
      ensures entries[j].count == SolveCount(all, entries[j].day)
    {
      if j < |t.entries| {
        assert entries[j] == t.entries[j];
        SolveCountAppend(subs, s, t.entries[j].day);
      }
    }
    forall e: nat | !HasDay(entries, e)
      ensures SolveCount(all, e) == 0
    {
      assert entries[|t.entries|].day == d;
      SolveCountAppend(subs, s, e);
    }
    assert NoDupBy(DayOfEntry, entries) by {
      forall i, j | 0 <= i < j < |entries|
        ensures DayOfEntry(entries[i]) != DayOfEntry(entries[j])
      {
        if j < |t.entries| {
          assert DayOfEntry(t.entries[i]) != DayOfEntry(t.entries[j]);
        } else {
          assert entries[i] == t.entries[i];
        }
      }
    }
  }

  /** One step of the pass keeps the tally describing the submissions seen so far. */
  lemma RecordPreserves(t: Tally, subs: seq<Submission>, s: Submission)
    requires Describes(t, subs)
    ensures Describes(Record(t, s), subs + [s])
  {
    if !IsFirstSolve(subs + [s], |subs|) {
      RecordSkip(t, subs, s);
    } else {
      match FindFirst(IsOnDay(DayOf(s.creationTimeSeconds)), t.entries)
      case Some(k) => RecordBump(t, subs, s, k);
      case None => RecordOpen(t, subs, s);
    }
  }

  /** The pass computes the reduction. */
  lemma {:induction false} TallyDescribes(subs: seq<Submission>)
    ensures Describes(TallyOf(subs), subs)
    decreases |subs|
  {
    if |subs| > 0 {
      var init := subs[..|subs| - 1];
      TallyDescribes(init);
      assert init + [subs[|subs| - 1]] == subs;
      RecordPreserves(TallyOf(init), init, subs[|subs| - 1]);
    }
  }

  // ---------------------------------------------------------------------------------------
  // The heatmap and its properties.

  /**
    The heatmap data: one cell per day on which some problem was first solved, in the order the
    days were first reached, counting the problems first solved that day; the counts add up to
    the number of problems solved.
   */
  function Heatmap(subs: seq<Submission>): (r: seq<HeatEntry>)
    ensures NoDupBy(DayOfEntry, r)
    ensures forall k :: 0 <= k < |r| ==> r[k].count >= 1
    ensures forall k :: 0 <= k < |r| ==> r[k].count == SolveCount(subs, r[k].day)
    ensures forall d: nat :: SolveCount(subs, d) > 0 ==> HasDay(r, d)
    ensures Total(r) == |AcceptedKeys(subs)|
  {
    TallyDescribes(subs);
    TallyOf(subs).entries
  }

  /** The counts add up to the number of distinct problems, as (contest, index) pairs, ever accepted. */
  lemma {:induction false} HeatmapTotalIsSolvedProblems(subs: seq<Submission>)
    ensures Total(Heatmap(subs)) == |SolvedProblems(subs)|
  {
    AcceptedKeysMatchProblems(subs);
  }

  /** Keys and (contest, index) pairs identify problems alike, so there are as many of each. */
  lemma {:induction false} AcceptedKeysMatchProblems(subs: seq<Submission>)
    ensures |AcceptedKeys(subs)| == |SolvedProblems(subs)|
    decreases |subs|
  {
    if |subs| > 0 {
      var n := |subs| - 1;
      var init := subs[..n];
      var s := subs[n];
      AcceptedKeysMatchProblems(init);
      AcceptedKeysMember(init, s);
      if IsAccepted(s) {
        if KeyOf(s) in AcceptedKeys(init) {
          assert AcceptedKeys(subs) == AcceptedKeys(init);
          assert SolvedProblems(subs) == SolvedProblems(init);
        } else {
          assert |AcceptedKeys(subs)| == |AcceptedKeys(init)| + 1;
          assert |SolvedProblems(subs)| == |SolvedProblems(init)| + 1;
        }
      }
    }
  }

  /** A submission for a problem already accepted earlier leaves the heatmap as it was. */
  lemma LaterSubmissionIgnored(subs: seq<Submission>, s: Submission)
    requires KeyOf(s) in AcceptedKeys(subs)
    ensures Heatmap(subs + [s]) == Heatmap(subs)
  {
    TallyDescribes(subs);
    assert (subs + [s])[..|subs|] == subs;
  }

  function AcceptedTest(): Submission -> bool {
    (s: Submission) => IsAccepted(s)
  }

  /** Only accepted submissions matter: dropping all others leaves the whole reduction unchanged. */
  lemma {:induction false} OnlyAcceptedCount(subs: seq<Submission>)
    ensures TallyOf(Filter(AcceptedTest(), subs)) == TallyOf(subs)
    ensures Heatmap(Filter(AcceptedTest(), subs)) == Heatmap(subs)
    decreases |subs|
  {
    if |subs| > 0 {
      var n := |subs| - 1;
      var init := subs[..n];
      var s := subs[n];
      assert subs == init + [s];
      OnlyAcceptedCount(init);
      FilterAppend(AcceptedTest(), init, [s]);
      var kept := Filter(AcceptedTest(), init);
      if IsAccepted(s) {
        assert Filter(AcceptedTest(), [s]) == [s];
        assert (kept + [s])[..|kept|] == kept;
      } else {
        assert Filter(AcceptedTest(), [s]) == [];
        assert kept + [] == kept;
      }
    }
  }

  // ---------------------------------------------------------------------------------------
  // The "problems solved over time" graph.

  /** A graph point: the contest's position counted from 1, and the number solved in it. */
  datatype GraphPoint = GraphPoint(index: nat, value: int)

  /** `problems.map((value, index) => ({ index: index + 1, value }))`. */
  function GraphPoints(values: seq<int>): (r: seq<GraphPoint>)
    ensures |r| == |values|
    ensures forall k :: 0 <= k < |r| ==> r[k].index == k + 1 && r[k].value == values[k]
  {
    seq(|values|, k requires 0 <= k < |values| => GraphPoint(k + 1, values[k]))
  }

  /** The values a list of graph points plots. */
  function Plotted(points: seq<GraphPoint>): seq<int> {
    seq(|points|, k requires 0 <= k < |points| => points[k].value)
  }

  /** `problems.reduce((acc, curr) => acc + curr, acc)`, folding from the left. */
  function Reduce(acc: int, values: seq<int>): int
    decreases |values|
  {
    if |values| == 0 then acc else Reduce(acc + values[0], values[1..])
  }

  /** The "Total Problems Solved" figure. */
  function TotalSolved(values: seq<int>): int {
    Reduce(0, values)
  }

  lemma {:induction false} ReduceIsSum(acc: int, values: seq<int>)
    ensures Reduce(acc, values) == acc + Sum(values)
    decreases |values|
  {
    if |values| > 0 {
      ReduceIsSum(acc + values[0], values[1..]);
      assert values == [values[0]] + values[1..];
      SumAppend([values[0]], values[1..]);
      assert Sum([values[0]]) == values[0] by {
        assert [values[0]][..0] == [];
      }
    }
  }

  /**
    The graph numbers its points from 1 and plots every value in order, and the reported total
    is the sum of the plotted values.
   */
  lemma PlottedTotal(values: seq<int>)
    ensures forall k :: 0 <= k < |GraphPoints(values)| ==> GraphPoints(values)[k].index == k + 1
    ensures Plotted(GraphPoints(values)) == values
    ensures TotalSolved(values) == Sum(Plotted(GraphPoints(values)))
  {
    ReduceIsSum(0, values);
  }

  // ---------------------------------------------------------------------------------------
  // Heatmap colours.

  const EmptyClass := "color-empty"
  const ScalePrefix := "color-scale-"

  /** The darkest shade. */
  const MaxShade := 4

  /**
    `classForValue`: no value gives the empty class; otherwise the shade is the count, capped
    at 4 (`Math.min(value.count, 4)`).
   */
  function ClassForValue(v: Option<HeatEntry>): (r: string)
    ensures v.None? <==> r == EmptyClass
    ensures v.Some? ==> |r| == |ScalePrefix| + 1 && r[..|ScalePrefix|] == ScalePrefix
    ensures v.Some? ==> var shade := r[|ScalePrefix|] as int - '0' as int;
      0 <= shade <= MaxShade && (v.value.count <= MaxShade ==> shade == v.value.count)
      && (v.value.count >= MaxShade ==> shade == MaxShade)
  {
    match v
    case None => EmptyClass
    case Some(e) =>
      var shade := if e.count < MaxShade then e.count else MaxShade;
      var digits := NatToString(shade);
      assert digits == [('0' as int + shade) as char];
      var r := ScalePrefix + digits;
      assert r[..|ScalePrefix|] == ScalePrefix;
      assert r != EmptyClass by {
        assert |r| != |EmptyClass|;
      }
      r
  }

  /** Every heatmap cell is coloured, with a shade between 1 and 4. */
  lemma HeatmapShades(subs: seq<Submission>)
    ensures forall k :: 0 <= k < |Heatmap(subs)| ==>
      var r := ClassForValue(Some(Heatmap(subs)[k]));
      r != EmptyClass && '1' <= r[|ScalePrefix|] <= '4'
  {
  }
}
