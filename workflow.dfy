/** A multi-step process: steps with a three-state lifecycle (pending,
    started, complete), collected in an ordered sequence with a pointer to
    the current step, and the aggregate queries over that sequence. */
module Workflow {
  import opened Wrappers
  import Decimal

  // The three status labels a step reports.
  const PENDING: string := "pending"
  const STARTED: string := "started"
  const COMPLETE: string := "complete"

  /** The values a step's data bag may hold. The process never looks inside
      them; they only travel into the keyed object built by `ToObject`. */
  datatype Json =
    | Null
    | Bool(b: bool)
    | Num(n: int)
    | Str(s: string)
    | Arr(items: seq<Json>)
    | Obj(fields: map<string, Json>)

  /** One unit of work. Its flags change in place through its three mutators. */
  class ProcessStep {
    const id: string
    const title: string
    var isStarted: bool
    var isComplete: bool
    var data: map<string, Json>

    /** A fresh step has both flags down, an empty data bag and reports "pending". */
    constructor (id: string, title: string)
      ensures this.id == id && this.title == title
      ensures !isStarted && !isComplete && data == map[]
      ensures StatusString() == PENDING
    {
      this.id := id;
      this.title := title;
      isStarted := false;
      isComplete := false;
      data := map[];
    }

    /** Raises `isStarted` and leaves completion alone. */
    method Started()
      modifies this`isStarted
      ensures isStarted && isComplete == old(isComplete)
      ensures StatusString() == if old(isComplete) then COMPLETE else STARTED
    {
      isStarted := true;
    }

    /** Raises both flags; the new state does not depend on the old one, so a
        second call changes nothing. */
    method Complete()
      modifies this`isStarted, this`isComplete
      ensures isStarted && isComplete
      ensures StatusString() == COMPLETE
    {
      isStarted := true;
      isComplete := true;
    }

    /** Lowers `isComplete` and leaves `isStarted` alone, so a step that was
        complete goes back to "started". */
    method NotComplete()
      modifies this`isComplete
      ensures !isComplete && isStarted == old(isStarted)
      ensures StatusString() == if old(isStarted) then STARTED else PENDING
    {
      isComplete := false;
    }

    /** The status label: completion takes priority over having started. The
        three labels partition the four flag combinations. */
    function StatusString(): (r: string)
      reads this
      ensures r == COMPLETE <==> isComplete
      ensures r == STARTED <==> isStarted && !isComplete
      ensures r == PENDING <==> !isStarted && !isComplete
    {
      if isComplete then COMPLETE
      else if isStarted then STARTED
      else PENDING
    }
  }

  /** No step reference occurs twice. */
  predicate Distinct(s: seq<ProcessStep>)
  {
    forall i, j :: 0 <= i < j < |s| ==> s[i] != s[j]
  }

  /** `s` with `x` inserted before position `pos` when that is an index of
      `s`, and appended otherwise. */
  function Insert(s: seq<ProcessStep>, x: ProcessStep, pos: int): (r: seq<ProcessStep>)
    ensures var at := if 0 <= pos < |s| then pos else |s|;
      && |r| == |s| + 1
      && r[at] == x
      && (forall i :: 0 <= i < at ==> r[i] == s[i])
      && (forall i :: at <= i < |s| ==> r[i + 1] == s[i])
  {
    if 0 <= pos < |s| then s[..pos] + [x] + s[pos..] else s + [x]
  }

  /** The step sequence after adding `x`: a step already present (by
      reference) is not added again. */
  function AddedSteps(s: seq<ProcessStep>, x: ProcessStep, pos: int): seq<ProcessStep>
  {
    if x in s then s else Insert(s, x, pos)
  }

  /** Inserting adds exactly one occurrence of `x` and keeps every other step. */
  lemma InsertMultiset(s: seq<ProcessStep>, x: ProcessStep, pos: int)
    ensures multiset(Insert(s, x, pos)) == multiset(s) + multiset{x}
  {
    if 0 <= pos < |s| {
      assert s == s[..pos] + s[pos..];
    }
  }

  /** Inserting a step that is not there yet keeps the steps distinct. */
  lemma InsertDistinct(s: seq<ProcessStep>, x: ProcessStep, pos: int)
    requires Distinct(s) && x !in s
    ensures Distinct(Insert(s, x, pos))
  {
    var r := Insert(s, x, pos);
    var at := if 0 <= pos < |s| then pos else |s|;
    forall i, j | 0 <= i < j < |r| ensures r[i] != r[j] {
      var si := if i < at then i else i - 1;
      var sj := if j < at then j else j - 1;
      if i == at {
        assert r[j] == s[sj];
      } else if j == at {
        assert r[i] == s[si];
      } else {
        assert r[i] == s[si] && r[j] == s[sj] && si < sj;
      }
    }
  }

  /** Adding keeps the sequence free of duplicates, always leaves `x` in it,
      drops nothing and adds nothing but `x`. */
  lemma AddedStepsContents(s: seq<ProcessStep>, x: ProcessStep, pos: int)
    ensures x in AddedSteps(s, x, pos)
    ensures forall y :: y in AddedSteps(s, x, pos) <==> y in s || y == x
    ensures x in s ==> AddedSteps(s, x, pos) == s
    ensures x !in s ==> multiset(AddedSteps(s, x, pos)) == multiset(s) + multiset{x}
    ensures Distinct(s) ==> Distinct(AddedSteps(s, x, pos))
  {
    if x !in s {
      InsertMultiset(s, x, pos);
      var r := Insert(s, x, pos);
      assert forall y :: y in r <==> y in multiset(r);
      if Distinct(s) {
        InsertDistinct(s, x, pos);
      }
    }
  }

  /** Adding the same step a second time changes nothing, whatever position
      is asked for. */
  lemma AddedStepsIdempotent(s: seq<ProcessStep>, x: ProcessStep, p: int, q: int)
    ensures AddedSteps(AddedSteps(s, x, p), x, q) == AddedSteps(s, x, p)
  {
    AddedStepsContents(s, x, p);
  }

  /** Index of the first step whose id is `id`, or `|s|` when none has it. */
  function FirstIndexOfId(s: seq<ProcessStep>, id: string): (k: nat)
    ensures k <= |s|
    ensures forall j :: 0 <= j < k ==> s[j].id != id
    ensures k < |s| ==> s[k].id == id
    decreases |s|
  {
    if s == [] then 0
    else if s[0].id == id then 0
    else 1 + FirstIndexOfId(s[1..], id)
  }

  /** Indices of the complete steps: the reference definition of the count. */
  ghost function CompleteIndices(s: seq<ProcessStep>): set<int>
    reads s
  {
    set i | 0 <= i < |s| && s[i].isComplete
  }

  lemma CompleteIndicesSnoc(s: seq<ProcessStep>)
    requires s != []
    ensures var n := |s| - 1;
      CompleteIndices(s) == CompleteIndices(s[..n]) + (if s[n].isComplete then {n} else {})
  {
    var n := |s| - 1;
    var p := s[..n];
    forall i ensures i in CompleteIndices(s) <==> i in CompleteIndices(p) + (if s[n].isComplete then {n} else {}) {
      if 0 <= i < n { assert p[i] == s[i]; }
    }
  }

  /** The complete steps, in order (the `filter` on `isComplete`). Its length
      is the number of indices holding a complete step. */
  function Completed(s: seq<ProcessStep>): (r: seq<ProcessStep>)
    reads s
    ensures |r| <= |s|
    decreases |s|
  {
    if s == [] then []
    else
      var n := |s| - 1;
      assert s == s[..n] + [s[n]];
      Completed(s[..n]) + (if s[n].isComplete then [s[n]] else [])
  }

  /** `Completed` keeps exactly the complete steps. */
  lemma {:induction false} CompletedMembers(s: seq<ProcessStep>)
    ensures forall x | x in Completed(s) :: x in s && x.isComplete
    ensures forall i | 0 <= i < |s| && s[i].isComplete :: s[i] in Completed(s)
    decreases |s|
  {
    if s != [] {
      var n := |s| - 1;
      CompletedMembers(s[..n]);
      assert s == s[..n] + [s[n]];
    }
  }

  /** Counting the complete steps counts the positions that hold one. */
  lemma {:induction false} CompletedCountsIndices(s: seq<ProcessStep>)
    ensures |Completed(s)| == |CompleteIndices(s)|
    decreases |s|
  {
    if s != [] {
      var n := |s| - 1;
      CompletedCountsIndices(s[..n]);
      CompleteIndicesSnoc(s);
    }
  }

  /** The steps that are not complete, in order. Together with `Completed`
      they account for every step exactly once. */
  function Incomplete(s: seq<ProcessStep>): (r: seq<ProcessStep>)
    reads s
    ensures |r| + |Completed(s)| == |s|
    decreases |s|
  {
    if s == [] then []
    else
      var n := |s| - 1;
      assert s == s[..n] + [s[n]];
      Incomplete(s[..n]) + (if s[n].isComplete then [] else [s[n]])
  }

  /** Every step is complete exactly when all of them are counted as complete. */
  lemma {:induction false} AllCompleteIff(s: seq<ProcessStep>)
    ensures |Completed(s)| == |s| <==> forall i :: 0 <= i < |s| ==> s[i].isComplete
    decreases |s|
  {
    if s != [] {
      var n := |s| - 1;
      var p := s[..n];
      AllCompleteIff(p);
      var all := forall i :: 0 <= i < |s| ==> s[i].isComplete;
      var allP := forall i :: 0 <= i < |p| ==> p[i].isComplete;
      assert all <==> allP && s[n].isComplete by {
        assert forall i :: 0 <= i < n ==> p[i] == s[i];
      }
      assert |Completed(s)| == |Completed(p)| + (if s[n].isComplete then 1 else 0);
      assert |Completed(p)| <= n;
    }
  }

  /** The ids of the complete steps, in order (the `filter` then `map`). */
  function CompletedIds(s: seq<ProcessStep>): (r: seq<string>)
    reads s
    ensures |r| == |Completed(s)|
    ensures forall x :: x in r <==> exists i :: 0 <= i < |s| && s[i].isComplete && s[i].id == x
    ensures |r| == 0 <==> forall i :: 0 <= i < |s| ==> !s[i].isComplete
  {
    var c := Completed(s);
    CompletedMembers(s);
    var r := seq(|c|, i requires 0 <= i < |c| => c[i].id);
    assert forall x :: x in r ==> exists i :: 0 <= i < |s| && s[i].isComplete && s[i].id == x by {
      forall x | x in r ensures exists i :: 0 <= i < |s| && s[i].isComplete && s[i].id == x {
        var j :| 0 <= j < |r| && r[j] == x;
        assert c[j] in c;
        assert c[j] in s;
        var i :| 0 <= i < |s| && s[i] == c[j];
      }
    }
    assert forall x :: (exists i :: 0 <= i < |s| && s[i].isComplete && s[i].id == x) ==> x in r by {
      forall x | exists i :: 0 <= i < |s| && s[i].isComplete && s[i].id == x ensures x in r {
        var i :| 0 <= i < |s| && s[i].isComplete && s[i].id == x;
        assert s[i] in c;
        var j :| 0 <= j < |c| && c[j] == s[i];
        assert r[j] == x;
      }
    }
    assert |r| == 0 ==> forall i :: 0 <= i < |s| ==> !s[i].isComplete by {
      forall i | 0 <= i < |s| && s[i].isComplete ensures s[i].id in r {
        assert s[i] in c;
        var j :| 0 <= j < |c| && c[j] == s[i];
        assert r[j] == s[i].id;
      }
    }
    assert |r| > 0 ==> c[0] in s && c[0].isComplete by {
      if |r| > 0 { assert c[0] in c; }
    }
    r
  }

  /** The object built in keyed mode: starting from `acc`, each step's id is
      set to that step's data, in sequence order. */
  function Keyed(acc: map<string, Json>, s: seq<ProcessStep>): map<string, Json>
    reads s
    decreases |s|
  {
    if s == [] then acc
    else
      var last := s[|s| - 1];
      Keyed(acc, s[..|s| - 1])[last.id := Obj(last.data)]
  }

  /** Index of the last step whose id is `id`, if any. */
  function LastIndexOfId(s: seq<ProcessStep>, id: string): (r: Option<nat>)
    ensures r.None? <==> forall i :: 0 <= i < |s| ==> s[i].id != id
    ensures r.Some? ==> r.value < |s| && s[r.value].id == id
    ensures r.Some? ==> forall j :: r.value < j < |s| ==> s[j].id != id
    decreases |s|
  {
    if s == [] then None
    else if s[|s| - 1].id == id then Some(|s| - 1)
    else
      var p := s[..|s| - 1];
      assert forall i :: 0 <= i < |p| ==> p[i] == s[i];
      LastIndexOfId(p, id)
  }

  /** In keyed mode every step id maps to the data of the LAST step with that
      id; every other key keeps the value it had in `acc`; no other key appears. */
  lemma {:induction false} KeyedLookup(acc: map<string, Json>, s: seq<ProcessStep>, k: string)
    ensures LastIndexOfId(s, k).Some? ==>
      k in Keyed(acc, s) && Keyed(acc, s)[k] == Obj(s[LastIndexOfId(s, k).value].data)
    ensures LastIndexOfId(s, k).None? ==>
      (k in Keyed(acc, s) <==> k in acc) && (k in acc ==> Keyed(acc, s)[k] == acc[k])
    decreases |s|
  {
    if s != [] {
      var n := |s| - 1;
      var p := s[..n];
      if s[n].id != k {
        KeyedLookup(acc, p, k);
        assert forall i :: 0 <= i < |p| ==> p[i] == s[i];
      }
    }
  }

  /** The aggregate: an ordered sequence of step references and a pointer to
      the current one. */
  class Process {
    const id: string
    const title: string
    const ordered: bool
    var steps: seq<ProcessStep>
    var currentStep: ProcessStep?

    /** Steps occur once each, and the current step is one of them; it is
        absent only while there are no steps. */
    ghost predicate Valid()
      reads this
    {
      && Distinct(steps)
      && (currentStep == null <==> steps == [])
      && (currentStep != null ==> currentStep in steps)
    }

    constructor (id: string, title: string, ordered: bool)
      ensures this.id == id && this.title == title && this.ordered == ordered
      ensures steps == [] && currentStep == null
      ensures Valid()
    {
      this.id := id;
      this.title := title;
      this.ordered := ordered;
      steps := [];
      currentStep := null;
    }

    /** Adds `step` unless it is already there, then makes it current when
        asked to or when it is the only step. Returns the step it was given. */
    method AddStep(step: ProcessStep, pos: int, active: bool) returns (r: ProcessStep)
      modifies this
      ensures r == step
      ensures steps == AddedSteps(old(steps), step, pos)
      ensures currentStep == if active || |steps| == 1 then step else old(currentStep)
      ensures old(Valid()) ==> Valid()
    {
      AddedStepsContents(steps, step, pos);
      if step !in steps {
        if -1 < pos < |steps| {
          steps := steps[..pos] + [step] + steps[pos..];
        } else {
          steps := steps + [step];
        }
      }
      if active || |steps| == 1 {
        currentStep := step;
      }
      r := step;
    }

    /** The first step, in sequence order, whose id is `id`; null when none has it. */
    function GetStep(id: string): (r: ProcessStep?)
      reads this
      ensures r == null <==> forall i :: 0 <= i < |steps| ==> steps[i].id != id
      ensures r != null ==> r.id == id
      ensures r != null ==>
        exists k :: 0 <= k < |steps| && steps[k] == r && forall j :: 0 <= j < k ==> steps[j].id != id
    {
      var k := FirstIndexOfId(steps, id);
      if k < |steps| then steps[k] else null
    }

    /** The number of steps: every step is counted once, as complete or as not complete. */
    function TotalSteps(): (n: nat)
      reads this, steps
      ensures n == |Completed(steps)| + |Incomplete(steps)|
    {
      |steps|
    }

    /** The number of complete steps: the number of positions holding one. */
    function StepsComplete(): (r: nat)
      reads this, steps
      ensures r == |CompleteIndices(steps)| <= TotalSteps()
    {
      CompletedCountsIndices(steps);
      |Completed(steps)|
    }

    /** The number of steps not complete: what the complete ones leave over. */
    function StepsRemaining(): (r: nat)
      reads this, steps
      ensures r + StepsComplete() == TotalSteps()
    {
      |Incomplete(steps)|
    }

    /** True exactly when every step is complete (so also with no steps). */
    function AllStepsComplete(): (r: bool)
      reads this, steps
      ensures r <==> forall i :: 0 <= i < |steps| ==> steps[i].isComplete
    {
      AllCompleteIff(steps);
      StepsComplete() == TotalSteps()
    }

    /** False for an absent or empty list of ids; otherwise true exactly when
        some step is complete and every id listed is the id of a complete step. */
    function AreTheseStepsComplete(ids: Option<seq<string>>): (r: bool)
      reads this, steps
      ensures r <==>
        && ids.Some? && |ids.value| > 0
        && (exists i :: 0 <= i < |steps| && steps[i].isComplete)
        && (forall k :: 0 <= k < |ids.value| ==>
              exists i :: 0 <= i < |steps| && steps[i].isComplete && steps[i].id == ids.value[k])
    {
      if ids.Some? && |ids.value| > 0 then
        var completedStepIds := CompletedIds(steps);
        if |completedStepIds| == 0 then
          false
        else
          assert completedStepIds[0] in completedStepIds;
          var every := forall id <- ids.value :: id in completedStepIds;
          assert every <==> forall k :: 0 <= k < |ids.value| ==> ids.value[k] in completedStepIds;
          every
      else
        false
    }

    /** The completion percentage, rounded half up, followed by '%'. */
    function PercentComplete(): (r: string)
      reads this, steps
      requires TotalSteps() > 0
      ensures |r| >= 2 && r[|r| - 1] == '%'
      ensures var digits := r[..|r| - 1];
        && (forall i :: 0 <= i < |digits| ==> Decimal.IsDigit(digits[i]))
        && (|digits| > 1 ==> digits[0] != '0')
        && var p := Decimal.Value(digits);
        && p <= 100
        && 2 * TotalSteps() * p <= 200 * StepsComplete() + TotalSteps() < 2 * TotalSteps() * (p + 1)
    {
      var p := RoundedPercent(StepsComplete(), TotalSteps());
      var digits := Decimal.Show(p);
      Decimal.ValueOfShow(p);
      assert (digits + "%")[..|digits|] == digits;
      digits + "%"
    }

    /** Keyed mode of the source's object export: starting from the wrapper
        (or an empty object), each step's id is set to its data. */
    method ToObject(wrapper: Option<map<string, Json>>) returns (obj: map<string, Json>)
      ensures obj == Keyed(wrapper.GetOr(map[]), steps)
    {
      obj := wrapper.GetOr(map[]);
      var i := 0;
      while i < |steps|
        invariant 0 <= i <= |steps|
        invariant obj == Keyed(wrapper.GetOr(map[]), steps[..i])
      {
        var step := steps[i];
        assert steps[..i + 1][..i] == steps[..i];
        obj := obj[step.id := Obj(step.data)];
        i := i + 1;
      }
      assert steps[..i] == steps;
    }
  }

  /** `100 * c / n` rounded to the nearest integer, halves rounded up. */
  function RoundedPercent(c: nat, n: nat): (r: nat)
    requires 0 < n && c <= n
    ensures r <= 100
    ensures 2 * n * r <= 200 * c + n < 2 * n * (r + 1)
    ensures c == 0 ==> r == 0
    ensures c == n ==> r == 100
  {
    var r := (200 * c + n) / (2 * n);
    assert 2 * n * r + (200 * c + n) % (2 * n) == 200 * c + n;
    PercentBounds(c, n, r);
    r
  }

  /** Multiplying by a natural number keeps the order. */
  lemma {:induction false} MulMonotone(k: nat, a: int, b: int)
    requires a <= b
    ensures k * a <= k * b
    decreases k
  {
    if k > 0 {
      MulMonotone(k - 1, a, b);
      assert k * a == (k - 1) * a + a && k * b == (k - 1) * b + b;
    }
  }

  /** A strict order between two multiples of a positive number is the order
      of the factors. */
  lemma FactorsLess(k: nat, a: int, b: int)
    requires k > 0 && k * a < k * b
    ensures a < b
  {
    if a >= b {
      MulMonotone(k, b, a);
      assert false;
    }
  }

  /** Any `r` within half a unit of `100 * c / n` lies in 0..100 and hits both ends. */
  lemma PercentBounds(c: nat, n: nat, r: nat)
    requires 0 < n && c <= n
    requires 2 * n * r <= 200 * c + n < 2 * n * (r + 1)
    ensures r <= 100
    ensures c == 0 ==> r == 0
    ensures c == n ==> r == 100
  {
    assert 2 * n * 101 == 202 * n;
    FactorsLess(2 * n, r, 101);
    if c == 0 {
      assert 2 * n * 1 == 2 * n;
      FactorsLess(2 * n, r, 1);
    }
    if c == n {
      assert 2 * n * 100 == 200 * n;
      FactorsLess(2 * n, 100, r + 1);
    }
  }
}
