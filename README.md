# npm-process in Dafny

A verified model of `index.js`, a small embeddable workflow tracker.

- A `ProcessStep` is one unit of work. It has an id, a title, two flags (`isStarted`, `isComplete`) and an opaque data bag. Its status label is "pending", "started" or "complete".
- A `Process` owns an ordered sequence of step references and a `currentStep` pointer.
  - `addStep` inserts a step by position. A step that is already present, by reference identity, is not inserted again.
  - The process answers aggregate queries: lookup by id, completion counts, "are these ids complete", the completion percentage and the keyed object export.

Layout:

- `workflow.dfy`, module `Workflow`:
  - The two classes. `ProcessStep`'s flag mutators and `Process.AddStep` are methods that update fields in place. `Process.steps` is a `seq<ProcessStep>` that `AddStep` reassigns. `Process.ToObject` is a method with a loop that builds the object key by key.
  - The queries are functions that read the steps' flags.
  - Beside them are the specification functions over step sequences (`Insert`, `AddedSteps`, `Completed`, `Incomplete`, `CompletedIds`, `Keyed`, `FirstIndexOfId`, `LastIndexOfId`) and the lemmas about them.
  - `Process.Valid()` is the aggregate's invariant: steps are distinct, `currentStep` is one of them, and it is null only while there are no steps.
- `decimal.dfy`, module `Decimal`: the decimal rendering of the percentage before `'%'` is appended, and its round trip.
- `wrappers.dfy`, module `Wrappers`: `Option`, which stands for JavaScript's absent values.
- `scenarios.dfy`, module `Scenarios`: client methods that walk through typical usage. Each one states the observable outcome in its postcondition.

Modelling decisions:

- Step ids and titles are `const string`. No operation changes them, and `===` on ids is string equality here.
- Data values are a small `Json` datatype. A step's bag is a `map<string, Json>`.
- `pos` is an `int`. The source's test `pos > -1 && pos < length` is `0 <= pos < |steps|` on integers.
- The argument of `areTheseStepsComplete` is an `Option<seq<string>>`. "Not an array" and "absent" both become `None`.
- `addStep` tests `steps.length === 1` after the insertion (index.js:73), so re-adding the only step also makes it current. `AddStep` states that rule.
- index.js:114 divides by zero for a process without steps (`"NaN%"`), so `PercentComplete` requires at least one step.

## Model

| member | source | states |
|---|---|---|
| Workflow.ProcessStep.constructor | index.js:13-19 | a new step has the given id and title, both flags false, an empty data bag, and reports "pending" |
| Workflow.ProcessStep.Started | index.js:21-23 | `isStarted` becomes true and `isComplete` keeps its old value; the label becomes "complete" if it was complete, "started" otherwise |
| Workflow.ProcessStep.Complete | index.js:25-28 | both flags become true whatever they were before, so a second call changes nothing; the label is "complete" |
| Workflow.ProcessStep.NotComplete | index.js:30-32 | `isComplete` becomes false and `isStarted` keeps its old value, so a completed step reports "started" again |
| Workflow.ProcessStep.StatusString | index.js:34-42 | "complete" iff `isComplete`; "started" iff started and not complete; "pending" iff neither flag is set |
| Workflow.Insert | index.js:67-71 | the result is one longer than the input; `x` sits at `pos` when `0 <= pos < |s|` and at the end otherwise; the steps before it are unchanged and the steps after it are shifted by one |
| Workflow.InsertMultiset | index.js:67-71 | inserting adds exactly one occurrence of the step and keeps every other step |
| Workflow.InsertDistinct | index.js:66-71 | inserting a step that is not yet present keeps the steps free of duplicates |
| Workflow.AddedStepsContents | index.js:66-72 | after adding, the step is present; the members are the old ones plus the step; an already-present step leaves the sequence unchanged; distinctness is kept |
| Workflow.AddedStepsIdempotent | index.js:66 | adding the same step twice, at any positions, gives the same sequence as adding it once |
| Workflow.Process.constructor | index.js:57-63 | a new process stores its id, title and `ordered` flag, has no steps and no current step, and satisfies `Valid()` |
| Workflow.Process.AddStep | index.js:65-77 | returns the step it was given; `steps` becomes the old steps with the step added (not re-added if present); `currentStep` becomes the step iff `active` or exactly one step remains, else is unchanged; `Valid()` is preserved |
| Workflow.FirstIndexOfId | index.js:79-83 | returns the index of the first step with the id, or the length when no step has it |
| Workflow.Process.GetStep | index.js:79-83 | returns null iff no step has the id; otherwise returns a step with that id that no earlier step's id matches |
| Workflow.CompletedMembers | index.js:86-88 | the filter keeps exactly the complete steps |
| Workflow.CompletedCountsIndices | index.js:85-89 | the filter's length is the number of positions that hold a complete step |
| Workflow.Process.StepsComplete | index.js:85-89 | the count is the number of positions holding a complete step, and it is at most `TotalSteps()` |
| Workflow.Incomplete | index.js:118-120 | the incomplete steps and the complete steps together account for every step: their lengths add up to the input's length |
| Workflow.Process.TotalSteps | index.js:123-125 | the total is the length of `steps`, and it counts every step once: the complete ones plus the ones not complete |
| Workflow.Process.StepsRemaining | index.js:117-125 | `StepsRemaining() + StepsComplete() == TotalSteps()`, where `TotalSteps()` is the length of `steps` |
| Workflow.AllCompleteIff | index.js:91-93 | the complete count equals the length iff every step is complete |
| Workflow.Process.AllStepsComplete | index.js:91-93 | true iff every step is complete, so true for a process without steps |
| Workflow.CompletedIds | index.js:97-104 | an id is in the list iff some complete step has it; the list is empty iff no step is complete |
| Workflow.Process.AreTheseStepsComplete | index.js:95-111 | true iff `ids` is present and non-empty, some step is complete, and every listed id is the id of a complete step; so false for absent or empty ids and for an id of an incomplete or missing step |
| Workflow.RoundedPercent | index.js:114 | the result is `100 * c / n` rounded to nearest with halves up (`2nr <= 200c + n < 2n(r + 1)`); it lies in 0..100, is 0 when nothing is complete and 100 when everything is |
| Workflow.PercentBounds | index.js:114 | any value within half a unit of `100 * c / n`, with `c <= n`, lies in 0..100 and hits both ends |
| Workflow.Process.PercentComplete | index.js:113-115 | for a process with steps, the label is a digit string without leading zero followed by '%'; the digits denote a value in 0..100 that is `100 * StepsComplete() / TotalSteps()` rounded half up |
| Decimal.Show | index.js:114 | a number is rendered as a non-empty digit string without a leading zero |
| Decimal.ValueOfShow | index.js:114 | reading back the rendered digits gives the number again |
| Workflow.LastIndexOfId | index.js:133-138 | returns none iff no step has the id; otherwise returns the index of a step with that id after which no step has it |
| Workflow.KeyedLookup | index.js:131-141 | in keyed mode a key that is some step's id maps to the data of the last step with that id; any other key is present, with its wrapper value, iff it was in the wrapper |
| Workflow.Process.ToObject | index.js:131-141 | the loop builds the keyed object: it starts from the wrapper, or an empty object, and sets each step's id to its data in sequence order |
| Scenarios.CompleteThenRevert | index.js:25-42 | completing and then un-completing a fresh step leaves it started, not complete, and labelled "started" |
| Scenarios.FirstStepBecomesCurrent | index.js:65-77 | the first step added without `active` becomes current; adding it again keeps the total at 1 |
| Scenarios.FourStepsTwoComplete | index.js:65-89 | four steps appended, two of them completed: four steps in total, two complete |
| Scenarios.HalfComplete | index.js:113-115 | four steps with two complete report "50%" |
| Scenarios.FirstOfTwoComplete | index.js:65-77 | two steps appended, the first completed: the steps are "a" (complete) then "b" (not complete) |
| Scenarios.WhichStepsAreComplete | index.js:95-111 | absent ids and empty ids give false; ids naming an incomplete step give false; ids naming only complete steps give true |
| Scenarios.KeyedExport | index.js:131-141 | exporting one step "s1" with data {x: 1} into an empty wrapper gives {s1: {x: 1}} |

## Left out

- The `factory()`/`create` helpers and their `$inject` annotations (index.js:44-53, index.js:143-152) are construction plumbing for a host framework. The plain constructors stand in for them.
- `stringify` (index.js:127-129) hands the result of `toObject` to the host's JSON serialiser. That serialiser is not part of this model.
- `toObject` in merge mode (index.js:134-135) calls lodash's `defaultsDeep`, whose code is not part of this model. Only keyed mode is modelled.
- Workflow.Process.ToObject: the result is a new map. The source writes into the wrapper object it was given and stores each step's data object by reference. Neither the mutation of the caller's wrapper nor that aliasing is captured.
- Workflow.Process.ToObject: a JavaScript object is modelled as a map from string keys. The special key `"__proto__"` is not captured. In JavaScript, assigning to it (index.js:137) calls the prototype setter and adds no own key. `Keyed` stores it like any other id.
- Workflow.Process.PercentComplete: uses integer half-up rounding in place of floating-point division and `Math.round`. A floating-point quotient that lands just beside an exact half is not reproduced. A process with no steps, where the source yields `"NaN%"`, is excluded by the precondition.
- Workflow.Process.AreTheseStepsComplete: the source's runtime test that `ids` is an array (index.js:96) becomes the `Option` type. Any non-array argument is `None`.
- Workflow.Process.AddStep: `pos` is an integer and `step` is never null. A fractional or non-numeric `pos`, or a null step, is not modelled. An undefined `pos` behaves like an out-of-range one, and the model covers that case.
- The process's `ordered` flag, its `id` and `title`, and the steps' titles are stored but never consulted (index.js:57-60, index.js:15). They are kept as constants.
- JavaScript object keys are strings, so ids that differ in type but print alike (`1` and `"1"`) collide in `toObject`. Ids are strings here, so that collision does not arise.
- Callers may write to `steps`, `currentStep` or the flags directly, bypassing the methods. Such writes are outside the model. `Valid()` is stated for the states the methods produce.
