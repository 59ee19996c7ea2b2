/**
  The first-visit tutorial: a fixed list of steps walked forwards and
  backwards, hidden when finished or skipped, with a flag in local storage
  remembering that it has been seen.
 */
module Tutorial {
  import opened Seqs

  datatype Highlight = Letters | Centre | Input | ScoreArea | Hints

  datatype TutorialStep = TutorialStep(id: string, highlight: Option<Highlight>)

  /** `TUTORIAL_STEPS`. */
  const TutorialSteps: seq<TutorialStep> := [
    TutorialStep("welcome", None),
    TutorialStep("letters", Some(Letters)),
    TutorialStep("centre", Some(Centre)),
    TutorialStep("scoring", Some(ScoreArea)),
    TutorialStep("pangrams", Some(Letters)),
    TutorialStep("hints", Some(Hints))
  ]

  const LastStep: int := |TutorialSteps| - 1

  /** The storage key of the seen flag, and the one value that counts as seen. */
  const StorageKey: string := "pangrum-tutorial-seen"
  const SeenValue: string := "true"

  /**
    The shared tutorial state: whether it is showing, the current step, and
    what local storage holds under the seen key.
   */
  datatype Tutorial = Tutorial(show: bool, step: int, stored: Option<string>)

  function Initial(stored: Option<string>): Tutorial {
    Tutorial(false, 0, stored)
  }

  /** The step index names a step of the list. */
  predicate Valid(t: Tutorial) {
    0 <= t.step <= LastStep
  }

  /** `hasSeen`. */
  predicate HasSeen(t: Tutorial) {
    t.stored == Some(SeenValue)
  }

  /** `startTutorial`: back to the first step, showing. */
  function StartTutorial(t: Tutorial): (r: Tutorial)
    ensures r.show && r.step == 0 && r.stored == t.stored
  {
    t.(step := 0, show := true)
  }

  /** `completeTutorial`: hide it and remember that it was seen. */
  function CompleteTutorial(t: Tutorial): (r: Tutorial)
    ensures !r.show && HasSeen(r) && r.step == t.step
  {
    t.(stored := Some(SeenValue), show := false)
  }

  /** `skipTutorial`: the same effect as completing it. */
  function SkipTutorial(t: Tutorial): (r: Tutorial)
    ensures r == CompleteTutorial(t)
  {
    t.(stored := Some(SeenValue), show := false)
  }

  /** `nextStep`: one step forward, or complete the tutorial from the last step. */
  function NextStep(t: Tutorial): (r: Tutorial)
    ensures t.step < LastStep ==> r.step == t.step + 1 && r.show == t.show && r.stored == t.stored
    ensures t.step >= LastStep ==> !r.show && HasSeen(r) && r.step == t.step
  {
    if t.step < LastStep then t.(step := t.step + 1) else CompleteTutorial(t)
  }

  /** `previousStep`: one step back, never before the first. */
  function PreviousStep(t: Tutorial): (r: Tutorial)
    ensures t.step > 0 ==> r.step == t.step - 1
    ensures t.step <= 0 ==> r == t
    ensures r.show == t.show && r.stored == t.stored
  {
    if t.step > 0 then t.(step := t.step - 1) else t
  }

  /** `checkFirstVisit`: start the tutorial unless it was seen before. */
  function CheckFirstVisit(t: Tutorial): (r: Tutorial)
    ensures HasSeen(t) ==> r == t
    ensures !HasSeen(t) ==> r.show && r.step == 0
  {
    if !HasSeen(t) then StartTutorial(t) else t
  }

  predicate IsFirstStep(t: Tutorial) {
    t.step == 0
  }

  predicate IsLastStep(t: Tutorial) {
    t.step == |TutorialSteps| - 1
  }

  /** `TUTORIAL_STEPS[currentStep]?.id`. */
  function CurrentStepId(t: Tutorial): (id: Option<string>)
    ensures Valid(t) ==> id == Some(TutorialSteps[t.step].id)
    ensures !Valid(t) ==> id.None?
  {
    if 0 <= t.step < |TutorialSteps| then Some(TutorialSteps[t.step].id) else None
  }

  datatype Event = Start | Next | Previous | Complete | Skip | FirstVisit

  function Apply(t: Tutorial, e: Event): Tutorial {
    match e
    case Start => StartTutorial(t)
    case Next => NextStep(t)
    case Previous => PreviousStep(t)
    case Complete => CompleteTutorial(t)
    case Skip => SkipTutorial(t)
    case FirstVisit => CheckFirstVisit(t)
  }

  function Run(t: Tutorial, es: seq<Event>): Tutorial
    decreases |es|
  {
    if |es| == 0 then t else Run(Apply(t, es[0]), es[1..])
  }

  /** Every operation keeps the step on the list, so the current step always has an id. */
  lemma ApplyValid(t: Tutorial, e: Event)
    requires Valid(t)
    ensures Valid(Apply(t, e))
    ensures CurrentStepId(Apply(t, e)).Some?
  {
  }

  /** Along any sequence of operations the step stays on the list, and once seen the tutorial stays seen. */
  lemma {:induction false} RunValid(t: Tutorial, es: seq<Event>)
    requires Valid(t)
    ensures Valid(Run(t, es))
    ensures HasSeen(t) ==> HasSeen(Run(t, es))
    decreases |es|
  {
    if |es| > 0 {
      ApplyValid(t, es[0]);
      RunValid(Apply(t, es[0]), es[1..]);
    }
  }

  function Nexts(n: nat): (es: seq<Event>)
    ensures |es| == n && forall i | 0 <= i < n :: es[i] == Next
  {
    seq(n, _ => Next)
  }

  /**
    From the first step, `n` presses of "next" reach step `n` while still
    showing, up to the last step; one more press hides the tutorial and marks
    it seen. The first and last steps are told apart by `isFirstStep` and
    `isLastStep`.
   */
  lemma {:induction false} WalkThrough(t: Tutorial, n: nat)
    requires t.step == 0 && t.show
    ensures n <= LastStep ==> Run(t, Nexts(n)) == t.(step := n)
    ensures n <= LastStep ==> (IsFirstStep(Run(t, Nexts(n))) <==> n == 0)
    ensures n <= LastStep ==> (IsLastStep(Run(t, Nexts(n))) <==> n == LastStep)
    ensures n == LastStep + 1 ==> !Run(t, Nexts(n)).show && HasSeen(Run(t, Nexts(n)))
  {
    if 0 < n <= LastStep + 1 {
      WalkThrough(t, n - 1);
      RunSnoc(t, Nexts(n - 1), Next);
      assert Nexts(n) == Nexts(n - 1) + [Next];
    }
  }

  lemma {:induction false} RunSnoc(t: Tutorial, es: seq<Event>, e: Event)
    ensures Run(t, es + [e]) == Apply(Run(t, es), e)
    decreases |es|
  {
    if |es| > 0 {
      assert (es + [e])[1..] == es[1..] + [e];
      RunSnoc(Apply(t, es[0]), es[1..], e);
    } else {
      assert (es + [e])[1..] == [];
    }
  }
}
