/**
 * The button conditions (step.py and wizard.py): a step shows back unless
 * it is the first step, next unless it is the last, and complete only on
 * the last step of a completed wizard; the wizard asks its current step.
 * The enabled wizard actions are the buttons whose condition holds, in the
 * order back, next, complete.
 */
module StepButtons {
  import opened Wrappers
  import opened Steps
  import opened Sequencer

  /** The three wizard buttons; complete counts as a forward button like next. */
  datatype WizardButton = Back | Next | Complete

  /** The step's `showBackButton`. */
  function ShowBackButton(steps: seq<Step>, current: Option<Step>): (r: bool)
    requires current.Some? ==> |steps| > 0
    ensures r <==> current.None? || current.value.name != steps[0].name
  {
    !IsFirstStep(steps, current)
  }

  /** The step's `showNextButton`. */
  function ShowNextButton(steps: seq<Step>, current: Option<Step>): (r: bool)
    requires current.Some? ==> |steps| > 0
    ensures r <==> current.None? || current.value.name != steps[|steps| - 1].name
  {
    !IsLastStep(steps, current)
  }

  /** The step's `showCompleteButton`. */
  function ShowCompleteButton(steps: seq<Step>, current: Option<Step>): (r: bool)
    requires current.Some? ==> |steps| > 0
    ensures r ==> current.Some? && forall i :: 0 <= i < |steps| ==> steps[i].completed
    ensures r ==> !ShowNextButton(steps, current)
  {
    IsLastStep(steps, current) && Completed(steps)
  }

  /** The wizard's `showBackButton`: false without a current step, else the step's condition. */
  function WizardShowBack(steps: seq<Step>, current: Option<Step>): (r: bool)
    requires current.Some? ==> |steps| > 0
    ensures r <==> current.Some? && current.value.name != steps[0].name
  {
    current.Some? && ShowBackButton(steps, current)
  }

  /** The wizard's `showNextButton`: false without a current step, else the step's condition. */
  function WizardShowNext(steps: seq<Step>, current: Option<Step>): (r: bool)
    requires current.Some? ==> |steps| > 0
    ensures r <==> current.Some? && current.value.name != steps[|steps| - 1].name
  {
    current.Some? && ShowNextButton(steps, current)
  }

  /** The wizard's `showCompleteButton` asks the current step without a guard, so it needs one. */
  function WizardShowComplete(steps: seq<Step>, current: Option<Step>): (r: bool)
    requires current.Some? && |steps| > 0
    ensures r <==> current.value.name == steps[|steps| - 1].name && Completed(steps)
    ensures r ==> !WizardShowNext(steps, current)
  {
    ShowCompleteButton(steps, current)
  }

  /** The wizard actions `updateActions` keeps: the buttons whose condition holds, in declaration order. */
  function EnabledButtons(steps: seq<Step>, current: Option<Step>): (r: seq<WizardButton>)
    requires current.Some? && |steps| > 0
    ensures Back in r <==> WizardShowBack(steps, current)
    ensures Next in r <==> WizardShowNext(steps, current)
    ensures Complete in r <==> WizardShowComplete(steps, current)
    ensures forall k, l :: 0 <= k < l < |r| ==> r[k] != r[l]
  {
    (if WizardShowBack(steps, current) then [Back] else [])
    + (if WizardShowNext(steps, current) then [Next] else [])
    + (if WizardShowComplete(steps, current) then [Complete] else [])
  }

  /**
   * The buttons by position of the current step: back exactly off the first
   * step and exactly when there is a previous step, next exactly off the
   * last step and exactly when there is a next step, complete exactly on
   * the last step of a completed wizard; next and complete never show
   * together, and some forward button shows unless the wizard is stuck
   * incomplete on its last step.
   */
  lemma ButtonsAtPosition(steps: seq<Step>, i: nat)
    requires UniqueNames(steps) && i < |steps|
    ensures var b := EnabledButtons(steps, Some(steps[i]));
      && (Back in b <==> i > 0)
      && (Back in b <==> PreviousStepName(steps, Some(steps[i])).Some?)
      && (Next in b <==> i < |steps| - 1)
      && (Next in b <==> NextStepName(steps, Some(steps[i])).Some?)
      && (Complete in b <==> i == |steps| - 1 && Completed(steps))
      && !(Next in b && Complete in b)
      && (Next in b || Complete in b <==> i < |steps| - 1 || Completed(steps))
  {
    BoundaryQueries(steps, i);
  }

  /** An enabled back or next button always has a step to go to. */
  lemma EnabledButtonsHaveTargets(steps: seq<Step>, current: Option<Step>)
    requires current.Some? && current.value.name in Names(steps)
    ensures Back in EnabledButtons(steps, current) ==> PreviousStepName(steps, current).Some?
    ensures Next in EnabledButtons(steps, current) ==> NextStepName(steps, current).Some?
  {
  }
}
