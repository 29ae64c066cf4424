/**
 * The request cycle of a step (step.py `update` and `render`): the wizard
 * updates first; when that leaves a redirect target the step's own update
 * and the wizard actions are skipped and rendering only redirects, otherwise
 * the step updates, the pressed wizard button runs if it is enabled, and the
 * page renders normally.
 */
module StepCycle {
  import opened Wrappers
  import opened Steps
  import opened Sequencer
  import opened StepActions
  import opened StepButtons
  import opened WizardController

  /** What rendering hands to the response: the redirect target, if any, and the body. */
  datatype Response = Response(redirect: Option<string>, body: string)

  /**
   * What running the wizard actions does, from form state `before` and no
   * redirect: a button that is not pressed or not enabled does nothing;
   * otherwise the step's handler for it runs, and on success the wizard
   * redirects to the previous step, the next step or the finish target.
   */
  ghost predicate Executed(wizard: Wizard, info: Step, pressed: Option<WizardButton>, ex: Extraction, apply: Applier,
                           before: FormState, after: FormState, url: Option<string>)
    reads wizard
    requires wizard.step.Some? && wizard.step.value.name in Names(wizard.Steps())
  {
    var steps := wizard.Steps();
    if pressed.None? || pressed.value !in EnabledButtons(steps, wizard.step) then after == before && url == None
    else match pressed.value
      case Back =>
        && ActionEffect(before, after, info.handleApplyOnBack, ex, apply)
        && url == if ActionSucceeds(info.handleApplyOnBack, ex)
                  then Some(Url(wizard.baseURL, PreviousStepName(steps, wizard.step).value)) else None
      case Next =>
        && ActionEffect(before, after, info.handleApplyOnNext, ex, apply)
        && url == if ActionSucceeds(info.handleApplyOnNext, ex)
                  then Some(Url(wizard.baseURL, NextStepName(steps, wizard.step).value)) else None
      case Complete =>
        && ActionEffect(before, after, info.handleApplyOnComplete, ex, apply)
        && url == if ActionSucceeds(info.handleApplyOnComplete, ex) then wizard.FinishURL(None) else None
  }

  /** `actions.execute()`: runs the handler of the pressed button when it is among the updated actions. */
  method ExecuteActions(form: StepForm, wizard: Wizard, pressed: Option<WizardButton>, ex: Extraction, apply: Applier)
    requires wizard.step == Some(form.info) && form.info.name in Names(wizard.Steps())
    requires wizard.nextURL.None? && wizard.actions == Some(EnabledButtons(wizard.Steps(), wizard.step))
    modifies wizard`nextURL, form`content, form`events, form`status
    ensures Executed(wizard, form.info, pressed, ex, apply, old(form.State()), form.State(), wizard.nextURL)
  {
    if pressed.Some? && pressed.value in wizard.actions.value {
      EnabledButtonsHaveTargets(wizard.Steps(), wizard.step);
      match pressed.value
      case Back => wizard.DoBack(form, ex, apply);
      case Next => wizard.DoNext(form, ex, apply);
      case Complete => wizard.DoComplete(form, ex, apply);
    }
  }

  /**
   * The step's `update`, with the button the request pressed, the result of
   * the step's `extractData` and the form framework's `applyChanges` as
   * inputs: a redirect left by the wizard's update skips the step's own
   * update and the wizard actions.
   */
  method StepUpdate(form: StepForm, wizard: Wizard, pressed: Option<WizardButton>, ex: Extraction, apply: Applier)
    requires wizard.step == Some(form.info) && form.info.name in Names(wizard.Steps())
    modifies wizard`nextURL, wizard`actions, form`formUpdated, form`content, form`events, form`status
    ensures var steps := wizard.Steps();
      var target := if wizard.config.adjustStep then AdjustTarget(steps, form.info.name) else None;
      var runs := target.None? && old(wizard.nextURL).None?;
      && (target.Some? ==> wizard.nextURL == Some(Url(wizard.baseURL, steps[target.value].name)))
      && (target.Some? ==> wizard.actions == old(wizard.actions))
      && (target.None? ==> wizard.actions == Some(EnabledButtons(steps, wizard.step)))
      && (target.None? && old(wizard.nextURL).Some? ==> wizard.nextURL == old(wizard.nextURL))
      && (!runs ==> form.State() == old(form.State()) && form.formUpdated == old(form.formUpdated))
      && (runs ==> form.formUpdated && Executed(wizard, form.info, pressed, ex, apply, old(form.State()), form.State(), wizard.nextURL))
  {
    wizard.Update();
    if wizard.nextURL.Some? {
      return;
    }
    form.formUpdated := true;
    ExecuteActions(form, wizard, pressed, ex, apply);
  }

  /** The step's `render`: with a redirect target, redirect with an empty body; otherwise the rendered page. */
  method Render(wizard: Wizard, page: string) returns (r: Response)
    ensures r.redirect == wizard.nextURL
    ensures wizard.nextURL.Some? ==> r.body == ""
    ensures wizard.nextURL.None? ==> r.body == page
  {
    if wizard.nextURL.Some? {
      return Response(wizard.nextURL, "");
    }
    return Response(None, page);
  }
}
