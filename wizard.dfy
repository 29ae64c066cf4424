/**
 * The wizard controller (wizard.py) as an object: its configuration, the
 * registry snapshot it builds the step sequence from, and the state one
 * request changes, namely the current step, the redirect target `nextURL`
 * and the updated wizard actions. Traversal, the default step, the
 * ordering guard, the navigation handlers and the step menu work on it.
 */
module WizardController {
  import opened Wrappers
  import opened Steps
  import opened Sequencer
  import opened StepActions
  import opened StepButtons

  /** The class attributes a wizard subclass may override. */
  datatype Config = Config(
    firstStepAsDefault: bool,
    adjustStep: bool,
    confirmationPageName: Option<string>,
    cssActive: Option<string>,
    cssInActive: Option<string>)

  /** The defaults of `Wizard`. */
  const DefaultConfig := Config(true, true, None, Some("selected"), None)

  /** `'%s/%s' % (base, name)`. */
  function Url(base: string, name: string): string {
    base + "/" + name
  }

  /** Python truthiness of an optional string: present and not empty. */
  predicate Truthy(s: Option<string>) {
    s.Some? && s.value != ""
  }

  /** What `publishTraverse` hands back: the step found, or the NotFound error for the name asked. */
  datatype Traversal = Found(step: Step) | NotFound(name: string)

  /** One entry of `stepMenu` (the `title` key is the label, `number` the 1-based index, `cssClass` the `class` key). */
  datatype MenuItem = MenuItem(
    name: string,
    title: Option<string>,
    number: nat,
    url: string,
    selected: bool,
    cssClass: Option<string>,
    first: bool,
    last: bool)

  /** The menu entry of the visible step at index `i` of the sequence. */
  function MenuEntry(steps: seq<Step>, i: nat, current: Option<Step>, baseURL: string, config: Config): MenuItem
    requires i < |steps|
  {
    var s := steps[i];
    var selected := current.Some? && current.value.name == s.name;
    MenuItem(s.name, s.labelText, i + 1, Url(baseURL, s.name), selected,
             if selected && Truthy(config.cssActive) then config.cssActive else config.cssInActive,
             i == 0, i == |steps| - 1)
  }

  /** The menu entries of the visible steps among the first `n`, in sequence order. */
  function Menu(steps: seq<Step>, n: nat, current: Option<Step>, baseURL: string, config: Config): seq<MenuItem>
    requires n <= |steps|
  {
    if n == 0 then []
    else Menu(steps, n - 1, current, baseURL, config)
         + (if steps[n - 1].visible then [MenuEntry(steps, n - 1, current, baseURL, config)] else [])
  }

  /** Building the menu further only appends to it. */
  lemma MenuExtends(steps: seq<Step>, n: nat, current: Option<Step>, baseURL: string, config: Config)
    requires 0 < n <= |steps|
    ensures var prev := Menu(steps, n - 1, current, baseURL, config);
      var m := Menu(steps, n, current, baseURL, config);
      && |m| == |prev| + (if steps[n - 1].visible then 1 else 0)
      && (forall k :: 0 <= k < |prev| ==> m[k] == prev[k])
      && (steps[n - 1].visible ==> m[|prev|] == MenuEntry(steps, n - 1, current, baseURL, config))
  {
  }

  /** Each menu entry is the entry of the visible step at index `number - 1` of the whole sequence. */
  lemma {:induction false} MenuEntriesAt(steps: seq<Step>, n: nat, current: Option<Step>, baseURL: string, config: Config)
    requires n <= |steps|
    ensures var m := Menu(steps, n, current, baseURL, config);
      forall k :: 0 <= k < |m| ==>
        1 <= m[k].number <= n && steps[m[k].number - 1].visible
        && m[k] == MenuEntry(steps, m[k].number - 1, current, baseURL, config)
  {
    if n > 0 {
      MenuEntriesAt(steps, n - 1, current, baseURL, config);
      MenuExtends(steps, n, current, baseURL, config);
    }
  }

  /** The menu numbers ascend: entries come in sequence order. */
  lemma {:induction false} MenuOrdered(steps: seq<Step>, n: nat, current: Option<Step>, baseURL: string, config: Config)
    requires n <= |steps|
    ensures var m := Menu(steps, n, current, baseURL, config);
      forall k, l :: 0 <= k < l < |m| ==> m[k].number < m[l].number
  {
    if n > 0 {
      MenuOrdered(steps, n - 1, current, baseURL, config);
      MenuEntriesAt(steps, n - 1, current, baseURL, config);
      MenuExtends(steps, n, current, baseURL, config);
    }
  }

  /** Every visible step among the first `n` has a menu entry. */
  lemma {:induction false} MenuComplete(steps: seq<Step>, n: nat, current: Option<Step>, baseURL: string, config: Config)
    requires n <= |steps|
    ensures var m := Menu(steps, n, current, baseURL, config);
      forall i :: 0 <= i < n && steps[i].visible ==> exists k :: 0 <= k < |m| && m[k].number == i + 1
  {
    if n > 0 {
      MenuComplete(steps, n - 1, current, baseURL, config);
      MenuExtends(steps, n, current, baseURL, config);
      var prev := Menu(steps, n - 1, current, baseURL, config);
      var m := Menu(steps, n, current, baseURL, config);
      forall i | 0 <= i < n && steps[i].visible ensures exists k :: 0 <= k < |m| && m[k].number == i + 1 {
        if i < n - 1 {
          var k :| 0 <= k < |prev| && prev[k].number == i + 1;
          assert m[k] == prev[k];
        } else {
          assert m[|prev|].number == i + 1;
        }
      }
    }
  }

  /**
   * The fields of the menu entries, keyed by their number: each carries its
   * step's label and the URL `baseURL/name`, is first and last by index in
   * the whole sequence, and has the active CSS class only when selected
   * (falling back to the inactive one when the active class is empty).
   */
  lemma MenuEntryFields(steps: seq<Step>, current: Option<Step>, baseURL: string, config: Config)
    ensures var m := Menu(steps, |steps|, current, baseURL, config);
      forall k :: 0 <= k < |m| ==>
        1 <= m[k].number <= |steps|
        && m[k].title == steps[m[k].number - 1].labelText
        && m[k].url == baseURL + "/" + m[k].name
        && (m[k].first <==> m[k].number == 1)
        && (m[k].last <==> m[k].number == |steps|)
        && m[k].cssClass == (if m[k].selected && Truthy(config.cssActive) then config.cssActive else config.cssInActive)
  {
    MenuEntriesAt(steps, |steps|, current, baseURL, config);
  }

  /** An entry carries the name of its step, and is selected exactly when that is the current step's name. */
  lemma MenuNames(steps: seq<Step>, current: Option<Step>, baseURL: string, config: Config)
    ensures var m := Menu(steps, |steps|, current, baseURL, config);
      forall k :: 0 <= k < |m| ==>
        1 <= m[k].number <= |steps| && m[k].name == steps[m[k].number - 1].name
        && (m[k].selected <==> current.Some? && current.value.name == m[k].name)
  {
    MenuEntriesAt(steps, |steps|, current, baseURL, config);
  }

  /** With unique step names, the menu entries have distinct names. */
  lemma MenuNamesDistinct(steps: seq<Step>, current: Option<Step>, baseURL: string, config: Config)
    requires UniqueNames(steps)
    ensures var m := Menu(steps, |steps|, current, baseURL, config);
      forall k, l :: 0 <= k < l < |m| ==> m[k].name != m[l].name
  {
    MenuNames(steps, current, baseURL, config);
    MenuOrdered(steps, |steps|, current, baseURL, config);
  }

  /** With unique names at most one entry is selected, and the entry of a visible current step is. */
  lemma MenuSelection(steps: seq<Step>, current: Option<Step>, baseURL: string, config: Config)
    requires UniqueNames(steps)
    ensures var m := Menu(steps, |steps|, current, baseURL, config);
      && (forall k, l :: 0 <= k < |m| && 0 <= l < |m| && m[k].selected && m[l].selected ==> k == l)
      && (forall i :: 0 <= i < |steps| && current == Some(steps[i]) && steps[i].visible ==>
            exists k :: 0 <= k < |m| && m[k].selected)
  {
    var m := Menu(steps, |steps|, current, baseURL, config);
    MenuNames(steps, current, baseURL, config);
    MenuNamesDistinct(steps, current, baseURL, config);
    MenuComplete(steps, |steps|, current, baseURL, config);
    forall i | 0 <= i < |steps| && current == Some(steps[i]) && steps[i].visible
      ensures exists k :: 0 <= k < |m| && m[k].selected
    {
      var k :| 0 <= k < |m| && m[k].number == i + 1;
      assert m[k].selected;
    }
  }

  /**
   * Under the class defaults the default step is the first step, and a menu
   * entry has the class `selected` when it is the current step's entry and
   * no class otherwise.
   */
  lemma DefaultConfigBehaviour(steps: seq<Step>, current: Option<Step>, baseURL: string)
    ensures |steps| > 0 ==> GetDefaultStep(steps, DefaultConfig.firstStepAsDefault) == steps[0]
    ensures var m := Menu(steps, |steps|, current, baseURL, DefaultConfig);
      forall k :: 0 <= k < |m| ==> m[k].cssClass == (if m[k].selected then Some("selected") else None)
  {
    MenuEntryFields(steps, current, baseURL, DefaultConfig);
  }

  /** A wizard over one request. */
  class Wizard {
    /** The (name, step) pairs the step registry hands out for this request. */
    const registry: seq<Registration>
    const config: Config
    /** `absoluteURL` of the wizard. */
    const baseURL: string
    /** `absoluteURL` of the wizard's context. */
    const contextURL: string

    /** The current step, once traversal has found one. */
    var step: Option<Step>
    /** The redirect target, once an action or the guard has set one. */
    var nextURL: Option<string>
    /** The wizard actions, once `updateActions` has run. */
    var actions: Option<seq<WizardButton>>

    constructor (registry: seq<Registration>, config: Config, baseURL: string, contextURL: string)
      ensures this.registry == registry && this.config == config
      ensures this.baseURL == baseURL && this.contextURL == contextURL
      ensures step == None && nextURL == None && actions == None
    {
      this.registry := registry;
      this.config := config;
      this.baseURL := baseURL;
      this.contextURL := contextURL;
      step := None;
      nextURL := None;
      actions := None;
    }

    /** The `steps` property. */
    function Steps(): seq<Step> {
      StepSequence(registry)
    }

    /** `publishTraverse`: strips the format ending and makes the step of that name current, or fails. */
    method PublishTraverse(name: string) returns (r: Traversal)
      modifies this`step
      ensures var found := Lookup(Steps(), StripExtension(name));
        && (r.Found? <==> found.Some?)
        && (r.Found? ==> found == Some(r.step) && step == found)
        && (r.NotFound? ==> r.name == name && step == old(step))
    {
      var rawName := StripExtension(name);
      var steps := Steps();
      var i := 0;
      while i < |steps|
        invariant 0 <= i <= |steps|
        invariant forall j :: 0 <= j < i ==> steps[j].name != rawName
      {
        if steps[i].name == rawName {
          assert Names(steps)[i] == rawName;
          step := Some(steps[i]);
          return Found(steps[i]);
        }
        i := i + 1;
      }
      return NotFound(name);
    }

    /** `browserDefault` without a current step: the name of the default step. */
    method BrowserDefault() returns (name: string)
      requires step.None? && |Steps()| > 0
      ensures name == GetDefaultStep(Steps(), config.firstStepAsDefault).name
    {
      var s := GetDefaultStep(Steps(), config.firstStepAsDefault);
      name := s.name;
    }

    /**
     * `doAdjustStep`: with the guard on, redirects to the first step that is
     * not completed among those before the current one, and reports whether
     * it did; otherwise leaves `nextURL` alone.
     */
    method DoAdjustStep() returns (redirect: bool)
      requires config.adjustStep && |Steps()| > 0 ==> step.Some?
      modifies this`nextURL
      ensures redirect <==> config.adjustStep && step.Some? && AdjustTarget(Steps(), step.value.name).Some?
      ensures redirect ==> nextURL == Some(Url(baseURL, Steps()[AdjustTarget(Steps(), step.value.name).value].name))
      ensures !redirect ==> nextURL == old(nextURL)
    {
      if !config.adjustStep {
        return false;
      }
      var steps := Steps();
      var i := 0;
      while i < |steps|
        invariant 0 <= i <= |steps|
        invariant forall j :: 0 <= j < i ==> step.Some? && steps[j].completed && steps[j].name != step.value.name
      {
        if steps[i].name == step.value.name {
          break;
        }
        if !steps[i].completed {
          AdjustTargetFound(steps, step.value.name, i);
          nextURL := Some(Url(baseURL, steps[i].name));
          return true;
        }
        i := i + 1;
      }
      if step.Some? {
        AdjustTargetNone(steps, step.value.name, i);
      }
      return false;
    }

    /** `updateActions`: the wizard buttons whose conditions hold. */
    method UpdateActions()
      requires step.Some? && |Steps()| > 0
      modifies this`actions
      ensures actions == Some(EnabledButtons(Steps(), step))
    {
      actions := Some(EnabledButtons(Steps(), step));
    }

    /** `update`: the ordering guard, and the wizard actions only when the guard did not redirect. */
    method Update()
      requires step.Some? && |Steps()| > 0
      modifies this`nextURL, this`actions
      ensures var target := if config.adjustStep then AdjustTarget(Steps(), step.value.name) else None;
        && (target.Some? ==> nextURL == Some(Url(baseURL, Steps()[target.value].name)) && actions == old(actions))
        && (target.None? ==> nextURL == old(nextURL) && actions == Some(EnabledButtons(Steps(), step)))
    {
      var redirect := DoAdjustStep();
      if redirect {
        return;
      }
      UpdateActions();
    }

    /** `goToStep`: redirect to the named step. */
    method GoToStep(stepName: string)
      modifies this`nextURL
      ensures nextURL == Some(Url(baseURL, stepName))
    {
      nextURL := Some(Url(baseURL, stepName));
    }

    /** `goToBack`: redirect to the previous step. */
    method GoToBack()
      requires step.Some? ==> step.value.name in Names(Steps())
      requires PreviousStepName(Steps(), step).Some?
      modifies this`nextURL
      ensures nextURL == Some(Url(baseURL, PreviousStepName(Steps(), step).value))
    {
      GoToStep(PreviousStepName(Steps(), step).value);
    }

    /** `goToNext`: redirect to the next step. */
    method GoToNext()
      requires step.Some? ==> step.value.name in Names(Steps())
      requires NextStepName(Steps(), step).Some?
      modifies this`nextURL
      ensures nextURL == Some(Url(baseURL, NextStepName(Steps(), step).value))
    {
      GoToStep(NextStepName(Steps(), step).value);
    }

    /** `doBack`: runs the step's back handler and goes back only when it succeeds. */
    method DoBack(form: StepForm, ex: Extraction, apply: Applier)
      requires step == Some(form.info) && form.info.name in Names(Steps())
      requires PreviousStepName(Steps(), step).Some?
      modifies this`nextURL, form`content, form`events, form`status
      ensures ActionEffect(old(form.State()), form.State(), form.info.handleApplyOnBack, ex, apply)
      ensures nextURL == if ActionSucceeds(form.info.handleApplyOnBack, ex)
                         then Some(Url(baseURL, PreviousStepName(Steps(), step).value)) else old(nextURL)
    {
      var ok := form.DoBack(ex, apply);
      if ok {
        GoToBack();
      }
    }

    /** `doNext`: runs the step's next handler and goes forward only when it succeeds. */
    method DoNext(form: StepForm, ex: Extraction, apply: Applier)
      requires step == Some(form.info) && form.info.name in Names(Steps())
      requires NextStepName(Steps(), step).Some?
      modifies this`nextURL, form`content, form`events, form`status
      ensures ActionEffect(old(form.State()), form.State(), form.info.handleApplyOnNext, ex, apply)
      ensures nextURL == if ActionSucceeds(form.info.handleApplyOnNext, ex)
                         then Some(Url(baseURL, NextStepName(Steps(), step).value)) else old(nextURL)
    {
      var ok := form.DoNext(ex, apply);
      if ok {
        GoToNext();
      }
    }

    /** The redirect `doFinish` leaves: the confirmation page when one is configured, else `current`. */
    function FinishURL(current: Option<string>): (r: Option<string>)
      ensures r.None? <==> current.None? && config.confirmationPageName.None?
      ensures config.confirmationPageName.Some? ==> r == Some(contextURL + "/" + config.confirmationPageName.value)
      ensures config.confirmationPageName.None? ==> r == current
    {
      match config.confirmationPageName
      case Some(page) => Some(Url(contextURL, page))
      case None => current
    }

    /** `doFinish`: redirect to the confirmation page under the context, if one is configured. */
    method DoFinish()
      modifies this`nextURL
      ensures nextURL == FinishURL(old(nextURL))
      ensures config.confirmationPageName.None? ==> nextURL == old(nextURL)
    {
      if config.confirmationPageName.Some? {
        nextURL := Some(Url(contextURL, config.confirmationPageName.value));
      }
    }

    /** `doComplete`: runs the step's complete handler and finishes only when it succeeds. */
    method DoComplete(form: StepForm, ex: Extraction, apply: Applier)
      requires step == Some(form.info)
      modifies this`nextURL, form`content, form`events, form`status
      ensures ActionEffect(old(form.State()), form.State(), form.info.handleApplyOnComplete, ex, apply)
      ensures nextURL == if ActionSucceeds(form.info.handleApplyOnComplete, ex)
                         then FinishURL(old(nextURL)) else old(nextURL)
    {
      var ok := form.DoComplete(ex, apply);
      if ok {
        DoFinish();
      }
    }

    /** `stepMenu`: one entry per visible step, built in sequence order. */
    method StepMenu() returns (items: seq<MenuItem>)
      requires step.None? ==> forall i :: 0 <= i < |Steps()| ==> !Steps()[i].visible
      ensures items == Menu(Steps(), |Steps()|, step, baseURL, config)
    {
      var steps := Steps();
      var length := |steps| - 1;
      items := [];
      for idx := 0 to |steps|
        invariant items == Menu(steps, idx, step, baseURL, config)
      {
        var s := steps[idx];
        if s.visible {
          var isSelected := step.Some? && step.value.name == s.name;
          var cssClass := if isSelected && Truthy(config.cssActive) then config.cssActive else config.cssInActive;
          var firstStep := idx == 0;
          var lastStep := idx == length;
          items := items + [MenuItem(s.name, s.labelText, idx + 1, Url(baseURL, s.name),
                                     step.value.name == s.name, cssClass, firstStep, lastStep)];
        }
      }
    }
  }
}
