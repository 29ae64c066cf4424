# z3c.wizard step sequencing and navigation, in Dafny

z3c.wizard builds multi-step forms ("wizards") on top of z3c.form. The
wizard is a form that acts as the controller. It collects its steps from the
component registry. From those it keeps the available steps and orders them
by weight. It answers first/last, previous/next and "whole wizard completed"
queries, and picks the default step. It resolves a URL path segment to the
current step. It guards the step order by forcing the user back to the first
earlier step that is not completed. It builds the navigation menu. It records
the redirect target `nextURL`. Each step is itself a form. It decides which
wizard buttons show and whether it is completed. Its back, next and complete
handlers may extract, validate and apply the submitted data. It stops its own
update and only redirects once the wizard has set a redirect target.

The model has seven modules:

- `Wrappers` (wrappers.dfy): the `Option` type, used wherever Python uses `None`.
- `Steps` (steps.dfy): a step as a value `Step`. It covers the class
  defaults of `Step` and `UnavailableStep`, and the default `completed` rule
  over a step's fields and the content's stored values. `AddStep` models
  `addStep`, with its overrides and its `setattr` loop.
- `StepActions` (step_actions.dfy): the live step form `StepForm`, a class
  holding the content, the status message and the sent modified events. It
  models `applyChanges`, `doHandleApply` and the back, next and complete
  handlers. Each handler is proved against a two-state specification
  predicate.
- `Sequencer` (sequencer.dfy): the pure part of the wizard.
  - It builds the step sequence (`nameStep`, `filterSteps`, `orderSteps` as
    a stable insertion sort, the `steps` property).
  - It answers `completed`, `isFirstStep`, `isLastStep`, `previousStepName`
    and `nextStepName`, and provides `getDefaultStep`.
  - `AdjustTarget` is the step the ordering guard redirects to.
  - `StripExtension` is the name that traversal matches.
- `StepButtons` (step_buttons.dfy): the `show*Button` conditions of the step
  and of the wizard, and the enabled wizard buttons.
- `WizardController` (wizard.dfy): the wizard as a class `Wizard`.
  - Its consts are the configuration, the registry snapshot and the two
    absolute URLs.
  - Its vars are the current step, `nextURL` and the updated actions.
  - Its methods cover traversal, the default view, the guard, `update`, the
    `goTo*` redirects, `doBack`/`doNext`/`doComplete`/`doFinish` and
    `stepMenu`.
- `StepCycle` (step_cycle.dfy): the step's `update`, with the wizard actions
  it executes, and its `render`.

Everything outside the core comes in as a parameter:

- The step registry is a sequence of `Registration(name, step)` pairs, in
  discovery order.
- `absoluteURL` of the wizard and of its context are the strings `baseURL`
  and `contextURL`.
- `extractData` is an `Extraction` value (the data and the errors).
- `form.applyChanges` is a function `Applier` from content and data to new
  content and a change map.
- `zope.event.notify` is an append to the form's `events` sequence.
- The response redirect and the template are the `Response` that `Render`
  returns.
- The i18n status messages are the enumeration `Status`.

Step names are compared by string equality. Properties that need distinct
step names say so with `UniqueNames`. The component registry hands out at
most one adapter per name, so a registry snapshot has distinct names, and
`StepSequenceUniqueNames` proves that the `steps` sequence built from such a
snapshot meets `UniqueNames`; the registry's distinct names are assumed, not
modelled. With repeated names the source's `list.index` and its first/last
name comparisons can disagree, and the model keeps that behaviour.

The name that traversal matches follows the code: `publishTraverse` uses
`name.rsplit('.', 1)[0]`, so only the text after the LAST dot is dropped:
`"a.b.html"` resolves to `"a.b"`.

## Model

| member | source | states |
|---|---|---|
| Steps.RequiredFieldsStored | src/z3c/wizard/step.py:101-118 | the default completion rule holds iff every required field's stored value (or its missing value when nothing is stored) differs from that field's missing value; fields that are not required are skipped, and validity is not checked |
| Steps.DefaultStep | src/z3c/wizard/step.py:59-67 | a step with the class defaults has the given name, no label, weight 0, is available and visible, does not commit on back but does on next and complete, and reports completion exactly by the default rule over its fields and content |
| Steps.UnavailableStep | src/z3c/wizard/step.py:207-213 | an `UnavailableStep` is never available |
| Steps.NoRequiredFieldCompletes | src/z3c/wizard/step.py:110-112 | a step without required fields is completed, whatever its content |
| Steps.AbsentRequiredFieldIncompletes | src/z3c/wizard/step.py:113-117 | one required field with nothing stored makes the step incomplete |
| Steps.ApplySettingsFlag | src/z3c/wizard/step.py:36-37 | after the `setattr` loop each flag attribute holds its last keyword setting, or its old value when no keyword sets it |
| Steps.ApplySettingsKeeps | src/z3c/wizard/step.py:36-37 | the `setattr` loop over flag keywords leaves name, label, weight, availability and completion unchanged |
| Steps.AddStep | src/z3c/wizard/step.py:26-38 | `addStep` always sets the name; it overrides label, weight and availability only for arguments that are not None, keeps completion, and leaves each flag at its last keyword setting or as found |
| StepActions.ChangeDescriptions | src/z3c/wizard/step.py:134-139 | the descriptions hold exactly one `Attributes` per interface of the change map, carrying that interface's names, with no interface twice |
| StepActions.StepForm.ApplyChanges | src/z3c/wizard/step.py:129-144 | returns the change map of the framework's `applyChanges`; the content becomes the applied content; exactly one modified event, on that content and describing the change map, is sent iff the map is not empty; the status is untouched |
| StepActions.StepForm.DoHandleApply | src/z3c/wizard/step.py:146-157 | succeeds iff extraction found no errors; on errors only the status changes, to the form-errors message, and nothing is applied; otherwise the data is applied and the status is the success message iff something changed, else the no-changes message |
| StepActions.StepForm.DoBack | src/z3c/wizard/step.py:159-163 | with `handleApplyOnBack` off, succeeds and changes nothing; with it on, it is exactly `doHandleApply` |
| StepActions.StepForm.DoNext | src/z3c/wizard/step.py:165-169 | with `handleApplyOnNext` off, succeeds and changes nothing; with it on, it is exactly `doHandleApply` |
| StepActions.StepForm.DoComplete | src/z3c/wizard/step.py:171-175 | with `handleApplyOnComplete` off, succeeds and changes nothing; with it on, it is exactly `doHandleApply` |
| StepActions.DefaultHandlers | src/z3c/wizard/step.py:65-67 | with the class defaults, back always succeeds without committing, while next and complete succeed iff there are no validation errors |
| Sequencer.NameStep | src/z3c/wizard/wizard.py:25-28 | `nameStep` sets the name and changes nothing else |
| Sequencer.SetUpSteps | src/z3c/wizard/wizard.py:67-76 | one step per registration, in discovery order, each named by its registry name |
| Sequencer.FilterStepsMembers | src/z3c/wizard/wizard.py:78-80 | `filterSteps` keeps exactly the available steps |
| Sequencer.OrderStepsSorted | src/z3c/wizard/wizard.py:82-84 | `orderSteps` yields non-decreasing weights and is a permutation of its input |
| Sequencer.OrderStepsStable | src/z3c/wizard/wizard.py:82-84 | `orderSteps` keeps the relative order of the steps of each weight, as Python's stable `sorted` does |
| Sequencer.StableSortUnique | src/z3c/wizard/wizard.py:82-84 | two weight-sorted sequences with the same steps of each weight in the same order are equal, so `orderSteps` is exactly the stable sort by weight |
| Sequencer.FilterSteps | src/z3c/wizard/wizard.py:78-80 | `filterSteps` returns no more steps than it is given, and every step it returns is available |
| Sequencer.OrderSteps | src/z3c/wizard/wizard.py:82-84 | `orderSteps` returns as many steps as it is given |
| Sequencer.StepSequence | src/z3c/wizard/wizard.py:86-90 | the `steps` property holds no more steps than there are registrations |
| Sequencer.StepSequenceMembers | src/z3c/wizard/wizard.py:86-90 | `steps` holds exactly the registered steps that are available, each named by its registry name |
| Sequencer.StepSequenceOrder | src/z3c/wizard/wizard.py:86-90 | `steps` is a permutation of the filtered steps, sorted by weight, and in discovery order among equal weights |
| Sequencer.StepSequenceSpec | src/z3c/wizard/wizard.py:86-90 | `steps` holds exactly the registered steps that are available, each named by its registry name, all available, as a multiset equal to the filtered steps, sorted by weight, and in discovery order among equal weights |
| Sequencer.UnavailableStepExcluded | src/z3c/wizard/step.py:207-213 | a registered `UnavailableStep` never appears in `steps` |
| Sequencer.StepSequenceUniqueNames | src/z3c/wizard/wizard.py:74-90 | when the registry hands out one registration per name, the steps of `steps` carry distinct names, since filtering only drops steps and sorting keeps the names |
| Sequencer.Position | src/z3c/wizard/wizard.py:129 | `list.index` of a name: the first index holding it, and the length exactly when the name is absent |
| Sequencer.Completed | src/z3c/wizard/wizard.py:92-97 | the wizard is completed iff every step of the sequence is completed (true for no steps) |
| Sequencer.IncompleteStepBlocksCompletion | src/z3c/wizard/wizard.py:92-97 | one registered available step that is not completed keeps the whole wizard incomplete |
| Sequencer.MissingFieldBlocksCompletion | src/z3c/wizard/step.py:101-118 | a required field with nothing stored, in an available default step, keeps the whole wizard incomplete |
| Sequencer.IsFirstStep | src/z3c/wizard/wizard.py:99-102 | `isFirstStep` holds only with a current step whose name is in the sequence |
| Sequencer.IsLastStep | src/z3c/wizard/wizard.py:104-107 | `isLastStep` holds only with a current step whose name is in the sequence |
| Sequencer.PreviousStepName | src/z3c/wizard/wizard.py:124-132 | none exactly without a current step or on the first step; otherwise some step's name |
| Sequencer.NextStepName | src/z3c/wizard/wizard.py:134-142 | none without a current step, some name off the last step, and, with unique names, none exactly without a current step or on the last step |
| Sequencer.BoundaryQueries | src/z3c/wizard/wizard.py:99-107 | with unique names, the step at index i is first iff i = 0 and last iff i is the last index, and its previous/next names are those at i-1/i+1 or none at the ends |
| Sequencer.PreviousNextInverse | src/z3c/wizard/wizard.py:124-142 | with unique names, next of the previous step and previous of the next step lead back to the same step |
| Sequencer.GetDefaultStep | src/z3c/wizard/wizard.py:171-181 | the default step is in the sequence: the first step when `firstStepAsDefault` is set or every step is completed, otherwise the first step that is not completed |
| Sequencer.FirstIncomplete | src/z3c/wizard/wizard.py:177-179 | the index of the first step that is not completed, none exactly when all are completed |
| Sequencer.AdjustTarget | src/z3c/wizard/wizard.py:188-194 | the guard's target is the first step that is not completed among those before the current name, and there is none exactly when all of those are completed |
| Sequencer.AdjustTargetFound | src/z3c/wizard/wizard.py:188-194 | the scan meeting an incomplete step at index i, with every earlier step completed and not named as the current one, has found the guard's target i |
| Sequencer.AdjustTargetNone | src/z3c/wizard/wizard.py:188-196 | the scan reaching the current step's name, or the end, over completed steps only leaves no target |
| Sequencer.DefaultStepNotRedirected | src/z3c/wizard/wizard.py:171-194 | with unique names, the guard never redirects away from the default step |
| Sequencer.StripExtension | src/z3c/wizard/wizard.py:209-213 | a name without a dot is kept; otherwise the result is the prefix before the last dot |
| Sequencer.StripExtensionRoundTrip | src/z3c/wizard/wizard.py:209-213 | a name followed by a dot and an ending without dots strips back to the name |
| Sequencer.Lookup | src/z3c/wizard/wizard.py:215-218 | resolving a name finds a step iff the name is in the sequence; the step found carries that name and is the first step of the sequence that does |
| Sequencer.LookupOwnName | src/z3c/wizard/wizard.py:215-218 | with unique names, a step's own name resolves to that step |
| Sequencer.TraverseRoundTrip | src/z3c/wizard/wizard.py:207-218 | with unique names, `"<name>.<ending>"` resolves to the step called name |
| StepButtons.ShowBackButton | src/z3c/wizard/step.py:81-84 | the step shows back iff there is no current step or the current step's name is not the first step's |
| StepButtons.ShowNextButton | src/z3c/wizard/step.py:86-89 | the step shows next iff there is no current step or the current step's name is not the last step's |
| StepButtons.ShowCompleteButton | src/z3c/wizard/step.py:91-94 | the step shows complete only with a current step and every step completed, and never together with next |
| StepButtons.WizardShowBack | src/z3c/wizard/wizard.py:109-112 | the wizard shows back iff there is a current step and its name is not the first step's |
| StepButtons.WizardShowNext | src/z3c/wizard/wizard.py:114-117 | the wizard shows next iff there is a current step and its name is not the last step's |
| StepButtons.WizardShowComplete | src/z3c/wizard/wizard.py:119-122 | the wizard shows complete iff the current step has the last step's name and every step is completed, and never together with next |
| StepButtons.EnabledButtons | src/z3c/wizard/wizard.py:109-122 | the updated wizard actions hold back iff the wizard's back condition holds, next iff its next condition holds, complete iff its complete condition holds, each at most once |
| StepButtons.ButtonsAtPosition | src/z3c/wizard/step.py:81-94 | at index i with unique names: back shows iff i > 0 iff there is a previous step; next shows iff i is not last iff there is a next step; complete shows iff i is last and the wizard is completed; next and complete never show together |
| StepButtons.EnabledButtonsHaveTargets | src/z3c/wizard/wizard.py:231-237 | an enabled back or next button always has a previous or next step name to redirect to |
| WizardController.MenuEntriesAt | src/z3c/wizard/wizard.py:149-168 | every menu entry is the entry of a visible step, found at index `number - 1` of the whole sequence |
| WizardController.MenuOrdered | src/z3c/wizard/wizard.py:149-168 | menu numbers strictly ascend, so entries follow sequence order |
| WizardController.MenuComplete | src/z3c/wizard/wizard.py:149-168 | every visible step has a menu entry |
| WizardController.MenuEntryFields | src/z3c/wizard/wizard.py:153-168 | each entry of the menu carries its step's label and the URL `baseURL/name`; it is first iff its number is 1 and last iff its number is the length of the whole sequence; its class is the active class when it is selected and that class is not empty, else the inactive class |
| WizardController.MenuNames | src/z3c/wizard/wizard.py:153-164 | each entry of the menu carries the name of the step at index `number - 1`, and is selected iff that is the current step's name |
| WizardController.MenuNamesDistinct | src/z3c/wizard/wizard.py:149-168 | with unique step names, the menu entries have distinct names |
| WizardController.MenuSelection | src/z3c/wizard/wizard.py:153-164 | with unique names at most one entry is selected, and a visible current step's entry is selected |
| WizardController.DefaultConfigBehaviour | src/z3c/wizard/wizard.py:50-56 | under the class defaults the default step is the first step, and a menu entry's class is `selected` on the current step's entry and absent otherwise |
| WizardController.Wizard.constructor | src/z3c/wizard/wizard.py:50-61 | a new wizard has no current step, no redirect target and no updated actions |
| WizardController.Wizard.StepMenu | src/z3c/wizard/wizard.py:144-169 | the loop builds exactly the menu of the visible steps |
| WizardController.Wizard.PublishTraverse | src/z3c/wizard/wizard.py:207-219 | strips the ending after the last dot and finds a step iff the stripped name is in the sequence; it then makes the first step of that name current and returns it; otherwise it fails with the name asked and the current step is unchanged |
| WizardController.Wizard.BrowserDefault | src/z3c/wizard/wizard.py:221-226 | without a current step, the default view is the default step's name |
| WizardController.Wizard.DoAdjustStep | src/z3c/wizard/wizard.py:183-196 | redirects iff the guard is on and some earlier step is not completed, and then sets `nextURL` to `baseURL/` plus the first such step's name; otherwise `nextURL` is unchanged |
| WizardController.Wizard.UpdateActions | src/z3c/wizard/wizard.py:198-200 | the actions become the buttons whose conditions hold |
| WizardController.Wizard.Update | src/z3c/wizard/wizard.py:202-205 | when the guard redirects, the actions are not updated; otherwise `nextURL` is unchanged and the actions are updated |
| WizardController.Wizard.GoToStep | src/z3c/wizard/wizard.py:228-229 | the redirect target becomes `baseURL/stepName` |
| WizardController.Wizard.GoToBack | src/z3c/wizard/wizard.py:231-233 | the redirect target becomes the previous step's URL |
| WizardController.Wizard.GoToNext | src/z3c/wizard/wizard.py:235-237 | the redirect target becomes the next step's URL |
| WizardController.Wizard.DoBack | src/z3c/wizard/wizard.py:239-241 | runs the step's back handler; the redirect target becomes the previous step's URL iff it succeeds, and is unchanged otherwise |
| WizardController.Wizard.DoNext | src/z3c/wizard/wizard.py:243-245 | runs the step's next handler; the redirect target becomes the next step's URL iff it succeeds, and is unchanged otherwise |
| WizardController.Wizard.FinishURL | src/z3c/wizard/wizard.py:252-257 | the redirect left after finishing is `contextURL/page` when a confirmation page is configured, else the target already set, so there is none exactly when neither exists |
| WizardController.Wizard.DoComplete | src/z3c/wizard/wizard.py:247-250 | runs the step's complete handler, and finishes only when it succeeds |
| WizardController.Wizard.DoFinish | src/z3c/wizard/wizard.py:252-257 | with a confirmation page configured, the redirect target becomes `contextURL/page`; otherwise this does nothing |
| StepCycle.ExecuteActions | src/z3c/wizard/step.py:186 | runs the handler of the pressed button only when that button is among the updated actions; the handler's effect and redirect are as in the wizard's `doBack`/`doNext`/`doComplete` |
| StepCycle.StepUpdate | src/z3c/wizard/step.py:177-186 | when the wizard's update leaves a redirect target, through the guard or set earlier, the step's own update and the wizard actions are skipped and the form is untouched; a guard redirect also leaves the actions as they were; otherwise the step updates and the pressed enabled button runs |
| StepCycle.Render | src/z3c/wizard/step.py:188-193 | with a redirect target, redirects to it with an empty body; otherwise the rendered page with no redirect |

## Left out

- The component registry: `Wizard.registry` is the snapshot of `getAdapters` for one request. The source queries the registry again on every access to `steps`, and the model assumes it answers the same each time.
- `Step.completed` is a field of the step record, taken when the registry hands the step out. A step whose data `doHandleApply` changes within the request keeps its earlier completion in the sequence.
- `absoluteURL`, `extractData`, `form.applyChanges`, `zope.event.notify`, `request.response.redirect` and the templates are inputs or outputs, not modelled code. See the list above.
- i18n: status messages are the enumeration `Status` and carry no text.
- The form framework's own `update` of a step (widgets, the step's own actions such as `EditStep`'s apply button, src/z3c/wizard/step.py:199-204) is the flag `StepForm.formUpdated` only.
- `WizardButtonActions` (src/z3c/wizard/button.py) and z3c.form's `ButtonActions` are not modelled. Their effect is: the button conditions select the actions in the order back, next, complete (src/z3c/wizard/interfaces.py:34-50), and at most one pressed button runs. A request pressing several buttons is not modelled.
- `handleBack`, `handleNext` and `handleComplete` (src/z3c/wizard/wizard.py:259-269) only delegate. `ExecuteActions` calls `doBack`/`doNext`/`doComplete` directly.
- The step's own `nextURL` property (src/z3c/wizard/step.py:96-99) and its `goToStep`/`goToNext`/`goToBack` (src/z3c/wizard/step.py:120-127) only delegate to the wizard. The model reads the wizard's fields directly.
- The wizard's `render` only raises `NotImplementedError`. It is not modelled, and neither is `__repr__`.
- `addStep`'s extra keywords are limited to the four boolean step flags: `visible` and the three handleApply flags. `setattr` of any other attribute is not modelled.
- Steps.RequiredFieldsStored: the source tests the stored value against the missing value with `is` (object identity); the model uses value equality. The two differ only for missing values that are not singletons such as `None`, for example `u''` or `[]` with an equal but distinct object stored, where the source reports the field stored and the model reports it missing.
- StepActions.ChangeDescriptions: the descriptions are proved to cover the change map one interface each, but in no particular order; the source appends them in the change map's iteration order, which a Dafny map does not have.
- WizardController.Wizard.StepMenu: the `number` of an entry is the integer `idx + 1`; the source formats it with `str`.
- WizardController.Wizard.DoAdjustStep: names are compared by equality; the source compares them with `is`, which can tell equal strings apart.
- WizardController.Wizard.BrowserDefault: modelled only without a current step; with one, the source fails on an unbound local variable.
- WizardController.Wizard.GoToBack: requires a previous step; on the first step the source would redirect to `baseURL/None`.
- WizardController.Wizard.GoToNext: requires a next step; on the last step the source would redirect to `baseURL/None`.
- WizardController.Wizard.DoBack and WizardController.Wizard.DoNext: require the target a succeeding handler redirects to, which the enabled buttons guarantee. The source returns no value, and the model returns none either.
- WizardController.Wizard.StepMenu: requires a current step when some step is visible; the source dereferences it unguarded for the `selected` key.
- Sequencer.PreviousStepName and Sequencer.NextStepName: require the current step's name to be in the sequence, as `list.index` does.
- WizardController.Wizard.Update: requires a current step and a non-empty sequence, as the complete button's unguarded condition does.
- Python truthiness of the current step object is taken as "there is a current step".
