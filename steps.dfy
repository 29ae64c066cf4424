/**
 * The step of a wizard as a record of its attributes (step.py): the class
 * defaults of `Step`, the `UnavailableStep` variant, the default completion
 * rule over the step's fields and `addStep`, which overrides attributes of a
 * looked-up step.
 */
module Steps {
  import opened Wrappers

  /** A value a form field can hold in the content object. */
  datatype Value = NoValue | Text(text: string) | Number(number: int) | Flag(flag: bool)

  /** The stored field values of the step's content object, by field name. */
  type Content = map<string, Value>

  /** A form field: its name, whether it is required and its missing value. */
  datatype Field = Field(name: string, required: bool, missingValue: Value)

  /** One page of the wizard (`labelText` is the `label` attribute). `completed` is what the step's `completed` property reports. */
  datatype Step = Step(
    name: string,
    labelText: Option<string>,
    weight: int,
    available: bool,
    visible: bool,
    completed: bool,
    handleApplyOnBack: bool,
    handleApplyOnNext: bool,
    handleApplyOnComplete: bool)

  /** The data manager's `query(default)`: the stored value, or `default` when nothing is stored. */
  function Query(content: Content, name: string, default: Value): Value {
    if name in content then content[name] else default
  }

  /** A field is missing when the data manager hands back its missing value. */
  predicate IsMissing(f: Field, content: Content) {
    Query(content, f.name, f.missingValue) == f.missingValue
  }

  /**
   * The default `completed` rule: every required field holds a value other
   * than its missing value. Fields that are not required are skipped, and
   * the stored value is not validated.
   */
  function RequiredFieldsStored(fields: seq<Field>, content: Content): (r: bool)
    ensures r <==> forall i :: 0 <= i < |fields| && fields[i].required ==> !IsMissing(fields[i], content)
  {
    if fields == [] then true
    else if fields[0].required && IsMissing(fields[0], content) then false
    else RequiredFieldsStored(fields[1..], content)
  }

  /** A `Step` with the class defaults, whose completion follows the default rule. */
  function DefaultStep(name: string, fields: seq<Field>, content: Content): (s: Step)
    ensures s.name == name && s.labelText == None && s.weight == 0
    ensures s.available && s.visible
    ensures !s.handleApplyOnBack && s.handleApplyOnNext && s.handleApplyOnComplete
    ensures s.completed == RequiredFieldsStored(fields, content)
  {
    Step(name, None, 0, true, true, RequiredFieldsStored(fields, content), false, true, true)
  }

  /** `UnavailableStep`: a default step that is not available. */
  function UnavailableStep(name: string, fields: seq<Field>, content: Content): (s: Step)
    ensures !s.available
  {
    DefaultStep(name, fields, content).(available := false)
  }

  /** A step with no required field is completed, whatever its content. */
  lemma {:induction false} NoRequiredFieldCompletes(fields: seq<Field>, content: Content)
    requires forall i :: 0 <= i < |fields| ==> !fields[i].required
    ensures RequiredFieldsStored(fields, content)
  {
    if fields != [] {
      NoRequiredFieldCompletes(fields[1..], content);
    }
  }

  /** A required field whose name has no stored value makes the step incomplete. */
  lemma {:induction false} AbsentRequiredFieldIncompletes(fields: seq<Field>, content: Content, k: nat)
    requires k < |fields| && fields[k].required && fields[k].name !in content
    ensures !RequiredFieldsStored(fields, content)
  {
    if k > 0 {
      AbsentRequiredFieldIncompletes(fields[1..], content, k - 1);
    }
  }

  /** The boolean step attributes that `addStep` may set through its extra keyword arguments. */
  datatype FlagAttribute = Visible | HandleApplyOnBack | HandleApplyOnNext | HandleApplyOnComplete

  /** One extra keyword argument of `addStep`. */
  datatype Setting = Setting(attribute: FlagAttribute, value: bool)

  function FlagOf(s: Step, a: FlagAttribute): bool {
    match a
    case Visible => s.visible
    case HandleApplyOnBack => s.handleApplyOnBack
    case HandleApplyOnNext => s.handleApplyOnNext
    case HandleApplyOnComplete => s.handleApplyOnComplete
  }

  function WithFlag(s: Step, a: FlagAttribute, v: bool): Step {
    match a
    case Visible => s.(visible := v)
    case HandleApplyOnBack => s.(handleApplyOnBack := v)
    case HandleApplyOnNext => s.(handleApplyOnNext := v)
    case HandleApplyOnComplete => s.(handleApplyOnComplete := v)
  }

  /** The step with its four flag attributes cleared: what the settings cannot change. */
  function Unflagged(s: Step): Step {
    s.(visible := false, handleApplyOnBack := false, handleApplyOnNext := false, handleApplyOnComplete := false)
  }

  /** The value the last setting for `a` in `kws` gives, if any. */
  function LastSetting(kws: seq<Setting>, a: FlagAttribute): Option<bool> {
    if kws == [] then None
    else if kws[|kws| - 1].attribute == a then Some(kws[|kws| - 1].value)
    else LastSetting(kws[..|kws| - 1], a)
  }

  /** The step after `setattr` of each setting in `kws`, in order. */
  function ApplySettings(s: Step, kws: seq<Setting>): Step {
    if kws == [] then s
    else WithFlag(ApplySettings(s, kws[..|kws| - 1]), kws[|kws| - 1].attribute, kws[|kws| - 1].value)
  }

  /** Applying settings in turn leaves each flag at its last setting, or as it was when none sets it. */
  lemma {:induction false} ApplySettingsFlag(s: Step, kws: seq<Setting>, a: FlagAttribute)
    ensures FlagOf(ApplySettings(s, kws), a) == LastSetting(kws, a).GetOr(FlagOf(s, a))
  {
    if kws != [] {
      ApplySettingsFlag(s, kws[..|kws| - 1], a);
    }
  }

  /** Applying settings leaves name, label, weight, availability and completion alone. */
  lemma {:induction false} ApplySettingsKeeps(s: Step, kws: seq<Setting>)
    ensures Unflagged(ApplySettings(s, kws)) == Unflagged(s)
  {
    if kws != [] {
      var last := kws[|kws| - 1];
      ApplySettingsKeeps(s, kws[..|kws| - 1]);
      WithFlagKeeps(ApplySettings(s, kws[..|kws| - 1]), last.attribute, last.value);
    }
  }

  lemma WithFlagKeeps(s: Step, a: FlagAttribute, v: bool)
    ensures Unflagged(WithFlag(s, a, v)) == Unflagged(s)
  {
    match a
    case Visible =>
    case HandleApplyOnBack =>
    case HandleApplyOnNext =>
    case HandleApplyOnComplete =>
  }

  /**
   * `addStep`: takes the step the registry found under `name`, names it,
   * overrides label, weight and availability only for the arguments given,
   * and then sets each extra keyword argument in turn.
   */
  method AddStep(found: Step, name: string, labelText: Option<string>, weight: Option<int>,
                 available: Option<bool>, kws: seq<Setting>) returns (step: Step)
    ensures step.name == name
    ensures step.labelText == (if labelText.Some? then labelText else found.labelText)
    ensures step.weight == weight.GetOr(found.weight)
    ensures step.available == available.GetOr(found.available)
    ensures step.completed == found.completed
    ensures forall a :: FlagOf(step, a) == LastSetting(kws, a).GetOr(FlagOf(found, a))
  {
    step := found.(name := name,
                   labelText := if labelText.Some? then labelText else found.labelText,
                   weight := weight.GetOr(found.weight),
                   available := available.GetOr(found.available));
    ghost var named := step;
    var i := 0;
    while i < |kws|
      invariant 0 <= i <= |kws|
      invariant step == ApplySettings(named, kws[..i])
    {
      assert kws[..i + 1][..i] == kws[..i];
      step := WithFlag(step, kws[i].attribute, kws[i].value);
      i := i + 1;
    }
    assert kws[..i] == kws;
    ApplySettingsKeeps(named, kws);
    forall a ensures FlagOf(step, a) == LastSetting(kws, a).GetOr(FlagOf(found, a)) {
      ApplySettingsFlag(named, kws, a);
    }
  }
}
