/**
 * The action side of a step (step.py): `applyChanges`, which stores the
 * extracted data through the form framework and announces the change,
 * `doHandleApply`, which sets the status message, and the back, next and
 * complete handlers, which commit data only when their flag says so.
 */
module StepActions {
  import opened Wrappers
  import opened Steps

  /** The status message a step shows after an action. */
  datatype Status = FormErrors | Success | NoChanges

  /** Submitted, converted values by field name. */
  type Data = map<string, Value>

  /** What `extractData` hands back: the data and the validation errors. */
  datatype Extraction = Extraction(data: Data, errors: seq<string>)

  /** The change map of `applyChanges`: changed attribute names by the interface declaring them. */
  type Changes = map<string, seq<string>>

  /** What the form framework's `applyChanges` produces: the updated content and the change map. */
  datatype Applied = Applied(content: Content, changes: Changes)

  /** The form framework's `applyChanges(form, content, data)`, passed in as a collaborator. */
  type Applier = (Content, Data) -> Applied

  /** `zope.lifecycleevent.Attributes(interface, *names)`. */
  datatype Attributes = Attributes(iface: string, names: seq<string>)

  /** `ObjectModifiedEvent(content, *descriptions)` as it is handed to `zope.event.notify`. */
  datatype ModifiedEvent = ModifiedEvent(subject: Content, descriptions: seq<Attributes>)

  /** `descs` holds one description per interface of `changes`, with that interface's names. */
  predicate Describes(descs: seq<Attributes>, changes: Changes) {
    && |descs| == |changes|
    && (forall k :: 0 <= k < |descs| ==> descs[k].iface in changes && descs[k].names == changes[descs[k].iface])
    && (forall iface :: iface in changes ==> exists k :: 0 <= k < |descs| && descs[k].iface == iface)
    && (forall k, l :: 0 <= k < l < |descs| ==> descs[k].iface != descs[l].iface)
  }

  /** The change descriptions `applyChanges` builds, one per entry of the change map. */
  method ChangeDescriptions(changes: Changes) returns (descs: seq<Attributes>)
    ensures Describes(descs, changes)
  {
    var remaining := changes.Keys;
    descs := [];
    while remaining != {}
      invariant remaining <= changes.Keys
      invariant |descs| + |remaining| == |changes|
      invariant forall k :: 0 <= k < |descs| ==>
        descs[k].iface in changes && descs[k].iface !in remaining && descs[k].names == changes[descs[k].iface]
      invariant forall iface :: iface in changes && iface !in remaining ==>
        exists k :: 0 <= k < |descs| && descs[k].iface == iface
      invariant forall k, l :: 0 <= k < l < |descs| ==> descs[k].iface != descs[l].iface
      decreases remaining
    {
      var iface :| iface in remaining;
      ghost var before := descs;
      descs := descs + [Attributes(iface, changes[iface])];
      remaining := remaining - {iface};
      assert descs[|before|].iface == iface;
      assert forall k :: 0 <= k < |before| ==> descs[k] == before[k];
    }
  }

  /** The part of a step form that its actions change. */
  datatype FormState = FormState(content: Content, status: Option<Status>, events: seq<ModifiedEvent>)

  /** `after` is what `applyChanges(data)` makes of `before`: the content is updated, and one event is sent iff something changed. */
  ghost predicate ApplyEffect(before: FormState, after: FormState, data: Data, apply: Applier) {
    var out := apply(before.content, data);
    && after.content == out.content
    && after.status == before.status
    && if out.changes == map[] then after.events == before.events
       else
         && |after.events| == |before.events| + 1
         && after.events[..|before.events|] == before.events
         && after.events[|before.events|].subject == out.content
         && Describes(after.events[|before.events|].descriptions, out.changes)
  }

  /**
   * `after` is what `doHandleApply` makes of `before`: on validation errors
   * only the status changes, to the errors message; otherwise the data is
   * applied and the status tells whether anything changed.
   */
  ghost predicate HandleApplyEffect(before: FormState, after: FormState, ex: Extraction, apply: Applier) {
    if ex.errors != [] then after == before.(status := Some(FormErrors))
    else
      var changes := apply(before.content, ex.data).changes;
      ApplyEffect(before, after.(status := before.status), ex.data, apply)
      && after.status == Some(if changes != map[] then Success else NoChanges)
  }

  /** A back, next or complete handler with the given handle-apply flag reports success. */
  predicate ActionSucceeds(handleApply: bool, ex: Extraction) {
    !handleApply || ex.errors == []
  }

  /** What a back, next or complete handler with the given flag makes of the form. */
  ghost predicate ActionEffect(before: FormState, after: FormState, handleApply: bool, ex: Extraction, apply: Applier) {
    if handleApply then HandleApplyEffect(before, after, ex, apply) else after == before
  }

  /** A step as a live form: its record, its fields and the state its actions change. */
  class StepForm {
    const info: Step
    const fields: seq<Field>
    var content: Content
    var status: Option<Status>
    var events: seq<ModifiedEvent>
    /** Whether the form framework's own `update` of this step (widgets and step actions) ran. */
    var formUpdated: bool

    constructor (info: Step, fields: seq<Field>, content: Content)
      ensures this.info == info && this.fields == fields && this.content == content
      ensures status == None && events == [] && !formUpdated
    {
      this.info := info;
      this.fields := fields;
      this.content := content;
      status := None;
      events := [];
      formUpdated := false;
    }

    function State(): FormState
      reads this
    {
      FormState(content, status, events)
    }

    /** `applyChanges`: stores `data` and sends one modified event when the change map is not empty. */
    method ApplyChanges(data: Data, apply: Applier) returns (changes: Changes)
      modifies this`content, this`events
      ensures changes == apply(old(content), data).changes
      ensures ApplyEffect(old(State()), State(), data, apply)
    {
      var out := apply(content, data);
      content := out.content;
      changes := out.changes;
      if changes != map[] {
        var descriptions := ChangeDescriptions(changes);
        events := events + [ModifiedEvent(content, descriptions)];
      }
    }

    /** `doHandleApply`: reports success exactly when extraction found no errors. */
    method DoHandleApply(ex: Extraction, apply: Applier) returns (ok: bool)
      modifies this`content, this`events, this`status
      ensures ok <==> ex.errors == []
      ensures HandleApplyEffect(old(State()), State(), ex, apply)
    {
      if ex.errors != [] {
        status := Some(FormErrors);
        return false;
      }
      var changes := ApplyChanges(ex.data, apply);
      if changes != map[] {
        status := Some(Success);
      } else {
        status := Some(NoChanges);
      }
      return true;
    }

    /** `doBack`: commits the submitted data only when `handleApplyOnBack` is set. */
    method DoBack(ex: Extraction, apply: Applier) returns (ok: bool)
      modifies this`content, this`events, this`status
      ensures ok == ActionSucceeds(info.handleApplyOnBack, ex)
      ensures ActionEffect(old(State()), State(), info.handleApplyOnBack, ex, apply)
    {
      ok := true;
      if info.handleApplyOnBack {
        ok := DoHandleApply(ex, apply);
      }
    }

    /** `doNext`: commits the submitted data only when `handleApplyOnNext` is set. */
    method DoNext(ex: Extraction, apply: Applier) returns (ok: bool)
      modifies this`content, this`events, this`status
      ensures ok == ActionSucceeds(info.handleApplyOnNext, ex)
      ensures ActionEffect(old(State()), State(), info.handleApplyOnNext, ex, apply)
    {
      ok := true;
      if info.handleApplyOnNext {
        ok := DoHandleApply(ex, apply);
      }
    }

    /** `doComplete`: commits the submitted data only when `handleApplyOnComplete` is set. */
    method DoComplete(ex: Extraction, apply: Applier) returns (ok: bool)
      modifies this`content, this`events, this`status
      ensures ok == ActionSucceeds(info.handleApplyOnComplete, ex)
      ensures ActionEffect(old(State()), State(), info.handleApplyOnComplete, ex, apply)
    {
      ok := true;
      if info.handleApplyOnComplete {
        ok := DoHandleApply(ex, apply);
      }
    }
  }

  /**
   * With the class defaults, back never commits and so always succeeds,
   * while next and complete commit and succeed only without validation errors.
   */
  lemma DefaultHandlers(name: string, fields: seq<Field>, content: Content, ex: Extraction)
    ensures var s := DefaultStep(name, fields, content);
      && ActionSucceeds(s.handleApplyOnBack, ex)
      && (ActionSucceeds(s.handleApplyOnNext, ex) <==> ex.errors == [])
      && (ActionSucceeds(s.handleApplyOnComplete, ex) <==> ex.errors == [])
  {
  }
}
