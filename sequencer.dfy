/**
 * The pure part of the wizard controller (wizard.py): the canonical step
 * sequence (name, keep the available steps, stable sort by weight), the
 * completion and boundary queries against it, the default step, the step
 * the forced-ordering guard redirects to, and the stripping of a format
 * ending from a traversed name.
 */
module Sequencer {
  import opened Wrappers
  import opened Steps

  /** One (name, step) pair as the step registry hands it out, in discovery order. */
  datatype Registration = Registration(name: string, step: Step)

  // ---------------------------------------------------------------------
  // The step sequence
  // ---------------------------------------------------------------------

  /** `nameStep`: gives the step its registry name and changes nothing else. */
  function NameStep(step: Step, name: string): (r: Step)
    ensures r.name == name
    ensures r.(name := step.name) == step
  {
    step.(name := name)
  }

  /** `setUpSteps`: every registered step, named by its registry name, in discovery order. */
  function SetUpSteps(reg: seq<Registration>): (r: seq<Step>)
    ensures |r| == |reg|
    ensures forall i :: 0 <= i < |reg| ==> r[i] == NameStep(reg[i].step, reg[i].name)
  {
    seq(|reg|, i requires 0 <= i < |reg| => NameStep(reg[i].step, reg[i].name))
  }

  /** `filterSteps`: the available steps, in the order given. */
  function FilterSteps(steps: seq<Step>): (r: seq<Step>)
    ensures |r| <= |steps|
    ensures forall i :: 0 <= i < |r| ==> r[i].available
  {
    if steps == [] then []
    else (if steps[0].available then [steps[0]] else []) + FilterSteps(steps[1..])
  }

  /** `filterSteps` keeps exactly the available steps. */
  lemma {:induction false} FilterStepsMembers(steps: seq<Step>)
    ensures forall x :: x in FilterSteps(steps) <==> x in steps && x.available
  {
    if steps != [] {
      FilterStepsMembers(steps[1..]);
      assert steps == [steps[0]] + steps[1..];
    }
  }

  /** Non-decreasing weight order. */
  predicate Sorted(steps: seq<Step>) {
    forall i, j :: 0 <= i < j < |steps| ==> steps[i].weight <= steps[j].weight
  }

  /** The steps of weight `w`, in the order given. */
  function WithWeight(steps: seq<Step>, w: int): seq<Step> {
    if steps == [] then []
    else (if steps[0].weight == w then [steps[0]] else []) + WithWeight(steps[1..], w)
  }

  /** A step belongs to the steps of weight `w` iff it is among the steps and weighs `w`. */
  lemma {:induction false} WithWeightMembers(steps: seq<Step>, w: int, x: Step)
    ensures x in WithWeight(steps, w) <==> x in steps && x.weight == w
  {
    if steps != [] {
      WithWeightMembers(steps[1..], w, x);
      assert steps == [steps[0]] + steps[1..];
    }
  }

  /** Inserts `x` in front of the first step that does not weigh less. */
  function Insert(x: Step, steps: seq<Step>): (r: seq<Step>)
    ensures |r| == |steps| + 1
  {
    if steps == [] || x.weight <= steps[0].weight then [x] + steps
    else [steps[0]] + Insert(x, steps[1..])
  }

  /** `orderSteps`: Python's stable `sorted` by weight, as an insertion sort. */
  function OrderSteps(steps: seq<Step>): (r: seq<Step>)
    ensures |r| == |steps|
  {
    if steps == [] then [] else Insert(steps[0], OrderSteps(steps[1..]))
  }

  /** The `steps` property: named, filtered, then ordered. */
  function StepSequence(reg: seq<Registration>): (r: seq<Step>)
    ensures |r| <= |reg|
  {
    OrderSteps(FilterSteps(SetUpSteps(reg)))
  }

  lemma {:induction false} InsertPermutes(x: Step, steps: seq<Step>)
    ensures multiset(Insert(x, steps)) == multiset{x} + multiset(steps)
  {
    if steps != [] && x.weight > steps[0].weight {
      InsertPermutes(x, steps[1..]);
      assert steps == [steps[0]] + steps[1..];
    }
  }

  lemma {:induction false} InsertSorted(x: Step, steps: seq<Step>)
    requires Sorted(steps)
    ensures Sorted(Insert(x, steps))
  {
    if steps == [] || x.weight <= steps[0].weight {
      var r := [x] + steps;
      forall i, j | 0 <= i < j < |r| ensures r[i].weight <= r[j].weight {
        assert r[j] == steps[j - 1];
        if i > 0 {
          assert r[i] == steps[i - 1];
        }
      }
    } else {
      var rest := Insert(x, steps[1..]);
      InsertSorted(x, steps[1..]);
      InsertPermutes(x, steps[1..]);
      forall j | 0 <= j < |rest| ensures steps[0].weight <= rest[j].weight {
        assert rest[j] in multiset(rest);
        if rest[j] != x {
          assert rest[j] in multiset(steps[1..]);
          var k :| 0 <= k < |steps[1..]| && steps[1..][k] == rest[j];
          assert rest[j] == steps[k + 1];
        }
      }
      var r := [steps[0]] + rest;
      forall i, j | 0 <= i < j < |r| ensures r[i].weight <= r[j].weight {
        assert r[j] == rest[j - 1];
        if i > 0 {
          assert r[i] == rest[i - 1];
        }
      }
    }
  }

  lemma {:induction false} InsertWithWeight(x: Step, steps: seq<Step>, w: int)
    ensures WithWeight(Insert(x, steps), w) == (if x.weight == w then [x] else []) + WithWeight(steps, w)
  {
    if steps == [] || x.weight <= steps[0].weight {
      assert ([x] + steps)[1..] == steps;
    } else {
      InsertWithWeight(x, steps[1..], w);
      assert ([steps[0]] + Insert(x, steps[1..]))[1..] == Insert(x, steps[1..]);
    }
  }

  /** `orderSteps` sorts by weight and is a permutation of its input. */
  lemma {:induction false} OrderStepsSorted(steps: seq<Step>)
    ensures Sorted(OrderSteps(steps))
    ensures multiset(OrderSteps(steps)) == multiset(steps)
  {
    if steps != [] {
      OrderStepsSorted(steps[1..]);
      InsertSorted(steps[0], OrderSteps(steps[1..]));
      InsertPermutes(steps[0], OrderSteps(steps[1..]));
      assert steps == [steps[0]] + steps[1..];
    }
  }

  /** `orderSteps` is stable: the steps of each weight keep their relative order. */
  lemma {:induction false} OrderStepsStable(steps: seq<Step>, w: int)
    ensures WithWeight(OrderSteps(steps), w) == WithWeight(steps, w)
  {
    if steps != [] {
      OrderStepsStable(steps[1..], w);
      InsertWithWeight(steps[0], OrderSteps(steps[1..]), w);
    }
  }

  /**
   * Sortedness together with stability determines the order: two sorted
   * sequences with the same steps of each weight, in the same order, are
   * equal. So `orderSteps` is exactly the stable sort by weight.
   */
  lemma {:induction false} StableSortUnique(a: seq<Step>, b: seq<Step>)
    requires Sorted(a) && Sorted(b)
    requires forall w :: WithWeight(a, w) == WithWeight(b, w)
    ensures a == b
  {
    if a != [] {
      assert a[0] in WithWeight(a, a[0].weight);
      WithWeightMembers(b, a[0].weight, a[0]);
    }
    if b != [] {
      assert b[0] in WithWeight(b, b[0].weight);
      WithWeightMembers(a, b[0].weight, b[0]);
    }
    if a != [] && b != [] {
      var ka :| 0 <= ka < |a| && a[ka] == b[0];
      var kb :| 0 <= kb < |b| && b[kb] == a[0];
      var w0 := a[0].weight;
      assert b[0].weight == w0;
      assert WithWeight(a, w0)[0] == a[0];
      assert WithWeight(b, w0)[0] == b[0];
      assert WithWeight(a, w0) == WithWeight(b, w0);
      forall w ensures WithWeight(a[1..], w) == WithWeight(b[1..], w) {
        var p := if w0 == w then [a[0]] else [];
        assert WithWeight(a, w) == p + WithWeight(a[1..], w);
        assert WithWeight(b, w) == p + WithWeight(b[1..], w);
        assert (p + WithWeight(a[1..], w))[|p|..] == WithWeight(a[1..], w);
        assert (p + WithWeight(b[1..], w))[|p|..] == WithWeight(b[1..], w);
      }
      StableSortUnique(a[1..], b[1..]);
      assert a == [a[0]] + a[1..];
      assert b == [b[0]] + b[1..];
    }
  }

  /** The `steps` sequence holds exactly the discovered steps that are available, each named by its registry name. */
  lemma StepSequenceMembers(reg: seq<Registration>)
    ensures forall x :: x in StepSequence(reg) <==>
      exists i :: 0 <= i < |reg| && reg[i].step.available && x == NameStep(reg[i].step, reg[i].name)
    ensures forall x :: x in StepSequence(reg) ==> x.available
  {
    var named := SetUpSteps(reg);
    var filtered := FilterSteps(named);
    OrderStepsSorted(filtered);
    FilterStepsMembers(named);
    forall x ensures x in StepSequence(reg) <==> x in filtered {
      assert x in StepSequence(reg) <==> x in multiset(StepSequence(reg));
    }
    forall x ensures x in named <==> exists i :: 0 <= i < |reg| && x == NameStep(reg[i].step, reg[i].name) {
      if x in named {
        var i :| 0 <= i < |named| && named[i] == x;
        assert x == NameStep(reg[i].step, reg[i].name);
      }
    }
  }

  /** The `steps` sequence is the filtered steps sorted by weight, keeping discovery order among equal weights. */
  lemma StepSequenceOrder(reg: seq<Registration>)
    ensures multiset(StepSequence(reg)) == multiset(FilterSteps(SetUpSteps(reg)))
    ensures Sorted(StepSequence(reg))
    ensures forall w :: WithWeight(StepSequence(reg), w) == WithWeight(FilterSteps(SetUpSteps(reg)), w)
  {
    var filtered := FilterSteps(SetUpSteps(reg));
    OrderStepsSorted(filtered);
    forall w ensures WithWeight(StepSequence(reg), w) == WithWeight(filtered, w) {
      OrderStepsStable(filtered, w);
    }
  }

  /**
   * The `steps` sequence holds exactly the discovered steps that are
   * available, each named by its registry name; it is sorted by weight and
   * keeps discovery order among steps of equal weight.
   */
  lemma StepSequenceSpec(reg: seq<Registration>)
    ensures forall x :: x in StepSequence(reg) <==>
      exists i :: 0 <= i < |reg| && reg[i].step.available && x == NameStep(reg[i].step, reg[i].name)
    ensures forall x :: x in StepSequence(reg) ==> x.available
    ensures multiset(StepSequence(reg)) == multiset(FilterSteps(SetUpSteps(reg)))
    ensures Sorted(StepSequence(reg))
    ensures forall w :: WithWeight(StepSequence(reg), w) == WithWeight(FilterSteps(SetUpSteps(reg)), w)
  {
    StepSequenceMembers(reg);
    StepSequenceOrder(reg);
  }

  /** A registered `UnavailableStep` never reaches the `steps` sequence. */
  lemma UnavailableStepExcluded(reg: seq<Registration>, i: nat, fields: seq<Field>, content: Content)
    requires i < |reg| && reg[i].step == UnavailableStep(reg[i].name, fields, content)
    ensures NameStep(reg[i].step, reg[i].name) !in StepSequence(reg)
  {
    StepSequenceSpec(reg);
  }

  /** The names of a step followed by a sequence: that step's name, then the sequence's names. */
  lemma NamesCons(x: Step, steps: seq<Step>)
    ensures Names([x] + steps) == [x.name] + Names(steps)
  {
  }

  /** A name occurs in the sequence iff some step in it carries that name. */
  lemma NamesMember(steps: seq<Step>, n: string)
    ensures n in Names(steps) <==> exists x :: x in steps && x.name == n
  {
    if n in Names(steps) {
      var k :| 0 <= k < |steps| && Names(steps)[k] == n;
      assert steps[k] in steps;
    }
    if exists x :: x in steps && x.name == n {
      var x :| x in steps && x.name == n;
      var k :| 0 <= k < |steps| && steps[k] == x;
      assert Names(steps)[k] == n;
    }
  }

  /** A sequence has unique names iff its head's name does not recur in its tail and the tail has unique names. */
  lemma UniqueNamesCons(x: Step, steps: seq<Step>)
    ensures UniqueNames([x] + steps) <==> x.name !in Names(steps) && UniqueNames(steps)
  {
    var s := [x] + steps;
    if x.name in Names(steps) {
      var k :| 0 <= k < |steps| && Names(steps)[k] == x.name;
      assert s[0].name == s[k + 1].name;
    }
    if UniqueNames(s) {
      forall i, j | 0 <= i < j < |steps| ensures steps[i].name != steps[j].name {
        assert s[i + 1] == steps[i] && s[j + 1] == steps[j];
      }
    }
  }

  /** `filterSteps` introduces no name and keeps names unique. */
  lemma {:induction false} FilterStepsNames(steps: seq<Step>)
    ensures forall n :: n in Names(FilterSteps(steps)) ==> n in Names(steps)
    ensures UniqueNames(steps) ==> UniqueNames(FilterSteps(steps))
  {
    FilterStepsMembers(steps);
    forall n | n in Names(FilterSteps(steps)) ensures n in Names(steps) {
      NamesMember(FilterSteps(steps), n);
      NamesMember(steps, n);
    }
    if steps != [] {
      var tail := FilterSteps(steps[1..]);
      FilterStepsNames(steps[1..]);
      assert steps == [steps[0]] + steps[1..];
      UniqueNamesCons(steps[0], steps[1..]);
      UniqueNamesCons(steps[0], tail);
    }
  }

  /** Inserting `x` adds exactly `x`'s name, and keeps names unique when that name is new. */
  lemma {:induction false} InsertNames(x: Step, steps: seq<Step>)
    ensures forall n :: n in Names(Insert(x, steps)) <==> n == x.name || n in Names(steps)
    ensures UniqueNames(steps) && x.name !in Names(steps) ==> UniqueNames(Insert(x, steps))
  {
    var r := Insert(x, steps);
    InsertPermutes(x, steps);
    assert forall y :: y in r <==> y == x || y in steps by {
      forall y ensures y in r <==> y == x || y in steps {
        assert (y in r) == (y in multiset(r));
        assert (y in steps) == (y in multiset(steps));
      }
    }
    forall n ensures n in Names(r) <==> n == x.name || n in Names(steps) {
      NamesMember(r, n);
      NamesMember(steps, n);
    }
    if UniqueNames(steps) && x.name !in Names(steps) {
      if steps == [] || x.weight <= steps[0].weight {
        UniqueNamesCons(x, steps);
      } else {
        assert steps == [steps[0]] + steps[1..];
        NamesCons(steps[0], steps[1..]);
        UniqueNamesCons(steps[0], steps[1..]);
        InsertNames(x, steps[1..]);
        UniqueNamesCons(steps[0], Insert(x, steps[1..]));
      }
    }
  }

  /** `orderSteps` keeps the names and keeps them unique. */
  lemma {:induction false} OrderStepsNames(steps: seq<Step>)
    ensures forall n :: n in Names(OrderSteps(steps)) <==> n in Names(steps)
    ensures UniqueNames(steps) ==> UniqueNames(OrderSteps(steps))
  {
    if steps != [] {
      OrderStepsNames(steps[1..]);
      InsertNames(steps[0], OrderSteps(steps[1..]));
      assert steps == [steps[0]] + steps[1..];
      NamesCons(steps[0], steps[1..]);
      UniqueNamesCons(steps[0], steps[1..]);
    }
  }

  /**
   * The step registry hands out at most one registration per name, and the
   * `steps` sequence keeps that: its steps carry distinct names.
   */
  lemma StepSequenceUniqueNames(reg: seq<Registration>)
    requires forall i, j :: 0 <= i < j < |reg| ==> reg[i].name != reg[j].name
    ensures UniqueNames(StepSequence(reg))
  {
    var named := SetUpSteps(reg);
    assert UniqueNames(named);
    FilterStepsNames(named);
    OrderStepsNames(FilterSteps(named));
  }

  // ---------------------------------------------------------------------
  // Queries against the sequence
  // ---------------------------------------------------------------------

  /** The step names, in sequence order. */
  function Names(steps: seq<Step>): (r: seq<string>)
    ensures |r| == |steps|
    ensures forall i :: 0 <= i < |steps| ==> r[i] == steps[i].name
  {
    seq(|steps|, i requires 0 <= i < |steps| => steps[i].name)
  }

  /** No two steps share a name. */
  predicate UniqueNames(steps: seq<Step>) {
    forall i, j :: 0 <= i < j < |steps| ==> steps[i].name != steps[j].name
  }

  /** The index of the first step called `name`, or the length when there is none (`list.index`). */
  function Position(steps: seq<Step>, name: string): (r: nat)
    ensures r <= |steps|
    ensures r < |steps| ==> steps[r].name == name
    ensures forall j :: 0 <= j < r ==> steps[j].name != name
    ensures r == |steps| <==> name !in Names(steps)
  {
    if steps == [] then 0
    else if steps[0].name == name then 0
    else 1 + Position(steps[1..], name)
  }

  /** With unique names, the position of a step's name is that step's index. */
  lemma PositionOfUnique(steps: seq<Step>, i: nat)
    requires UniqueNames(steps) && i < |steps|
    ensures Position(steps, steps[i].name) == i
  {
  }

  /** The first step called `name`, if any: the step a name resolves to. */
  function Lookup(steps: seq<Step>, name: string): (r: Option<Step>)
    ensures r.Some? <==> name in Names(steps)
    ensures r.Some? ==> r.value in steps && r.value.name == name
    ensures r.Some? ==> exists k :: 0 <= k < |steps| && r.value == steps[k] && forall j :: 0 <= j < k ==> steps[j].name != name
  {
    var p := Position(steps, name);
    if p < |steps| then Some(steps[p]) else None
  }

  /** With unique names, a step's own name resolves to that step. */
  lemma LookupOwnName(steps: seq<Step>, i: nat)
    requires UniqueNames(steps) && i < |steps|
    ensures Lookup(steps, steps[i].name) == Some(steps[i])
  {
    PositionOfUnique(steps, i);
  }

  /** The wizard's `completed`: every step of the sequence is completed (true for none). */
  function Completed(steps: seq<Step>): (r: bool)
    ensures r <==> forall i :: 0 <= i < |steps| ==> steps[i].completed
  {
    if steps == [] then true else steps[0].completed && Completed(steps[1..])
  }

  /** `isFirstStep`: there is a current step and it has the first step's name. */
  function IsFirstStep(steps: seq<Step>, current: Option<Step>): (r: bool)
    requires current.Some? ==> |steps| > 0
    ensures r ==> current.Some? && current.value.name in Names(steps)
  {
    current.Some? && current.value.name == steps[0].name
  }

  /** `isLastStep`: there is a current step and it has the last step's name. */
  function IsLastStep(steps: seq<Step>, current: Option<Step>): (r: bool)
    requires current.Some? ==> |steps| > 0
    ensures r ==> current.Some? && current.value.name in Names(steps)
  {
    current.Some? && current.value.name == steps[|steps| - 1].name
  }

  /**
   * `previousStepName`: none without a current step or when the current
   * step is the first one, else the name before it.
   */
  function PreviousStepName(steps: seq<Step>, current: Option<Step>): (r: Option<string>)
    requires current.Some? ==> current.value.name in Names(steps)
    ensures r.None? <==> current.None? || IsFirstStep(steps, current)
    ensures r.Some? ==> r.value in Names(steps)
  {
    if current.None? then None
    else
      var idx := Position(steps, current.value.name);
      if idx == 0 then None else Some(steps[idx - 1].name)
  }

  /**
   * `nextStepName`: none without a current step or when the current step
   * is the last one, else the name after it.
   */
  function NextStepName(steps: seq<Step>, current: Option<Step>): (r: Option<string>)
    requires current.Some? ==> current.value.name in Names(steps)
    ensures current.None? ==> r.None?
    ensures current.Some? && !IsLastStep(steps, current) ==> r.Some?
    ensures UniqueNames(steps) ==> (r.None? <==> current.None? || IsLastStep(steps, current))
    ensures r.Some? ==> r.value in Names(steps)
  {
    if current.None? then None
    else
      var idx := Position(steps, current.value.name);
      if idx == |steps| - 1 then None else Some(steps[idx + 1].name)
  }

  /**
   * The boundary queries relative to the position of the current step:
   * first and last exactly at the ends, and the neighbours' names otherwise.
   */
  lemma BoundaryQueries(steps: seq<Step>, i: nat)
    requires UniqueNames(steps) && i < |steps|
    ensures IsFirstStep(steps, Some(steps[i])) <==> i == 0
    ensures IsLastStep(steps, Some(steps[i])) <==> i == |steps| - 1
    ensures PreviousStepName(steps, Some(steps[i])) == if i == 0 then None else Some(steps[i - 1].name)
    ensures NextStepName(steps, Some(steps[i])) == if i == |steps| - 1 then None else Some(steps[i + 1].name)
  {
    PositionOfUnique(steps, i);
  }

  /** Going back and then forward (and the other way round) returns to the same step. */
  lemma PreviousNextInverse(steps: seq<Step>, i: nat)
    requires UniqueNames(steps) && 0 < i < |steps|
    ensures NextStepName(steps, Some(steps[i - 1])) == Some(steps[i].name)
    ensures PreviousStepName(steps, Some(steps[i])) == Some(steps[i - 1].name)
  {
    PositionOfUnique(steps, i - 1);
    PositionOfUnique(steps, i);
  }

  /** The index of the first step that is not completed, if any. */
  function FirstIncomplete(steps: seq<Step>): (r: Option<nat>)
    ensures r.Some? ==> r.value < |steps| && !steps[r.value].completed
    ensures r.Some? ==> forall j :: 0 <= j < r.value ==> steps[j].completed
    ensures r.None? <==> Completed(steps)
  {
    if steps == [] then None
    else if !steps[0].completed then Some(0)
    else match FirstIncomplete(steps[1..])
      case None => None
      case Some(k) => Some(k + 1)
  }

  /**
   * `getDefaultStep`: the first step when `firstStepAsDefault` is set, else
   * the first step not completed, falling back to the first step.
   */
  function GetDefaultStep(steps: seq<Step>, firstStepAsDefault: bool): (r: Step)
    requires |steps| > 0
    ensures r in steps
    ensures firstStepAsDefault || Completed(steps) ==> r == steps[0]
    ensures !firstStepAsDefault && !Completed(steps) ==>
      exists k :: 0 <= k < |steps| && r == steps[k] && !r.completed &&
        forall j :: 0 <= j < k ==> steps[j].completed
  {
    if firstStepAsDefault then steps[0]
    else match FirstIncomplete(steps)
      case Some(k) => steps[k]
      case None => steps[0]
  }

  /**
   * The step `doAdjustStep` redirects to: the first step that is not
   * completed among those before the first step named `current`.
   */
  function AdjustTarget(steps: seq<Step>, current: string): (r: Option<nat>)
    ensures r.Some? ==> r.value < |steps| && !steps[r.value].completed && steps[r.value].name != current
    ensures r.Some? ==> forall j :: 0 <= j < r.value ==> steps[j].completed && steps[j].name != current
    ensures r.None? <==> forall j :: 0 <= j < Position(steps, current) ==> steps[j].completed
  {
    var p := Position(steps, current);
    var t := FirstIncomplete(steps[..p]);
    assert forall j :: 0 <= j < p ==> steps[..p][j] == steps[j];
    t
  }

  /** A scan that meets an incomplete step before any step named `current` has found the guard's target. */
  lemma AdjustTargetFound(steps: seq<Step>, current: string, i: nat)
    requires i < |steps| && !steps[i].completed && steps[i].name != current
    requires forall j :: 0 <= j < i ==> steps[j].completed && steps[j].name != current
    ensures AdjustTarget(steps, current) == Some(i)
  {
    var p := Position(steps, current);
    assert p > i;
    var t := AdjustTarget(steps, current);
    assert t.Some?;
    assert t.value <= i && t.value >= i;
  }

  /** A scan that reaches a step named `current`, or the end, over completed steps only has no target. */
  lemma AdjustTargetNone(steps: seq<Step>, current: string, i: nat)
    requires i <= |steps| && (i < |steps| ==> steps[i].name == current)
    requires forall j :: 0 <= j < i ==> steps[j].completed && steps[j].name != current
    ensures AdjustTarget(steps, current).None?
  {
    assert Position(steps, current) <= i;
  }

  /** With the guard, the default step is never redirected away from. */
  lemma DefaultStepNotRedirected(steps: seq<Step>, firstStepAsDefault: bool)
    requires |steps| > 0 && UniqueNames(steps)
    ensures AdjustTarget(steps, GetDefaultStep(steps, firstStepAsDefault).name).None?
  {
    var d := GetDefaultStep(steps, firstStepAsDefault);
    if firstStepAsDefault || Completed(steps) {
      assert Position(steps, d.name) == 0;
    } else {
      var k :| 0 <= k < |steps| && d == steps[k] && !d.completed &&
        forall j :: 0 <= j < k ==> steps[j].completed;
      PositionOfUnique(steps, k);
    }
  }

  // ---------------------------------------------------------------------
  // Traversal names
  // ---------------------------------------------------------------------

  /** The index of the last `.` in `s`, if any. */
  function LastDot(s: string): (r: Option<nat>)
    ensures r.Some? ==> r.value < |s| && s[r.value] == '.' && '.' !in s[r.value + 1..]
    ensures r.None? <==> '.' !in s
  {
    if s == [] then None
    else if s[|s| - 1] == '.' then Some(|s| - 1)
    else
      assert s == s[..|s| - 1] + [s[|s| - 1]];
      LastDot(s[..|s| - 1])
  }

  /** The name `publishTraverse` matches: everything before the last `.`, or the whole name. */
  function StripExtension(name: string): (r: string)
    ensures '.' !in name ==> r == name
    ensures '.' in name ==> |r| < |name| && name[|r|] == '.' && r == name[..|r|] && '.' !in name[|r| + 1..]
  {
    match LastDot(name)
    case None => name
    case Some(k) => name[..k]
  }

  /** A name followed by a format ending without dots traverses to that name. */
  lemma {:induction false} StripExtensionRoundTrip(base: string, ending: string)
    requires '.' !in ending
    ensures StripExtension(base + "." + ending) == base
  {
    var name := base + "." + ending;
    assert name[|base|] == '.';
    assert name[..|base|] == base;
  }

  /** A step's name with a format ending (`first.html`) traverses to that step. */
  lemma TraverseRoundTrip(steps: seq<Step>, i: nat, ending: string)
    requires UniqueNames(steps) && i < |steps| && '.' !in ending
    ensures Lookup(steps, StripExtension(steps[i].name + "." + ending)) == Some(steps[i])
  {
    StripExtensionRoundTrip(steps[i].name, ending);
    LookupOwnName(steps, i);
  }

  /** A single available step that is not completed makes the whole wizard incomplete. */
  lemma IncompleteStepBlocksCompletion(reg: seq<Registration>, i: nat)
    requires i < |reg| && reg[i].step.available && !reg[i].step.completed
    ensures !Completed(StepSequence(reg))
  {
    StepSequenceSpec(reg);
    var x := NameStep(reg[i].step, reg[i].name);
    assert x in StepSequence(reg);
  }

  /** A required field with nothing stored, in an available default step, keeps the wizard incomplete. */
  lemma MissingFieldBlocksCompletion(reg: seq<Registration>, i: nat, fields: seq<Field>, content: Content, k: nat)
    requires i < |reg| && reg[i].step == DefaultStep(reg[i].name, fields, content)
    requires k < |fields| && fields[k].required && fields[k].name !in content
    ensures !Completed(StepSequence(reg))
  {
    AbsentRequiredFieldIncompletes(fields, content, k);
    IncompleteStepBlocksCompletion(reg, i);
  }
}
