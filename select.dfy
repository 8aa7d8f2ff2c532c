/**
 The select: a form control wrapping a native `<select>` element. The form layer writes any
 value into it (`writeValue`) and registers a change and a touched callback; when the user
 picks an entry, `onSelectChange` stores the element's value (an empty string meaning "no
 selection", stored as `null`) and reports it to the change callback and to the public
 `change` event. Rendering the options is the template's business.
 */
module Select {
  import opened Js
  import opened Notifications
  import opened Dom

  /** One entry of the list (`SelectOption` in the source; its `label` is `text` here, since
      `label` is a keyword of Dafny); `disabled` is optional. */
  datatype SelectOption = SelectOption(value: JsValue, text: string, disabled: Option<bool>)

  /** `target.value || null`: what `onSelectChange` stores for the `<select>` element's value. */
  function SelectedValue(targetValue: string): (r: JsValue)
    ensures targetValue == "" ==> r == Null
    ensures targetValue != "" ==> r == Str(targetValue)
  {
    LogicalOr(Str(targetValue), Null)
  }

  /** Everything a select holds that its behaviour depends on. */
  datatype SelectState = SelectState(
    value: JsValue,
    disabled: bool,
    options: seq<SelectOption>,
    onChange: Handler,
    onTouched: Handler,
    trace: seq<Notification>)

  /** A new select: no value, enabled, no options, both callbacks no-ops, nothing sent yet. */
  const Initial := SelectState(Null, false, [], NoOp, NoOp, [])

  /** The calls the form layer and the template make on a select. */
  datatype SelectCall =
    | OnSelectChange(targetValue: string)
    | MarkAsTouched
    | WriteValue(v: JsValue)
    | RegisterOnChange(fn: Handler)
    | RegisterOnTouched(fn: Handler)
    | SetDisabledState(isDisabled: bool)

  /** The effect of one call. */
  function Step(s: SelectState, c: SelectCall): (s': SelectState)
  {
    match c
    case OnSelectChange(tv) =>
      var nv := SelectedValue(tv);
      s.(value := nv, trace := s.trace + [OnChange(s.onChange, nv), Emit(nv)])
    case MarkAsTouched => s.(trace := s.trace + [Touched(s.onTouched)])
    case WriteValue(v) => s.(value := v)
    case RegisterOnChange(fn) => s.(onChange := fn)
    case RegisterOnTouched(fn) => s.(onTouched := fn)
    case SetDisabledState(b) => s.(disabled := b)
  }

  /** The effect of a sequence of calls, first to last. */
  function Run(s: SelectState, calls: seq<SelectCall>): (r: SelectState)
    decreases |calls|
  {
    if calls == [] then s else Run(Step(s, calls[0]), calls[1..])
  }

  class SelectComponent {
    var options: seq<SelectOption>
    var disabled: bool
    var value: JsValue
    var onChange: Handler
    var onTouched: Handler
    /** Every callback call and event emission so far, in order. */
    ghost var trace: seq<Notification>

    ghost function State(): SelectState
      reads this
    {
      SelectState(value, disabled, options, onChange, onTouched, trace)
    }

    constructor ()
      ensures value == Null && !disabled && options == [] && onChange == NoOp && onTouched == NoOp && trace == []
      ensures State() == Initial
    {
      options := [];
      disabled := false;
      value := Null;
      onChange := NoOp;
      onTouched := NoOp;
      trace := [];
    }

    /** The template's handler for the native element's `change` event. It does not look at
        `disabled` and does not call the touched callback. */
    method OnSelectChange(event: DomEvent)
      modifies this
      ensures value == SelectedValue(event.targetValue)
      ensures trace == old(trace) + [OnChange(onChange, value), Emit(value)]
      ensures disabled == old(disabled) && options == old(options)
      ensures State() == Step(old(State()), SelectCall.OnSelectChange(event.targetValue))
    {
      var newValue := SelectedValue(event.targetValue);
      value := newValue;
      trace := trace + [OnChange(onChange, newValue)];
      trace := trace + [Emit(newValue)];
    }

    method MarkAsTouched()
      modifies this
      ensures value == old(value) && trace == old(trace) + [Touched(onTouched)]
      ensures State() == Step(old(State()), SelectCall.MarkAsTouched)
    {
      trace := trace + [Touched(onTouched)];
    }

    method WriteValue(v: JsValue)
      modifies this
      ensures value == v && trace == old(trace)
      ensures State() == Step(old(State()), SelectCall.WriteValue(v))
    {
      value := v;
    }

    method RegisterOnChange(fn: Handler)
      modifies this
      ensures onChange == fn
      ensures State() == Step(old(State()), SelectCall.RegisterOnChange(fn))
    {
      onChange := fn;
    }

    method RegisterOnTouched(fn: Handler)
      modifies this
      ensures onTouched == fn
      ensures State() == Step(old(State()), SelectCall.RegisterOnTouched(fn))
    {
      onTouched := fn;
    }

    method SetDisabledState(isDisabled: bool)
      modifies this
      ensures disabled == isDisabled && value == old(value) && options == old(options) && trace == old(trace)
      ensures State() == Step(old(State()), SelectCall.SetDisabledState(isDisabled))
    {
      disabled := isDisabled;
    }
  }

  /** A value the user can hand to the form: no selection (`null`) or a non-empty string. */
  predicate Selectable(v: JsValue)
  {
    v == Null || (v.Str? && v.s != "")
  }

  /** The shape of everything a select sends: each value reported to the change callback is
      selectable and is then emitted unchanged on the `change` event; nothing is emitted
      without being reported first. */
  ghost predicate SelectTraceShape(t: seq<Notification>)
  {
    (forall i :: 0 <= i < |t| && t[i].OnChange? ==>
       Selectable(t[i].value) && i + 1 < |t| && t[i + 1] == Emit(t[i].value)) &&
    (forall i :: 0 <= i < |t| && t[i].Emit? ==>
       0 < i && t[i - 1].OnChange? && t[i - 1].value == t[i].value)
  }

  lemma StepKeepsSelectTraceShape(s: SelectState, c: SelectCall)
    requires SelectTraceShape(s.trace)
    ensures SelectTraceShape(Step(s, c).trace)
  {
  }

  /** Any sequence of calls keeps that shape: the form is only ever told `null` or a
      non-empty string, and the `change` event repeats exactly what the form was told. */
  lemma {:induction false} RunKeepsSelectTraceShape(s: SelectState, calls: seq<SelectCall>)
    requires SelectTraceShape(s.trace)
    ensures SelectTraceShape(Run(s, calls).trace)
    decreases |calls|
  {
    if calls != [] {
      StepKeepsSelectTraceShape(s, calls[0]);
      RunKeepsSelectTraceShape(Step(s, calls[0]), calls[1..]);
    }
  }

  /** The form has been told the select's current value, or has been told nothing yet. */
  ghost predicate InSync(s: SelectState)
  {
    LastChange(s.trace).Some? ==> LastChange(s.trace) == Some(s.value)
  }

  lemma StepKeepsSelectInSync(s: SelectState, c: SelectCall)
    requires InSync(s) && !c.WriteValue?
    ensures InSync(Step(s, c))
  {
  }

  /** Starting from a new select, every trace has the shape above, and as long as the form
      has written no value the last value reported to it is the current value. */
  lemma ReachableSelectWellFormed(calls: seq<SelectCall>)
    ensures SelectTraceShape(Run(Initial, calls).trace)
    ensures (forall i :: 0 <= i < |calls| ==> !calls[i].WriteValue?) ==> InSync(Run(Initial, calls))
  {
    RunKeepsSelectTraceShape(Initial, calls);
    if forall i :: 0 <= i < |calls| ==> !calls[i].WriteValue? {
      RunKeepsSelectInSync(Initial, calls);
    }
  }

  /** Unless the form itself writes a value, the last value reported to it is the select's
      current value. */
  lemma {:induction false} RunKeepsSelectInSync(s: SelectState, calls: seq<SelectCall>)
    requires InSync(s)
    requires forall i :: 0 <= i < |calls| ==> !calls[i].WriteValue?
    ensures InSync(Run(s, calls))
    decreases |calls|
  {
    if calls != [] {
      StepKeepsSelectInSync(s, calls[0]);
      RunKeepsSelectInSync(Step(s, calls[0]), calls[1..]);
    }
  }

  /** `disabled` is only rendered: as long as nobody changes it, a disabled select and an
      enabled one go through the same calls identically. */
  lemma {:induction false} DisabledIsInert(s: SelectState, calls: seq<SelectCall>, b: bool)
    requires forall i :: 0 <= i < |calls| ==> !calls[i].SetDisabledState?
    ensures Run(s.(disabled := b), calls) == Run(s, calls).(disabled := b)
    ensures Run(s, calls).disabled == s.disabled
    decreases |calls|
  {
    if calls != [] {
      assert Step(s.(disabled := b), calls[0]) == Step(s, calls[0]).(disabled := b);
      DisabledIsInert(Step(s, calls[0]), calls[1..], b);
    }
  }

  /** How many of `calls` are `markAsTouched`. */
  function MarkCount(calls: seq<SelectCall>): (n: nat)
    ensures n <= |calls|
    decreases |calls|
  {
    if calls == [] then 0 else (if calls[0].MarkAsTouched? then 1 else 0) + MarkCount(calls[1..])
  }

  /** The touched callback is called once per `markAsTouched` and never otherwise:
      picking an entry does not count as touching the select. */
  lemma {:induction false} TouchedOnlyWhenMarked(s: SelectState, calls: seq<SelectCall>)
    ensures CountTouched(Run(s, calls).trace) == CountTouched(s.trace) + MarkCount(calls)
    decreases |calls|
  {
    if calls != [] {
      var c := calls[0];
      var s' := Step(s, c);
      if c.MarkAsTouched? {
        CountTouchedAppend(s.trace, [Touched(s.onTouched)]);
        assert CountTouched([Touched(s.onTouched)]) == 1;
      } else if c.OnSelectChange? {
        var v := SelectedValue(c.targetValue);
        CountTouchedAppend(s.trace, [OnChange(s.onChange, v), Emit(v)]);
        assert CountTouched([OnChange(s.onChange, v), Emit(v)]) == 0;
      }
      TouchedOnlyWhenMarked(s', calls[1..]);
    }
  }

  /** The trace only grows: whatever was sent before stays as it was. */
  lemma {:induction false} RunExtendsTrace(s: SelectState, calls: seq<SelectCall>)
    ensures |s.trace| <= |Run(s, calls).trace| && Run(s, calls).trace[..|s.trace|] == s.trace
    decreases |calls|
  {
    if calls != [] {
      var s' := Step(s, calls[0]);
      assert s'.trace[..|s.trace|] == s.trace;
      RunExtendsTrace(s', calls[1..]);
      assert Run(s, calls).trace[..|s.trace|] == Run(s', calls[1..]).trace[..|s'.trace|][..|s.trace|];
    }
  }

  /** Registering a touched callback leaves the change callback alone: until the next
      `registerOnChange`, every change notification goes to the change callback registered
      last, whatever touched callbacks are registered meanwhile. */
  lemma {:induction false} ChangesReachRegistered(s: SelectState, calls: seq<SelectCall>)
    requires forall i :: 0 <= i < |calls| ==> !calls[i].RegisterOnChange?
    ensures Run(s, calls).onChange == s.onChange
    ensures forall i :: |s.trace| <= i < |Run(s, calls).trace| && Run(s, calls).trace[i].OnChange? ==>
      Run(s, calls).trace[i].handler == s.onChange
    decreases |calls|
  {
    if calls != [] {
      var s' := Step(s, calls[0]);
      assert s'.onChange == s.onChange;
      ChangesReachRegistered(s', calls[1..]);
      RunExtendsTrace(s', calls[1..]);
      var r := Run(s, calls);
      assert r == Run(s', calls[1..]);
      assert forall i :: |s.trace| <= i < |s'.trace| ==> r.trace[i] == s'.trace[i];
    }
  }

  /** Registering a change callback leaves the touched callback alone: until the next
      `registerOnTouched`, every touched notification goes to the touched callback registered
      last, whatever change callbacks are registered meanwhile. */
  lemma {:induction false} TouchedReachRegistered(s: SelectState, calls: seq<SelectCall>)
    requires forall i :: 0 <= i < |calls| ==> !calls[i].RegisterOnTouched?
    ensures Run(s, calls).onTouched == s.onTouched
    ensures forall i :: |s.trace| <= i < |Run(s, calls).trace| && Run(s, calls).trace[i].Touched? ==>
      Run(s, calls).trace[i].handler == s.onTouched
    decreases |calls|
  {
    if calls != [] {
      var s' := Step(s, calls[0]);
      assert s'.onTouched == s.onTouched;
      TouchedReachRegistered(s', calls[1..]);
      RunExtendsTrace(s', calls[1..]);
      var r := Run(s, calls);
      assert r == Run(s', calls[1..]);
      assert forall i :: |s.trace| <= i < |s'.trace| ==> r.trace[i] == s'.trace[i];
    }
  }

  /** A form control set to `'2'` shows up as the select's value, unchanged. */
  method FormWritesValue() returns (before: JsValue, after: JsValue)
    ensures before == Null && after == Str("2")
  {
    var sel := new SelectComponent();
    before := sel.value;
    sel.WriteValue(Str("2"));
    after := sel.value;
  }

  /** A change event that reaches a disabled select's handler still stores its value, and one
      for the empty entry afterwards clears the value to `null`. */
  method PickThenClear() returns (picked: JsValue, cleared: JsValue)
    ensures picked == Str("val1") && cleared == Null
  {
    var sel := new SelectComponent();
    sel.SetDisabledState(true);
    var e1 := new DomEvent("val1");
    sel.OnSelectChange(e1);
    picked := sel.value;
    var e2 := new DomEvent("");
    sel.OnSelectChange(e2);
    cleared := sel.value;
  }
}
