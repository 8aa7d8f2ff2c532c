/**
 The toggle switch: a boolean form control. The form layer writes a value into it
 (`writeValue`) and registers a change and a touched callback; a user interaction
 (`handleToggle`) flips the value and reports it to the change callback, to the public
 `change` event and to the touched callback, in that order.
 */
module Switch {
  import opened Js
  import opened Notifications
  import opened Dom

  /** `!!value`: the boolean a switch stores for whatever the form layer writes. */
  function Coerce(v: JsValue): (r: bool)
    ensures r == ToBoolean(v)
    ensures v.Bool? ==> r == v.b
    ensures v == Null || v == Undefined ==> !r
  {
    LogicalNot(LogicalNot(v)).b
  }

  /** Everything a switch holds that its behaviour depends on. */
  datatype SwitchState = SwitchState(
    value: bool,
    disabled: bool,
    onChange: Handler,
    onTouched: Handler,
    trace: seq<Notification>)

  /** A new switch: off, enabled, both callbacks no-ops, nothing sent yet. */
  const Initial := SwitchState(false, false, NoOp, NoOp, [])

  /** The calls the form layer and the template make on a switch. */
  datatype SwitchCall =
    | WriteValue(v: JsValue)
    | RegisterOnChange(fn: Handler)
    | RegisterOnTouched(fn: Handler)
    | SetDisabledState(isDisabled: bool)
    | MarkAsTouched
    | HandleToggle

  /** `updateValue(v)`: store `v`, then notify the change callback, the `change` event
      and the touched callback. */
  function Updated(s: SwitchState, v: bool): (s': SwitchState)
  {
    s.(value := v, trace := s.trace + [OnChange(s.onChange, Bool(v)), Emit(Bool(v)), Touched(s.onTouched)])
  }

  /** The effect of one call. */
  function Step(s: SwitchState, c: SwitchCall): (s': SwitchState)
  {
    match c
    case WriteValue(v) => s.(value := Coerce(v))
    case RegisterOnChange(fn) => s.(onChange := fn)
    case RegisterOnTouched(fn) => s.(onTouched := fn)
    case SetDisabledState(b) => s.(disabled := b)
    case MarkAsTouched => s.(trace := s.trace + [Touched(s.onTouched)])
    case HandleToggle => if s.disabled then s else Updated(s, !s.value)
  }

  /** The effect of a sequence of calls, first to last. */
  function Run(s: SwitchState, calls: seq<SwitchCall>): (r: SwitchState)
    decreases |calls|
  {
    if calls == [] then s else Run(Step(s, calls[0]), calls[1..])
  }

  class SwitchComponent {
    var disabled: bool
    var value: bool
    var onChange: Handler
    var onTouched: Handler
    /** Every callback call and event emission so far, in order. */
    ghost var trace: seq<Notification>

    ghost function State(): SwitchState
      reads this
    {
      SwitchState(value, disabled, onChange, onTouched, trace)
    }

    constructor ()
      ensures !value && !disabled && onChange == NoOp && onTouched == NoOp && trace == []
      ensures State() == Initial
    {
      disabled := false;
      value := false;
      onChange := NoOp;
      onTouched := NoOp;
      trace := [];
    }

    method WriteValue(v: JsValue)
      modifies this
      ensures value == Coerce(v) && disabled == old(disabled) && trace == old(trace)
      ensures State() == Step(old(State()), SwitchCall.WriteValue(v))
    {
      value := Coerce(v);
    }

    method RegisterOnChange(fn: Handler)
      modifies this
      ensures onChange == fn
      ensures State() == Step(old(State()), SwitchCall.RegisterOnChange(fn))
    {
      onChange := fn;
    }

    method RegisterOnTouched(fn: Handler)
      modifies this
      ensures onTouched == fn
      ensures State() == Step(old(State()), SwitchCall.RegisterOnTouched(fn))
    {
      onTouched := fn;
    }

    method SetDisabledState(isDisabled: bool)
      modifies this
      ensures disabled == isDisabled && value == old(value) && trace == old(trace)
      ensures State() == Step(old(State()), SwitchCall.SetDisabledState(isDisabled))
    {
      disabled := isDisabled;
    }

    method MarkAsTouched()
      modifies this
      ensures value == old(value) && trace == old(trace) + [Touched(onTouched)]
      ensures State() == Step(old(State()), SwitchCall.MarkAsTouched)
    {
      trace := trace + [Touched(onTouched)];
    }

    /** The template's handler for a click on the switch. The event's propagation is
        stopped whether or not the switch is disabled. */
    method HandleToggle(event: DomEvent)
      modifies this, event
      ensures event.propagationStopped
      ensures old(disabled) ==> value == old(value) && trace == old(trace)
      ensures !old(disabled) ==> (value == !old(value) &&
        trace == old(trace) + [OnChange(onChange, Bool(value)), Emit(Bool(value)), Touched(onTouched)])
      ensures State() == Step(old(State()), SwitchCall.HandleToggle)
    {
      event.StopPropagation();
      if disabled {
        return;
      }
      UpdateValue(!value);
    }

    method UpdateValue(v: bool)
      modifies this
      ensures State() == Updated(old(State()), v)
    {
      value := v;
      trace := trace + [OnChange(onChange, Bool(v))];
      trace := trace + [Emit(Bool(v))];
      trace := trace + [Touched(onTouched)];
    }
  }

  /** `n` clicks in a row. */
  function Toggles(n: nat): (calls: seq<SwitchCall>)
  {
    seq(n, _ => HandleToggle)
  }

  /** On an enabled switch, `n` clicks leave the value flipped exactly when `n` is odd,
      and send three notifications each. */
  lemma {:induction false} TogglesFlipParity(s: SwitchState, n: nat)
    requires !s.disabled
    ensures Run(s, Toggles(n)).value == (if n % 2 == 0 then s.value else !s.value)
    ensures |Run(s, Toggles(n)).trace| == |s.trace| + 3 * n
    ensures !Run(s, Toggles(n)).disabled
    decreases n
  {
    if n > 0 {
      assert Toggles(n)[1..] == Toggles(n - 1);
      TogglesFlipParity(Step(s, HandleToggle), n - 1);
    }
  }

  /** Two clicks on an enabled switch restore its value; the form sees both changes. */
  lemma DoubleToggleRestores(s: SwitchState)
    requires !s.disabled
    ensures Run(s, [HandleToggle, HandleToggle]).value == s.value
    ensures Run(s, [HandleToggle, HandleToggle]).trace == s.trace +
      [OnChange(s.onChange, Bool(!s.value)), Emit(Bool(!s.value)), Touched(s.onTouched),
       OnChange(s.onChange, Bool(s.value)), Emit(Bool(s.value)), Touched(s.onTouched)]
  {
  }

  /** The shape of everything a switch sends: each value reported to the change callback is a
      boolean, is then emitted unchanged on the `change` event and is followed by a touched
      notification; nothing is emitted without being reported first. */
  ghost predicate SwitchTraceShape(t: seq<Notification>)
  {
    (forall i :: 0 <= i < |t| && t[i].OnChange? ==>
       t[i].value.Bool? && i + 2 < |t| && t[i + 1] == Emit(t[i].value) && t[i + 2].Touched?) &&
    (forall i :: 0 <= i < |t| && t[i].Emit? ==>
       0 < i && t[i - 1].OnChange? && t[i - 1].value == t[i].value)
  }

  lemma StepKeepsSwitchTraceShape(s: SwitchState, c: SwitchCall)
    requires SwitchTraceShape(s.trace)
    ensures SwitchTraceShape(Step(s, c).trace)
  {
  }

  /** Any sequence of calls keeps that shape. */
  lemma {:induction false} RunKeepsSwitchTraceShape(s: SwitchState, calls: seq<SwitchCall>)
    requires SwitchTraceShape(s.trace)
    ensures SwitchTraceShape(Run(s, calls).trace)
    decreases |calls|
  {
    if calls != [] {
      StepKeepsSwitchTraceShape(s, calls[0]);
      RunKeepsSwitchTraceShape(Step(s, calls[0]), calls[1..]);
    }
  }

  /** The form has been told the switch's current value, or has been told nothing yet. */
  ghost predicate InSync(s: SwitchState)
  {
    LastChange(s.trace).Some? ==> LastChange(s.trace) == Some(Bool(s.value))
  }

  lemma StepKeepsSwitchInSync(s: SwitchState, c: SwitchCall)
    requires InSync(s) && !c.WriteValue?
    ensures InSync(Step(s, c))
  {
    if c.MarkAsTouched? {
      LastChangeAppend(s.trace, [Touched(s.onTouched)]);
    } else if c.HandleToggle? && !s.disabled {
      var v := Bool(!s.value);
      var sent := [OnChange(s.onChange, v), Emit(v), Touched(s.onTouched)];
      assert LastChange(sent) == Some(v) by {
        assert sent[..2] == [OnChange(s.onChange, v), Emit(v)];
        assert sent[..2][..1] == [OnChange(s.onChange, v)];
        assert LastChange(sent[..2]) == Some(v);
      }
      LastChangeAppend(s.trace, sent);
    }
  }

  /** Starting from a new switch, every trace has the shape above, and as long as the form
      has written no value the last value reported to it is the current value. */
  lemma ReachableSwitchWellFormed(calls: seq<SwitchCall>)
    ensures SwitchTraceShape(Run(Initial, calls).trace)
    ensures (forall i :: 0 <= i < |calls| ==> !calls[i].WriteValue?) ==> InSync(Run(Initial, calls))
  {
    RunKeepsSwitchTraceShape(Initial, calls);
    if forall i :: 0 <= i < |calls| ==> !calls[i].WriteValue? {
      RunKeepsSwitchInSync(Initial, calls);
    }
  }

  /** Unless the form itself writes a value, the last value reported to it is the switch's
      current value: no call changes the value without reporting it. */
  lemma {:induction false} RunKeepsSwitchInSync(s: SwitchState, calls: seq<SwitchCall>)
    requires InSync(s)
    requires forall i :: 0 <= i < |calls| ==> !calls[i].WriteValue?
    ensures InSync(Run(s, calls))
    decreases |calls|
  {
    if calls != [] {
      StepKeepsSwitchInSync(s, calls[0]);
      RunKeepsSwitchInSync(Step(s, calls[0]), calls[1..]);
    }
  }

  /** While disabled, clicks and blur never change the value and report nothing but
      touched notifications. */
  lemma {:induction false} DisabledSwitchHoldsValue(s: SwitchState, calls: seq<SwitchCall>)
    requires s.disabled
    requires forall i :: 0 <= i < |calls| ==>
      calls[i].HandleToggle? || calls[i].MarkAsTouched? || calls[i].RegisterOnChange? || calls[i].RegisterOnTouched?
    ensures Run(s, calls).value == s.value && Run(s, calls).disabled
    ensures |s.trace| <= |Run(s, calls).trace| && Run(s, calls).trace[..|s.trace|] == s.trace
    ensures forall i :: |s.trace| <= i < |Run(s, calls).trace| ==> Run(s, calls).trace[i].Touched?
    decreases |calls|
  {
    if calls != [] {
      var s' := Step(s, calls[0]);
      assert s'.trace == s.trace || s'.trace == s.trace + [Touched(s.onTouched)];
      DisabledSwitchHoldsValue(s', calls[1..]);
      var r := Run(s, calls);
      assert r == Run(s', calls[1..]);
      assert r.trace[..|s'.trace|] == s'.trace;
      assert forall i :: |s.trace| <= i < |s'.trace| ==> r.trace[i] == s'.trace[i];
      assert r.trace[..|s.trace|] == s'.trace[..|s.trace|];
    }
  }

  /** A new switch starts off, and one click turns it on and stops the click's propagation
      (no callback has been registered: the no-op defaults receive the notifications). */
  method NewSwitchClicked() returns (before: bool, after: bool, stopped: bool)
    ensures !before && after && stopped
  {
    var sw := new SwitchComponent();
    before := sw.value;
    var event := new DomEvent("on");
    sw.HandleToggle(event);
    after := sw.value;
    stopped := event.propagationStopped;
  }

  /** A click on a disabled switch leaves it off. */
  method DisabledSwitchClicked() returns (after: bool)
    ensures !after
  {
    var sw := new SwitchComponent();
    sw.disabled := true;
    var event := new DomEvent("on");
    sw.HandleToggle(event);
    after := sw.value;
  }

  /** A form control set to `true` turns the switch on. */
  method FormWritesTrue() returns (before: bool, after: bool)
    ensures !before && after
  {
    var sw := new SwitchComponent();
    sw.WriteValue(Bool(false));
    before := sw.value;
    sw.WriteValue(Bool(true));
    after := sw.value;
  }
}
