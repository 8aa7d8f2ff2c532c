# Switch and select form controls

A model of the two form widgets of an Angular component library: the toggle switch
(`SwitchComponent`) and the select (`SelectComponent`). Each widget implements Angular's
`ControlValueAccessor` protocol. The form layer writes values into the widget
(`writeValue`), registers a change callback and a touched callback, and enables or disables
the widget (`setDisabledState`). The widget reports user changes back through the
callbacks and through its public `change` event.

Each widget is a Dafny class whose fields are the component's own fields: `value`,
`disabled`, `onChange`, `onTouched`, and for the select also `options`. The callbacks
themselves are opaque, so a callback is modelled by its identity (`Handler`: the no-op
default or a registered callback). Every call a widget makes to a callback or to its
`change` emitter is appended to a ghost field `trace` of `Notification`s. Each notification
records which callback received it. Every method's contract states the new fields and the
exact notifications appended, and also ties the new state to a pure step function
(`State() == Step(old(State()), call)`). Lemmas about `Run`, which folds `Step` over a
sequence of calls, state what holds across many calls.

Files:
- `js.dfy`: JavaScript values, ECMAScript's ToBoolean (section 7.1.2 of ECMA-262), `!` and `||`.
- `notifications.dfy`: callbacks, notifications, the last reported value, touched counts.
- `dom.dfy`: the DOM event passed to a handler (`stopPropagation`, the target's `value`).
- `switch.dfy`: `SwitchComponent`, its step function and its lemmas.
- `select.dfy`: `SelectOption`, `SelectComponent`, its step function and its lemmas.

The select modelled here is the one in `projects/ui/src/lib/select/select.component.ts`,
which wraps a native `<select>`. Its test file,
`projects/ui/src/lib/select/select.component.spec.ts`, describes a custom dropdown instead: `toggleDropdown`, `isOpen`, `focusedIndex`, `selectOption`, keyboard
navigation and a `selectedLabel` kept in step with `value`. None of these exist in that
source file, so the model follows the code. In particular, `writeValue` only stores its
argument and computes no label.

## Model

| member | source | states |
|---|---|---|
| `Js.ToBoolean` | projects/ui/src/lib/switch/switch.component.ts:49 | among the values modelled, a value is falsy exactly when it is one of the seven falsy primitives `undefined`, `null`, `false`, `0`, `NaN`, `0n` or `""` |
| `Switch.Coerce` | projects/ui/src/lib/switch/switch.component.ts:48-50 | `!!v` is the truthiness of `v`: a boolean is kept as it is, and `null` or `undefined` become `false` |
| `Switch.SwitchComponent.constructor` | projects/ui/src/lib/switch/switch.component.ts:30-46 | a new switch is off and enabled, both callbacks are no-ops, and nothing has been sent |
| `Switch.SwitchComponent.WriteValue` | projects/ui/src/lib/switch/switch.component.ts:48-50 | stores `!!v`, sends nothing, and leaves `disabled` and the callbacks as they were |
| `Switch.SwitchComponent.RegisterOnChange` | projects/ui/src/lib/switch/switch.component.ts:52-54 | replaces the change callback and nothing else |
| `Switch.SwitchComponent.RegisterOnTouched` | projects/ui/src/lib/switch/switch.component.ts:56-58 | replaces the touched callback and nothing else |
| `Switch.SwitchComponent.SetDisabledState` | projects/ui/src/lib/switch/switch.component.ts:60-62 | sets `disabled` and changes neither the value nor what was sent |
| `Switch.SwitchComponent.MarkAsTouched` | projects/ui/src/lib/switch/switch.component.ts:64-66 | sends exactly one touched notification, to the current touched callback, and keeps the value |
| `Switch.SwitchComponent.HandleToggle` | projects/ui/src/lib/switch/switch.component.ts:71-79 | always stops the event's propagation; when disabled it changes nothing and sends nothing; otherwise it flips the value and sends change(v), emit(v) and touched, in that order, with the new value v |
| `Switch.SwitchComponent.UpdateValue` | projects/ui/src/lib/switch/switch.component.ts:81-86 | stores v, then calls the change callback with v, emits v, and calls the touched callback |
| `Switch.TogglesFlipParity` | projects/ui/src/lib/switch/switch.component.ts:71-86 | n clicks on an enabled switch flip the value exactly when n is odd, and send 3n notifications |
| `Switch.DoubleToggleRestores` | projects/ui/src/lib/switch/switch.component.ts:71-86 | two clicks on an enabled switch restore the value; the form is told the flipped value and then the original one |
| `Switch.RunKeepsSwitchTraceShape` | projects/ui/src/lib/switch/switch.component.ts:81-86 | over any sequence of calls, every reported value is a boolean that is emitted right after it is reported and followed by a touched notification, and nothing is emitted without being reported first |
| `Switch.ReachableSwitchWellFormed` | projects/ui/src/lib/switch/switch.component.ts:42-86 | every trace reachable from a new switch has that shape, and if the form never wrote a value the last value reported to it is the current value |
| `Switch.RunKeepsSwitchInSync` | projects/ui/src/lib/switch/switch.component.ts:48-86 | as long as the form writes no value, the last value reported to the form is the switch's current value |
| `Switch.DisabledSwitchHoldsValue` | projects/ui/src/lib/switch/switch.component.ts:64-79 | while disabled, clicks, blurs and registrations keep the value, keep it disabled, and only append touched notifications |
| `Switch.NewSwitchClicked` | projects/ui/src/lib/switch/switch.component.spec.ts:39-55 | a new switch is off, and one click with no callbacks registered turns it on and stops propagation |
| `Switch.DisabledSwitchClicked` | projects/ui/src/lib/switch/switch.component.spec.ts:57-66 | a click on a disabled switch leaves it off |
| `Switch.FormWritesTrue` | projects/ui/src/lib/switch/switch.component.spec.ts:88-102 | the form writing `true` turns the switch on |
| `Select.SelectedValue` | projects/ui/src/lib/select/select.component.ts:59-60 | the empty string becomes `null` and any other target value is kept as that string |
| `Select.SelectComponent.constructor` | projects/ui/src/lib/select/select.component.ts:33-53 | a new select has value `null`, no options, is enabled, has no-op callbacks and has sent nothing |
| `Select.SelectComponent.OnSelectChange` | projects/ui/src/lib/select/select.component.ts:58-65 | stores the selected value, then sends change(nv) and emit(nv) with that same value; it does not read `disabled` and sends no touched notification |
| `Select.SelectComponent.MarkAsTouched` | projects/ui/src/lib/select/select.component.ts:67-69 | sends exactly one touched notification and keeps the value |
| `Select.SelectComponent.WriteValue` | projects/ui/src/lib/select/select.component.ts:73-75 | stores its argument as it is and sends nothing |
| `Select.SelectComponent.RegisterOnChange` | projects/ui/src/lib/select/select.component.ts:77-79 | replaces the change callback and nothing else |
| `Select.SelectComponent.RegisterOnTouched` | projects/ui/src/lib/select/select.component.ts:81-83 | replaces the touched callback and nothing else |
| `Select.SelectComponent.SetDisabledState` | projects/ui/src/lib/select/select.component.ts:85-87 | sets `disabled` and leaves the value, the options and what was sent as they were |
| `Select.RunKeepsSelectTraceShape` | projects/ui/src/lib/select/select.component.ts:58-65 | over any sequence of calls, the form is only told `null` or a non-empty string, each reported value is emitted right after it is reported, and nothing is emitted without being reported first |
| `Select.ReachableSelectWellFormed` | projects/ui/src/lib/select/select.component.ts:49-87 | every trace reachable from a new select has that shape, and if the form never wrote a value the last value reported to it is the current value |
| `Select.RunKeepsSelectInSync` | projects/ui/src/lib/select/select.component.ts:58-75 | as long as the form writes no value, the last value reported to the form is the select's current value |
| `Select.DisabledIsInert` | projects/ui/src/lib/select/select.component.ts:58-87 | `disabled` changes nothing the select does: a disabled and an enabled select go through the same calls identically |
| `Select.TouchedOnlyWhenMarked` | projects/ui/src/lib/select/select.component.ts:58-69 | the touched callback is called once per `markAsTouched` and never when an entry is picked |
| `Select.RunExtendsTrace` | projects/ui/src/lib/select/select.component.ts:58-87 | no call takes back or rewrites a notification: the trace before any sequence of calls is a prefix of the trace after it |
| `Select.ChangesReachRegistered` | projects/ui/src/lib/select/select.component.ts:58-83 | as long as no change callback is registered, even if touched callbacks are, the change callback stays the one registered last and every new change notification goes to it |
| `Select.TouchedReachRegistered` | projects/ui/src/lib/select/select.component.ts:67-83 | as long as no touched callback is registered, even if change callbacks are, the touched callback stays the one registered last and every new touched notification goes to it |
| `Select.FormWritesValue` | projects/ui/src/lib/select/select.component.spec.ts:186-194 | the form writing `'2'` makes the select's value `'2'` (the value part of that test only) |
| `Select.PickThenClear` | projects/ui/src/lib/select/select.component.ts:58-65 | a change event that reaches a disabled select's handler still stores its value, and one for the empty entry clears the value to `null` |

## Left out

- The custom dropdown that `select.component.spec.ts` tests: `toggleDropdown`, `isOpen`, `focusedIndex`, `selectOption`, `selectedLabel`, keyboard navigation and outside clicks. None of them exist in `select.component.ts`.
- The module-level id counters `switchIdCounter` and `nextId`, and the `id` strings built from them. They are global state used only for DOM ids.
- Display-only inputs that no logic reads: the switch's `label` and `loading`, and the select's `label`, `placeholder` and `error`. The select's `options` is kept as a field but is only rendered by the template.
- Templates, CSS and ARIA attributes, which are not part of this model.
- Angular plumbing: decorators, the `NG_VALUE_ACCESSOR` provider and the internals of `EventEmitter`. A callback call or an `emit` is recorded as a notification; what the receiver then does is not modelled.
- Callbacks that throw or call back into the widget: every method contract assumes each callback and each `emit` returns normally without re-entering the widget. In the source, a throwing `onChange` (projects/ui/src/lib/switch/switch.component.ts:83, projects/ui/src/lib/select/select.component.ts:63) leaves the new value stored and skips the later `change.emit` and `onTouched` calls, which the model does not capture.
- DOM access: an event is reduced to `stopPropagation()` and its target's `value` string.
- Host objects with an `[[IsHTMLDDA]]` slot (`document.all`), which ECMAScript's ToBoolean treats as falsy: `Js.JsValue` makes every object truthy, and no caller of the widgets passes such an object.
- Infinite numbers in `Js.JsValue`. Like any non-zero number they are truthy, which `Number(x)` with `x != 0.0` already covers.
- The demo application (`projects/demo`): pages, routing and code-snippet strings.
