/**
 What a widget sends to the outside world. Both widgets hold two replaceable callbacks
 (the form layer's change and touched callbacks, no-ops until registered) and a public
 `change` event emitter. Each call to one of them is recorded as a `Notification`, in the
 order the widget makes the calls, together with the callback that receives it.
 */
module Notifications {
  import opened Js

  /** The callback stored in an `onChange` or `onTouched` field: the no-op default
      installed at construction, or one the form layer registered, told apart by identity. */
  datatype Handler = NoOp | Callback(id: nat)

  datatype Notification =
    | OnChange(handler: Handler, value: JsValue)  // `this.onChange(value)`
    | Emit(value: JsValue)                         // `this.change.emit(value)`
    | Touched(handler: Handler)                    // `this.onTouched()`

  /** The value most recently passed to a change callback, if any. */
  function LastChange(t: seq<Notification>): (r: Option<JsValue>)
    ensures r.None? <==> forall i :: 0 <= i < |t| ==> !t[i].OnChange?
    ensures r.Some? ==> exists i :: 0 <= i < |t| && t[i].OnChange? && t[i].value == r.value &&
                                    forall j :: i < j < |t| ==> !t[j].OnChange?
    decreases |t|
  {
    if t == [] then None
    else if t[|t| - 1].OnChange? then Some(t[|t| - 1].value)
    else
      var r := LastChange(t[..|t| - 1]);
      assert forall i :: 0 <= i < |t| - 1 ==> t[..|t| - 1][i] == t[i];
      r
  }

  /** How often a touched callback was called. */
  function CountTouched(t: seq<Notification>): (n: nat)
    ensures n <= |t|
    ensures n == 0 <==> forall i :: 0 <= i < |t| ==> !t[i].Touched?
    decreases |t|
  {
    if t == [] then 0
    else
      var n := CountTouched(t[1..]);
      assert forall i :: 1 <= i < |t| ==> t[1..][i - 1] == t[i];
      (if t[0].Touched? then 1 else 0) + n
  }

  /** Appending notifications: the last change is the appended one's, if it has one. */
  lemma {:induction false} LastChangeAppend(t: seq<Notification>, u: seq<Notification>)
    ensures LastChange(t + u) == if LastChange(u).Some? then LastChange(u) else LastChange(t)
    decreases |u|
  {
    if u != [] {
      var w := u[..|u| - 1];
      assert (t + u)[..|t + u| - 1] == t + w;
      assert u[..|u| - 1] == w;
      LastChangeAppend(t, w);
    } else {
      assert t + u == t;
    }
  }

  /** Touched notifications of a concatenation add up. */
  lemma {:induction false} CountTouchedAppend(t: seq<Notification>, u: seq<Notification>)
    ensures CountTouched(t + u) == CountTouched(t) + CountTouched(u)
    decreases |t|
  {
    if t == [] {
      assert t + u == u;
    } else {
      assert (t + u)[1..] == t[1..] + u;
      CountTouchedAppend(t[1..], u);
    }
  }
}
