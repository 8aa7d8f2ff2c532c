/**
 The one DOM object the widgets touch: the event handed to an event handler.
 */
module Dom {

  /** A DOM event. `targetValue` is the `value` property of the element that fired it;
      `propagationStopped` records whether `stopPropagation()` was called on it. */
  class DomEvent {
    const targetValue: string
    var propagationStopped: bool

    constructor (targetValue: string)
      ensures this.targetValue == targetValue && !propagationStopped
    {
      this.targetValue := targetValue;
      propagationStopped := false;
    }

    method StopPropagation()
      modifies this
      ensures propagationStopped
    {
      propagationStopped := true;
    }
  }
}
