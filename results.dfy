/** Failure values: the reasons a `DevFailed` (or a Java runtime exception) carries in the core,
    and a failure-compatible Result/Option pair so that `:-` threads them as Java threads exceptions. */
module Results {

  /** The failures the core can raise, one constructor per reason string. */
  datatype Error =
    /** "API_BadSyntax": a control-buffer string is empty or missing. */
    | BadSyntax
    /** "API_NotImplemented": a control command byte outside 0..4. */
    | NotImplemented(command: int)
    /** "Api_BadParameterException": no known event type at the end of an event name. */
    | BadParameter(eventName: string)
    /** "API_ConversionFailed": any exception caught while a control frame is built. */
    | ConversionFailed(cause: Error)
    /** "Api_ConvertionFailed" (spelled so in the source): an event payload could not be decoded. */
    | ConvertionFailed(cause: Error)
    /** "API_AttrWrongDefined": no class attribute with the requested name. */
    | AttrWrongDefined(attrName: string)
    /** "API_InternalCommunicationError": the control socket answered with an error text. */
    | InternalCommunicationError(message: string)
    /** java.lang.ArrayIndexOutOfBoundsException (an index outside an array or a Vector). */
    | IndexOutOfBounds
    /** java.lang.NegativeArraySizeException. */
    | NegativeArraySize
    /** A DevFailed raised by a collaborator outside the core (host resolution, database, CDR reader). */
    | Remote(reason: string)

  datatype Option<+T> = None | Some(value: T)

  datatype Result<+T> = Success(value: T) | Failure(error: Error) {
    predicate IsFailure() {
      Failure?
    }

    function PropagateFailure<U>(): Result<U>
      requires Failure?
    {
      Failure(error)
    }

    function Extract(): T
      requires Success?
    {
      value
    }
  }
}
