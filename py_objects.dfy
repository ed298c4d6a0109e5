/**
  The Python side as the bridge sees it: objects known only by identity, the structured
  values the bridge inspects, and what a bridge function hands back to the interpreter.
*/
module PyObjects {

  /** The identity of a Python object (a PyObject pointer): callbacks and user data. */
  type PyObj = nat

  /** A Python value whose shape the bridge inspects. */
  datatype PyValue =
    | PyStr(s: string)
    | PyInt(i: int)
    | PyList(items: seq<PyValue>)
    | PyTuple(elems: seq<PyValue>)
    | PyDict(entries: map<string, PyValue>)
    | PyNoneValue
    | PyObject(id: PyObj)  // any other object (a function, a module), known by identity

  /** The exception pending when a bridge function returns NULL. */
  datatype PyError =
    | GetUrlError(message: string)   // moonplayer.GetUrlError
    | TypeError(message: string)
    | NoExceptionSet                 // NULL returned without setting an exception
    | ConversionFailed               // whatever the string conversion helper raised

  /** What a bridge function returns to the interpreter. */
  datatype PyReturn = ReturnNone | ReturnBool(b: bool) | ReturnNull(error: PyError)

  const TaskRunningMessage: string := "Another task is running."
  const NotADictMessage: string := "The argument is not a dict."
}
