/** The identity framework's result vocabulary, and exceptions reduced to their type name and message. */
module Identity {

  import opened Wrappers

  /** A thrown exception: the name of its type and its `Message`. */
  datatype Fault = Fault(typeName: string, message: string)

  /** `IdentityResult`: `Success`, or `Failed` carrying one `IdentityError` (its `Code` and `Description`). */
  datatype IdentityResult = Success | Failed(code: string, description: string)

  /** How a call that returns a bare `Task` ends: it completes, or the exception escapes to the caller. */
  datatype Completion = Completed | Threw(fault: Fault)

  /** The `IdentityError` built from a caught exception: its type name becomes the code, its message the description. */
  function FailedWith(f: Fault): (r: IdentityResult)
    ensures r.Failed? && r.code == f.typeName && r.description == f.message
  {
    Failed(f.typeName, f.message)
  }

  /** A call that lets the storage exception, if any, escape. */
  function CompletionOf(thrown: Option<Fault>): (c: Completion)
    ensures c.Completed? <==> thrown.None?
    ensures thrown.Some? ==> c.fault == thrown.value
  {
    match thrown
    case None => Completed
    case Some(f) => Threw(f)
  }

  /** A call that catches the storage exception, if any, and reports it as a failed result. */
  function IdentityResultOf(thrown: Option<Fault>): (r: IdentityResult)
    ensures r.Success? <==> thrown.None?
    ensures thrown.Some? ==> r == FailedWith(thrown.value)
  {
    match thrown
    case None => Success
    case Some(f) => FailedWith(f)
  }

  /** What `new ArgumentException("Empty rolename", "roleName")` carries. */
  const EmptyRoleNameFault := Fault("ArgumentException", "Empty rolename")

  /** What dereferencing a null reference throws. */
  const NullReferenceFault := Fault("NullReferenceException", "Object reference not set to an instance of an object.")

  /**
    What `ArgumentNullException` carries: thrown by `ToHashSet` on a null source
    and by `String.Contains` / `String.IndexOf` on a null value. The parameter
    name the runtime appends to the message is not part of the model.
  */
  const ArgumentNullFault := Fault("ArgumentNullException", "Value cannot be null.")
}
