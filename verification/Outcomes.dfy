/** Failure-compatible results. A C++ `throw` is the failing constructor; the
    model keeps which kind of failure it was and drops the message text. */
module Outcomes {

  datatype Option<+T> = None | Some(value: T)

  /** What a call that throws was complaining about. */
  datatype Fault =
    | CorruptPage       // a page that is not the node it should be
    | PageOverflow      // a node that does not fit its page
    | Structure         // "cannot happen" checks on the shape of the tree
    | BadKey            // a NULL, oversized or duplicate index key
    | BadFile           // bytes that cannot be decoded
    | PastEnd           // a page beyond the end of the page file
    | Constraint        // a row rejected by a table constraint
    | MissingRow        // a record id that is not in the table
    | BadExpression     // an ill-formed WHERE or SET expression
  {
    /** A failure of the tree itself, as opposed to a refusal of its input. */
    predicate OfStorage() {
      CorruptPage? || PageOverflow? || Structure?
    }
  }

  /** `Cut` is no exception: the original carries on and returns, but one of the nodes
      it has stored does not have its separators any more, because there were more of
      them than the count byte of a page can tell. */
  datatype Result<+T> = Ok(value: T) | Throw(fault: Fault) | Cut {
    predicate IsFailure() { !Ok? }

    function PropagateFailure<U>(): (r: Result<U>) {
      match this
      case Throw(f) => Throw(f)
      case _ => Cut
    }

    function Extract(): T
      requires Ok?
    {
      value
    }
  }
}
