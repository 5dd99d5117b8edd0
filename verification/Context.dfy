/** Go's `context.Context` as its callers here see it: a flag polled with Err, which once set
    stays set. */
module Contexts {
  import opened Options

  /** `left` is how many polls will still find the context alive; None is a context that is never
      cancelled. */
  class Context {
    var left: Option<nat>

    constructor (polls: Option<nat>)
      ensures left == polls
    {
      left := polls;
    }

    method Err() returns (cancelled: bool)
      modifies this
      ensures cancelled <==> old(left) == Some(0)
      ensures left == PolledOnce(old(left))
    {
      cancelled := left == Some(0);
      left := PolledOnce(left);
    }
  }

  function PolledOnce(left: Option<nat>): Option<nat>
  {
    match left
    case Some(n) => Some(if n == 0 then 0 else n - 1)
    case None => None
  }
}
