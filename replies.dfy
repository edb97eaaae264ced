/** The `{ success, message }` object the controllers' JSON actions answer with. */
module Replies {

  datatype Reply = Reply(success: bool, message: string)

  /** The reply of an action whose last step is a service call with these two messages. */
  function Outcome(ok: bool, done: string, failed: string): (r: Reply)
    ensures r.success == ok
    ensures r.message == if ok then done else failed
  {
    if ok then Reply(true, done) else Reply(false, failed)
  }
}
