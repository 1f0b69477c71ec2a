/** The Twitter account, seen from the pass: the messages it has posted, in
    order. Whether a post attempt fails is the network's answer, an input. */
module Publisher {

  class Publisher {
    /** The messages posted so far, oldest first; only ever appended to. */
    var sent: seq<string>

    constructor ()
      ensures sent == []
    {
      sent := [];
    }

    /** Posts `msg`; `fails` is whether the API rejects the attempt. */
    method Post(msg: string, fails: bool) returns (ok: bool)
      modifies this
      ensures ok == !fails
      ensures sent == if ok then old(sent) + [msg] else old(sent)
    {
      ok := !fails;
      if ok {
        sent := sent + [msg];
      }
    }
  }
}
