/** A login from the gate to the last replayed message. */
module LoginReplay {
  import opened ChatProtocol
  import Message
  import Presence
  import PM = PresenceModule

  /** A login message as a whole. `read` says whether the query for waiting rows worked, and `answer` is what it
      returned from `rows`, the table at that moment. Waiting messages are queued if and only if the login
      succeeded and the query worked, and then they are what the table owes the user. */
  method ProcessLogin(ps: PM.TPSModule, a: string, m: Presence.LoginMsg, others: PM.QueryResult, ok: bool,
                      read: bool, answer: seq<Message.Row>, ghost rows: seq<Message.Row>)
    returns (success: bool, out: seq<Presence.Response>, queued: seq<Queued>)
    requires ps.Valid() && (read ==> IsAnswer(answer, rows, m.from))
    modifies ps
    ensures ps.State() == Presence.LoginStep(old(ps.State()), a, m, others.Rows?, ok)
    ensures success <==> old(Presence.AtGate(ps.State(), a)) && others.Rows? && ok
    ensures out == PM.LoginResponses(old(ps.State()), a, m, others, ok)
    ensures PM.Answered(out, old(ps.State()), a, m, others, ok)
    ensures ps.history == old(ps.history) + PM.LoginHistory(old(ps.State()), a, m, others, ok)
    ensures if success && read then Owed(queued, rows, m.from) else queued == []
  {
    queued := [];
    success, out := ps.ProcessLogin(a, m, others, ok);
    if success {
      queued := ReplayUnacked(read, answer, rows, m.from);
    }
  }
}
