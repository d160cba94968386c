/** The IMAP server's authentication step, which at present accepts every credential. */
module ImapAuth {
  import ImapServer

  /** The outcome of `Authenticate` and what it wrote to the client. */
  datatype AuthReply = AuthReply(accepted: bool, writes: seq<string>)

  /**
   * `IMAPServer.Authenticate`: writes `<mechanism> authentication successful` and
   * accepts. It reads no user record and records no session.
   */
  function Authenticate(mechanism: string, user: string, password: string): (reply: AuthReply)
    ensures reply.accepted
    ensures |reply.writes| == 1
    ensures reply.writes[0] == ImapServer.RespondToClient(mechanism + " authentication successful")
  {
    AuthReply(true, [ImapServer.RespondToClient(mechanism + " authentication successful")])
  }

  /** The reply is the same for all credentials: only the mechanism shows in it. */
  lemma AcceptsAnyCredentials(mechanism: string, user1: string, password1: string, user2: string, password2: string)
    ensures Authenticate(mechanism, user1, password1) == Authenticate(mechanism, user2, password2)
  {
  }
}
