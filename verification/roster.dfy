/**
  The records a contest keeps about the people taking part, shared by the contest-creation
  pages and the server.
 */
module Roster {

  import opened Seqs

  /** A registered participant; `cfHandle` is `None` when the user has no judge handle (`null`). */
  datatype Participant = Participant(name: string, email: string, cfHandle: Option<string>)

  /** An entry of a user's contest history: the contest's name and the page to open it. */
  datatype ContestRef = ContestRef(name: string, url: string)

  /** The email a participant registered with. */
  function EmailOf(p: Participant): string {
    p.email
  }
}
