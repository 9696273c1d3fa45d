/**
  The token guard behind `auth()`, reduced to what the login controller
  observes: a credential check it cannot see into, an opaque token for each
  successful login, and the token currently in force.
*/
module Session {
  import opened Values

  /** An issued access token; tokens are told apart by their serial number. */
  datatype Token = Token(serial: nat)

  /** What the controller hands to `auth()->attempt(...)`. */
  type Credentials = Input

  class Guard {
    /** Whether the credentials match an account. */
    const accepts: Credentials -> bool
    /** The token the guard is logged in with, if any. */
    var current: Option<Token>
    /** Number of tokens issued so far. */
    var issued: nat
    /** Every credential set presented to `attempt`, in order. */
    ghost var presented: seq<Credentials>

    constructor(accepts: Credentials -> bool)
      ensures this.accepts == accepts
      ensures current == None && issued == 0 && presented == []
    {
      this.accepts := accepts;
      current := None;
      issued := 0;
      presented := [];
    }

    /** `auth()->attempt($credentials)`: on a match, log in with a fresh token
        and return it; otherwise return nothing and change nothing but the record
        of what was presented. */
    method Attempt(credentials: Credentials) returns (token: Option<Token>)
      modifies this
      ensures presented == old(presented) + [credentials]
      ensures accepts(credentials) ==>
        token == Some(Token(old(issued))) && current == token && issued == old(issued) + 1
      ensures !accepts(credentials) ==>
        token == None && current == old(current) && issued == old(issued)
    {
      presented := presented + [credentials];
      if accepts(credentials) {
        token := Some(Token(issued));
        current := token;
        issued := issued + 1;
      } else {
        token := None;
      }
    }

    /** `auth()->logout()`: the current token is no longer in force. */
    method Logout()
      modifies this
      ensures current == None
      ensures issued == old(issued) && presented == old(presented)
    {
      current := None;
    }
  }
}
