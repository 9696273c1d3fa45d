/**
  The login endpoint: check the limiter for the request's throttle key, then
  try the credentials, then either clear the key's counter (success) or add
  one to it (failure). A locked-out key is answered without trying the
  credentials. Also the logout endpoint and the controller's middleware.
*/
module Login {
  import opened Values
  import opened Http
  import opened Throttle
  import opened Session

  /** A login request: its input fields and the client's IP address. */
  datatype Request = Request(input: Input, ip: string)

  /** A JSON body: one field mapped to a text, or the token payload. */
  datatype Body = Keyed(field: string, text: Text) | TokenBody(token: Token)

  datatype Response = Response(status: nat, body: Body)

  /** How one login ends. */
  datatype Outcome = LockedOut | LoggedIn | Failed

  /** One login seen on the counters alone: its outcome and the new counters. */
  datatype Step = Step(outcome: Outcome, hits: map<ThrottleKey, nat>)

  /** Middleware the controller registers: `auth:api` only for `me`, `logout`
      and `refresh`, `guest` for every other action. */
  const Registrations: seq<Registration> := [
    Registration(AuthApi, Only({"me", "logout", "refresh"})),
    Registration(GuestOnly, Except({"me", "logout", "refresh"}))
  ]

  /** The request field that identifies the account. */
  function Username(): (u: string)
    ensures u in {"email", "password"}
  {
    "email"
  }

  /** The limiter key of a request: its login identifier and client address. */
  function ThrottleKeyOf(req: Request): (k: ThrottleKey)
    ensures k.ip == req.ip
    ensures k.login == Get(LoginCredentials(req), Username())
  {
    ThrottleKey(Get(req.input, Username()), req.ip)
  }

  /** `$request->only(['email', 'password'])`. */
  function LoginCredentials(req: Request): (r: Credentials)
    ensures r.Keys == req.input.Keys * {"email", "password"}
    ensures forall f :: f in r ==> r[f] == req.input[f]
  {
    OnlyFields(req.input, {"email", "password"})
  }

  /** The success response built from the issued token. */
  function TokenResponse(token: Token): Response
  {
    Response(200, TokenBody(token))
  }

  /** `sendFailedLoginResponse`. */
  function FailedLoginResponse(): (r: Response)
    ensures r.status == 422
    ensures r.body.Keyed? && r.body.field == Username() && r.body.text == Translated("auth.failed", map[])
  {
    Response(422, Keyed(Username(), Translated("auth.failed", map[])))
  }

  /** `sendLockoutResponse`, given what the limiter reports as the seconds left. */
  function LockoutResponse(seconds: nat): (r: Response)
    ensures r.status == 429
    ensures r.body.Keyed? && r.body.field == Username()
    ensures r.body.text.Translated? && r.body.text.key == "auth.throttle"
      && "seconds" in r.body.text.params && r.body.text.params["seconds"] == seconds
  {
    Response(429, Keyed(Username(), Translated("auth.throttle", map["seconds" := seconds])))
  }

  /** `logout`'s confirmation. */
  function LogoutResponse(): (r: Response)
    ensures r.status == 200 && r.body == Keyed("message", Literal("Successfully logged out"))
  {
    Response(200, Keyed("message", Literal("Successfully logged out")))
  }

  /** The login state machine on the counters: locked out when the key has
      used up its attempts, otherwise logged in (counter cleared) or failed
      (counter bumped). Only the request's own key can change. */
  function Decide(hits: map<ThrottleKey, nat>, maxAttempts: nat, accepts: Credentials -> bool, req: Request): (s: Step)
    ensures forall k :: k != ThrottleKeyOf(req) ==> Count(s.hits, k) == Count(hits, k)
  {
    var key := ThrottleKeyOf(req);
    if Count(hits, key) >= maxAttempts then Step(LockedOut, hits)
    else if accepts(LoginCredentials(req)) then Step(LoggedIn, Cleared(hits, key))
    else Step(Failed, Bumped(hits, key))
  }

  /** The same failed login repeated `n` times. */
  function Retry(hits: map<ThrottleKey, nat>, maxAttempts: nat, accepts: Credentials -> bool, req: Request, n: nat): map<ThrottleKey, nat>
    decreases n
  {
    if n == 0 then hits
    else Retry(Decide(hits, maxAttempts, accepts, req).hits, maxAttempts, accepts, req, n - 1)
  }

  /** `login` is for guests only; `me`, `logout` and `refresh` for authenticated callers only. */
  lemma AccessRules(caller: Caller)
    ensures Reaches(Registrations, "login", caller) <==> caller.Guest?
    ensures forall action :: action in {"me", "logout", "refresh"} ==>
      (Reaches(Registrations, action, caller) <==> caller.Authenticated?)
    ensures forall action :: action !in {"me", "logout", "refresh"} ==>
      (Reaches(Registrations, action, caller) <==> caller.Guest?)
  {
    forall action | action !in {"me", "logout", "refresh"}
      ensures Reaches(Registrations, action, caller) <==> caller.Guest?
    {
      assert Applies(Registrations[1], action);
    }
    assert Applies(Registrations[0], "me") && Applies(Registrations[1], "login");
    assert Applies(Registrations[0], "logout") && Applies(Registrations[0], "refresh");
  }

  /** Each outcome has its own status, and the two error bodies are keyed by
      the `email` field; the lockout body carries the limiter's seconds. */
  lemma ResponseShapes(token: Token, seconds: nat)
    ensures TokenResponse(token).status == 200
    ensures FailedLoginResponse().status == 422 && LockoutResponse(seconds).status == 429
    ensures FailedLoginResponse().body.field == "email" && LockoutResponse(seconds).body.field == "email"
    ensures LockoutResponse(seconds).body.text.params["seconds"] == seconds
  {
  }

  /** The three outcomes and what each does to the request's own counter. */
  lemma DecideOutcomes(hits: map<ThrottleKey, nat>, maxAttempts: nat, accepts: Credentials -> bool, req: Request)
    ensures var s := Decide(hits, maxAttempts, accepts, req);
      var key := ThrottleKeyOf(req);
      && (s.outcome == LockedOut <==> Count(hits, key) >= maxAttempts)
      && (s.outcome == LoggedIn <==> Count(hits, key) < maxAttempts && accepts(LoginCredentials(req)))
      && (s.outcome == LockedOut ==> s.hits == hits)
      && (s.outcome == LoggedIn ==> Count(s.hits, key) == 0)
      && (s.outcome == Failed ==> Count(s.hits, key) == Count(hits, key) + 1)
  {
  }

  /** A locked-out key is answered the same way whatever the credentials are:
      the credential check is not consulted. */
  lemma LockoutIgnoresCredentials(hits: map<ThrottleKey, nat>, maxAttempts: nat, accepts: Credentials -> bool,
                                  accepts': Credentials -> bool, req: Request)
    requires Count(hits, ThrottleKeyOf(req)) >= maxAttempts
    ensures Decide(hits, maxAttempts, accepts, req) == Decide(hits, maxAttempts, accepts', req) == Step(LockedOut, hits)
  {
  }

  /** Only the `email` and `password` fields and the client address matter:
      two requests that agree on them log in the same way. */
  lemma OnlyEmailAndPasswordMatter(hits: map<ThrottleKey, nat>, maxAttempts: nat, accepts: Credentials -> bool,
                                   req: Request, req': Request)
    requires req.ip == req'.ip
    requires forall f :: f in {"email", "password"} ==>
      (f in req.input <==> f in req'.input) && (f in req.input ==> req.input[f] == req'.input[f])
    ensures Decide(hits, maxAttempts, accepts, req) == Decide(hits, maxAttempts, accepts, req')
  {
    assert LoginCredentials(req) == LoginCredentials(req');
    assert ThrottleKeyOf(req) == ThrottleKeyOf(req');
  }

  /** Each repeated failure adds exactly one to the key's counter while the key
      is below the threshold. */
  lemma {:induction false} RetryCounts(hits: map<ThrottleKey, nat>, maxAttempts: nat, accepts: Credentials -> bool,
                                       req: Request, n: nat)
    requires !accepts(LoginCredentials(req))
    requires Count(hits, ThrottleKeyOf(req)) + n <= maxAttempts
    ensures Count(Retry(hits, maxAttempts, accepts, req, n), ThrottleKeyOf(req)) == Count(hits, ThrottleKeyOf(req)) + n
    decreases n
  {
    if n > 0 {
      RetryCounts(Decide(hits, maxAttempts, accepts, req).hits, maxAttempts, accepts, req, n - 1);
    }
  }

  /** After enough failures to reach the threshold, the next login on the same
      key is locked out, whatever its credentials. */
  lemma FailuresLockOut(hits: map<ThrottleKey, nat>, maxAttempts: nat, accepts: Credentials -> bool,
                        req: Request, next: Request)
    requires !accepts(LoginCredentials(req))
    requires Count(hits, ThrottleKeyOf(req)) <= maxAttempts
    requires ThrottleKeyOf(next) == ThrottleKeyOf(req)
    ensures var n := maxAttempts - Count(hits, ThrottleKeyOf(req));
      Decide(Retry(hits, maxAttempts, accepts, req, n), maxAttempts, accepts, next).outcome == LockedOut
  {
    RetryCounts(hits, maxAttempts, accepts, req, maxAttempts - Count(hits, ThrottleKeyOf(req)));
  }

  class LoginController {
    const limiter: Limiter
    const guard: Guard
    /** The limiter's threshold (`maxAttempts()`). */
    const maxAttempts: nat
    /** The requests for which a lockout event was fired, in order. */
    var lockoutEvents: seq<Request>

    constructor(limiter: Limiter, guard: Guard, maxAttempts: nat)
      ensures this.limiter == limiter && this.guard == guard && this.maxAttempts == maxAttempts
      ensures lockoutEvents == []
    {
      this.limiter := limiter;
      this.guard := guard;
      this.maxAttempts := maxAttempts;
      lockoutEvents := [];
    }

    /** `login($request)`. `secondsLeft` is what the limiter reports as
        remaining for the request's key. */
    method Login(req: Request, secondsLeft: nat) returns (resp: Response)
      modifies this, limiter, guard
      ensures limiter.hits == Decide(old(limiter.hits), maxAttempts, guard.accepts, req).hits
      ensures old(limiter.TooManyAttempts(ThrottleKeyOf(req), maxAttempts)) ==>
        && resp == LockoutResponse(secondsLeft)
        && lockoutEvents == old(lockoutEvents) + [req]
        && limiter.hits == old(limiter.hits)
        && unchanged(guard)
      ensures !old(limiter.TooManyAttempts(ThrottleKeyOf(req), maxAttempts)) ==>
        && lockoutEvents == old(lockoutEvents)
        && guard.presented == old(guard.presented) + [LoginCredentials(req)]
      ensures !old(limiter.TooManyAttempts(ThrottleKeyOf(req), maxAttempts)) && guard.accepts(LoginCredentials(req)) ==>
        && resp == TokenResponse(Token(old(guard.issued)))
        && guard.current == Some(Token(old(guard.issued))) && guard.issued == old(guard.issued) + 1
        && limiter.hits == Cleared(old(limiter.hits), ThrottleKeyOf(req))
      ensures !old(limiter.TooManyAttempts(ThrottleKeyOf(req), maxAttempts)) && !guard.accepts(LoginCredentials(req)) ==>
        && resp == FailedLoginResponse()
        && guard.current == old(guard.current) && guard.issued == old(guard.issued)
        && limiter.hits == Bumped(old(limiter.hits), ThrottleKeyOf(req))
    {
      var key := ThrottleKeyOf(req);
      if limiter.TooManyAttempts(key, maxAttempts) {
        lockoutEvents := lockoutEvents + [req];
        return LockoutResponse(secondsLeft);
      }
      var token := guard.Attempt(LoginCredentials(req));
      if token.Some? {
        resp := SendLoginResponse(req, token.value);
        return;
      }
      var _ := limiter.Hit(key);
      resp := FailedLoginResponse();
    }

    /** `sendLoginResponse($request, $token)`: clear the key's counter and
        answer with the token. */
    method SendLoginResponse(req: Request, token: Token) returns (resp: Response)
      modifies limiter
      ensures limiter.hits == Cleared(old(limiter.hits), ThrottleKeyOf(req))
      ensures resp == TokenResponse(token)
    {
      limiter.Clear(ThrottleKeyOf(req));
      resp := TokenResponse(token);
    }

    /** `logout()`: end the current token and confirm. */
    method Logout() returns (resp: Response)
      modifies guard
      ensures guard.current == None && guard.issued == old(guard.issued) && guard.presented == old(guard.presented)
      ensures resp == LogoutResponse()
    {
      guard.Logout();
      resp := LogoutResponse();
    }
  }
}
