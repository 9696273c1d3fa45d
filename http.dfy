/**
  The parts of the HTTP layer the two controllers rely on: response texts,
  the caller the token guard resolved, and the route middleware a
  controller registers in its constructor.
*/
module Http {

  /** A response text: a literal string, or a translation key with its
      integer placeholders (the localised wording itself is not modelled). */
  datatype Text = Literal(s: string) | Translated(key: string, params: map<string, nat>)

  /** Who is making the request, as the `api` token guard resolves it. */
  datatype Caller = Guest | Authenticated(userId: nat)

  /** `auth:api` lets only authenticated callers through; `guest` only unauthenticated ones. */
  datatype Middleware = AuthApi | GuestOnly

  /** Which controller methods a registration applies to (`['only' => …]` or `['except' => …]`). */
  datatype Scope = Only(actions: set<string>) | Except(actions: set<string>)

  /** `$this->middleware($m, $scope)` in a controller's constructor. */
  datatype Registration = Registration(middleware: Middleware, scope: Scope)

  predicate Applies(r: Registration, action: string)
  {
    match r.scope
    case Only(actions) => action in actions
    case Except(actions) => action !in actions
  }

  predicate Admits(m: Middleware, caller: Caller)
  {
    match m
    case AuthApi => caller.Authenticated?
    case GuestOnly => caller.Guest?
  }

  /** Whether a request for `action` reaches the controller method: every
      middleware registered for that action must let the caller through. */
  predicate Reaches(registrations: seq<Registration>, action: string, caller: Caller)
  {
    forall i :: 0 <= i < |registrations| && Applies(registrations[i], action) ==>
      Admits(registrations[i].middleware, caller)
  }
}
