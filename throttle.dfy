/**
  The login limiter: a failed-attempt counter per throttle key. A key is the
  login identifier together with the client's IP address, so two keys that
  differ in either never share a counter.
*/
module Throttle {
  import opened Values

  /** The login identifier as submitted, and the client's address. */
  datatype ThrottleKey = ThrottleKey(login: Value, ip: string)

  /** The attempts counted for a key; a key the limiter has forgotten counts 0. */
  function Count(hits: map<ThrottleKey, nat>, key: ThrottleKey): nat
  {
    if key in hits then hits[key] else 0
  }

  /** The counters after one more failed attempt on `key`. */
  function Bumped(hits: map<ThrottleKey, nat>, key: ThrottleKey): (r: map<ThrottleKey, nat>)
    ensures Count(r, key) == Count(hits, key) + 1
    ensures forall k :: k != key ==> Count(r, k) == Count(hits, k)
  {
    hits[key := Count(hits, key) + 1]
  }

  /** The counters after `key` is cleared. */
  function Cleared(hits: map<ThrottleKey, nat>, key: ThrottleKey): (r: map<ThrottleKey, nat>)
    ensures Count(r, key) == 0
    ensures forall k :: k != key ==> Count(r, k) == Count(hits, k)
  {
    hits - {key}
  }

  class Limiter {
    var hits: map<ThrottleKey, nat>

    constructor()
      ensures hits == map[]
    {
      hits := map[];
    }

    function Attempts(key: ThrottleKey): nat
      reads this
    {
      Count(hits, key)
    }

    /** `tooManyAttempts($key, $maxAttempts)`: the key has used up its attempts. */
    function TooManyAttempts(key: ThrottleKey, maxAttempts: nat): (locked: bool)
      reads this
      ensures locked <==> Count(hits, key) >= maxAttempts
      ensures key !in hits ==> (locked <==> maxAttempts == 0)
    {
      Attempts(key) >= maxAttempts
    }

    /** `hit($key)`: count one more attempt and return the new count. */
    method Hit(key: ThrottleKey) returns (count: nat)
      modifies this
      ensures hits == Bumped(old(hits), key)
      ensures count == old(Attempts(key)) + 1
    {
      count := Attempts(key) + 1;
      hits := hits[key := count];
    }

    /** `clear($key)`: forget the key's attempts. */
    method Clear(key: ThrottleKey)
      modifies this
      ensures hits == Cleared(old(hits), key)
    {
      hits := hits - {key};
    }
  }
}
