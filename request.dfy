/** Reading a REST request's parameters. A parameter the request lacks is `None`.
    When the route registers a default for it, the REST server fills that in;
    otherwise `get_param` yields null, which the sanitizers turn into "" and
    `absint` into 0. */
module Request {
  import opened Envelope
  import opened PhpString

  /** A string parameter as the sanitizers see it: a missing one reads as "". */
  function TextParam(p: Option<string>): (s: string)
    ensures p.None? ==> s == ""
    ensures p.Some? ==> s == p.value
  {
    if p.Some? then p.value else ""
  }

  /** `absint($request->get_param(...))`: a missing parameter reads as 0. */
  function IntParam(p: Option<int>): (n: nat)
    ensures p.None? ==> n == 0
    ensures p.Some? ==> n == AbsInt(p.value)
  {
    if p.Some? then AbsInt(p.value) else 0
  }

  /** A parameter registered with a default: the REST server fills the default in
      before the callback runs, so a request that lacks it reads as the default. */
  function WithDefault<T>(p: Option<T>, default: T): (v: T)
    ensures p.None? ==> v == default
    ensures p.Some? ==> v == p.value
  {
    if p.Some? then p.value else default
  }

  /** `$request->has_param($k) && $request->get_param($k)`: present and not falsy. */
  predicate Truthy(p: Option<string>)
  {
    p.Some? && !FalsyString(p.value)
  }
}
