/** The `counted` decorator: before a wrapped view runs, a signed-in
    client's hit counter for the request path goes up by one, created on
    the first visit. The counter's starting value is a column default that
    is not part of this model, so it is a parameter. */
module Decorators {
  import opened Util
  import opened Models
  import Views

  /** The counter a hit by `req` touches, if any. */
  function HitKey(req: Views.Request): Option<(Id, string)>
  {
    if req.requester.SignedIn? then Some((req.requester.user.id, req.path)) else None
  }

  /** The counter update of `get_or_create` followed by `count + 1`. */
  function Hit(s: Store, req: Views.Request, initial: int): (r: Store)
    ensures r == s.(hits := r.hits)
    ensures HitKey(req).None? ==> r == s
    ensures HitKey(req).Some? ==>
              var k := HitKey(req).value;
              && k in r.hits
              && (k in s.hits ==> r.hits[k] == s.hits[k] + 1)
              && (k !in s.hits ==> r.hits[k] == initial + 1)
    ensures forall k :: Some(k) != HitKey(req) ==>
              (k in r.hits <==> k in s.hits) && (k in s.hits ==> r.hits[k] == s.hits[k])
  {
    match HitKey(req)
    case None => s
    case Some(k) =>
      var count := if k in s.hits then s.hits[k] else initial;
      s.(hits := s.hits[k := count + 1])
  }

  /** A view wrapped in `counted`: the hit is recorded first, then the view
      runs on the updated store with the same request. */
  function Counted(view: (Store, Views.Request) -> Views.Step, initial: int,
                   s: Store, req: Views.Request): (r: Views.Step)
    ensures HitKey(req).None? ==> r == view(s, req)
    ensures HitKey(req).Some? ==> r == view(Hit(s, req, initial), req)
  {
    view(Hit(s, req, initial), req)
  }

  /** Each visit adds exactly one: `n` visits to a path by the same client
      after the first leave the counter `n` higher. */
  lemma {:induction false} HitsAccumulate(s: Store, req: Views.Request, initial: int, n: nat)
    requires HitKey(req).Some? && HitKey(req).value in s.hits
    ensures var k := HitKey(req).value;
            var r := Repeat(s, req, initial, n);
            k in r.hits && r.hits[k] == s.hits[k] + n && r == s.(hits := r.hits)
    decreases n
  {
    if n > 0 {
      HitsAccumulate(s, req, initial, n - 1);
    }
  }

  /** `n` successive hits by the same request. */
  function Repeat(s: Store, req: Views.Request, initial: int, n: nat): Store
    decreases n
  {
    if n == 0 then s else Hit(Repeat(s, req, initial, n - 1), req, initial)
  }

  /** Counters never go down, and a counted visit does not disturb the
      store's integrity constraints. */
  lemma HitMonotone(s: Store, req: Views.Request, initial: int)
    ensures forall k :: k in s.hits ==> k in Hit(s, req, initial).hits && Hit(s, req, initial).hits[k] >= s.hits[k]
    ensures Valid(s) ==> Valid(Hit(s, req, initial))
  {
  }
}
