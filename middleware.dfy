/**
 * The middleware that sends a tenant owner whose access has lapsed to the
 * subscription-expired page, except on the few pages such an owner still
 * needs.
 */
module Middleware {
  import opened Wrappers
  import opened Models

  /** The paths a lapsed owner may still open. */
  const AllowedPaths: set<string> := {"/login/", "/logout/", "/support/", "/subscription-expired/"}

  /** Where `redirect("stream:subscription-expired")` points. */
  const SubscriptionExpiredPath: string := "/subscription-expired/"

  /** The parts of a request the middleware reads; `user` is None where the request has no user. */
  datatype Request = Request(user: Option<User>, pathInfo: string)

  /** The tenant behind the user's reverse one-to-one link is a stored tenant. */
  predicate ProfileStored(req: Request, tenants: map<TenantId, Tenant>) {
    req.user.Some? && req.user.value.tenantProfile.Some? ==> req.user.value.tenantProfile.value in tenants
  }

  /** An authenticated user whose tenant's access has ended at `now`. */
  predicate LapsedOwner(req: Request, tenants: map<TenantId, Tenant>, now: Timestamp)
    requires ProfileStored(req, tenants)
  {
    && req.user.Some? && req.user.value.isAuthenticated
    && req.user.value.tenantProfile.Some?
    && !IsSubscriptionActive(tenants[req.user.value.tenantProfile.value], now)
  }

  /** `SubscriptionCheckMiddleware._should_block`. */
  function ShouldBlock(req: Request, tenants: map<TenantId, Tenant>, now: Timestamp): (b: bool)
    requires ProfileStored(req, tenants)
    ensures b <==> LapsedOwner(req, tenants, now) && req.pathInfo !in AllowedPaths
    ensures b ==> req.pathInfo != SubscriptionExpiredPath
  {
    if req.user.None? || !req.user.value.isAuthenticated then false
    else if req.user.value.tenantProfile.None? || IsSubscriptionActive(tenants[req.user.value.tenantProfile.value], now) then false
    else if req.pathInfo in AllowedPaths then false
    else true
  }

  /** What the middleware answers: a redirect, or the response of the rest of the stack. */
  datatype Outcome<R> = Redirect(location: string) | Passed(response: R)

  /** `SubscriptionCheckMiddleware.__call__`, with the rest of the stack as `getResponse`. */
  function Call<R>(req: Request, tenants: map<TenantId, Tenant>, now: Timestamp, getResponse: Request -> R): (o: Outcome<R>)
    requires ProfileStored(req, tenants)
    ensures o.Redirect? <==> ShouldBlock(req, tenants, now)
    ensures o.Redirect? ==> o.location == SubscriptionExpiredPath
    ensures o.Passed? ==> o.response == getResponse(req)
  {
    if ShouldBlock(req, tenants, now) then Redirect(SubscriptionExpiredPath) else Passed(getResponse(req))
  }

  /** Following the redirect reaches the page: the same user is let through on the target path. */
  lemma RedirectTargetPasses<R>(req: Request, tenants: map<TenantId, Tenant>, now: Timestamp, getResponse: Request -> R)
    requires ProfileStored(req, tenants)
    requires Call(req, tenants, now, getResponse).Redirect?
    ensures var next := req.(pathInfo := Call(req, tenants, now, getResponse).location);
      ProfileStored(next, tenants) && Call(next, tenants, now, getResponse) == Passed(getResponse(next))
  {
    var next := req.(pathInfo := SubscriptionExpiredPath);
    assert next.pathInfo in AllowedPaths;
  }

  /** Once blocked, a request stays blocked at every later time while the tenant is not renewed. */
  lemma BlockPersists(req: Request, tenants: map<TenantId, Tenant>, now: Timestamp, later: Timestamp)
    requires ProfileStored(req, tenants)
    requires ShouldBlock(req, tenants, now) && now <= later
    ensures ShouldBlock(req, tenants, later)
  {
    LapseIsPermanent(tenants[req.user.value.tenantProfile.value], now, later);
  }

  /** Anyone who is not an authenticated owner with a lapsed tenant is never redirected. */
  lemma OnlyLapsedOwnersRedirected<R>(req: Request, tenants: map<TenantId, Tenant>, now: Timestamp, getResponse: Request -> R)
    requires ProfileStored(req, tenants)
    requires !LapsedOwner(req, tenants, now)
    ensures Call(req, tenants, now, getResponse) == Passed(getResponse(req))
  {
  }
}
