/**
 * The two ways the site enforces a second factor: `TwoFactorAuthMiddleware`,
 * which sees every request, and the `require_2fa` view decorator, with
 * `skip_2fa` beside it. Both read the caller's profile (the row
 * `TwoFactorAuth.objects.get(user=..., is_enabled=True)` finds, if any)
 * and the session's `2fa_verified` flag, and both may write `2fa_next`.
 * Calling the next handler or the wrapped view is answered `Pass`.
 */
module TwoFactorGates {
  import opened Wrappers
  import opened Text
  import opened TwoFactorModels
  import TwoFactorViews

  /** The URL prefixes the middleware never diverts. */
  const ExemptPrefixes: seq<string> := ["/2fa/", "/logout/", "/static/", "/media/"]

  /** What a gate does with a request: hand it on, or redirect to a named URL. */
  datatype Gate = Pass | Divert(to: string)

  /** The parts of a request the gates read, and the attribute `skip_2fa` sets. */
  class HttpRequest {
    const authenticated: bool
    /** `request.path`. */
    const path: string
    /** `request.get_full_path()`: the path with its query string. */
    const fullPath: string
    /** `request._skip_2fa`. */
    var skipTwoFactor: bool

    constructor (authenticated: bool, path: string, fullPath: string)
      ensures this.authenticated == authenticated && this.path == path && this.fullPath == fullPath
      ensures !skipTwoFactor
    {
      this.authenticated := authenticated;
      this.path := path;
      this.fullPath := fullPath;
      skipTwoFactor := false;
    }
  }

  // ---------------------------------------------------------------------------
  // The exempt-prefix check
  // ---------------------------------------------------------------------------

  /** `any(path.startswith(url) for url in prefixes)`, tried in order. */
  function AnyPrefix(path: string, prefixes: seq<string>): bool {
    if prefixes == [] then false
    else StartsWith(path, prefixes[0]) || AnyPrefix(path, prefixes[1..])
  }

  /** The fold answers true exactly when one of the prefixes starts the path. */
  lemma {:induction false} AnyPrefixExists(path: string, prefixes: seq<string>)
    ensures AnyPrefix(path, prefixes) <==> exists k :: 0 <= k < |prefixes| && StartsWith(path, prefixes[k])
  {
    if prefixes != [] {
      AnyPrefixExists(path, prefixes[1..]);
      if AnyPrefix(path, prefixes[1..]) {
        var k :| 0 <= k < |prefixes[1..]| && StartsWith(path, prefixes[1..][k]);
        assert StartsWith(path, prefixes[k + 1]);
      }
      forall k | 1 <= k < |prefixes|
        ensures prefixes[k] == prefixes[1..][k - 1]
      {
      }
    }
  }

  /** A path the middleware lets through whatever the session says. */
  predicate Exempt(path: string) {
    AnyPrefix(path, ExemptPrefixes)
  }

  /** A path is exempt exactly when it starts with one of the four prefixes. */
  lemma ExemptListed(path: string)
    ensures Exempt(path) <==>
      StartsWith(path, "/2fa/") || StartsWith(path, "/logout/") || StartsWith(path, "/static/") || StartsWith(path, "/media/")
  {
    AnyPrefixExists(path, ExemptPrefixes);
    var p := ExemptPrefixes;
    assert p[0] == "/2fa/" && p[1] == "/logout/" && p[2] == "/static/" && p[3] == "/media/";
    if Exempt(path) {
      var k :| 0 <= k < |p| && StartsWith(path, p[k]);
      assert k == 0 || k == 1 || k == 2 || k == 3;
    }
  }

  /** Exemption is by prefix: every path under an exempt one is exempt. */
  lemma ExemptUnder(path: string, rest: string)
    requires Exempt(path)
    ensures Exempt(path + rest)
  {
    AnyPrefixExists(path, ExemptPrefixes);
    AnyPrefixExists(path + rest, ExemptPrefixes);
    var k :| 0 <= k < |ExemptPrefixes| && StartsWith(path, ExemptPrefixes[k]);
    assert (path + rest)[..|ExemptPrefixes[k]|] == path[..|ExemptPrefixes[k]|];
    assert StartsWith(path + rest, ExemptPrefixes[k]);
  }

  // ---------------------------------------------------------------------------
  // TwoFactorAuthMiddleware
  // ---------------------------------------------------------------------------

  /**
   * The middleware's answer: only an authenticated user with an enabled
   * profile and an unverified session, on a path that is not exempt, is
   * sent to the verify page.
   */
  function MiddlewareGate(authenticated: bool, path: string, enabled: bool, verified: bool): (g: Gate)
    ensures g == Pass || g == Divert("twofa_verify_page")
  {
    if !authenticated then Pass
    else if Exempt(path) then Pass
    else if enabled && !verified then Divert("twofa_verify_page")
    else Pass
  }

  /** The middleware diverts exactly the requests that need a code, and nothing else. */
  lemma MiddlewareDiverts(authenticated: bool, path: string, enabled: bool, verified: bool)
    ensures MiddlewareGate(authenticated, path, enabled, verified).Divert? <==>
      authenticated && !Exempt(path) && enabled && !verified
    ensures !enabled || verified ==> MiddlewareGate(authenticated, path, enabled, verified) == Pass
  {
  }

  /** `TwoFactorAuthMiddleware`: the exempt prefixes it is built with, and `__call__`. */
  class Middleware {
    const exemptUrls: seq<string>

    constructor ()
      ensures exemptUrls == ExemptPrefixes
    {
      exemptUrls := ExemptPrefixes;
    }

    /**
     * `__call__`: a diverted request has its full path stored in
     * `2fa_next`; any other request leaves the session as it was.
     */
    method Call(req: HttpRequest, profile: Profile?, session: TwoFactorViews.Session) returns (g: Gate)
      requires exemptUrls == ExemptPrefixes
      modifies session
      ensures g == MiddlewareGate(req.authenticated, req.path, EnabledProfile(profile), old(session.verified))
      ensures g.Divert? ==> session.next == Some(req.fullPath)
      ensures g.Pass? ==> session.next == old(session.next)
      ensures session.verified == old(session.verified) && session.verifiedAt == old(session.verifiedAt)
      ensures session.backupCodes == old(session.backupCodes)
    {
      if !req.authenticated {
        return Pass;
      }
      if AnyPrefix(req.path, exemptUrls) {
        return Pass;
      }
      if EnabledProfile(profile) && !session.verified {
        session.next := Some(req.fullPath);
        return Divert("twofa_verify_page");
      }
      return Pass;
    }
  }

  // ---------------------------------------------------------------------------
  // require_2fa and skip_2fa
  // ---------------------------------------------------------------------------

  /**
   * The decorator's answer: the login page for an anonymous user, setup for
   * a user without an enabled profile (a disabled one included), the verify
   * page for an unverified session, and otherwise the wrapped view.
   */
  function RequireGate(authenticated: bool, enabled: bool, verified: bool): (g: Gate)
    ensures g.Pass? <==> authenticated && enabled && verified
  {
    if !authenticated then Divert("mylogin")
    else if !enabled then Divert("twofa_setup")
    else if !verified then Divert("twofa_verify_page")
    else Pass
  }

  /** `require_2fa`'s wrapper; only the verify-page redirect stores `2fa_next`. */
  method RequireTwoFactor(req: HttpRequest, profile: Profile?, session: TwoFactorViews.Session) returns (g: Gate)
    modifies session
    ensures g == RequireGate(req.authenticated, EnabledProfile(profile), old(session.verified))
    ensures g == Divert("twofa_verify_page") ==> session.next == Some(req.fullPath)
    ensures g != Divert("twofa_verify_page") ==> session.next == old(session.next)
    ensures session.verified == old(session.verified) && session.verifiedAt == old(session.verifiedAt)
    ensures session.backupCodes == old(session.backupCodes)
  {
    if !req.authenticated {
      return Divert("mylogin");
    }
    if !EnabledProfile(profile) {
      return Divert("twofa_setup");
    }
    if !session.verified {
      session.next := Some(req.fullPath);
      return Divert("twofa_verify_page");
    }
    return Pass;
  }

  /**
   * Where the two gates disagree: the decorator turns away anonymous users
   * and users without an enabled profile, whom the middleware lets through,
   * and it also guards exempt paths, which the middleware never diverts.
   * Everywhere else they answer alike.
   */
  lemma GatesDiffer(authenticated: bool, path: string, enabled: bool, verified: bool)
    ensures MiddlewareGate(authenticated, path, enabled, verified) != RequireGate(authenticated, enabled, verified) <==>
      !authenticated || !enabled || (Exempt(path) && !verified)
  {
  }

  /** `skip_2fa`'s wrapper: mark the request, then call the view. */
  method SkipTwoFactor(req: HttpRequest) returns (g: Gate)
    modifies req
    ensures req.skipTwoFactor && g == Pass
  {
    req.skipTwoFactor := true;
    return Pass;
  }
}
