/**
 * `twofa.views` without the HTTP layer: each view is a method over the
 * caller's profile, the backup-code and email-code tables, the audit log
 * and the session, returning what the view answers (a redirect target, the
 * page it renders with the values that matter, a JSON verdict, or a server
 * error for an exception the view does not catch).
 *
 * Every TOTP check runs `TOTP.verify` with `window=2` and the default
 * 30-second period at the request's clock reading.
 */
module TwoFactorViews {
  import opened Wrappers
  import opened Text
  import Base32
  import Hotp
  import Totp
  import TwoFactorUtils
  import opened TwoFactorModels

  type byte = Base32.byte

  /** The `window` every view passes to `TOTP.verify`. */
  const Window: int := 2

  /** Where a verified user goes when the session holds no `2fa_next`. */
  const DefaultNext: string := "panel"

  /** The issuer the setup page writes into the provisioning URI. */
  const Issuer: string := "News Portal"

  /** The count `generate_for_user` is called with by the views. */
  const BatchSize: int := 10

  /** The parts of a request the views read. */
  datatype Request = Request(
    user: UserId,
    authenticated: bool,
    email: string,
    username: string,
    isPost: bool,
    post: map<string, string>,
    meta: map<string, string>)

  /**
   * What the views take from outside: HMAC-SHA1, the clock (one reading per
   * request, in seconds, for `time.time()` and `timezone.now()`), the random
   * sources, `urllib.parse.quote`, and what `EmailVerificationCode.generate_for_user`
   * and the mailer produce.
   */
  datatype Env = Env(
    mac: Hotp.Mac,
    now: int,
    secrets: TwoFactorUtils.TokenBytes,
    draw: TwoFactorUtils.TokenBytes,
    quote: string -> string,
    emailCode: string,
    emailToken: string,
    emailExpiry: Time)

  /** What a view answers. */
  datatype Outcome =
    | Redirect(to: string)
    | SetupPage(uri: string, secretKey: string)
    | ManagePage(unusedCodes: nat)
    | VerifyPage
    | Json(success: bool, detail: string)
    | ServerError
    | MethodNotAllowed

  /** The session keys the views write; an absent `2fa_verified` reads as false. */
  class Session {
    var verified: bool
    var verifiedAt: Option<Time>
    var next: Option<string>
    var backupCodes: Option<seq<string>>

    constructor ()
      ensures !verified && verifiedAt == None && next == None && backupCodes == None
    {
      verified := false;
      verifiedAt := None;
      next := None;
      backupCodes := None;
    }

    /** `session['2fa_verified'] = True` and `session['2fa_verified_at'] = str(timezone.now())`. */
    method MarkVerified(now: Time)
      modifies this
      ensures verified && verifiedAt == Some(now)
      ensures next == old(next) && backupCodes == old(backupCodes)
    {
      verified := true;
      verifiedAt := Some(now);
    }

    /** `session.pop('2fa_next', 'panel')`. */
    method PopNext() returns (url: string)
      modifies this
      ensures url == NextOrDefault(old(next)) && next == None
      ensures verified == old(verified) && verifiedAt == old(verifiedAt) && backupCodes == old(backupCodes)
    {
      url := NextOrDefault(next);
      next := None;
    }
  }

  /** The page a verified user is sent to. */
  function NextOrDefault(next: Option<string>): string {
    if next.Some? then next.value else DefaultNext
  }

  // ---------------------------------------------------------------------------
  // Request fields
  // ---------------------------------------------------------------------------

  /** `d.get(key, default)`. */
  function Field(d: map<string, string>, key: string, default: string): string {
    if key in d then d[key] else default
  }

  /** `request.POST.get('code', '').strip()`. */
  function Code(req: Request): string {
    Strip(Field(req.post, "code", ""))
  }

  /** `request.META.get('HTTP_USER_AGENT', '')`. */
  function Agent(req: Request): string {
    Field(req.meta, "HTTP_USER_AGENT", "")
  }

  /**
   * `get_client_ip`: the first comma-separated field of a non-empty
   * `X-Forwarded-For`, otherwise `REMOTE_ADDR` (absent: `None`).
   */
  function ClientIp(meta: map<string, string>): Option<string> {
    if "HTTP_X_FORWARDED_FOR" in meta && meta["HTTP_X_FORWARDED_FOR"] != "" then
      Some(Split(meta["HTTP_X_FORWARDED_FOR"], ',')[0])
    else if "REMOTE_ADDR" in meta then Some(meta["REMOTE_ADDR"])
    else None
  }

  /**
   * A forwarded-for chain of proxies is answered by its first hop, and only
   * an empty or missing header falls back to the peer address.
   */
  lemma ClientIpFirstHop(meta: map<string, string>, hops: seq<string>)
    requires |hops| >= 1 && forall k :: 0 <= k < |hops| ==> ',' !in hops[k]
    requires "HTTP_X_FORWARDED_FOR" in meta && meta["HTTP_X_FORWARDED_FOR"] == Join(hops, ',')
    ensures Join(hops, ',') != "" ==> ClientIp(meta) == Some(hops[0])
    ensures Join(hops, ',') == "" ==> ClientIp(meta) == (if "REMOTE_ADDR" in meta then Some(meta["REMOTE_ADDR"]) else None)
  {
    SplitJoin(hops, ',');
  }

  /** `code.isdigit() and len(code) == 6`, with ASCII digits. */
  predicate SixDigits(code: string) {
    |code| == 6 && forall k :: 0 <= k < 6 ==> IsDigit(code[k])
  }

  /**
   * The page view's routes are disjoint: a six-digit code never takes the
   * backup path, so an email code that is missing or expired is always
   * retried as a TOTP code, and a code with a dash is never tried as TOTP.
   */
  lemma SixDigitsNoDash(code: string)
    requires SixDigits(code)
    ensures '-' !in code
  {
    forall k | 0 <= k < |code|
      ensures code[k] != '-'
    {
      assert IsDigit(code[k]);
    }
  }

  // ---------------------------------------------------------------------------
  // The TOTP check
  // ---------------------------------------------------------------------------

  /** Why a TOTP check raises: `decode` rejects the stored key, or `verify` itself raises. */
  datatype Fault = BadSecret(symbol: char) | OtpFault(error: Hotp.Error)

  /** `TOTP.verify(twofa.get_secret_bytes(), code, window=2)` for the stored `key`. */
  function TotpCheck(key: string, code: string, env: Env): Result<bool, Fault> {
    match Base32.Decoding(key)
    case Failure(c) => Failure(BadSecret(c))
    case Success(secret) =>
      match Totp.Verification(env.mac, secret, code, Totp.DefaultPeriod, Window, env.now)
      case Failure(e) => Failure(OtpFault(e))
      case Success(ok) => Success(ok)
  }

  /**
   * For a key the models wrote (the Base32 text of a secret), at a time two
   * steps after the epoch and within the counter range, the check answers,
   * and it accepts exactly the codes of the five steps around the current one.
   */
  lemma TotpCheckWindow(secret: seq<byte>, code: string, env: Env)
    requires 0 <= Totp.FloorDiv(env.now, Totp.DefaultPeriod) - Window
    requires Totp.FloorDiv(env.now, Totp.DefaultPeriod) + Window < Hotp.CounterLimit
    ensures TotpCheck(TwoFactorUtils.SecretBase32(secret), code, env).Success?
    ensures TotpCheck(TwoFactorUtils.SecretBase32(secret), code, env).value <==>
      exists i :: -Window <= i <= Window &&
        Hotp.CodeAt(env.mac, secret, code, Totp.FloorDiv(env.now, Totp.DefaultPeriod))(i) == Success(code)
  {
    Base32.RoundTrip(secret);
    Totp.VerifySymmetric(env.mac, secret, code, Totp.DefaultPeriod, Window, env.now);
  }

  /** The check, through `get_secret_bytes` and the verification loop. */
  method CheckTotp(profile: Profile, code: string, env: Env) returns (r: Result<bool, Fault>)
    ensures r == TotpCheck(profile.secretKey, code, env)
  {
    var secret := profile.GetSecretBytes();
    if secret.Failure? {
      return Failure(BadSecret(secret.error));
    }
    var ok := Totp.Verify(env.mac, secret.value, code, Totp.DefaultPeriod, Window, env.now);
    if ok.Failure? {
      return Failure(OtpFault(ok.error));
    }
    r := Success(ok.value);
  }

  // ---------------------------------------------------------------------------
  // Shared steps
  // ---------------------------------------------------------------------------

  /** A log entry for this request. */
  function Entry(req: Request, env: Env, success: bool, kind: Method): LogEntry {
    LogEntry(req.user, success, kind, ClientIp(req.meta), Agent(req), env.now)
  }

  /** A row `filter(twofa=owner, is_used=False)` selects. */
  predicate UnusedOf(row: BackupRow, owner: UserId) {
    row.owner == owner && !row.isUsed
  }

  /** The positions of the owner's unused rows. */
  ghost function UnusedPositions(rows: seq<BackupRow>, owner: UserId): set<nat> {
    set i: nat | i < |rows| && UnusedOf(rows[i], owner)
  }

  /** The number of unused codes of a profile: `filter(twofa=..., is_used=False).count()`. */
  function UnusedCount(rows: seq<BackupRow>, owner: UserId): (n: nat)
    ensures n == |UnusedPositions(rows, owner)|
  {
    if rows == [] then
      assert UnusedPositions(rows, owner) == {};
      0
    else
      var init, last := rows[..|rows| - 1], rows[|rows| - 1];
      UnusedPositionsSnoc(rows, owner);
      UnusedCount(init, owner) + if UnusedOf(last, owner) then 1 else 0
  }

  /** The positions in a table are those in all but its last row, and the last row's if it counts. */
  lemma UnusedPositionsSnoc(rows: seq<BackupRow>, owner: UserId)
    requires rows != []
    ensures var init, last := rows[..|rows| - 1], rows[|rows| - 1];
      |UnusedPositions(rows, owner)| == |UnusedPositions(init, owner)| + if UnusedOf(last, owner) then 1 else 0
  {
    var init, last := rows[..|rows| - 1], rows[|rows| - 1];
    var before, all := UnusedPositions(init, owner), UnusedPositions(rows, owner);
    var tip: set<nat> := if UnusedOf(last, owner) then {|rows| - 1} else {};
    forall i: nat | i in all
      ensures i in before || i in tip
    {
      if i < |init| {
        assert init[i] == rows[i];
      }
    }
    forall i: nat | i in before
      ensures i in all
    {
      assert init[i] == rows[i];
    }
    assert all == before + tip;
    assert |rows| - 1 !in before;
  }

  /** Unused rows of a table with more rows appended: the two counts added. */
  lemma {:induction false} UnusedCountAppend(a: seq<BackupRow>, b: seq<BackupRow>, owner: UserId)
    ensures UnusedCount(a + b, owner) == UnusedCount(a, owner) + UnusedCount(b, owner)
    decreases |b|
  {
    if b != [] {
      var ab := a + b;
      assert ab[..|ab| - 1] == a + b[..|b| - 1] && ab[|ab| - 1] == b[|b| - 1];
      UnusedCountAppend(a, b[..|b| - 1], owner);
    } else {
      assert a + b == a;
    }
  }

  /**
   * After `generate_for_user` succeeds, the user's unused codes are exactly
   * the new batch, so `manage_2fa` shows its size.
   */
  lemma RegeneratedCount(rows: seq<BackupRow>, owner: UserId, codes: seq<string>)
    ensures UnusedCount(Without(rows, owner) + NewRows(owner, codes), owner) == |codes|
  {
    var kept, added := Without(rows, owner), NewRows(owner, codes);
    assert UnusedPositions(kept, owner) == {};
    AllUnused(added, owner);
    UnusedCountAppend(kept, added, owner);
  }

  /** A table of the owner's unused rows only counts every row. */
  lemma {:induction false} AllUnused(rows: seq<BackupRow>, owner: UserId)
    requires forall k :: 0 <= k < |rows| ==> UnusedOf(rows[k], owner)
    ensures UnusedCount(rows, owner) == |rows|
    decreases |rows|
  {
    if rows != [] {
      var init := rows[..|rows| - 1];
      assert forall k :: 0 <= k < |init| ==> init[k] == rows[k];
      AllUnused(init, owner);
    }
  }

  /** A single-use code, once used, is not found again by the lookup that found it. */
  lemma UseConsumes(rows: seq<BackupRow>, owner: UserId, code: string, i: nat, now: Time)
    requires Get(rows, UnusedCode(owner, code)) == Found(i)
    ensures Get(rows[i := rows[i].(isUsed := true, usedAt := Some(now))], UnusedCode(owner, code)) == NotFound
  {
    var after := rows[i := rows[i].(isUsed := true, usedAt := Some(now))];
    forall k | 0 <= k < |after|
      ensures !UnusedCode(owner, code)(after[k])
    {
      if k != i {
        assert after[k] == rows[k];
      }
    }
  }

  /**
   * After `generate_for_user` succeeds, the profile's unused codes are
   * exactly the returned batch: an earlier code is not accepted any more.
   */
  lemma RegeneratedOnly(rows: seq<BackupRow>, owner: UserId, codes: seq<string>, code: string)
    requires UniqueCodes(rows) && Insertable(Without(rows, owner), codes)
    ensures Get(Without(rows, owner) + NewRows(owner, codes), UnusedCode(owner, code)).Found? <==> code in codes
  {
    if code in codes {
      RegeneratedFound(rows, owner, codes, code);
    } else {
      RegeneratedGone(rows, owner, codes, code);
    }
  }

  /** A code of the new batch is found. */
  lemma RegeneratedFound(rows: seq<BackupRow>, owner: UserId, codes: seq<string>, code: string)
    requires UniqueCodes(rows) && Insertable(Without(rows, owner), codes) && code in codes
    ensures Get(Without(rows, owner) + NewRows(owner, codes), UnusedCode(owner, code)).Found?
  {
    var kept := Without(rows, owner);
    var all := kept + NewRows(owner, codes);
    WithoutUnique(rows, owner);
    InsertUnique(kept, owner, codes);
    UnusedCodeSingle(all, owner, code);
    var k :| 0 <= k < |codes| && codes[k] == code;
    assert all[|kept| + k] == BackupRow(owner, code, false, None);
  }

  /** Any other code of the profile, used or not, is not found. */
  lemma RegeneratedGone(rows: seq<BackupRow>, owner: UserId, codes: seq<string>, code: string)
    requires code !in codes
    ensures Get(Without(rows, owner) + NewRows(owner, codes), UnusedCode(owner, code)).NotFound?
  {
    var kept := Without(rows, owner);
    var all := kept + NewRows(owner, codes);
    forall k | 0 <= k < |all|
      ensures !UnusedCode(owner, code)(all[k])
    {
      if k < |kept| {
        assert all[k] == kept[k];
      } else {
        assert all[k] == BackupRow(owner, codes[k - |kept|], false, None);
      }
    }
  }

  /** The backup codes `generate_for_user(twofa, count=10)` draws. */
  function Batch(env: Env): seq<string> {
    TwoFactorUtils.BackupCodes(BatchSize, 8, env.draw).value
  }

  /**
   * A credential was accepted: `mark_used` on the profile, and the session
   * marked verified (`2fa_verified`, `2fa_verified_at`).
   */
  twostate predicate Accepted(new env: Env, profile: Profile, session: Session)
    reads profile, session
  {
    && profile.lastUsed == Some(env.now)
    && profile.secretKey == old(profile.secretKey) && profile.isEnabled == old(profile.isEnabled)
    && session.verified && session.verifiedAt == Some(env.now) && session.backupCodes == old(session.backupCodes)
  }

  /** `mark_used`, one entry in the log, and the session marked verified; `2fa_next` is kept. */
  method Accept(req: Request, env: Env, profile: Profile, log: AuditLog, session: Session, kind: Method)
    modifies profile, log, session
    ensures Accepted(env, profile, session) && session.next == old(session.next)
    ensures log.entries == old(log.entries) + [Entry(req, env, true, kind)]
  {
    profile.MarkUsed(env.now);
    var _ := log.LogAttempt(req.user, true, kind, ClientIp(req.meta), Agent(req), env.now);
    session.MarkVerified(env.now);
  }

  /** A failed attempt of kind `kind` is logged. */
  method Refuse(req: Request, env: Env, log: AuditLog, kind: Method)
    modifies log
    ensures log.entries == old(log.entries) + [Entry(req, env, false, kind)]
  {
    var _ := log.LogAttempt(req.user, false, kind, ClientIp(req.meta), Agent(req), env.now);
  }

  /**
   * The backup path shared by the two verification views: look up an unused
   * code of the profile with this text; use it and accept, or log a failure.
   */
  method UseBackupCode(req: Request, env: Env, profile: Profile, codes: BackupCodeTable, log: AuditLog, session: Session, code: string)
    returns (r: Lookup)
    requires codes.Valid()
    modifies profile, codes, log, session
    ensures codes.Valid() && session.next == old(session.next)
    ensures r == Get(old(codes.rows), UnusedCode(req.user, code))
    ensures r.Found? ==>
      && codes.rows == old(codes.rows)[r.index := old(codes.rows)[r.index].(isUsed := true, usedAt := Some(env.now))]
      && Accepted(env, profile, session) && log.entries == old(log.entries) + [Entry(req, env, true, Backup)]
    ensures r.NotFound? ==>
      && codes.rows == old(codes.rows) && unchanged(profile, session)
      && log.entries == old(log.entries) + [Entry(req, env, false, Backup)]
    ensures r.Multiple? ==> codes.rows == old(codes.rows) && unchanged(profile, log, session)
  {
    r := Get(codes.rows, UnusedCode(req.user, code));
    match r
    case Found(i) =>
      codes.Use(i, env.now);
      Accept(req, env, profile, log, session, Backup);
    case NotFound =>
      Refuse(req, env, log, Backup);
    case Multiple =>
  }

  /** The TOTP path shared by the two verification views. */
  method UseTotpCode(req: Request, env: Env, profile: Profile, log: AuditLog, session: Session, code: string)
    returns (r: Result<bool, Fault>)
    modifies profile, log, session
    ensures r == TotpCheck(old(profile.secretKey), code, env) && session.next == old(session.next)
    ensures r == Success(true) ==>
      Accepted(env, profile, session) && log.entries == old(log.entries) + [Entry(req, env, true, Totp)]
    ensures r == Success(false) ==>
      unchanged(profile, session) && log.entries == old(log.entries) + [Entry(req, env, false, Totp)]
    ensures r.Failure? ==> unchanged(profile, log, session)
  {
    r := CheckTotp(profile, code, env);
    if r == Success(true) {
      Accept(req, env, profile, log, session, Totp);
    } else if r == Success(false) {
      Refuse(req, env, log, Totp);
    }
  }

  /**
   * How a verification view answers a code with a dash: the user's unused
   * backup code with this text is used, the profile marked used and the
   * session verified, with `accept` as the answer and `next` left in
   * `2fa_next`; no such code is a failed `backup` attempt answered with
   * `refuse`; two such codes (excluded by the table's uniqueness) would
   * raise.
   */
  twostate predicate BackupAttempt(new req: Request, new env: Env, profile: Profile, codes: BackupCodeTable, log: AuditLog, session: Session, new code: string, new out: Outcome, new accept: Outcome, new refuse: Outcome, new next: Option<string>)
    reads profile, codes, log, session
  {
    match Get(old(codes.rows), UnusedCode(req.user, code))
    case Found(i) =>
      && out == accept
      && codes.rows == old(codes.rows)[i := old(codes.rows)[i].(isUsed := true, usedAt := Some(env.now))]
      && Accepted(env, profile, session) && session.next == next
      && log.entries == old(log.entries) + [Entry(req, env, true, Backup)]
    case NotFound =>
      && out == refuse && codes.rows == old(codes.rows) && unchanged(profile, session)
      && log.entries == old(log.entries) + [Entry(req, env, false, Backup)]
    case Multiple =>
      out == ServerError && codes.rows == old(codes.rows) && unchanged(profile, log, session)
  }

  /**
   * How a verification view answers any other code: a correct TOTP code
   * marks the profile used and verifies the session, answered with `accept`
   * and `next` left in `2fa_next`; a wrong one is a failed `totp` attempt
   * answered with `refuse`; a check that raises writes nothing. `logged` is
   * the log before the attempt's own entry.
   */
  twostate predicate TotpAttempt(new req: Request, new env: Env, profile: Profile, log: AuditLog, session: Session, new code: string, new logged: seq<LogEntry>, new out: Outcome, new accept: Outcome, new refuse: Outcome, new next: Option<string>)
    reads profile, log, session
  {
    match TotpCheck(old(profile.secretKey), code, env)
    case Success(true) =>
      && out == accept && Accepted(env, profile, session) && session.next == next
      && log.entries == logged + [Entry(req, env, true, Totp)]
    case Success(false) =>
      && out == refuse && unchanged(profile, session)
      && log.entries == logged + [Entry(req, env, false, Totp)]
    case Failure(_) =>
      out == ServerError && unchanged(profile, session) && log.entries == logged
  }

  /**
   * The backup path with the answers of `verify_2fa` (`json`: a JSON
   * verdict, `2fa_next` kept) or of `verify_2fa_page` (a redirect to the
   * popped `2fa_next`, or the page again).
   */
  method TryBackupCode(req: Request, env: Env, profile: Profile, codes: BackupCodeTable, log: AuditLog, session: Session,
                       code: string, json: bool)
    returns (out: Outcome)
    requires codes.Valid()
    modifies profile, codes, log, session
    ensures codes.Valid()
    ensures json ==> BackupAttempt(req, env, profile, codes, log, session, code, out,
      Json(true, "backup"), Json(false, "Invalid backup code"), old(session.next))
    ensures !json ==> BackupAttempt(req, env, profile, codes, log, session, code, out,
      Redirect(NextOrDefault(old(session.next))), VerifyPage, None)
  {
    var found := UseBackupCode(req, env, profile, codes, log, session, code);
    match found
    case Multiple =>
      out := ServerError;
    case NotFound =>
      out := if json then Json(false, "Invalid backup code") else VerifyPage;
    case Found(_) =>
      if json {
        out := Json(true, "backup");
      } else {
        var url := session.PopNext();
        out := Redirect(url);
      }
  }

  /** The TOTP path with the answers of `verify_2fa` (`json`) or of `verify_2fa_page`. */
  method TryTotpCode(req: Request, env: Env, profile: Profile, log: AuditLog, session: Session, code: string, json: bool)
    returns (out: Outcome)
    modifies profile, log, session
    ensures json ==> TotpAttempt(req, env, profile, log, session, code, old(log.entries), out,
      Json(true, "totp"), Json(false, "Invalid code"), old(session.next))
    ensures !json ==> TotpAttempt(req, env, profile, log, session, code, old(log.entries), out,
      Redirect(NextOrDefault(old(session.next))), VerifyPage, None)
  {
    var check := UseTotpCode(req, env, profile, log, session, code);
    match check
    case Failure(_) =>
      out := ServerError;
    case Success(false) =>
      out := if json then Json(false, "Invalid code") else VerifyPage;
    case Success(true) =>
      if json {
        out := Json(true, "totp");
      } else {
        var url := session.PopNext();
        out := Redirect(url);
      }
  }

  /**
   * `BackupCode.generate_for_user(twofa, count=10)` followed by
   * `session['backup_codes'] = codes`; an `IntegrityError` leaves the
   * session alone but not the deleted codes.
   */
  method IssueBackupCodes(user: UserId, env: Env, codes: BackupCodeTable, session: Session) returns (ok: bool)
    requires codes.Valid()
    modifies codes, session
    ensures codes.Valid()
    ensures var kept := Without(old(codes.rows), user);
      if Insertable(kept, Batch(env)) then
        && ok && codes.rows == kept + NewRows(user, Batch(env))
        && session.backupCodes == Some(Batch(env))
        && session.verified == old(session.verified) && session.verifiedAt == old(session.verifiedAt)
        && session.next == old(session.next)
      else
        !ok && codes.rows == kept && unchanged(session)
  {
    var batch := codes.GenerateForUser(user, BatchSize, env.draw);
    ok := batch.Success?;
    if ok {
      session.backupCodes := Some(batch.value);
    }
  }

  // ---------------------------------------------------------------------------
  // setup_2fa
  // ---------------------------------------------------------------------------

  /** The setup page for a stored key: the provisioning URI of the decoded secret, or the decoding error. */
  function SetupOutcome(key: string, req: Request, env: Env): Outcome {
    match Base32.Decoding(key)
    case Failure(_) => ServerError
    case Success(secret) =>
      var account := if req.email != "" then req.email else req.username;
      SetupPage(Totp.ProvisioningUri(secret, account, Issuer, 6, Totp.DefaultPeriod, env.quote), key)
  }

  /** The page of a profile created by the models: its key decodes, so the page shows the URI of its secret. */
  lemma SetupOutcomeCreated(secret: seq<byte>, req: Request, env: Env)
    ensures SetupOutcome(TwoFactorUtils.SecretBase32(secret), req, env).SetupPage?
    ensures SetupOutcome(TwoFactorUtils.SecretBase32(secret), req, env).uri ==
      Totp.ProvisioningUri(secret, if req.email != "" then req.email else req.username, Issuer, 6, Totp.DefaultPeriod, env.quote)
  {
    Base32.RoundTrip(secret);
  }

  /** `TwoFactorAuth.objects.get(user=...)`, or `create_for_user` with the fresh secret `secrets(0, 20)`. */
  method GetOrCreate(req: Request, env: Env, profile: Profile?) returns (twofa: Profile)
    requires profile != null ==> profile.user == req.user
    ensures twofa.user == req.user
    ensures profile != null ==> twofa == profile
    ensures profile == null ==>
      && fresh(twofa) && twofa.lastUsed == None && !twofa.isEnabled
      && twofa.secretKey == TwoFactorUtils.SecretBase32(env.secrets(0, TwoFactorUtils.SecretLength))
  {
    if profile == null {
      twofa := new Profile.CreateForUser(req.user, env.secrets(0, TwoFactorUtils.SecretLength), env.now);
    } else {
      twofa := profile;
    }
  }

  /**
   * The `verify` branch of `setup_2fa` for a non-empty code and the stored
   * `key`: a correct code enables the profile, replaces its backup codes,
   * hands them to the session and marks it verified, with no log entry; a
   * wrong code is logged (the view then renders the page); a check that
   * raises writes nothing. `enabled` is the profile's flag before.
   */
  twostate predicate SetupChecked(new req: Request, new env: Env, new twofa: Profile, codes: BackupCodeTable, log: AuditLog, session: Session, new key: string, new enabled: bool, new code: string, new out: Outcome)
    reads twofa, codes, log, session
  {
    && twofa.secretKey == key
    && match TotpCheck(key, code, env)
       case Failure(_) =>
         && out == ServerError && twofa.isEnabled == enabled
         && codes.rows == old(codes.rows) && log.entries == old(log.entries) && unchanged(session)
       case Success(false) =>
         && twofa.isEnabled == enabled && codes.rows == old(codes.rows)
         && log.entries == old(log.entries) + [Entry(req, env, false, Totp)] && unchanged(session)
       case Success(true) =>
         var kept := Without(old(codes.rows), req.user);
         && twofa.isEnabled && log.entries == old(log.entries)
         && if Insertable(kept, Batch(env)) then
              && out == Redirect("twofa_backup_codes")
              && codes.rows == kept + NewRows(req.user, Batch(env))
              && session.backupCodes == Some(Batch(env)) && session.verified && session.verifiedAt == Some(env.now)
              && session.next == old(session.next)
            else
              out == ServerError && codes.rows == kept && unchanged(session)
  }

  /** The check of `SetupChecked`; `done` is false when the page is still to be rendered. */
  method SetupCheck(req: Request, env: Env, twofa: Profile, codes: BackupCodeTable, log: AuditLog, session: Session, code: string)
    returns (out: Outcome, done: bool)
    requires codes.Valid()
    modifies twofa, codes, log, session
    ensures codes.Valid() && twofa.lastUsed == old(twofa.lastUsed)
    ensures done <==> TotpCheck(old(twofa.secretKey), code, env) != Success(false)
    ensures SetupChecked(req, env, twofa, codes, log, session, old(twofa.secretKey), old(twofa.isEnabled), code, out)
  {
    var check := CheckTotp(twofa, code, env);
    if check.Failure? {
      return ServerError, true;
    }
    if !check.value {
      Refuse(req, env, log, Totp);
      return VerifyPage, false;
    }
    twofa.Enable();
    var ok := IssueBackupCodes(req.user, env, codes, session);
    if !ok {
      return ServerError, true;
    }
    session.MarkVerified(env.now);
    return Redirect("twofa_backup_codes"), true;
  }

  /** The rendered setup page, through `get_secret_bytes`. */
  method RenderSetup(req: Request, env: Env, twofa: Profile) returns (out: Outcome)
    ensures out == SetupOutcome(twofa.secretKey, req, env)
  {
    var secret := twofa.GetSecretBytes();
    if secret.Failure? {
      return ServerError;
    }
    var account := if req.email != "" then req.email else req.username;
    out := SetupPage(Totp.ProvisioningUri(secret.value, account, Issuer, 6, Totp.DefaultPeriod, env.quote), twofa.secretKey);
  }

  /**
   * `setup_2fa`: get or create the profile, then regenerate the secret
   * (`secrets(1, 20)`), or check a non-empty code (see `SetupCheck`), and
   * otherwise render the page with the provisioning URI.
   */
  method SetupTwoFactor(req: Request, env: Env, profile: Profile?, codes: BackupCodeTable, log: AuditLog, session: Session)
    returns (out: Outcome, twofa: Profile)
    requires req.authenticated  // `login_required` runs the view only for a logged-in user
    requires profile != null ==> profile.user == req.user
    requires codes.Valid()
    modifies profile, codes, log, session
    ensures codes.Valid()
    ensures twofa.user == req.user
    ensures profile != null ==> twofa == profile && twofa.lastUsed == old(profile.lastUsed)
    ensures profile == null ==> fresh(twofa) && twofa.lastUsed == None
    ensures
      var key := if profile == null then TwoFactorUtils.SecretBase32(env.secrets(0, TwoFactorUtils.SecretLength)) else old(profile.secretKey);
      var enabled := profile != null && old(profile.isEnabled);
      var code := Code(req);
      var verifying := req.isPost && "regenerate" !in req.post && "verify" in req.post;
      if req.isPost && "regenerate" in req.post then
        && out == Redirect("twofa_setup")
        && twofa.secretKey == TwoFactorUtils.SecretBase32(env.secrets(1, TwoFactorUtils.SecretLength))
        && twofa.isEnabled == enabled
        && codes.rows == old(codes.rows) && log.entries == old(log.entries) && unchanged(session)
      else if verifying && code == "" then
        && out == Redirect("twofa_setup")
        && twofa.secretKey == key && twofa.isEnabled == enabled
        && codes.rows == old(codes.rows) && log.entries == old(log.entries) && unchanged(session)
      else if verifying then
        && SetupChecked(req, env, twofa, codes, log, session, key, enabled, code, out)
        && (TotpCheck(key, code, env) == Success(false) ==> out == SetupOutcome(key, req, env))
      else
        && out == SetupOutcome(key, req, env)
        && twofa.secretKey == key && twofa.isEnabled == enabled
        && codes.rows == old(codes.rows) && log.entries == old(log.entries) && unchanged(session)
  {
    twofa := GetOrCreate(req, env, profile);
    if req.isPost {
      if "regenerate" in req.post {
        twofa.RegenerateSecret(env.secrets(1, TwoFactorUtils.SecretLength));
        return Redirect("twofa_setup"), twofa;
      }
      if "verify" in req.post {
        var code := Code(req);
        if code == "" {
          return Redirect("twofa_setup"), twofa;
        }
        var done;
        out, done := SetupCheck(req, env, twofa, codes, log, session, code);
        if done {
          return out, twofa;
        }
      }
    }
    out := RenderSetup(req, env, twofa);
  }

  // ---------------------------------------------------------------------------
  // manage_2fa
  // ---------------------------------------------------------------------------

  /** `request.POST.get('action')`. */
  function Action(req: Request): Option<string> {
    if "action" in req.post then Some(req.post["action"]) else None
  }

  /**
   * The `disable` action with a non-empty code: a correct code disables the
   * profile and deletes all its backup codes; a wrong one changes nothing
   * and, unlike the verification views, is not logged.
   */
  method DisableCheck(req: Request, env: Env, profile: Profile, codes: BackupCodeTable, code: string)
    returns (r: Result<bool, Fault>)
    requires codes.Valid()
    modifies profile, codes
    ensures codes.Valid()
    ensures r == TotpCheck(old(profile.secretKey), code, env)
    ensures profile.secretKey == old(profile.secretKey) && profile.lastUsed == old(profile.lastUsed)
    ensures r == Success(true) ==> !profile.isEnabled && codes.rows == Without(old(codes.rows), req.user)
    ensures r != Success(true) ==> profile.isEnabled == old(profile.isEnabled) && codes.rows == old(codes.rows)
  {
    r := CheckTotp(profile, code, env);
    if r == Success(true) {
      profile.Disable();
      codes.DeleteFor(req.user);
    }
  }

  /**
   * `manage_2fa`: without a profile, go to setup. `disable` with a correct
   * code disables the profile and deletes all its backup codes;
   * `regenerate_backup` replaces the codes and hands them to the session.
   * Otherwise the page shows the number of unused codes. The profile need
   * not be enabled.
   */
  method ManageTwoFactor(req: Request, env: Env, profile: Profile?, codes: BackupCodeTable, session: Session)
    returns (out: Outcome)
    requires req.authenticated  // `login_required` runs the view only for a logged-in user
    requires profile != null ==> profile.user == req.user
    requires codes.Valid()
    modifies profile, codes, session
    ensures codes.Valid()
    ensures profile != null ==> profile.secretKey == old(profile.secretKey) && profile.lastUsed == old(profile.lastUsed)
    ensures profile == null ==> out == Redirect("twofa_setup") && codes.rows == old(codes.rows) && unchanged(session)
    ensures profile != null ==>
      var code := Code(req);
      var disabling := req.isPost && Action(req) == Some("disable") && code != "";
      if disabling && TotpCheck(old(profile.secretKey), code, env).Failure? then
        && out == ServerError
        && profile.isEnabled == old(profile.isEnabled) && codes.rows == old(codes.rows) && unchanged(session)
      else if disabling && TotpCheck(old(profile.secretKey), code, env) == Success(true) then
        && out == Redirect("twofa_manage")
        && !profile.isEnabled && codes.rows == Without(old(codes.rows), req.user) && unchanged(session)
      else if req.isPost && Action(req) == Some("regenerate_backup") then
        var kept := Without(old(codes.rows), req.user);
        && profile.isEnabled == old(profile.isEnabled)
        && if Insertable(kept, Batch(env)) then
             && out == Redirect("twofa_backup_codes")
             && codes.rows == kept + NewRows(req.user, Batch(env))
             && session.backupCodes == Some(Batch(env))
             && session.verified == old(session.verified) && session.verifiedAt == old(session.verifiedAt)
             && session.next == old(session.next)
           else
             out == ServerError && codes.rows == kept && unchanged(session)
      else
        && out == ManagePage(UnusedCount(old(codes.rows), req.user))
        && profile.isEnabled == old(profile.isEnabled) && codes.rows == old(codes.rows) && unchanged(session)
  {
    if profile == null {
      return Redirect("twofa_setup");
    }
    if req.isPost {
      var action := Action(req);
      if action == Some("disable") {
        var code := Code(req);
        if code != "" {
          var check := DisableCheck(req, env, profile, codes, code);
          if check.Failure? {
            return ServerError;
          }
          if check.value {
            return Redirect("twofa_manage");
          }
        }
      } else if action == Some("regenerate_backup") {
        var ok := IssueBackupCodes(req.user, env, codes, session);
        if !ok {
          return ServerError;
        }
        return Redirect("twofa_backup_codes");
      }
    }
    out := ManagePage(UnusedCount(codes.rows, req.user));
  }

  // ---------------------------------------------------------------------------
  // verify_2fa
  // ---------------------------------------------------------------------------

  /**
   * `verify_2fa` (the JSON endpoint): `require_http_methods(["POST"])`
   * answers any other method with 405 before the view runs. An
   * unauthenticated request, an empty
   * code or a user without an enabled profile is refused with nothing
   * written. A code with a dash takes only the backup path; any other code
   * is checked as TOTP. `2fa_next` is left alone.
   */
  method VerifyTwoFactor(req: Request, env: Env, profile: Profile?, codes: BackupCodeTable, log: AuditLog, session: Session)
    returns (out: Outcome)
    requires profile != null ==> profile.user == req.user
    requires codes.Valid()
    modifies profile, codes, log, session
    ensures codes.Valid() && session.next == old(session.next)
    ensures !req.isPost ==>
      && out == MethodNotAllowed
      && (profile != null ==> unchanged(profile))
      && codes.rows == old(codes.rows) && log.entries == old(log.entries) && unchanged(session)
    ensures req.isPost && (!req.authenticated || Code(req) == "" || !old(EnabledProfile(profile))) ==>
      && out.Json? && !out.success
      && (profile != null ==> unchanged(profile))
      && codes.rows == old(codes.rows) && log.entries == old(log.entries) && unchanged(session)
    ensures req.isPost && req.authenticated && Code(req) != "" && old(EnabledProfile(profile)) ==>
      if '-' in Code(req) then
        BackupAttempt(req, env, profile, codes, log, session, Code(req), out,
          Json(true, "backup"), Json(false, "Invalid backup code"), old(session.next))
      else
        && codes.rows == old(codes.rows)
        && TotpAttempt(req, env, profile, log, session, Code(req), old(log.entries), out,
             Json(true, "totp"), Json(false, "Invalid code"), old(session.next))
  {
    if !req.isPost {
      return MethodNotAllowed;
    }
    if !req.authenticated {
      return Json(false, "Not authenticated");
    }
    var code := Code(req);
    if code == "" {
      return Json(false, "Code is required");
    }
    if profile == null || !profile.isEnabled {
      return Json(false, "2FA not enabled");
    }
    if '-' in code {
      out := TryBackupCode(req, env, profile, codes, log, session, code, true);
    } else {
      out := TryTotpCode(req, env, profile, log, session, code, true);
    }
  }

  // ---------------------------------------------------------------------------
  // verify_2fa_page
  // ---------------------------------------------------------------------------

  /**
   * The email stage of `verify_2fa_page` for a six-digit code: an unused
   * email code of the user with this text is used if still valid (the
   * session is verified and `2fa_next` popped); an expired one is logged
   * as a failed `email` attempt and the view goes on (`done` is false), as
   * it does when there is no such code.
   */
  method EmailStage(req: Request, env: Env, profile: Profile, emails: EmailCodeTable, log: AuditLog, session: Session, code: string)
    returns (out: Outcome, done: bool)
    modifies profile, emails, log, session
    ensures var look := Get(old(emails.rows), UnusedEmailCode(req.user, code));
      match look
      case Multiple => done && out == ServerError && unchanged(profile, emails, log, session)
      case NotFound => !done && unchanged(profile, emails, log, session)
      case Found(i) =>
        if IsValid(old(emails.rows)[i], env.now) then
          && done && out == Redirect(NextOrDefault(old(session.next)))
          && emails.rows == old(emails.rows)[i := old(emails.rows)[i].(isUsed := true)]
          && Accepted(env, profile, session) && session.next == None
          && log.entries == old(log.entries) + [Entry(req, env, true, Email)]
        else
          && !done && unchanged(profile, emails, session)
          && log.entries == old(log.entries) + [Entry(req, env, false, Email)]
  {
    var look := Get(emails.rows, UnusedEmailCode(req.user, code));
    match look
    case Multiple =>
      return ServerError, true;
    case NotFound =>
      return VerifyPage, false;
    case Found(i) =>
      if IsValid(emails.rows[i], env.now) {
        emails.Use(i);
        Accept(req, env, profile, log, session, Email);
        var url := session.PopNext();
        return Redirect(url), true;
      }
      Refuse(req, env, log, Email);
      return VerifyPage, false;
  }

  /**
   * How `verify_2fa_page` answers a code without a dash: a six-digit code is
   * first looked up among the user's unused email codes; a valid one is used
   * and accepted, while a missing or expired one (the latter logged as a
   * failed `email` attempt) leaves the code to the TOTP path.
   */
  twostate predicate EmailThenTotp(new req: Request, new env: Env, profile: Profile, codes: BackupCodeTable, emails: EmailCodeTable, log: AuditLog, session: Session, new code: string, new out: Outcome)
    reads profile, codes, emails, log, session
  {
    var look := if SixDigits(code) then Get(old(emails.rows), UnusedEmailCode(req.user, code)) else NotFound;
    && codes.rows == old(codes.rows)
    && if look.Multiple? then
         out == ServerError && unchanged(profile, emails, log, session)
       else if look.Found? && IsValid(old(emails.rows)[look.index], env.now) then
         && out == Redirect(NextOrDefault(old(session.next)))
         && emails.rows == old(emails.rows)[look.index := old(emails.rows)[look.index].(isUsed := true)]
         && Accepted(env, profile, session) && session.next == None
         && log.entries == old(log.entries) + [Entry(req, env, true, Email)]
       else
         && emails.rows == old(emails.rows)
         && TotpAttempt(req, env, profile, log, session, code,
              old(log.entries) + (if look.Found? then [Entry(req, env, false, Email)] else []),
              out, Redirect(NextOrDefault(old(session.next))), VerifyPage, None)
  }

  /** The email stage, then the TOTP path, of `verify_2fa_page`. */
  method TryEmailThenTotp(req: Request, env: Env, profile: Profile, codes: BackupCodeTable, emails: EmailCodeTable,
                          log: AuditLog, session: Session, code: string)
    returns (out: Outcome)
    modifies profile, emails, log, session
    ensures EmailThenTotp(req, env, profile, codes, emails, log, session, code, out)
  {
    if SixDigits(code) {
      ghost var look := Get(emails.rows, UnusedEmailCode(req.user, code));
      var done;
      out, done := EmailStage(req, env, profile, emails, log, session, code);
      if done {
        return;
      }
      assert look.NotFound? || (look.Found? && !IsValid(old(emails.rows)[look.index], env.now));
      assert log.entries == old(log.entries) + (if look.Found? then [Entry(req, env, false, Email)] else []);
      assert unchanged(profile, emails, session);
    }
    out := TryTotpCode(req, env, profile, log, session, code, false);
  }

  /**
   * `verify_2fa_page`: without an enabled profile, go to setup. A
   * `send_email` request issues an email code when the user has an address.
   * A posted non-empty code with a dash takes the backup path; any other is
   * tried as an email code and then as TOTP (`EmailThenTotp`). A six-digit
   * code never has a dash (`SixDigitsNoDash`), so this is the order of the
   * view, which tries the email code first.
   */
  method VerifyTwoFactorPage(req: Request, env: Env, profile: Profile?, codes: BackupCodeTable, emails: EmailCodeTable,
                             log: AuditLog, session: Session)
    returns (out: Outcome)
    requires req.authenticated  // `login_required` runs the view only for a logged-in user
    requires profile != null ==> profile.user == req.user
    requires codes.Valid()
    modifies profile, codes, emails, log, session
    ensures codes.Valid()
    ensures !old(EnabledProfile(profile)) || !req.isPost ==>
      && out == (if old(EnabledProfile(profile)) then VerifyPage else Redirect("twofa_setup"))
      && (profile != null ==> unchanged(profile))
      && codes.rows == old(codes.rows) && unchanged(emails, log, session)
    ensures old(EnabledProfile(profile)) && req.isPost && "send_email" in req.post ==>
      && out == Redirect("twofa_verify_page")
      && emails.rows == old(emails.rows) +
           (if req.email == "" then [] else [EmailCode(req.user, env.emailCode, env.emailToken, false, env.emailExpiry, ClientIp(req.meta))])
      && unchanged(profile, log, session) && codes.rows == old(codes.rows)
    ensures old(EnabledProfile(profile)) && req.isPost && "send_email" !in req.post && Code(req) == "" ==>
      out == Redirect("twofa_verify_page") && unchanged(profile, emails, log, session) && codes.rows == old(codes.rows)
    ensures old(EnabledProfile(profile)) && req.isPost && "send_email" !in req.post && Code(req) != "" ==>
      if '-' in Code(req) then
        && emails.rows == old(emails.rows)
        && BackupAttempt(req, env, profile, codes, log, session, Code(req), out,
             Redirect(NextOrDefault(old(session.next))), VerifyPage, None)
      else
        EmailThenTotp(req, env, profile, codes, emails, log, session, Code(req), out)
  {
    if profile == null || !profile.isEnabled {
      return Redirect("twofa_setup");
    }
    if !req.isPost {
      return VerifyPage;
    }
    if "send_email" in req.post {
      if req.email != "" {
        var _ := emails.Issue(req.user, env.emailCode, env.emailToken, env.emailExpiry, ClientIp(req.meta));
      }
      return Redirect("twofa_verify_page");
    }
    var code := Code(req);
    if code == "" {
      return Redirect("twofa_verify_page");
    }
    if '-' in code {
      out := TryBackupCode(req, env, profile, codes, log, session, code, false);
    } else {
      out := TryEmailThenTotp(req, env, profile, codes, emails, log, session, code);
    }
  }

  /** A profile that may be missing is, if present, left as it was. */
  twostate predicate Untouched(profile: Profile?)
    reads profile
  {
    profile != null ==> unchanged(profile)
  }

  // ---------------------------------------------------------------------------
  // email_verify
  // ---------------------------------------------------------------------------

  /**
   * `email_verify` (the magic link): the user's email code with this token,
   * if still valid, is used, the profile (when enabled) marked used, a
   * success `email` entry logged and the session verified, and `2fa_next` is
   * popped. A missing or invalid link changes nothing. The profile need not
   * be enabled for the session to be verified.
   */
  method EmailVerify(req: Request, env: Env, token: string, profile: Profile?, emails: EmailCodeTable, log: AuditLog, session: Session)
    returns (out: Outcome)
    requires req.authenticated  // `login_required` runs the view only for a logged-in user
    requires profile != null ==> profile.user == req.user
    modifies profile, emails, log, session
    ensures profile != null ==> profile.secretKey == old(profile.secretKey) && profile.isEnabled == old(profile.isEnabled)
    ensures match Get(old(emails.rows), EmailToken(req.user, token))
      case NotFound => out == Redirect("twofa_verify_page") && Untouched(profile) && unchanged(emails, log, session)
      case Multiple => out == ServerError && Untouched(profile) && unchanged(emails, log, session)
      case Found(i) =>
        if !IsValid(old(emails.rows)[i], env.now) then
          out == Redirect("twofa_verify_page") && Untouched(profile) && unchanged(emails, log, session)
        else
          && out == Redirect(NextOrDefault(old(session.next)))
          && emails.rows == old(emails.rows)[i := old(emails.rows)[i].(isUsed := true)]
          && (if old(EnabledProfile(profile)) then profile.lastUsed == Some(env.now) else Untouched(profile))
          && log.entries == old(log.entries) + [Entry(req, env, true, Email)]
          && session.verified && session.verifiedAt == Some(env.now) && session.next == None
          && session.backupCodes == old(session.backupCodes)
  {
    var look := Get(emails.rows, EmailToken(req.user, token));
    match look
    case NotFound =>
      return Redirect("twofa_verify_page");
    case Multiple =>
      return ServerError;
    case Found(i) =>
      if !IsValid(emails.rows[i], env.now) {
        return Redirect("twofa_verify_page");
      }
      emails.Use(i);
      if profile != null && profile.isEnabled {
        profile.MarkUsed(env.now);
      }
      var _ := log.LogAttempt(req.user, true, Email, ClientIp(req.meta), Agent(req), env.now);
      session.MarkVerified(env.now);
      var url := session.PopNext();
      out := Redirect(url);
  }
}
