/**
 * `twofa.models`: the persistent state of the second factor.
 *
 * One `TwoFactorAuth` profile per user (`Profile`), the single-use backup
 * codes (`BackupCodeTable`, whose `code` column is unique), the email codes
 * the views consume (`EmailCodeTable`) and the append-only audit log
 * (`AuditLog`). Each table is an object whose rows the methods replace in
 * place, as the ORM's `save`, `delete` and `bulk_create` do. The clock
 * (`timezone.now()`) and the random bytes are parameters.
 */
module TwoFactorModels {
  import opened Wrappers
  import Base32
  import TwoFactorUtils

  type byte = Base32.byte

  /** The primary key of a `User`. */
  type UserId = int

  /** A reading of `timezone.now()`. */
  type Time = int

  // ---------------------------------------------------------------------------
  // objects.get(...)
  // ---------------------------------------------------------------------------

  /** What `Model.objects.get(**filters)` does: one row, `DoesNotExist`, or `MultipleObjectsReturned`. */
  datatype Lookup = NotFound | Found(index: nat) | Multiple

  /** `get` over the rows satisfying `matches`. */
  function Get<T>(rows: seq<T>, matches: T -> bool): (r: Lookup)
    ensures r.Found? ==>
      r.index < |rows| && matches(rows[r.index]) && forall j :: 0 <= j < |rows| && j != r.index ==> !matches(rows[j])
    ensures r.NotFound? ==> forall j :: 0 <= j < |rows| ==> !matches(rows[j])
    ensures r.Multiple? ==> exists i, j :: 0 <= i < j < |rows| && matches(rows[i]) && matches(rows[j])
  {
    if rows == [] then NotFound
    else
      var rest := Get(rows[1..], matches);
      assert forall j :: 1 <= j < |rows| ==> rows[j] == rows[1..][j - 1];
      if !matches(rows[0]) then
        (match rest
         case Found(k) => Found(k + 1)
         case NotFound => NotFound
         case Multiple => Multiple)
      else if rest.NotFound? then Found(0)
      else Multiple
  }

  // ---------------------------------------------------------------------------
  // TwoFactorAuth
  // ---------------------------------------------------------------------------

  /** The `TwoFactorAuth` row of one user. */
  class Profile {
    const user: UserId
    var secretKey: string
    var isEnabled: bool
    const createdAt: Time
    var lastUsed: Option<Time>

    /** `get_secret_bytes`: the Base32 decoding of `secret_key`, or the character `decode` rejects. */
    function SecretBytes(): Result<seq<byte>, char>
      reads this
    {
      Base32.Decoding(secretKey)
    }

    /**
     * `create_for_user`: a disabled profile whose key is the Base32 text of
     * the fresh `secret` (`generate_secret_base32`), and which reads back as it.
     */
    constructor CreateForUser(user: UserId, secret: seq<byte>, now: Time)
      ensures this.user == user && createdAt == now
      ensures secretKey == TwoFactorUtils.SecretBase32(secret) && !isEnabled && lastUsed == None
      ensures SecretBytes() == Success(secret)
    {
      var key := Base32.Encode(secret);
      this.user := user;
      secretKey := key;
      isEnabled := false;
      createdAt := now;
      lastUsed := None;
      Base32.RoundTrip(secret);
    }

    /** `get_secret_bytes`, through the decoding loop. */
    method GetSecretBytes() returns (r: Result<seq<byte>, char>)
      ensures r == SecretBytes()
    {
      r := Base32.Decode(secretKey);
    }

    /** `regenerate_secret`: a new key, which reads back as the new secret; `is_enabled` is kept. */
    method RegenerateSecret(secret: seq<byte>)
      modifies this
      ensures secretKey == TwoFactorUtils.SecretBase32(secret) && SecretBytes() == Success(secret)
      ensures isEnabled == old(isEnabled) && lastUsed == old(lastUsed)
    {
      secretKey := Base32.Encode(secret);
      Base32.RoundTrip(secret);
    }

    /** `enable`: only `is_enabled` changes. */
    method Enable()
      modifies this
      ensures isEnabled
      ensures secretKey == old(secretKey) && lastUsed == old(lastUsed)
    {
      isEnabled := true;
    }

    /** `disable`: only `is_enabled` changes. */
    method Disable()
      modifies this
      ensures !isEnabled
      ensures secretKey == old(secretKey) && lastUsed == old(lastUsed)
    {
      isEnabled := false;
    }

    /** `mark_used`: only `last_used` changes. */
    method MarkUsed(now: Time)
      modifies this
      ensures lastUsed == Some(now)
      ensures secretKey == old(secretKey) && isEnabled == old(isEnabled)
    {
      lastUsed := Some(now);
    }
  }

  /** `objects.get(user=..., is_enabled=True)` for the one profile a user may have. */
  predicate EnabledProfile(profile: Profile?)
    reads profile
  {
    profile != null && profile.isEnabled
  }

  // ---------------------------------------------------------------------------
  // BackupCode
  // ---------------------------------------------------------------------------

  /** A `BackupCode` row; `owner` is the user of its `twofa` profile. */
  datatype BackupRow = BackupRow(owner: UserId, code: string, isUsed: bool, usedAt: Option<Time>)

  /** No two rows share a code: the `unique=True` constraint on `code`. */
  predicate UniqueCodes(rows: seq<BackupRow>) {
    forall i, j :: 0 <= i < |rows| && 0 <= j < |rows| && rows[i].code == rows[j].code ==> i == j
  }

  /** `code` is the text of some row. */
  predicate HasCode(rows: seq<BackupRow>, code: string) {
    exists i :: 0 <= i < |rows| && rows[i].code == code
  }

  /** The rows left by `filter(twofa=owner).delete()`, in their order. */
  function Without(rows: seq<BackupRow>, owner: UserId): (r: seq<BackupRow>)
    ensures forall k :: 0 <= k < |r| ==> r[k].owner != owner && r[k] in rows
    ensures forall k :: 0 <= k < |rows| && rows[k].owner != owner ==> rows[k] in r
  {
    if rows == [] then []
    else
      var rest := Without(rows[1..], owner);
      assert forall k :: 1 <= k < |rows| ==> rows[k] in rows[1..];
      if rows[0].owner == owner then rest else [rows[0]] + rest
  }

  /** Deleting rows keeps the codes that remain unique. */
  lemma {:induction false} WithoutUnique(rows: seq<BackupRow>, owner: UserId)
    requires UniqueCodes(rows)
    ensures UniqueCodes(Without(rows, owner))
  {
    if rows != [] {
      var tail := rows[1..];
      TailUnique(rows);
      WithoutUnique(tail, owner);
      var rest := Without(tail, owner);
      if rows[0].owner != owner {
        forall i | 0 <= i < |rest|
          ensures rest[i].code != rows[0].code
        {
          var j :| 0 <= j < |tail| && tail[j] == rest[i];
          assert rows[j + 1] == rest[i];
        }
        ConsUnique(rows[0], rest);
      }
    }
  }

  lemma TailUnique(rows: seq<BackupRow>)
    requires rows != [] && UniqueCodes(rows)
    ensures UniqueCodes(rows[1..])
  {
    var tail := rows[1..];
    forall i, j | 0 <= i < |tail| && 0 <= j < |tail| && tail[i].code == tail[j].code
      ensures i == j
    {
      assert rows[i + 1].code == rows[j + 1].code;
    }
  }

  lemma ConsUnique(row: BackupRow, rest: seq<BackupRow>)
    requires UniqueCodes(rest)
    requires forall i :: 0 <= i < |rest| ==> rest[i].code != row.code
    ensures UniqueCodes([row] + rest)
  {
    var r := [row] + rest;
    forall i, j | 0 <= i < |r| && 0 <= j < |r| && i != j
      ensures r[i].code != r[j].code
    {
      if i > 0 && j > 0 {
        assert r[i] == rest[i - 1] && r[j] == rest[j - 1];
      } else if i > 0 {
        assert r[i] == rest[i - 1] && r[j] == row;
      } else {
        assert r[j] == rest[j - 1] && r[i] == row;
      }
    }
  }

  /** The unused rows `bulk_create` inserts for `codes`. */
  function NewRows(owner: UserId, codes: seq<string>): (r: seq<BackupRow>)
    ensures |r| == |codes|
    ensures forall k :: 0 <= k < |r| ==> r[k] == BackupRow(owner, codes[k], false, None)
  {
    if codes == [] then [] else [BackupRow(owner, codes[0], false, None)] + NewRows(owner, codes[1..])
  }

  /** No two of `codes` are equal. */
  predicate Distinct(codes: seq<string>) {
    forall i, j :: 0 <= i < |codes| && 0 <= j < |codes| && codes[i] == codes[j] ==> i == j
  }

  /** `bulk_create` of `codes` keeps the unique constraint: no duplicate in the batch or against the table. */
  predicate Insertable(rows: seq<BackupRow>, codes: seq<string>) {
    Distinct(codes) && forall k :: 0 <= k < |codes| ==> !HasCode(rows, codes[k])
  }

  /** Adding insertable rows keeps codes unique, and exactly such rows do. */
  lemma InsertUnique(rows: seq<BackupRow>, owner: UserId, codes: seq<string>)
    requires UniqueCodes(rows)
    ensures UniqueCodes(rows + NewRows(owner, codes)) <==> Insertable(rows, codes)
  {
    var added := NewRows(owner, codes);
    var all := rows + added;
    if Insertable(rows, codes) {
      forall i, j | 0 <= i < |all| && 0 <= j < |all| && i != j
        ensures all[i].code != all[j].code
      {
        if i >= |rows| && j < |rows| {
          assert all[i].code == codes[i - |rows|] && all[j] == rows[j];
        } else if j >= |rows| && i < |rows| {
          assert all[j].code == codes[j - |rows|] && all[i] == rows[i];
        } else if i >= |rows| && j >= |rows| {
          assert all[i].code == codes[i - |rows|] && all[j].code == codes[j - |rows|];
        } else {
          assert all[i] == rows[i] && all[j] == rows[j];
        }
      }
    }
    if UniqueCodes(all) {
      forall i, j | 0 <= i < |codes| && 0 <= j < |codes| && codes[i] == codes[j]
        ensures i == j
      {
        assert all[|rows| + i].code == all[|rows| + j].code;
      }
      forall k, i | 0 <= k < |codes| && 0 <= i < |rows|
        ensures rows[i].code != codes[k]
      {
        assert all[i] == rows[i] && all[|rows| + k].code == codes[k];
      }
    }
  }

  /** `BackupCode.objects.get(twofa=..., code=..., is_used=False)`. */
  function UnusedCode(owner: UserId, code: string): BackupRow -> bool {
    (row: BackupRow) => row.owner == owner && row.code == code && !row.isUsed
  }

  /** Under the unique constraint, looking up an unused code never finds two rows. */
  lemma UnusedCodeSingle(rows: seq<BackupRow>, owner: UserId, code: string)
    requires UniqueCodes(rows)
    ensures Get(rows, UnusedCode(owner, code)) != Multiple
    ensures Get(rows, UnusedCode(owner, code)).NotFound? <==>
      !exists k :: 0 <= k < |rows| && rows[k] == BackupRow(owner, code, false, rows[k].usedAt)
  {
    var r := Get(rows, UnusedCode(owner, code));
    if r.Found? {
      assert rows[r.index] == BackupRow(owner, code, false, rows[r.index].usedAt);
    }
  }

  /** The table of backup codes. */
  class BackupCodeTable {
    var rows: seq<BackupRow>

    ghost predicate Valid()
      reads this
    {
      UniqueCodes(rows)
    }

    constructor ()
      ensures rows == [] && Valid()
    {
      rows := [];
    }

    /** `BackupCode.use` on row `i`: it becomes used at `now`; no other row changes. */
    method Use(i: nat, now: Time)
      requires i < |rows|
      requires Valid()
      modifies this
      ensures rows == old(rows)[i := old(rows)[i].(isUsed := true, usedAt := Some(now))]
      ensures Valid()
    {
      rows := rows[i := rows[i].(isUsed := true, usedAt := Some(now))];
    }

    /** `BackupCode.objects.filter(twofa=...).delete()`. */
    method DeleteFor(owner: UserId)
      requires Valid()
      modifies this
      ensures rows == Without(old(rows), owner)
      ensures Valid()
    {
      WithoutUnique(rows, owner);
      rows := Without(rows, owner);
    }

    /**
     * `generate_for_user`: delete every code of the profile, draw `count`
     * codes and insert them unused; the drawn texts are returned. The delete
     * is not undone when the insert breaks the unique constraint.
     */
    method GenerateForUser(owner: UserId, count: int, draw: TwoFactorUtils.TokenBytes)
      returns (r: Result<seq<string>, string>)
      requires Valid()
      modifies this
      ensures Valid()
      ensures var kept, codes := Without(old(rows), owner), TwoFactorUtils.BackupCodes(count, 8, draw).value;
        if Insertable(kept, codes) then r == Success(codes) && rows == kept + NewRows(owner, codes)
        else r.Failure? && rows == kept
    {
      DeleteFor(owner);
      var generated := TwoFactorUtils.GenerateBackupCodes(count, 8, draw);
      TwoFactorUtils.BackupCodesShape(count, 8, draw);
      var codes := generated.value;
      InsertUnique(rows, owner, codes);
      if Insertable(rows, codes) {
        rows := rows + NewRows(owner, codes);
        r := Success(codes);
      } else {
        r := Failure("IntegrityError");
      }
    }
  }

  // ---------------------------------------------------------------------------
  // EmailVerificationCode
  // ---------------------------------------------------------------------------

  /** An `EmailVerificationCode` row, with the fields the views read. */
  datatype EmailCode = EmailCode(user: UserId, code: string, token: string, isUsed: bool, expiresAt: Time, ip: Option<string>)

  /** `is_valid()`: unused and not yet expired. */
  predicate IsValid(e: EmailCode, now: Time) {
    !e.isUsed && now < e.expiresAt
  }

  /** `objects.get(user=..., code=..., is_used=False)`. */
  function UnusedEmailCode(user: UserId, code: string): EmailCode -> bool {
    (e: EmailCode) => e.user == user && e.code == code && !e.isUsed
  }

  /** `objects.get(token=..., user=...)`. */
  function EmailToken(user: UserId, token: string): EmailCode -> bool {
    (e: EmailCode) => e.user == user && e.token == token
  }

  /** The table of email codes. */
  class EmailCodeTable {
    var rows: seq<EmailCode>

    constructor ()
      ensures rows == []
    {
      rows := [];
    }

    /** `use()` on row `i`: it becomes used; no other row changes. */
    method Use(i: nat)
      requires i < |rows|
      modifies this
      ensures rows == old(rows)[i := old(rows)[i].(isUsed := true)]
    {
      rows := rows[i := rows[i].(isUsed := true)];
    }

    /** `generate_for_user`: a new unused code for `user`, requested from `ip`. */
    method Issue(user: UserId, code: string, token: string, expiresAt: Time, ip: Option<string>) returns (e: EmailCode)
      modifies this
      ensures e == EmailCode(user, code, token, false, expiresAt, ip)
      ensures rows == old(rows) + [e]
    {
      e := EmailCode(user, code, token, false, expiresAt, ip);
      rows := rows + [e];
    }
  }

  /** A used code is never valid again. */
  lemma UsedNeverValid(e: EmailCode, now: Time)
    ensures !IsValid(e.(isUsed := true), now)
    ensures IsValid(e, now) <==> !e.isUsed && now < e.expiresAt
  {
  }

  // ---------------------------------------------------------------------------
  // TwoFactorLog
  // ---------------------------------------------------------------------------

  /** The `method` column: `'totp'`, `'backup'`, or `'email'` (which the views write). */
  datatype Method = Totp | Backup | Email

  /** A `TwoFactorLog` row. */
  datatype LogEntry = LogEntry(user: UserId, success: bool, kind: Method, ip: Option<string>, agent: string, at: Time)

  /** The audit log: rows are only ever appended. */
  class AuditLog {
    var entries: seq<LogEntry>

    constructor ()
      ensures entries == []
    {
      entries := [];
    }

    /** `log_attempt`: exactly one entry is appended, carrying the arguments. */
    method LogAttempt(user: UserId, success: bool, kind: Method, ip: Option<string>, agent: string, now: Time)
      returns (entry: LogEntry)
      modifies this
      ensures entry == LogEntry(user, success, kind, ip, agent, now)
      ensures entries == old(entries) + [entry]
    {
      entry := LogEntry(user, success, kind, ip, agent, now);
      entries := entries + [entry];
    }
  }
}
