# Two-factor authentication core of the news portal, in Dafny

This project models the core of a Django news portal that adds two-factor
authentication (2FA) to its logins. The model covers:

- **`crypto_core.py`**:
  - its own Base32 codec;
  - HOTP (RFC 4226): counter packing, dynamic truncation, zero-filled codes and verification over a look-ahead window;
  - TOTP (RFC 6238): floor-divided time steps and a symmetric verification window;
  - the `otpauth://` provisioning URI;
  - secret and backup-code generation.
- **`twofa/models.py`**:
  - the per-user 2FA profile (`TwoFactorAuth`);
  - the table of one-time backup codes, whose codes are unique;
  - the email verification codes;
  - the audit log.
- **`twofa/views.py`**: the views for setup, manage, verify (JSON), the verify page (email, backup and TOTP codes) and the email magic link. Each view is a method over the request, the database tables and the session.
- **`twofa/middleware.py` and `twofa/decorators.py`**: the gates that send a logged-in user with 2FA enabled to the verify page until the session is verified.
- **`news/models.py` and `news/search.py`**:
  - slug allocation and the meta description default on save;
  - the tag list;
  - full-text search, tag search and related articles.

Each operation is modelled in the form it has in the source:

- **Pure computations** are functions, with lemmas that state what they mean.
- **Loops** are methods with loop invariants. Each is proved equal to a specification function:
  - Base32 bit buffering;
  - the HOTP and TOTP verification windows;
  - the slug counter;
  - the backup-code generator.
- **Model objects the source mutates** are classes whose methods state their whole new state:
  - the 2FA profile, the session and the database tables.
- **Views** change several objects at once. Each view's `ensures` describes the effect of every branch of the view body, for the requests its decorators let through (see "Left out" for `login_required`):
  - which rows are written;
  - which log entries are appended;
  - what the session holds afterwards;
  - which response is returned.

Some things are passed in as parameters rather than modelled:

- HMAC-SHA1;
- `secrets.token_bytes`;
- the clock;
- `urllib.parse.quote`;
- `slugify`.

A Python exception that the source does not catch becomes a `Failure` value or a `ServerError` outcome. Any writes the source made before the exception are kept in the model.

Modules, one per file:

- `Wrappers`: Option / Result;
- `Text`: the Python string methods the source uses;
- `Base32`, `Hotp`, `Totp`, `TwoFactorUtils`: the modules modelling `crypto_core.py`;
- `TwoFactorModels`, `TwoFactorViews`, `TwoFactorGates`: the `twofa/` files;
- `NewsModels`, `NewsSearch`: the `news/` files.

## Model

| member | source | states |
|---|---|---|
| Text.JoinSplit | twofa/views.py:22 | Joining the pieces of `str.split(sep)` with `sep` gives back the original string. |
| Text.SplitJoin | twofa/views.py:22 | Splitting a join of separator-free pieces gives back exactly those pieces. |
| Text.StripIdempotent | news/models.py:62 | Stripping a stripped string changes nothing. |
| Text.StripEnds | news/models.py:62 | A stripped string neither starts nor ends with a stripped character. |
| Text.RStripRepeat | crypto_core.py:102 | `rstrip('=')` removes exactly the trailing padding from a string whose last character is not `=`. |
| Text.ZeroFill | crypto_core.py:172 | `zfill` yields max(len, width) characters; an input at least `width` long comes back unchanged. |
| Text.ZeroFillPads | crypto_core.py:172 | What `zfill` adds is only '0's, all in front of the unchanged input. |
| Text.LeadingZerosValue | crypto_core.py:172 | Leading zeros do not change the decimal value of a digit string. |
| Text.DecimalStringInjective | crypto_core.py:172 | `str(n)` is injective on naturals. |
| Base32.SymbolIndexInverse | crypto_core.py:105 | The reverse map is defined exactly on the 32 alphabet symbols and maps each back to its position. |
| Base32.SymbolIndexOfAlphabet | crypto_core.py:105 | Every alphabet position is recovered from its symbol. |
| Base32.PadLength | crypto_core.py:75-76 | The padding is fewer than 8 characters and brings the length to a multiple of 8. |
| Base32.PadLengthUnique | crypto_core.py:75-76 | No shorter padding reaches a multiple of 8. |
| Base32.FirstInvalid | crypto_core.py:111-113 | Reports a character exactly when one is outside the alphabet, and the one it reports is in the text and is invalid. |
| Base32.Encode | crypto_core.py:37-78 | The bit-buffer loop returns exactly the specification encoding: the 5-bit groups of the data bits, the zero-extended final group, then padding. |
| Base32.EncodeSymbols | crypto_core.py:54-72 | The loop over bytes with its inner 5-bit extraction yields the symbols of all data bits. |
| Base32.EmitSymbols | crypto_core.py:64-67 | The inner loop emits whole groups while at least 5 bits are buffered, without losing or reordering a bit. |
| Base32.Decode | crypto_core.py:81-124 | The loop returns exactly the specification decoding, including the error value for an invalid character. |
| Base32.DecodeSymbols | crypto_core.py:107-122 | Buffering 5 bits per symbol and emitting each whole byte yields the bytes of the symbol bits, or the first invalid character. |
| Base32.EncodingShape | crypto_core.py:51-76 | An encoding's length is a multiple of 8 and it holds `ceil(8n/5)` symbols followed by fewer than 8 `=`. The symbols are all from the alphabet, and the encoding is empty exactly for empty data. |
| Base32.NormalizeEncoding | crypto_core.py:102 | `rstrip('=').upper()` of an encoding is exactly its symbol part. |
| Base32.RoundTrip | crypto_core.py:403-411 | Decoding an encoding gives back the original bytes, for all byte strings. |
| Base32.DecodingFails | crypto_core.py:111-113 | Decoding raises exactly when the normalized text holds a non-alphabet character, and reports such a character. |
| Base32.DecodingLength | crypto_core.py:119-122 | A decoding yields `floor(5m/8)` bytes for `m` symbols. |
| Base32.HelloExample | crypto_core.py:47-49 | The documented example: the bytes of `Hello` encode to `JBSWY3DP`, and that decodes back to `Hello`. |
| Hotp.CounterBytes | crypto_core.py:160 | Packing with `>Q` succeeds exactly for `0 <= counter < 2^64` and gives 8 bytes. Otherwise it fails with the offending counter. |
| Hotp.CounterBytesInverse | crypto_core.py:160 | The 8 packed bytes read big-endian give back the counter. |
| Hotp.CounterBytesInjective | crypto_core.py:160 | Distinct counters pack to distinct bytes. |
| Hotp.ToBytesMod | crypto_core.py:160 | The `w`-byte big-endian packing keeps the value modulo `256^w`. |
| Hotp.DynamicTruncate | crypto_core.py:175-197 | The truncated value is below `2^31`. |
| Hotp.TruncateFormula | crypto_core.py:189-195 | The byte-level truncation equals RFC 4226's formula for the offset and the 31-bit masked word. |
| Hotp.FormatShape | crypto_core.py:169-172 | For `digits >= 1` the code has exactly `digits` decimal digits and its value is the truncated value mod `10^digits`. |
| Hotp.FormatNoDigits | crypto_core.py:169-172 | With `digits == 0`, `% 10**0` then `zfill(0)` yields `"0"`. |
| Hotp.GenerateShape | crypto_core.py:141-172 | Generation succeeds exactly for in-range counters and yields a `digits`-long decimal code of the truncated HMAC of the packed counter. |
| Hotp.ScanAccepts | crypto_core.py:213-216 | When every counter in the window packs, the scan's result is whether some counter in the window generates the code. |
| Hotp.ScanRaises | crypto_core.py:213-216 | The first counter that fails to pack, reached before any match, is the exception the scan raises. |
| Hotp.CodeAtDefined | crypto_core.py:213-214 | The code at offset `i` exists exactly when `counter + i` is in range. A negative counter raises with that counter. |
| Hotp.Verify | crypto_core.py:200-216 | The early-return loop over `range(window + 1)` returns exactly the scan of counters `counter .. counter + window`. |
| Hotp.VerifyForward | crypto_core.py:200-216 | With the window in range, verification accepts exactly when some counter in `counter .. counter + window` generates the code. |
| Hotp.Rfc4226Vectors | crypto_core.py:414-421 | Given the RFC 4226 HMAC values for counters 0..4, the generated 6-digit codes are 755224, 287082, 359152, 969429 and 338314. |
| Hotp.VectorRow | crypto_core.py:414-421 | Each RFC 4226 digest truncates and formats to its published code. |
| Totp.FloorDiv | crypto_core.py:260 | Python's floor division, for either sign of the divisor. |
| Totp.TimeStepInterval | crypto_core.py:260 | The time step is `k` exactly when the timestamp lies in `[k*period, (k+1)*period)`. |
| Totp.GenerateInStep | crypto_core.py:260-263 | Within one period every timestamp yields the HOTP code of that period's counter. |
| Totp.Verify | crypto_core.py:266-295 | The loop over `range(-window, window + 1)` returns exactly the specification verification. |
| Totp.VerifySymmetric | crypto_core.py:288-295 | With the window in range, verification accepts exactly when the code matches some step within `window` of the current one, before or after. |
| Totp.VerifyAcceptsCurrent | crypto_core.py:288-295 | A code generated now is accepted now, for any window `>= 0`. |
| Totp.VerifyNegativeWindow | crypto_core.py:291-295 | A negative window checks nothing and rejects. |
| Totp.VerifyBeforeEpoch | crypto_core.py:291-292 | When the window reaches a negative counter, verification raises. |
| Totp.SecretFieldDecodes | crypto_core.py:324 | The URI's secret field is the unpadded Base32 of the secret, from the alphabet only, and decodes back to the secret. |
| Totp.LabelFields | crypto_core.py:327 | The label is the quoted issuer and account joined by `:`, and holds no `?`. |
| Totp.ParamsFields | crypto_core.py:328 | The query string splits on `&` into exactly the secret, issuer, digits and period fields. |
| Totp.ProvisioningUriFields | crypto_core.py:298-330 | The URI starts with `otpauth://totp/`. After that, the label and the query separate at `?`. The label splits into issuer and account, and the query into the four fields. The secret field decodes back to the secret. |
| TwoFactorUtils.SecretBase32Shape | crypto_core.py:356-367 | A 20-byte secret encodes to 32 alphabet symbols with no padding, and the encoding decodes back. |
| TwoFactorUtils.Hex | crypto_core.py:384 | The hex text of `n` bytes has `2n` characters. |
| TwoFactorUtils.HexAt | crypto_core.py:384 | Each byte appears as its high and low nibble digits, in order. |
| TwoFactorUtils.UpperHexInverse | crypto_core.py:384 | The upper-cased hex text is all upper-case hex digits and parses back to the bytes. |
| TwoFactorUtils.FormatCodeParts | crypto_core.py:386 | `code[:4] + '-' + code[4:8]` places the dash after at most 4 characters. Removing the dash leaves the first 8 characters. |
| TwoFactorUtils.CodesFrom | crypto_core.py:381-387 | The i-th code is formatted from the i-th draw of random bytes. |
| TwoFactorUtils.GenerateBackupCodes | crypto_core.py:370-388 | The generation loop returns exactly the specification list of codes, or the error for a negative byte count. |
| TwoFactorUtils.BackupCodeDigits | crypto_core.py:383-386 | For any draw, the code is upper-case hex with one dash, and the hex parses back to the drawn bytes. |
| TwoFactorUtils.BackupCodeInverse | crypto_core.py:383-386 | A code from at least 4 bytes is 9 characters, `XXXX-XXXX`, and parses back to its 4 bytes. |
| TwoFactorUtils.BackupCodesShape | crypto_core.py:370-388 | Generation fails exactly when `count > 0` and the byte count is negative. Otherwise it yields `max(count, 0)` codes. With honest draws and the default length, every code is `XXXX-XXXX` and parses back to the drawn bytes. |
| TwoFactorModels.Get | twofa/views.py:202 | `objects.get` finds the one matching row, reports none, or reports that several match. |
| TwoFactorModels.Profile.CreateForUser | twofa/models.py:31-36 | A new profile belongs to the user and is disabled and unused. Its key is the Base32 of a fresh secret, and the key decodes back to that secret. |
| TwoFactorModels.Profile.GetSecretBytes | twofa/models.py:38-42 | Returns the decoding of the stored key. |
| TwoFactorModels.Profile.RegenerateSecret | twofa/models.py:44-49 | The key becomes the Base32 of the new secret and decodes back to it. Enabled state and last use are unchanged. |
| TwoFactorModels.Profile.Enable | twofa/models.py:51-56 | Sets enabled and changes nothing else. |
| TwoFactorModels.Profile.Disable | twofa/models.py:58-63 | Clears enabled and changes nothing else. |
| TwoFactorModels.Profile.MarkUsed | twofa/models.py:65-70 | Records the time of use and changes nothing else. |
| TwoFactorModels.Without | twofa/models.py:109 | Deleting a user's codes keeps exactly the other users' rows. |
| TwoFactorModels.WithoutUnique | twofa/models.py:109 | Deleting rows keeps the codes unique. |
| TwoFactorModels.NewRows | twofa/models.py:113 | One unused row per generated code, owned by the user. |
| TwoFactorModels.InsertUnique | twofa/models.py:113-114 | `bulk_create` keeps `code` unique exactly when the new codes are distinct and absent from the table. |
| TwoFactorModels.UnusedCodeSingle | twofa/models.py:78 | Because `code` is unique, looking up an unused code never finds several rows. It finds none exactly when no unused row of that user holds the code. |
| TwoFactorModels.BackupCodeTable.constructor | twofa/models.py:73-90 | An empty table satisfies the uniqueness invariant. |
| TwoFactorModels.BackupCodeTable.Use | twofa/models.py:95-101 | Marks exactly that row used, at the given time, and keeps codes unique. |
| TwoFactorModels.BackupCodeTable.DeleteFor | twofa/models.py:109 | The table becomes the rows of other users. |
| TwoFactorModels.BackupCodeTable.GenerateForUser | twofa/models.py:104-116 | The user's old codes are deleted and the new batch is inserted, returning the codes. If the batch would break uniqueness, the insert fails and only the delete is kept. |
| TwoFactorModels.EmailCodeTable.Use | twofa/views.py:308 | Marks exactly that email code used. |
| TwoFactorModels.EmailCodeTable.Issue | twofa/views.py:279-282 | Appends one unused code for the user with the given code, token, expiry and IP. |
| TwoFactorModels.UsedNeverValid | twofa/views.py:307 | A code is valid exactly when unused and not expired, so a used code is never valid. |
| TwoFactorModels.AuditLog.LogAttempt | twofa/models.py:147-157 | Appends exactly one entry holding the given user, outcome, method, IP and agent. |
| TwoFactorViews.Session.MarkVerified | twofa/views.py:215-216 | Sets `2fa_verified` and its time and keeps the other session keys. |
| TwoFactorViews.Session.PopNext | twofa/views.py:326 | Returns `2fa_next`, or `panel` when absent, and removes the key. |
| TwoFactorViews.ClientIpFirstHop | twofa/views.py:18-25 | The client IP is the first hop of a non-empty `X-Forwarded-For`, else `REMOTE_ADDR` when present. |
| TwoFactorViews.SixDigitsNoDash | twofa/views.py:299-342 | A six-digit email code has no dash, so it is never taken for a backup code. |
| TwoFactorViews.TotpCheckWindow | twofa/views.py:56-57 | Checking a stored key with `window=2` accepts exactly when the code matches a step within two of the current one. |
| TwoFactorViews.CheckTotp | twofa/views.py:230-231 | Decodes the stored key and runs the TOTP verification with window 2. |
| TwoFactorViews.UnusedCount | twofa/views.py:166 | The count is the number of table positions holding an unused code of the user. |
| TwoFactorViews.UnusedCountAppend | twofa/views.py:166 | Counting over a table and rows appended to it adds the two counts. |
| TwoFactorViews.RegeneratedCount | twofa/models.py:108-116 | After `generate_for_user` the user's unused-code count, shown by `manage_2fa`, is the size of the new batch. |
| TwoFactorViews.UseConsumes | twofa/views.py:202-203 | After a backup code is used, looking it up as unused finds nothing, so it cannot be used twice. |
| TwoFactorViews.RegeneratedOnly | twofa/views.py:158-163 | After regeneration, exactly the new batch's codes are usable by the user. |
| TwoFactorViews.RegeneratedGone | twofa/views.py:158-163 | A code outside the new batch is no longer found. |
| TwoFactorViews.Accept | twofa/views.py:233-246 | On success the profile is marked used, a success entry is logged and the session is marked verified. |
| TwoFactorViews.Refuse | twofa/views.py:250-256 | On failure exactly one failure entry is logged. |
| TwoFactorViews.UseBackupCode | twofa/views.py:200-227 | If the unused code is found, that row is consumed and the attempt is accepted. If not found, a failure is logged and nothing else changes. Several matches raise without changes. |
| TwoFactorViews.UseTotpCode | twofa/views.py:229-257 | A valid TOTP code is accepted and logged. An invalid one logs a failure. A decoding or range error changes nothing. |
| TwoFactorViews.TryBackupCode | twofa/views.py:341-374 | The backup branch, with its JSON or redirect responses. Success pops the next URL only on the page. |
| TwoFactorViews.TryTotpCode | twofa/views.py:375-408 | The TOTP branch, with its JSON or redirect responses. |
| TwoFactorViews.IssueBackupCodes | twofa/views.py:160-161 | A new batch replaces the user's codes and is stored in the session. A batch that breaks uniqueness fails after the delete. |
| TwoFactorViews.SetupOutcomeCreated | twofa/views.py:85-100 | The setup page shows the provisioning URI of the stored secret, for the e-mail or else the username, with issuer `News Portal`. |
| TwoFactorViews.GetOrCreate | twofa/views.py:35-38 | Returns the user's profile, or a fresh disabled one with a new secret. |
| TwoFactorViews.SetupCheck | twofa/views.py:55-83 | A valid code enables 2FA, issues backup codes and verifies the session. An invalid code logs a failure. An error raises. |
| TwoFactorViews.RenderSetup | twofa/views.py:85-100 | Renders the setup outcome for the current key. |
| TwoFactorViews.SetupTwoFactor | twofa/views.py:29-100 | Each branch of the setup view: regenerate, empty code, verify, or show the page. The final state and response are given for each. |
| TwoFactorViews.DisableCheck | twofa/views.py:144-152 | A valid code disables 2FA and deletes the user's backup codes. Otherwise nothing changes. |
| TwoFactorViews.ManageTwoFactor | twofa/views.py:128-177 | Each branch of the manage view: no profile, disable (valid, invalid or raising), regenerate backup codes, or the status page with the unused-code count. |
| TwoFactorViews.VerifyTwoFactor | twofa/views.py:180-257 | The JSON verify view. `require_http_methods(["POST"])` answers any other method with 405 and changes nothing. The unauthenticated, empty-code and not-enabled cases return JSON errors without changes. A code with a dash goes to the backup branch, any other to TOTP. |
| TwoFactorViews.EmailStage | twofa/views.py:298-339 | A valid email code is consumed and verifies the session, popping the next URL. An expired one logs a failure. No match falls through. |
| TwoFactorViews.TryEmailThenTotp | twofa/views.py:298-408 | A six-digit code is tried as an email code first. Only if none matches does it fall back to TOTP. |
| TwoFactorViews.VerifyTwoFactorPage | twofa/views.py:261-410 | Each branch of the verify page: not enabled, send email, empty code, email/TOTP or backup code, or the page itself. |
| TwoFactorViews.EmailVerify | twofa/views.py:414-456 | The magic link: an unknown or expired token changes nothing. A valid one consumes the code, marks the profile used if enabled, logs success, verifies the session and pops the next URL. |
| TwoFactorGates.AnyPrefixExists | twofa/middleware.py:38 | `any(startswith)` holds exactly when some listed prefix starts the path. |
| TwoFactorGates.ExemptListed | twofa/middleware.py:25-30 | Exempt are exactly the paths under `/2fa/`, `/logout/`, `/static/` and `/media/`. |
| TwoFactorGates.ExemptUnder | twofa/middleware.py:38 | Extending an exempt path keeps it exempt. |
| TwoFactorGates.MiddlewareGate | twofa/middleware.py:32-58 | The middleware either lets the request through or diverts to the verify page. |
| TwoFactorGates.MiddlewareDiverts | twofa/middleware.py:32-58 | It diverts exactly for an authenticated, non-exempt request whose user has 2FA enabled and whose session is unverified. |
| TwoFactorGates.Middleware.constructor | twofa/middleware.py:21-30 | The exempt list is the four prefixes. |
| TwoFactorGates.Middleware.Call | twofa/middleware.py:32-58 | Returns the gate's decision. A divert stores the full path as `2fa_next`, and a pass leaves the session alone. |
| TwoFactorGates.RequireGate | twofa/decorators.py:23-44 | The decorated view runs exactly when the user is authenticated, has 2FA enabled and is verified. |
| TwoFactorGates.RequireTwoFactor | twofa/decorators.py:23-44 | Returns the decorator's decision and stores `2fa_next` only when diverting to the verify page. |
| TwoFactorGates.GatesDiffer | twofa/decorators.py:38-41 | The decorator and the middleware disagree exactly when the user is not authenticated, has no enabled 2FA, or is unverified on an exempt path. |
| TwoFactorGates.SkipTwoFactor | twofa/decorators.py:62-65 | Sets the request's skip flag and runs the view. |
| NewsModels.CandidateInjective | news/models.py:44-49 | Distinct counters give distinct slug candidates. |
| NewsModels.FirstFreeUnique | news/models.py:44-50 | At most one candidate is the first free one. |
| NewsModels.FreeSlug | news/models.py:44-50 | The counter loop ends with the first candidate not taken: the base slug, or `base-1`, `base-2`, and so on. |
| NewsModels.News.Save | news/models.py:42-55 | An existing slug is kept, and an empty one becomes the first free candidate. An empty meta description with non-empty short text becomes its first 160 characters. All other fields are unchanged. |
| NewsModels.KeptExact | news/models.py:62 | The comprehension keeps exactly the non-empty transformed parts. |
| NewsModels.StripField | news/models.py:62 | A stripped comma-free part is stripped and comma-free. |
| NewsModels.TagsClean | news/models.py:60-62 | Every tag is non-empty, stripped and comma-free, and every non-blank comma-separated part appears. |
| NewsModels.TagsOfEmpty | news/models.py:62 | An empty tag field has no tags. |
| NewsSearch.Where | news/search.py:33 | A filter keeps exactly the matching rows, each with its multiplicity. |
| NewsSearch.Insert | news/search.py:38 | Inserting into a descending list keeps it descending and adds exactly one element. |
| NewsSearch.OrderBy | news/search.py:38 | Ordering gives a descending permutation of its input. |
| NewsSearch.Top | news/search.py:73 | The slice holds at most `limit` matching rows in descending order, none more often than in the table. |
| NewsSearch.TopDominates | news/search.py:73 | A matching row left out of a slice means the slice is full and every row in it ranks at least as high. |
| NewsSearch.Search | news/search.py:10-38 | An empty query finds nothing. Otherwise the result is exactly the (published) rows mentioning the query in one of five fields, by descending id. |
| NewsSearch.SearchByTag | news/search.py:41-50 | Exactly the (published) rows whose tag field contains the tag, by descending id. |
| NewsSearch.SearchByEmptyTag | news/search.py:45 | An empty tag matches every (published) row. |
| NewsSearch.AnyTagExists | news/search.py:67-71 | The OR of tag queries holds exactly when one of the tags occurs in the field. |
| NewsSearch.RelatedArticles | news/search.py:53-73 | A negative limit raises. Otherwise at most `limit` related rows, by descending views, none more often than in the table. |
| NewsSearch.RelatedTop | news/search.py:73 | A related row is left out only when the slice is full of rows with at least as many views. |
| NewsSearch.RelatedUntagged | news/search.py:58-66 | For an article without tags, related are exactly the other published rows of its category. |
| NewsSearch.RelatedTagged | news/search.py:64-71 | For a tagged article, a related row shares one of its tags. |

## Left out

- HMAC-SHA1 is a parameter `mac`, because its internals are outside the core. The RFC 4226 vectors are proved from the RFC's published HMAC values (Appendix D) taken as hypotheses.
- `secrets.token_bytes` / `token_hex` are parameters (`TokenBytes`), because randomness cannot be modelled. The same holds for `timezone.now()` and `time.time()` (a time value), `urllib.parse.quote` (a function parameter) and Django's `slugify`.
- Text.Upper and Text.Lower map ASCII letters only, so Unicode case mapping is not modelled. `str.isdigit()` is modelled as ASCII digits, and `str.strip()` uses Python's whitespace set.
- TwoFactorUtils.ParseHex accepts upper-case digits only. It exists only to state the inverse of the upper-cased hex in backup codes.
- TwoFactorViews.SetupTwoFactor, TwoFactorViews.ManageTwoFactor, TwoFactorViews.VerifyTwoFactorPage and TwoFactorViews.EmailVerify require an authenticated request. `login_required` (twofa/views.py:28, 127, 260, 413) redirects anonymous requests to the login URL of the project settings before the view runs. The settings are not part of this model, so that redirect is not modelled.
- The `backup_codes` view (twofa/views.py:104-124) only displays and clears the session list. It is not modelled.
- Rendering, `messages.*` and templates are left out. Each view's outcome is named by the template or redirect target, or by the JSON fields.
- The recent-log list of the manage page is left out. It is a read-only display.
- `EmailVerificationCode` and `send_verification_email` are not part of this model. Their source is not among the core files.
  - The email code row is modelled with the fields the views use.
  - Issuing a code takes its code, token and expiry from the environment.
  - The result of sending the mail only chooses the flash message, so it is ignored.
- TwoFactorModels.BackupCodeTable.GenerateForUser: `bulk_create` batching and transactions are not modelled. A duplicate code raises (`IntegrityError`) after the old codes were deleted, as in the source. There is no retry.
- The DB write of `super().save()` and fields of `News` that no core function reads are left out.
- Database order for equal sort keys is not modelled. Among equal keys the model keeps table order, which the source does not promise.
- The `_skip_2fa` flag is set by the decorator, but no core code reads it. The model records the flag only.
- `get_response` and the decorated view are opaque. The gates return `Pass` for "run the next handler".
- NewsModels.News.TagsList carries no contract of its own. NewsModels.TagsClean states what it returns.
- Audit entries for setup success and for a failed disable are not written, because the source writes none. The log method choices (twofa/models.py:128-131) do not list `email`, but the views log it anyway. The model has an `Email` method to match.
