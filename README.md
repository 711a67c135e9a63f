# Login & Register Forms Overhaul — invite codes, settings store and login rules in Dafny

This project models the three core classes of the WordPress plugin *Login & Register Forms
Overhaul*. It proves what each operation does to their state.

- **The invite-code registry** (`LRFO_Invite_Codes`, modules `InviteCodes` and `UsageLedger`):
  - a codes table of hashed invite codes, with usage limits, remaining uses, expiry and role;
  - an append-only usage ledger of validation and redemption attempts;
  - operations to create (singly or in bulk), validate, use, update, delete and list codes;
  - a per-IP rate limiter and per-type statistics, both derived from the ledger.
- **The settings store** (`LFO_Database`, module `SettingsStore`): a key/value table with unique
  keys and replace-on-save. It memoises the table-exists check and the full settings map.
  Saving invalidates the map. A defaults initialiser never overwrites an existing key, and
  uninstall drops the table only when `cleanup_on_uninstall` is '1'.
- **The login-page rules** (`LFO_Core`, module `LoginCustomization`):
  - whether customisations apply to a request (plugin flag, role exceptions, IP allowlist);
  - which client address is used;
  - the error text, login and logout redirects and logo link;
  - which form elements are hidden;
  - the once-per-object settings memo.

Module `Php` holds the parts of PHP the plugin relies on: `empty()` on strings and stored values,
`trim`, `strtoupper`, `explode(',', …)[0]`, `implode` and `array_filter`.

Each class is modelled in the same way:
- A pure function on the tables (`InviteCodes.Create`, `InviteCodes.Use`, …) is the
  specification, and lemmas state its properties.
- A `class` (`InviteCodes.Registry`, `SettingsStore.Database`, `LoginCustomization.Core`) holds
  the same state in fields. Its methods update the fields, with `modifies` clauses, and are
  proved to leave exactly the state the specification function computes.
- Source loops become `while` loops with invariants, proved equal to a recursive reference
  definition:
  - `bulk_generate_codes`;
  - the `$update_data` loop of `update_code`;
  - `get_usage_stats`;
  - the `get_all_settings` row loop;
  - `initialize_defaults`;
  - the role-exception loop of `should_apply_customizations`.

The environment enters as parameters:
- **Time.** The clock is one integer `now`. It stands for `time()`, `current_time('mysql')` and
  `gmdate()`, and the finding below shows where that matters.
- **Hashing and conversion.** SHA-256 is an uninterpreted function (`Registry.hash`) applied to the
  normalised text `strtoupper(trim(s))`. `absint` of an update value is also uninterpreted.
- **Randomness.** The random 8-character suffix of bulk generation is a function from the round
  number to a string.
- **Database outcomes.** Whether a `$wpdb` insert, update, replace or delete is refused is an
  `accepted` flag (or a per-round flag).
- **Side effects.** Scheduled deletions and exhausted-code e-mails are recorded in a ghost
  `events` list.

The model assumes that the codes table has a unique key on `code_string`, the stored hash. The
statements that create the codes and usage tables are not part of this model, so this is an
assumption, not something read from the code. Under it, a `create_code` whose hash is already stored
fails like a refused insert.

## Model

| member | source | states |
|---|---|---|
| Php.Trim | includes/class-invite-codes.php:353 | PHP `trim` with its default characters, as `rtrim(ltrim(s))`; its meaning is stated by `Php.TrimSpec` |
| Php.Upper | includes/class-invite-codes.php:353 | PHP `strtoupper`, ASCII letters only; its meaning is stated by `Php.UpperSpec` |
| Php.TrimLeftSpec | includes/class-invite-codes.php:353 | `ltrim` removes exactly the leading run of PHP's default trim characters: the result is a suffix, starts with a non-trim character or is empty, and everything dropped is whitespace |
| Php.TrimRightSpec | includes/class-invite-codes.php:353 | `rtrim` removes exactly the trailing run of trim characters: the result is a prefix, ends with a non-trim character or is empty, and everything dropped is whitespace |
| Php.TrimSpec | includes/class-core.php:65 | `trim` keeps a middle part of its input: the result is empty or starts and ends with a non-trim character, and the input is that result with only whitespace on either side |
| Php.TrimIgnoresPadding | includes/class-invite-codes.php:353 | surrounding whitespace of any length never changes `trim`'s result |
| Php.TrimIdempotent | includes/class-invite-codes.php:353 | trimming twice is trimming once |
| Php.UpperSpec | includes/class-invite-codes.php:353 | `strtoupper` keeps the length and maps each character on its own, ASCII a-z only |
| Php.UpperIdempotent | includes/class-invite-codes.php:353 | upper-casing twice is upper-casing once |
| Php.UpperTrim | includes/class-invite-codes.php:353 | upper-casing and trimming commute |
| Php.FirstEntry | includes/class-core.php:64-65 | `explode(',', h)[0]` is the prefix of `h` before its first comma: it contains no comma and is all of `h` when `h` has none |
| Php.Filter | includes/class-invite-codes.php:249-260 | the `WHERE` of a delete (and the selections of `REPLACE`, the code listing and the hidden toggles) is never longer than its input |
| Php.FilterSpec | includes/class-invite-codes.php:249-260 | the selection holds exactly the input's elements that satisfy the predicate |
| UsageLedger.IsRateLimited | includes/class-invite-codes.php:285-312 | `check_rate_limit` with stamps and bound read from one clock; characterised by `UsageLedger.RateLimitedIff` |
| UsageLedger.RateLimitedAsWritten | includes/class-invite-codes.php:285-312 | `check_rate_limit` as written, with site-local stamps against a UTC bound; see `UsageLedger.WestOfUtcNeverLimits` |
| UsageLedger.FailuresSince | includes/class-invite-codes.php:302-309 | the `COUNT(*)` of failed attempts from an address after a bound never exceeds the number of ledger rows |
| UsageLedger.FailuresSinceCountsRows | includes/class-invite-codes.php:302-309 | the counted total equals the number of row positions from that address, of type invalid, exhausted or expired, strictly after the bound |
| UsageLedger.FailuresSinceAppend | includes/class-invite-codes.php:269-283 | the count over an appended ledger is the sum of the counts of its parts |
| UsageLedger.SuccessNeverCounts | includes/class-invite-codes.php:304 | appending a success row never changes the failure count |
| UsageLedger.RateLimitedIff | includes/class-invite-codes.php:288-311 | `check_rate_limit` is true if and only if the address is not PHP-empty, the enabled setting is exactly '1', and the matching failures reach the attempts threshold |
| UsageLedger.StrikesLimit | includes/class-invite-codes.php:288-311 | once as many recent failures from an enabled, non-empty address as the threshold are in the ledger, that address is limited |
| UsageLedger.WindowExpires | includes/class-invite-codes.php:300-304 | when every attempt from an address is at or before `now - window*60`, the address is not limited (with a positive threshold) |
| UsageLedger.LimitPersists | includes/class-invite-codes.php:288-311 | appending more rows never lifts a rate limit that is in force at the same instant |
| UsageLedger.LocalStamps | includes/class-invite-codes.php:279 | the stored stamps are the UTC instants shifted by the site's offset, row for row |
| UsageLedger.WestOfUtcNeverLimits | includes/class-invite-codes.php:279-300 | as written, a site whose clock is behind UTC by at least the window never rate-limits anyone, whatever the ledger holds |
| UsageLedger.MixedClocksCounterexample | includes/class-invite-codes.php:279-300 | three invalid attempts from 9.9.9.9 just now, default settings, site at UTC-01:00: the single-clock limiter limits, the source as written does not |
| UsageLedger.CountKind | includes/class-invite-codes.php:367-376 | a per-type count never exceeds the number of ledger rows |
| UsageLedger.EveryTypeListed | includes/class-invite-codes.php:378-383 | the four type keys are all attempt types there are |
| UsageLedger.UsageStats | includes/class-invite-codes.php:356-391 | `get_usage_stats` returns exactly the four type keys, each with the number of rows of that type, counting only the given code's rows when an id is given |
| UsageLedger.StatsTotal | includes/class-invite-codes.php:356-391 | the four counts add up to the number of rows in scope |
| InviteCodes.Normalize | includes/class-invite-codes.php:352-354 | the text `hash_code` hashes, `strtoupper(trim(s))`; stated by `NormalizeIdempotent` and `NormalizeIgnoresCaseAndPadding` |
| InviteCodes.NormalizeIdempotent | includes/class-invite-codes.php:352-354 | normalising a normalised code changes nothing |
| InviteCodes.NormalizeIgnoresCaseAndPadding | includes/class-invite-codes.php:352-354 | strings equal up to letter case and surrounding whitespace normalise to the same text, so they hash to the same record |
| InviteCodes.FindByHash | includes/class-invite-codes.php:86-93 | the lookup by hash returns a stored active row with that hash, and returns nothing only when no row with that hash is active |
| InviteCodes.FindActive | includes/class-invite-codes.php:118-125 | the lookup by id returns a stored active row with that id, and returns nothing only when no row with that id is active |
| InviteCodes.FindByHashOf | includes/class-invite-codes.php:86-93 | with distinct hashes, an active row is exactly what the lookup by its hash returns |
| InviteCodes.FindActiveOf | includes/class-invite-codes.php:118-125 | with increasing ids, an active row is exactly what the lookup by its id returns |
| InviteCodes.UpdateRows | includes/class-invite-codes.php:135-145 | an `UPDATE ... WHERE id` rewrites exactly the rows with that id and keeps the rest |
| InviteCodes.Create | includes/class-invite-codes.php:26-52 | the specification of `create_code` on the tables; stated by `CreateSpec`, `CreateValid` and `CreateHashTaken` |
| InviteCodes.CreateValid | includes/class-invite-codes.php:26-52 | a create keeps the tables consistent: increasing ids below the counter, distinct hashes, ledger rows naming existing codes |
| InviteCodes.CreateSpec | includes/class-invite-codes.php:26-52 | `create_code` succeeds iff the hash is not yet stored and the insert is accepted. A failure changes nothing. Success returns a fresh id ≥ 1 and appends a row with uses remaining = limit, total uses 0, active 1, a zero expiry stored as null, and the hash of the normalised text. That row is then what the lookup by hash finds |
| InviteCodes.CreateHashTaken | includes/class-invite-codes.php:26-52 | after a create, a hash is stored iff it was stored before or it is the hash just inserted |
| InviteCodes.BulkRun | includes/class-invite-codes.php:54-71 | the first `i` rounds of `bulk_generate_codes` as a fold of `Create`; stated by `BulkSpec`, `BulkValid`, `BulkTexts` and `BulkAllSucceed` |
| InviteCodes.Records | includes/class-invite-codes.php:62-67 | each returned (id, text) pair stands for the row created from that text |
| InviteCodes.BulkSpec | includes/class-invite-codes.php:54-71 | a bulk run of `i` rounds returns at most `i` pairs, leaves the ledger alone, and appends exactly the rows of the returned pairs, in order |
| InviteCodes.BulkValid | includes/class-invite-codes.php:54-71 | a bulk run keeps the tables consistent |
| InviteCodes.BulkRounds | includes/class-invite-codes.php:56-70 | the rounds whose insert succeeded, in order |
| InviteCodes.BulkTexts | includes/class-invite-codes.php:59-67 | pair `k` of a bulk run carries the text `prefix-` followed by the upper-cased suffix of round `BulkRounds[k]`. Those rounds are below the round count and strictly increasing, so there is one pair per successful round, in order, and failed rounds are skipped |
| InviteCodes.BulkTextLength | includes/class-invite-codes.php:59 | with the 8-character random suffix, a generated text is the prefix plus 9 characters |
| InviteCodes.BulkLeavesFree | includes/class-invite-codes.php:56-70 | a hash that is neither stored nor the hash of an earlier round is still free after those rounds |
| InviteCodes.BulkAllSucceed | includes/class-invite-codes.php:56-70 | when every insert is accepted and the generated hashes are new and pairwise distinct, every round yields an entry |
| InviteCodes.Validate | includes/class-invite-codes.php:73-111 | checks run in the order empty input ("" and "0"), rate limit, then the lookup by hash. The first two log nothing, and every later failure logs exactly one row of its own type from the caller's address. Success returns a stored active row with the input's hash, uses left and not expired |
| InviteCodes.ValidateAfterLookup | includes/class-invite-codes.php:84-110 | past the first two checks: invalid iff no active row has the hash (logged with a null id); exhausted iff the row found has no uses left; expired iff it has uses but is expired (each logged with the row's id); accepted iff neither, returning that row and logging nothing |
| InviteCodes.ValidCodeAccepted | includes/class-invite-codes.php:84-110 | a stored active code with uses left and not expired is accepted, as that very row, with nothing logged |
| InviteCodes.ValidateUpToNormalization | includes/class-invite-codes.php:84 | two non-empty inputs that normalise to the same text get the same outcome and the same log row |
| InviteCodes.InactiveIsInvalid | includes/class-invite-codes.php:86-98 | an inactive code is reported as invalid, not exhausted, with a null code id in the log |
| InviteCodes.RateLimitedBeforeLookup | includes/class-invite-codes.php:80-82 | once an address has enough recent failures, every non-empty input is refused as rate-limited before any lookup, and nothing is logged |
| InviteCodes.Consumed | includes/class-invite-codes.php:132-141 | consuming a use decrements uses remaining by one, increments total uses by one, keeps their sum, sets active iff uses remain and leaves every other column alone |
| InviteCodes.NoticeAsWrittenUndercounts | includes/class-invite-codes.php:322-350 | the mailed notice reports the total read before the update, one use fewer than the row holds |
| InviteCodes.NoticeReportsAllUses | includes/class-invite-codes.php:322-350 | the corrected notice of a code whose counters add up to its limit reports the whole limit as used |
| InviteCodes.ExhaustionEvents | includes/class-invite-codes.php:156-159 | the side effects of a use; stated by `ExhaustionEventsSpec` |
| InviteCodes.ExhaustionEventsSpec | includes/class-invite-codes.php:156-159 | no event while uses remain. On the last use the first event schedules that code's deletion `DeletionDelay` later, and a second event, the notice, follows iff notifications are '1' |
| InviteCodes.Use | includes/class-invite-codes.php:113-164 | the specification of `use_code` on the tables; stated by `UseValid`, `UseOutcome` and `UseEffects` |
| InviteCodes.UseValid | includes/class-invite-codes.php:113-164 | `use_code` keeps the tables consistent, whether it succeeds or fails |
| InviteCodes.UseOutcome | includes/class-invite-codes.php:118-150 | `use_code` succeeds iff an active row with that id has uses left and the update is accepted. A failure changes nothing and fires nothing |
| InviteCodes.UseEffects | includes/class-invite-codes.php:132-161 | a success (1) rewrites that row to `Consumed` of it, consuming one use and keeping its id, hash, role, expiry, usage limit and creation time; (2) keeps uses remaining + total uses, and sets active iff uses remain; (3) leaves every other row and the id counter; (4) appends one success row with the user id; (5) fires exactly the exhaustion events of the updated row |
| InviteCodes.UseNoticeVersusSource | includes/class-invite-codes.php:156-159 | on the last use with notifications on, the notice the model sends equals what the source mails except for the total, which is one higher than the pre-update total the source reports |
| InviteCodes.UpdateRowsValid | includes/class-invite-codes.php:135-145 | rewriting rows without touching their id and hash keeps the tables consistent |
| InviteCodes.AppendValid | includes/class-invite-codes.php:269-283 | logging a row that names an existing code or none keeps the tables consistent |
| InviteCodes.LastUseOnlyOnce | includes/class-invite-codes.php:127-141 | a code with one use left can be used once: it is then inactive with none remaining, and a second use fails without any change |
| InviteCodes.ColumnNamesRoundTrip | includes/class-invite-codes.php:207 | the allowlisted column names and the columns correspond one to one |
| InviteCodes.Changes | includes/class-invite-codes.php:211-224 | the `$update_data` the loop over `$data` builds; stated by `ChangesSpec` and `ChangesEmptyIff` |
| InviteCodes.ChangesSpec | includes/class-invite-codes.php:207-224 | a column is in `$update_data` iff `$data` names it, and its value is the conversion of the last entry naming it (role as text, expiry `absint` or null when falsy, the rest `absint`) |
| InviteCodes.ChangesEmptyIff | includes/class-invite-codes.php:211-228 | `$update_data` is empty iff no entry of `$data` names an allowlisted column |
| InviteCodes.CollectChanges | includes/class-invite-codes.php:207-224 | the loop over `$data` builds exactly that map |
| InviteCodes.Apply | includes/class-invite-codes.php:230-236 | one row after `UPDATE ... SET $update_data` |
| InviteCodes.Update | includes/class-invite-codes.php:226-243 | the specification of `update_code` after the allowlist; stated by `UpdateSpec`, `UpdateWrites` and `UpdateNamedColumns` |
| InviteCodes.UpdateSpec | includes/class-invite-codes.php:204-244 | `update_code` returns true iff some allowlisted field is given and the store accepts. A failure changes nothing. Only the named id's rows change, and only in the five allowed columns: id, hash, total uses and creation time always survive. The ledger and the counter are untouched |
| InviteCodes.UpdateWrites | includes/class-invite-codes.php:226-243 | a successful update rewrites each row with that id to the row with the collected changes applied |
| InviteCodes.UpdateNamedColumns | includes/class-invite-codes.php:211-243 | an accepted update leaves `absint` of the last `uses_remaining` entry in that column, and null or `absint` of the last `expiry_date` entry (null when it is PHP-empty) |
| InviteCodes.Delete | includes/class-invite-codes.php:246-267 | the specification of `delete_code`; stated by `DeleteSpec`, `DeleteValid` and `DeleteIdempotent` |
| InviteCodes.DeleteSpec | includes/class-invite-codes.php:246-267 | after `delete_code` no code and no ledger row has that id. A code or ledger row is in the tables afterwards iff it was before and does not name the id |
| InviteCodes.DeleteValid | includes/class-invite-codes.php:246-267 | a delete keeps the tables consistent: the ledger rows it keeps name only codes it keeps |
| InviteCodes.DeleteMissingIsNoop | includes/class-invite-codes.php:246-267 | deleting an id that is not stored changes nothing |
| InviteCodes.DeleteIdempotent | includes/class-invite-codes.php:246-267 | deleting twice is deleting once |
| InviteCodes.ListCodes | includes/class-invite-codes.php:176-188 | the listing holds exactly the stored codes that are active, or all of them when inactive ones are included |
| InviteCodes.Registry.constructor | includes/class-invite-codes.php:19-24 | a new registry has empty tables and the id counter at 1 |
| InviteCodes.Registry.LogAttempt | includes/class-invite-codes.php:269-283 | `log_attempt` appends exactly one row, with null for a falsy code or user id |
| InviteCodes.Registry.CreateCode | includes/class-invite-codes.php:26-52 | the in-place insert leaves exactly the tables and result of `Create` on the hash of the normalised text |
| InviteCodes.Registry.BulkGenerateCodes | includes/class-invite-codes.php:54-71 | the loop of `min(count, 1000)` rounds leaves exactly the tables and entries of `BulkRun` |
| InviteCodes.Registry.ValidateCode | includes/class-invite-codes.php:73-111 | returns the outcome of `Validate` and appends exactly its log rows, nothing else changing |
| InviteCodes.Registry.UseCode | includes/class-invite-codes.php:113-164 | leaves exactly the tables, result and side effects of `Use` |
| InviteCodes.Registry.Redeem | includes/class-invite-codes.php:132-161 | the success branch replaces the row with its consumed form, appends one success row, keeps the counter, and fires exactly the exhaustion events |
| InviteCodes.Registry.StoreRow | includes/class-invite-codes.php:135-145 | the `UPDATE` rewrites exactly the rows with the code's id and keeps the tables consistent |
| InviteCodes.Registry.UpdateCode | includes/class-invite-codes.php:204-244 | leaves exactly the tables and result of `Update` on the changes the `$data` loop collects |
| InviteCodes.Registry.DeleteCode | includes/class-invite-codes.php:246-267 | leaves exactly the tables and result of `Delete` |
| InviteCodes.Registry.GetAllCodes | includes/class-invite-codes.php:166-189 | returns exactly the stored codes that are active, or all when asked |
| SettingsStore.Lookup | includes/class-database.php:111-119 | the `SELECT setting_value ... WHERE setting_key` of `get_setting`; stated by `LookupSpec` |
| SettingsStore.LookupSpec | includes/class-database.php:111-119 | a key is found iff some row has it, and the value found is that row's |
| SettingsStore.LookupUnique | includes/class-database.php:111-119 | with unique keys, a lookup returns a value iff the table holds that row |
| SettingsStore.Replace | includes/class-database.php:166-173 | `$wpdb->replace` on the key; stated by `ReplaceSpec` |
| SettingsStore.ReplaceUnique | includes/class-database.php:166-173 | a replace keeps keys unique |
| SettingsStore.ReplaceOther | includes/class-database.php:166-173 | a replace leaves every other key's value as it was |
| SettingsStore.ReplaceSpec | includes/class-database.php:166-173 | a replace keeps keys unique, makes the key hold the new value, and leaves every other key's value |
| SettingsStore.SaveTwice | includes/class-database.php:166-173 | saving a key twice is the same as saving the latest value once: exactly one entry remains |
| SettingsStore.LookupAppend | includes/class-database.php:146-152 | the value read after appending a row is the earlier value, else the new row's |
| SettingsStore.Visible | includes/class-database.php:145-152 | the map the row loop of `get_all_settings` builds; stated by `VisibleSpec` |
| SettingsStore.VisibleSpec | includes/class-database.php:145-152 | `get_all_settings` holds a key iff it is not PHP-empty and stored, with its stored value, so rows with an empty key are dropped |
| SettingsStore.SavedValueVisible | includes/class-database.php:145-179 | after saving a non-empty key, the full settings map holds the saved value |
| SettingsStore.BuildSettings | includes/class-database.php:145-152 | the row loop builds exactly that map |
| SettingsStore.DefaultsDistinct | includes/class-database.php:75-94 | the 18 defaults have distinct keys |
| SettingsStore.Seeded | includes/class-database.php:96-100 | the first `i` rounds of `initialize_defaults`; stated by `SeededSpec` |
| SettingsStore.SeededSpec | includes/class-database.php:96-100 | seeding keeps keys unique and never changes a stored value. A missing defaulted key afterwards holds its default when that save was accepted, and is still missing otherwise |
| SettingsStore.TableCheck | includes/class-database.php:23-46 | after the check the flag is set, and it equals the table's presence unless it had been set before |
| SettingsStore.TableCheckMemoised | includes/class-database.php:24-45 | a second check returns the first one's answer and creates nothing |
| SettingsStore.SettingsTable.constructor | includes/class-database.php:54-72 | a new, absent table is empty |
| SettingsStore.Database.constructor | includes/class-database.php:15-16 | a new store object has no cached settings and no table flag |
| SettingsStore.Database.CreateTables | includes/class-database.php:54-72 | `CREATE TABLE IF NOT EXISTS` leaves the table present when it was or can be created, and keeps its rows |
| SettingsStore.Database.EnsureTableExists | includes/class-database.php:23-46 | the flag and the table follow `TableCheck`, and the method returns the flag |
| SettingsStore.Database.GetSetting | includes/class-database.php:103-122 | returns the caller's default when the table is unavailable or the key is absent, otherwise the stored value |
| SettingsStore.Database.GetAllSettings | includes/class-database.php:124-156 | a cached map is returned as is, without touching the table. Otherwise the visible settings are returned and cached, or an empty map with nothing cached when the table or the query fails |
| SettingsStore.Database.SaveSetting | includes/class-database.php:158-180 | succeeds iff the table is available and the write is accepted. Success replaces the row and clears the cache. Failure leaves rows and cache as they were |
| SettingsStore.Database.SeedOne | includes/class-database.php:96-100 | one round of seeding saves the default only when the table is available, the key is missing and the save is accepted, and otherwise leaves the rows |
| SettingsStore.Database.SeedDefaults | includes/class-database.php:96-100 | the loop over the defaults leaves exactly the seeding of all of them when the table is available, and the old rows otherwise |
| SettingsStore.Database.InitializeDefaults | includes/class-database.php:74-101 | with the table available, the rows become the seeding of the 18 defaults over the old rows, otherwise they stay as they were |
| SettingsStore.Database.Activate | includes/class-database.php:48-52 | activation creates the table when possible and then seeds the defaults |
| SettingsStore.Database.Uninstall | includes/class-database.php:182-193 | the table is dropped iff `CleanupWanted` holds, and is otherwise left as it was |
| SettingsStore.CleanupWanted | includes/class-database.php:184-188 | the uninstall test on `cleanup_on_uninstall`; stated by `CleanupWantedSpec` |
| SettingsStore.CleanupWantedSpec | includes/class-database.php:184-188 | cleanup is wanted when the table is unavailable or the key is missing (default '1'), and otherwise iff the stored value is exactly '1' |
| LoginCustomization.UserIp | includes/class-core.php:61-73 | `get_user_ip`; stated by `UserIpForwarded` and `UserIpDirect` |
| LoginCustomization.UserIpForwarded | includes/class-core.php:62-66 | with X-Forwarded-For set, the address is its first comma-separated entry without surrounding whitespace (no comma, no leading or trailing whitespace), whatever REMOTE_ADDR holds |
| LoginCustomization.UserIpDirect | includes/class-core.php:68-72 | without X-Forwarded-For the address is REMOTE_ADDR, or '' when that is unset too |
| LoginCustomization.Applies | includes/class-core.php:33-59 | the decision of `should_apply_customizations`; stated by `AnonymousIgnoresExceptions`, `DisabledNeverApplies`, `RoleExceptionExempts` and `AllowlistExempts` |
| LoginCustomization.ShouldApplyCustomizations | includes/class-core.php:33-59 | the early-returning loop decides exactly `Applies`: plugin flag '1' (missing means '1'), no exempted role held by a logged-in user, address not in a non-empty allowlist |
| LoginCustomization.AnonymousIgnoresExceptions | includes/class-core.php:40-48 | for an anonymous visitor only the plugin flag and the allowlist decide |
| LoginCustomization.DisabledNeverApplies | includes/class-core.php:36-38 | a stored `enable_plugin` other than '1' turns every customisation off |
| LoginCustomization.RoleExceptionExempts | includes/class-core.php:40-48 | a logged-in user holding any exempted role gets the stock page |
| LoginCustomization.AllowlistExempts | includes/class-core.php:50-66 | an allowlisted address gets the stock page, even when it comes from a forged X-Forwarded-For |
| LoginCustomization.FilterLoginErrors | includes/class-core.php:150-159 | `filter_login_errors`; stated by `FilterLoginErrorsSpec` |
| LoginCustomization.FilterLoginErrorsSpec | includes/class-core.php:150-159 | hiding ('1') shows the same text for every error, by default `<strong>Invalid credentials.</strong>`. Otherwise, or when the key is missing, the errors pass through unchanged |
| LoginCustomization.LoginRedirect | includes/class-core.php:161-176 | `login_redirect`; stated by `LoginRedirectSpec` |
| LoginCustomization.LoginRedirectSpec | includes/class-core.php:161-176 | error users and non-subscribers keep `redirect_to`, as does everyone when no subscriber redirect is set. A subscriber goes to the configured non-empty URL |
| LoginCustomization.UrlOr | includes/class-core.php:182-186 | a non-empty configured URL is used as is, and an empty one falls back to the home URL, so a non-empty home URL always gives a usable target |
| LoginCustomization.LogoutRedirect | includes/class-core.php:178-187 | the logout target is never empty when the home URL is not, and is the home URL when nothing is configured |
| LoginCustomization.LogoUrl | includes/class-core.php:140-144 | the logo link is never empty when the home URL is not, and is the home URL when the key is missing |
| LoginCustomization.HiddenSelectors | includes/class-core.php:213-225 | the `$hide_elements` list; stated by `HiddenSelectorsSpec` and `HiddenSelectorsOrdered` |
| LoginCustomization.HideStyle | includes/class-core.php:227-232 | the printed style block; stated by `HideFormElements` |
| LoginCustomization.HiddenSelectorsSpec | includes/class-core.php:215-225 | each selector is hidden iff its flag is exactly '1', with at most the three selectors |
| LoginCustomization.HiddenSelectorsOrdered | includes/class-core.php:215-225 | the hidden toggles keep the fixed order language switcher, privacy link, back-to-site |
| LoginCustomization.HideFormElements | includes/class-core.php:211-233 | the step-by-step appends produce exactly `HiddenSelectors`. The style block is printed iff the list is non-empty, and encloses the comma-joined selectors |
| LoginCustomization.Core.constructor | includes/class-core.php:18-24 | the login hooks are registered iff the customisations apply to the request, using the settings the store returns: its cache when set, otherwise the visible rows after the table check succeeds and the query succeeds, and the empty map when either fails |
| LoginCustomization.Core.GetSettings | includes/class-core.php:26-31 | the settings are read from the store only while none are loaded: then they are the store's cache, or the visible rows when the table check and the query succeed, or the empty map. Afterwards the same map is returned and the store is not touched |

## Left out

- Concurrency: the `START TRANSACTION` / `FOR UPDATE` / `ROLLBACK` around `use_code` is modelled
  as one atomic step, and interleavings of concurrent requests are not modelled.
- SHA-256, `wp_generate_password`, `wp_mail` and `wp_schedule_single_event` are foreign calls.
  They appear as an uninterpreted hash, a suffix parameter and ghost event records. The subject,
  body text and blog name of the e-mail are not modelled. No handler for the scheduled
  `lrfo_delete_exhausted_code` event exists in the modelled files, so the deletion itself is not
  modelled.
- The `wp_cache_*` object cache of code listings (and its 3600 s TTL) is not modelled: listings
  are read from the table each time. The memoisation of `LFO_Database` and `LFO_Core` is modelled.
- `sanitize_text_field`, `wp_unslash`, `esc_html`, `esc_url`, `esc_url_raw` and
  `maybe_serialize`/`maybe_unserialize` are the identity on modelled values. `absint` of integer
  parameters is folded into `nat` parameters, and `absint` of update strings is uninterpreted.
- Time zones and date strings: one integer clock stands for every reading, and expiry is a
  timestamp. The site-local versus UTC mix of the rate limiter is modelled separately, as the
  finding below.
- `ORDER BY created_at DESC` of `get_all_codes`: the listing is stated as a set of rows, not in
  its order.
- A failed insert of a ledger row (`log_attempt` ignores the result) is not modelled: the row is
  always appended.
- The database's key comparison is exact, not the case-insensitive collation MySQL may use.
- `SHOW TABLES LIKE` is exact, not a wildcard pattern, and a table that exists once is not
  dropped from outside.
- Settings values are strings or lists of strings. A `null` or other stored type is not modelled.
  `in_array` on a non-array `ip_allowlist` raises an error in PHP 8, which the model treats as an
  empty list, as it does for a non-array `role_exceptions` under `foreach`.
- `get_code_by_id`, `schedule_code_deletion`'s hook wiring, `init_hooks`, `enqueue_login_assets`,
  `inject_custom_styles`/`scripts`, `custom_logo_title`, `handle_logout` and `filter_heartbeat` are
  not modelled: they emit page assets, perform redirects with `exit`, or edit a heartbeat response.
- The admin screens, the JavaScript assets, the plugin bootstrap files and `uninstall.php` are
  not part of this model.
- InviteCodes.Create: the id counter only advances on a successful insert, whereas MySQL's
  auto-increment may also skip values after a failed insert. Ids stay fresh and increasing either
  way.
- InviteCodes.UpdateSpec: `update_code` may write `uses_remaining` and `usage_limit` freely, so
  `uses_remaining + total_uses == usage_limit` is not an invariant of the tables. The model follows
  the code: conservation of that sum is proved per use (`UseEffects`), not kept by every operation.
- InviteCodes.ValidTables: the distinct-hash part of the invariant, and `CreateHashTaken`'s
  refusal of a stored hash, rest on the assumed unique key on `code_string`. No modelled file
  creates the codes table.
- InviteCodes.Delete: the source ignores the result of the second `$wpdb->delete`, on the usage
  table. The model always removes the ledger rows of a deleted code, so a refused ledger delete,
  which would leave rows naming a code that no longer exists, is not modelled.
- InviteCodes.Registry.UseCode: the exhausted-code notice it records carries the corrected total (`NoticeFor` of the
  updated row). The source mails the row read before the update (`NoticeAsWritten`), one use
  lower. `UseNoticeVersusSource` states the difference, and the Findings table records it.
- InviteCodes.Registry.BulkGenerateCodes: `count` is taken as a natural number, so `absint` of a
  negative or non-numeric count is not modelled.

## Findings

| source | as written | input that shows it | evidently intended | confidence | as-written member | corrected member |
|---|---|---|---|---|---|---|
| includes/class-invite-codes.php:279-300 | Ledger rows are stamped with `current_time('mysql')`, the site-local wall clock, but the window bound is computed with `gmdate`, in UTC | A site at UTC-01:00 with the default 3 attempts per 60 minutes: three invalid attempts from 9.9.9.9 just now are stored an hour "earlier" than the UTC bound, so none is counted and the address is never limited. A site ahead of UTC over-counts instead | Stamps and bound read from one clock, so the window is the last `window` minutes | not executed | UsageLedger.RateLimitedAsWritten, UsageLedger.MixedClocksCounterexample | UsageLedger.IsRateLimited, UsageLedger.RateLimitedIff |
| includes/class-invite-codes.php:156-159 | The exhausted-code e-mail reports `$code['total_uses']` from the row read before the update | A code with limit 1, used once: the e-mail says "Total Uses: 0" while the row now holds 1 | Report the total after the final use, which equals the usage limit | not executed | InviteCodes.NoticeAsWritten, InviteCodes.NoticeAsWrittenUndercounts | InviteCodes.NoticeFor, InviteCodes.NoticeReportsAllUses |
