# passwdqc strength checker, modelled in Dafny

This project models the decision engine of a PHP port of passwdqc, a password-strength checker. The engine has these parts. Each is a Dafny module in its own file, and `import`s tie them together.

- **Bytes** (`bytes.dfy`): PHP strings as byte sequences, plus the few string primitives the checker relies on: truthiness, `substr`, `strncmp`, `strrev`, `strchr`, and the ctype tests in the C locale. The failure-compatible `Outcome` models PHP's `ArithmeticError` for a shift by a negative amount.
- **Unifier** (`unify.dfy`): `unify`, which folds case and leetspeak, byte by byte.
- **Expected** (`expected.dfy`): `expected_different`, a 15-bit fixed-point estimate of how many different characters a random password of a given length has.
- **Params** (`params.dfy`): the `Params` object. It holds five tier lengths, the maximum length, the passphrase word count, the common-substring length (`match`) and the `similar` switch. Its setters validate their input before they change anything.
- **Simple** (`simple.dfy`): `is_simple`. It counts character classes, word starts and "new" characters, then runs the tier cascade from the class count down to one.
- **Based** (`based.dfy`): `is_based`, the multi-mode scan for a common substring.
  - In removal mode it cuts the matched bytes out and asks `is_simple`.
  - In the word and sequence modes it discounts them in `is_simple`'s length test.
- **Compat** (`compat.dfy`): the `$seq` table, `is_word_based`, `passwdqc_check`, and `reject` with the `$lastReason` it records.
  - The static state (`$lastReason` and the injected word list) is a class, `Compat.Compat`.
  - `passwdqc_check` is a method of that class. It follows the source gate by gate.

Each imperative operation is a method. It is proved equal to a specification function: `IsSimpleSpec`, `IsBasedSpec`, `WordBasedSpec`, `CheckSpec`, and so on. Each such function is a recursive, loop-by-loop reading of the same code. The lemmas then state what those functions mean.

Behaviour of the code as written, which the lemmas make precise:

- **`is_simple` answers true when a tier's thresholds are met.** Its different-character count searches the suffix that starts at the byte itself. So the count is 1 when the password ends in `0`, and 0 otherwise.
  - No tier's count threshold (10, 27, 36, 62 or 95 with the default lengths) can ever be met.
  - So on every policy whose tier lengths are at least 3, the default one included, `is_simple` is false for every non-empty password (`Simple.NeverSimpleWhenSafe`).
- **The 3-class tier uses `min[4]`**, as the 4-class tier does. `min[3]` is never read.
- **`is_simple` answers true only for the empty password**, under every policy: on a non-empty one it answers false or raises (`Simple.SimpleOnlyWhenEmpty`).
- **A tier length of 2 or less** makes `expected_different` shift by a negative amount when the cascade reaches that tier and its length test passes. This raises an error (`Simple.SmallMinimumRaises`). The lemma covers each tier as the cascade reaches it: the 4- and 3-class tiers against `min[4]`, the 2-class tier against `min[1]`, the passphrase tier against `min[2]` and the 1-class tier against `min[0]`.
- **The word and sequence modes of `is_based` never answer true** while `match` is not negative (`Based.IsBasedTrue`). So `is_word_based` never rejects (`Compat.WordBasedNeverRejects`).
- **In removal mode a true answer means the whole needle occurs in the haystack**, under every policy with `match` at least 0, whenever the original is as long as the needle, as it is in every call passwdqc_check makes (`Based.IsBasedTrue`). The reason is that `is_simple` is true only of the empty remainder.
  - Conversely, under every policy with `match` at least 1 and the original as long as the needle, when the whole needle, at least `match` bytes long, occurs, removal mode answers true or raises (`Based.RemovalContained`). So unless it raises, removal mode answers exactly whether the whole needle is at least `match` bytes long and occurs. With `match` 0 it answers false before any scan.
- **Removal mode on a shift-safe policy** (every tier length at least 3, the default included) is exact when `match` is at least 1 and the original is as long as the needle: `is_based` answers whether the whole needle is at least `match` bytes long and occurs in the haystack (`Based.RemovalSafe`). With `match` 0 it always answers false.
  - So passwdqc_check on such a policy, with `match` at least 0, is `Compat.SafeVerdict`: a pure length, sameness and containment decision (`Compat.CheckOnSafePolicy`).
- **With `max == 8`, a longer password is truncated before the sameness test.** Re-using such a password is therefore not refused as the same one. On a shift-safe policy, with `match` at least 0 and no user information, it is refused as similar when similarity is denied and `match` is 1 to 8. It is accepted when similarity is permitted, or when `match` is 0 or above 8 (`Compat.TruncatedReuse`).
- **`setMin` refuses its own defaults.** It demands non-decreasing lengths, while the defaults decrease from `PHP_INT_MAX` (`Params.DefaultMinRefused`).

## Model

| member | source | states |
|---|---|---|
| Bytes.IsAsciiFirstByte | src/Compat.php:601-608 | is_ascii is false for the empty string and otherwise depends on the first byte alone, which it accepts exactly when below 128 |
| Unifier.Unify | src/Compat.php:553-594 | the folded string has the input's length, and byte i is the case- and leetspeak-folded form of input byte i |
| Unifier.UnifyByteFixedPoint | src/Compat.php:558-592 | folding an already folded byte changes nothing |
| Unifier.UnifyIdempotent | src/Compat.php:553-594 | unify(unify(s)) == unify(s) |
| Unifier.UnifyReverse | src/Compat.php:484-485 | unifying a reversed string gives the reverse of the unified string, so the reversed needle of passwdqc_check is the unified reverse |
| Expected.ExpectedDifferent | src/Compat.php:105-114 | the loop computes floor(charset / 2^y) for y refined once per extra length unit, or raises when 15 - y is negative; a result lies between 0 and charset |
| Expected.RefineMonotone | src/Compat.php:108-111 | more refinement rounds never give a larger y, because x is below 2^15 |
| Expected.ExpectedDifferentOfTier | src/Compat.php:105-114 | for the charsets 10, 27, 36, 62 and 95 the estimate is the charset itself from length 2 on, and a negative-shift error at length 1 or below |
| Expected.ExpectedDifferentMonotone | src/Compat.php:105-114 | once the estimate is defined at a length it is defined at every greater length and does not decrease |
| Params.Params.constructor | src/Params.php:24-85 | a fresh object is valid and holds min = [PHP_INT_MAX, 24, 11, 8, 7], max 40, passphrase 3, match 4, similar "deny" |
| Params.Params.GetMin | src/Params.php:107-113 | succeeds exactly for offsets 0..4 with that tier's length; otherwise a RangeException |
| Params.Params.GetSimilarDeny | src/Params.php:134-137 | true exactly when similar is "deny", which on a valid object means it is not "permit" |
| Params.Params.SetMin | src/Params.php:147-175 | stores the normalised five lengths when every check passes, and otherwise throws that check's exception and leaves min unchanged; no other field changes |
| Params.NormalizeMinAccepts | src/Params.php:147-175 | setMin succeeds exactly on five flat, null-or-numeric, non-negative, non-decreasing entries, and stores their converted values |
| Params.NormalizeMinSorted | src/Params.php:164-171 | whatever setMin stores is non-negative and non-decreasing |
| Params.DefaultMinRefused | src/Params.php:24-30 | setMin given the default array throws a RangeException |
| Params.Params.SetMinValue | src/Params.php:185-195 | succeeds exactly for an offset in 0..4 and a non-negative value, then replaces that one length; a failure changes nothing |
| Params.Params.SetMax | src/Params.php:203-210 | succeeds exactly for a non-negative value and stores it; a failure changes nothing |
| Params.Params.SetPassphrase | src/Params.php:218-225 | succeeds exactly for a non-negative value and stores it; a failure changes nothing |
| Params.Params.SetMatch | src/Params.php:231-238 | succeeds exactly for a non-negative value and stores it; a failure changes nothing |
| Params.Params.SetSimilar | src/Params.php:245-256 | succeeds exactly for "permit" or "deny" and stores it; anything else throws and changes nothing |
| Simple.IsSimple | src/Compat.php:262-377 | the counting loop and the tier cascade compute IsSimpleSpec, including its raise; the empty password is simple |
| Simple.CountsSumToLength | src/Compat.php:281-293 | every byte increments exactly one of the five class counters |
| Simple.ClassesInRange | src/Compat.php:310-325 | a non-empty password has between one and four classes |
| Simple.StartsWordAt | src/Compat.php:295-304 | the first byte never starts a word; a later byte does when it is an ASCII letter after an ASCII non-letter, or a non-ASCII byte after ASCII white space |
| Simple.CharsIsFinalZero | src/Compat.php:306-308 | the different-character count is 1 when the password ends in "0" and 0 otherwise |
| Simple.IsSimpleExplicit | src/Compat.php:326-376 | for a non-empty password, on a shift-safe policy, the cascade is the OR of the tier tests from its class count down to one; the biases enter only the length comparisons |
| Simple.NeverSimpleWhenSafe | src/Compat.php:262-377 | on a shift-safe policy is_simple is true exactly for the empty password, whatever the biases |
| Simple.DefaultIsShiftSafe | src/Params.php:24-30 | the default tier lengths are all at least 3 |
| Simple.SimpleOnlyWhenEmpty | src/Compat.php:262-377 | under every policy and biases, is_simple is true exactly for the empty password; a non-empty one gives false or a raise |
| Simple.SmallMinimumRaises | src/Compat.php:326-375 | a non-empty password raises when the cascade reaches a tier whose length is 2 or less and whose length test passes: min[4] for 3 or 4 classes, min[1] for 2, the passphrase tier's min[2], min[0] for 1 |
| Based.MatchTestIsHit | src/Compat.php:159-169 | the `$p[0]` and strncmp test at offset k holds exactly when needle[i..i+j] occurs in the haystack at k |
| Based.ScanLetters | src/Compat.php:196-214 | reports `continue 3` exactly for a match of minimal length containing a non-letter (an offset past the end reads as ""), and otherwise a bias of -1 for all letters or 0 |
| Based.RemoveMatch | src/Compat.php:171-191 | cuts the j matched bytes out of the original, possibly counted from the end, and asks is_simple with a credit of match - 1 |
| Based.DiscountMatch | src/Compat.php:192-229 | discounts j - match + 1 bytes in is_simple's length test, or j - match when a word-mode span contains a non-letter; answers false when that is simple, and reports `continue 3` for a minimal word-mode span with a non-letter |
| Based.TryLength | src/Compat.php:151-230 | one length pass: no hit leaves the bias at 0; a hit runs the branch the mode selects |
| Based.IsBased | src/Compat.php:129-242 | the three nested loops compute IsBasedSpec; match 0 gives false and a negative match gives true |
| Based.IsBasedTrue | src/Compat.php:116-242 | true comes only from a negative match, or from removal mode with a common substring of at least match bytes whose removal leaves a simple original; with match >= 0 and an original as long as the needle, true means the whole needle occurs in the haystack, under every policy |
| Based.RemovalHitIsWhole | src/Compat.php:171-191 | with the original as long as the needle, a hit whose removal leaves a simple remainder cuts out the whole needle, which then occurs in the haystack |
| Based.RemovalHitsAtFullLength | src/Compat.php:151-191 | in removal mode, when the whole needle occurs, the length loop for the first position returns true unless a pass raises |
| Based.RemovalContained | src/Compat.php:171-191 | under every policy with match >= 1 and an original as long as the needle: if the whole needle, at least match bytes long, occurs, is_based answers true or raises; and whenever it does not raise it answers exactly that |
| Based.DiscountSafe | src/Compat.php:192-229 | on a shift-safe policy the word and sequence modes answer false and never raise |
| Based.ScratchLength | src/Compat.php:178-187 | cutting j bytes out of an original as long as the needle leaves length - j bytes |
| Based.RemovalSafe | src/Compat.php:171-191 | on a shift-safe policy with match >= 1 and an original as long as the needle, removal mode answers whether the whole needle is at least match bytes long and occurs in the haystack |
| Compat.Message | src/Compat.php:31-40 | each of the ten REASON_* constants, one per constructor of the Reason datatype, is a non-empty message |
| Compat.MessagesDistinct | src/Compat.php:31-40 | distinct reasons have distinct messages, so the text getLastReason returns identifies the gate |
| Compat.UnifiedSeq | src/Compat.php:52-73 | the twenty sequences; entry i is the unified form of the i-th literal, as is_word_based compares them |
| Compat.Compat.constructor | src/Compat.php:44-47 | the word list is the injected one and no reason is recorded yet |
| Compat.Compat.GetLastReason | src/Compat.php:90-93 | the message of the recorded reason; none while nothing was rejected |
| Compat.Compat.Reject | src/Compat.php:543-547 | records the reason and answers false |
| Compat.Compat.IsWordBased | src/Compat.php:386-425 | the word, sequence and year loops compute WordBasedSpec, and the recorded reason changes exactly when it rejects |
| Compat.Compat.BasedEitherWay | src/Compat.php:489-492 | the short-circuit OR of the forward and reversed removal-mode calls |
| Compat.Compat.CheckContent | src/Compat.php:469-534 | the gates after the length checks compute ContentSpec, and the recorded reason is that of the rejection |
| Compat.Compat.PasswdqcCheck | src/Compat.php:437-535 | answers true exactly when CheckSpec accepts; on a rejection the recorded reason is CheckSpec's; on a raise the recorded reason is unchanged |
| Compat.FirstBasedDiscount | src/Compat.php:401-421 | the word and sequence loops never find a true is_based while match is not negative, and find only false ones on a shift-safe policy |
| Compat.WordBasedNeverRejects | src/Compat.php:386-425 | is_word_based never rejects while match is not negative, and does not raise on a shift-safe policy |
| Compat.WordBasedNegativeMatch | src/Compat.php:399-408 | with a negative match, the first word, or else the first sequence, rejects |
| Compat.EitherWaySafe | src/Compat.php:484-496 | on a shift-safe policy the two similarity calls answer whether the unified password or its reverse occurs in the haystack |
| Compat.CheckOnSafePolicy | src/Compat.php:437-535 | on a shift-safe policy with match >= 0, passwdqc_check never raises and decides SafeVerdict: length, sameness, then containment in the old password and user fields |
| Compat.DefaultAcceptance | src/Compat.php:448-467 | under the defaults, with no old password and no user information, exactly the passwords of 7 to 40 bytes are accepted, whatever the word list |
| Compat.DefaultExamples | tests/PasswdqcTest.php:14-25 | the 40-byte example password is accepted and "123456" is refused as too short |
| Compat.SameRejected | src/Compat.php:469-471 | re-using a truthy old password that passes the length gates without truncation is refused as the same one |
| Compat.TruncatedReuse | src/Compat.php:456-471 | on a shift-safe policy with max 8 and match >= 0, and with no user information, re-using a password longer than 8 bytes is refused as similar when similarity is denied and match is 1 to 8, and accepted otherwise, never as the same one |
| Compat.MatchZeroDisablesSimilarity | src/Compat.php:139-141 | with match 0 no similarity, personal, dictionary or sequence rejection happens |

## Left out

- Params getters `getMatch`, `getMax`, `getPassphrase` and `getSimilar` are read as fields of the `Policy` snapshot that the checks take at their start. Nothing changes a `Params` object during a check.
- `getDefaultParams` and late static binding: a null `Params` is the constructor's defaults. Only `PasswdqcCheck` takes a nullable `Params`. The inner functions take a policy value.
- `Expected.ExpectedDifferent` requires 1 <= charset <= 32768, and every caller passes 10, 27, 36, 62 or 95. Outside that range PHP behaves in ways the model does not cover. A charset of 0 divides by zero. A negative charset such as -1 makes `15 / charset` negative, so the shift at line 107 raises. Above 32768, x is 1.0 or more in fixed point, so y grows with every round, and unbounded integers would part from PHP's 64-bit ones.
- 64-bit integer overflow to float is not modelled. Integers are unbounded. Only `PHP_INT_MAX` appears as a constant.
- `Params.Params.SetMin`: `is_numeric` and the `(int)` cast of a numeric string are not modelled. Each array element is given already classified as null, numeric with its cast value, non-numeric, or nested.
- The word list comes from the `WordList` trait, which is not part of this model. It is a constructor argument of `Compat.Compat`, and its contents are not modelled.
- `hash_equals`'s constant-time comparison is modelled as plain equality.
- `getLastReason` raises a TypeError before any rejection. Here `GetLastReason` returns None instead.
- The `F_*` flag constants and `PASSWDQC_VERSION` are unused by the core and are left out.
- `src/Passwdqc.php`, the object wrapper that forwards to `passwdqc_check`, is not part of this model.
- `src/UserInformation.php`: only its three fields are modelled, as the `UserInformation` datatype.
- Locale: the ctype functions and `strtolower` use the C locale (ASCII only).
- PHP warnings, such as reading past the end of a string, are not modelled as output. Only their values are ("" for the byte past the end).
- Static state is shared across calls in PHP. Here it is one `Compat.Compat` object that the caller passes around.
