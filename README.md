# Password policy, generator and breach lookup — a Dafny model

This project models the core of a small password-security tool:

- the **password policy** scores a password and explains each failure;
- the **generator** produces random passwords that meet the policy;
- the **breach lookup** asks the Pwned Passwords range API whether a
  password's SHA-1 digest appears in known breaches. It uses k-anonymity, so
  only a five-character prefix of the digest leaves the machine.

Layout:

- `wrappers.dfy` (`Wrappers`): `Option` and `Result`.
- `py_str.dfy` (`PyStr`): the Python string built-ins the core relies on, each
  with its own contract: `strip`, `upper`, `split(sep)`, `splitlines`, and
  `str(int)`.
- `password_utils.dfy` (`PasswordUtils`): the policy and the generator.
  - `CheckCharClasses` and the reason list are pure functions.
  - `EvaluatePassword` accumulates the score and the reasons rule by rule. It
    is proved equal to the declarative `Evaluation`, and the policy's promises
    are proved as lemmas about `Evaluation`.
  - `GeneratePassword` appends seed characters, fills the rest in a loop, and
    shuffles an array in place.
- `hibp.dfy` (`Hibp`): the range lookup.
  - The HTTP GET goes through a `Transport` object that records every request it sends.
  - The line scan is a loop with an early exit, proved against `AnyLineMatches`.

SHA-1 is the parameter `sha1`, whose results are 40 upper-case hex characters.
The breach callback is an optional function parameter that either answers or
"raises". The random choices are Dafny's `:|` picks, so every property proved
about the generator holds for every outcome of the randomness.

## Model

| member | source | states |
|---|---|---|
| PasswordUtils.HasClass | password_utils.py:23-26 | a regex search for a class succeeds iff some character of the password belongs to that class |
| PasswordUtils.CheckCharClassesIff | password_utils.py:28-37 | each flag is true iff the password has a character in A-Z, a-z, 0-9, or the special set, respectively |
| PasswordUtils.AlphanumericNotSpecial | password_utils.py:20 | no ASCII letter or digit is in the special set |
| PasswordUtils.Text | password_utils.py:58-107 | each reason renders to the message the source appends, and every message is non-empty and starts with its reason's initial letter (T, M, B, E or P) |
| PasswordUtils.TextInjective | password_utils.py:58-107 | distinct reasons have distinct message texts, so the `Reason` values carry exactly the messages' information |
| PasswordUtils.TextsInjective | password_utils.py:56-108 | two reason lists with the same message lists are equal, so the returned strings determine the reasons |
| PasswordUtils.ClassCount | password_utils.py:62-81 | the number of classes present is at most 4, and is 4 iff all four flags are set |
| PasswordUtils.BaseScore | password_utils.py:56-85 | the score before any breach deduction lies in [0, 100] |
| PasswordUtils.FinalScore | password_utils.py:90-103 | the final score lies between 0 and the base score; it equals the base score unless breached, and is at most 50 when breached |
| PasswordUtils.ApplyClassRule | password_utils.py:63-81 | one class rule adds 15 points when the class is present, and otherwise appends that class's reason and nothing else |
| PasswordUtils.ApplyBreachRule | password_utils.py:90-103 | the breach rule appends exactly the breach reasons and deducts max(0, score-50) only on a "found" answer |
| PasswordUtils.EvaluatePassword | password_utils.py:39-108 | the step-by-step evaluation returns exactly the declarative `Evaluation`: the failures in rule order, `ok` iff there are none, the sentinel reason otherwise, the final score and the digest |
| PasswordUtils.ScoreFormula | password_utils.py:56-103 | score = 30·[len ≥ min] + 15·(classes present) + 10·[len ≥ 16], less 50 floored at 0 when breached; it always lies in [0, 100] |
| PasswordUtils.TooShortIff | password_utils.py:56-60 | a "too short" reason appears iff the password is shorter than the minimum, and it names that minimum |
| PasswordUtils.TooShortInFailures | password_utils.py:56-81 | among the failures, a "too short" reason naming n appears iff n is the minimum and the password is shorter |
| PasswordUtils.MissingIff | password_utils.py:62-81 | a class's "missing" reason appears iff the password has no character of that class |
| PasswordUtils.MissingInFixedOrder | password_utils.py:62-81 | the "missing" reasons are one per absent class, in the order upper, lower, digit, special |
| PasswordUtils.OkIff | password_utils.py:105-108 | ok iff the length and all four classes are met and, when a breach check is asked, a callback answered "not found"; ok iff the sentinel appears; when ok the reasons are exactly the sentinel; the list is never empty |
| PasswordUtils.NoCheckerFails | password_utils.py:92-93 | a breach check without a callback fails the password, appends its reason, and keeps the base score |
| PasswordUtils.RaisingCheckerIsNotBreach | password_utils.py:95-100 | a raising callback appends its error text, counts as not breached (no breach reason, no deduction), and fails the password |
| PasswordUtils.BreachDeducts | password_utils.py:101-103 | a "found" answer appends the breach reason, sets the score to max(0, base-50), and fails the password |
| PasswordUtils.StrongPasswordPasses | password_utils.py:56-108 | without a breach check, a long-enough password with all four classes passes with exactly the sentinel, scoring 90, or 100 from 16 characters on |
| PasswordUtils.Choice | password_utils.py:130-141 | a secure choice returns a member of the given non-empty string |
| PasswordUtils.Shuffle | password_utils.py:144 | the in-place shuffle keeps the multiset of characters |
| PasswordUtils.GeneratePassword | password_utils.py:110-145 | the length is the requested one clamped into [16, 24]; every character is from the letters, the digits and (unless symbols are off) the special set; with each class required, the result has an upper, a lower, a digit and (unless symbols are off) a special character |
| PasswordUtils.PickSeeds | password_utils.py:128-137 | the seeds are an upper-case letter, a lower-case letter, a digit, and a special character (a lower-case letter when symbols are off), all from the generator's alphabet |
| PasswordUtils.FillFrom | password_utils.py:139-141 | filling keeps the existing characters in front, stops at the target length (or leaves a longer list alone), and adds only characters of the alphabet |
| PasswordUtils.NoSymbolsLacksSpecial | password_utils.py:122-137 | a password drawn from letters and digits only has no special character |
| PasswordUtils.NoSymbolsFailsPolicy | password_utils.py:122-137 | such a password always fails the policy, with the "missing special" reason |
| PasswordUtils.GeneratedPasswordPasses | password_utils.py:110-145 | a password of generator length with every class passes the policy with score 100 for any minimum up to 16 |
| PasswordUtils.MixedSampleHasAllClasses | tests/test_password_utils.py:4-10 | "Ab1!" has all four character classes |
| PasswordUtils.ShortSampleFails | tests/test_password_utils.py:12-15 | "aB3!" at the default minimum of 12 fails with exactly the "too short (minimum 12)" reason and scores 60 |
| PasswordUtils.StrongSamplePasses | tests/test_password_utils.py:17-20 | "StrongPassw0rd!" at a minimum of 8 passes with exactly the sentinel reason and scores 90 |
| PyStr.IntToString | password_utils.py:58 | `str(n)` is a '-' exactly for negatives, followed by digits whose decimal value is \|n\| and that start with '0' only for 0, so the rendering is the canonical one |
| PyStr.Strip | hibp.py:48 | the stripped string is no longer than the input and, when non-empty, neither starts nor ends with whitespace |
| PyStr.StripPadded | hibp.py:48 | strip removes exactly the surrounding whitespace |
| PyStr.Upper | hibp.py:49 | upper-casing keeps the length and maps each character through the ASCII upper-case mapping |
| PyStr.UpperEqualIff | hibp.py:49 | comparing after `upper()` is exactly comparison up to ASCII letter case |
| PyStr.Split | hibp.py:45 | split gives one more field than there are separators, and no field contains one |
| PyStr.JoinSplit | hibp.py:45 | joining the fields of a split gives back the line |
| PyStr.SplitJoin | hibp.py:45 | splitting separator-free fields joined by the separator gives the fields back |
| PyStr.SplitLines | hibp.py:41 | the lines hold no line break, and there are no more lines than characters |
| PyStr.SplitLinesTerminated | hibp.py:41 | lines each followed by its own "\n", "\r" or "\r\n" (mixed freely), then an optional last line without a line break, are read back unchanged, the last line only when it is non-empty; the one proviso is that a lone "\r" is not followed by an empty line ended by "\n" |
| PyStr.CrThenEmptyLineMerges | hibp.py:41 | that proviso is needed: "A" ended by "\r" and an empty line ended by "\n" read back as the single line "A" |
| Hibp.SplitDigest | hibp.py:31-32 | the prefix has 5 characters and the suffix 35, and together they are the digest |
| Hibp.RangeUrlIffSamePrefix | hibp.py:31-35 | two digests give the same request URL iff they share their 5-character prefix; with the request log of `CheckSha1InHibp`, nothing beyond the prefix is sent |
| Hibp.Transport.Get | hibp.py:35 | a GET returns the server's reply for that URL and those headers, and appends exactly that request to the transport's log |
| Hibp.LineMatches | hibp.py:43-49 | a line names the suffix iff it is non-empty, splits on ':' into exactly two fields, and its stripped first field equals the suffix after upper-casing both |
| Hibp.MatchingLineShape | hibp.py:43-49 | a matching line holds exactly one ':' and its stripped hash field has the suffix's length |
| Hibp.ScanRangeLines | hibp.py:41-52 | the scan answers true iff some non-blank line with exactly two colon-separated fields has a stripped first field equal to the suffix up to case |
| Hibp.CheckSha1InHibp | hibp.py:21-52 | a digest that is not 40 long raises ValueError and the transport's log is unchanged; otherwise the log gains exactly one GET, to the prefix's URL with the given or default headers, and the answer is read from the reply to that GET: a transport failure propagates, a status other than 200 raises RuntimeError with the code, and a 200 answers whether a line names the suffix |
| Hibp.LineMatchesIgnoringCase | hibp.py:48-49 | a line names the suffix iff its stripped hash field matches the suffix character by character, up to letter case |
| Hibp.EntryMatchesIff | hibp.py:45-51 | a `HASH:COUNT` line, with any whitespace around the hash, names the suffix iff the hash equals it up to case, whatever the count |
| Hibp.SkippedLineIrrelevant | hibp.py:43-47 | a blank line, or one without exactly one colon, never matches, and inserting one anywhere leaves the answer unchanged |
| Hibp.AnyLineMatchesAppend | hibp.py:42-52 | with one more line at the end, the scan's answer is true iff it was already true or the new line names the suffix |
| Hibp.ListedEntriesFound | hibp.py:41-52 | for a body listing entries one per line, each with its own line break (mixed freely, with the same proviso), and with or without a line break after the last one, the suffix is found iff one of the entries names it |

## Left out

- The CLI entry point (`main.py`) and the Slack notifier (`slack_integration.py`) are not part of this model. They are argument parsing, prompting, printing and HTTP POSTs, with no logic of their own.
- The SHA-1 computation and UTF-8 encoding are left out. SHA-1 is the parameter `sha1`, which returns some 40-character upper-case hex string.
- Choice: states only that the pick is a member of the string. Uniformity and cryptographic strength cannot be expressed as a contract.
- Shuffle: states only that the characters are a permutation of the input. Uniformity of the permutation is not modelled.
- CheckSha1InHibp: the `requests` transport is the `Transport` object, whose replies come from its `respond` function and whose ghost `log` records every GET. The timeout argument is not modelled. A transport exception is modelled as a `TransportFailure` reply that propagates as an error.
- Character classes are stated over ASCII. Python's `\d` also matches non-ASCII digits, and `str.upper`, `str.strip` and `str.isspace` also act on non-ASCII characters; the model does not.
- `str.splitlines` is modelled for "\n", "\r" and "\r\n" only. Python also splits on \v, \f, \x1c-\x1e, \x85 and the Unicode line and paragraph separators.
- The non-string branch of `evaluate_password` (password_utils.py:52-54) is left out, because Dafny's types rule out a non-string password.
- Python's default arguments are not modelled: every argument is passed explicitly. `DefaultMinLength` names the default minimum length.
- The reasons list is modelled as `Reason` values. `Text` renders each one to the message the source appends, and `TextInjective` shows that no information is lost.
- The raising callback's exception is modelled by its string form, which is what the reason embeds.
- The digest check in `check_sha1_in_hibp`: its message and documentation ask for a 40-character upper-case hex string, but the code checks only the length. The model follows the code, so a 40-character string of any characters is accepted.
