# Exam access rules, input validators and exam timer, in Dafny

This project models the three pieces of logic of a small exam-taking web application for a
technical institute:

- **Exam access** (`src/exam_manager.py`, module `ExamAccess`). A student types a DNI (national
  identity number). The student is looked up by DNI, then the student's first enrollment
  (`Inscriptos`), its program (`Tecnicatura`), and the first exam window (`Turnos`) for the
  enrollment's program and regularity. The verdict is: not enrolled; outside the inclusive
  window `[f_desde, f_hasta]`; coupon already used (an `Acceso` row exists for the
  enrollment); or eligible with the window's time allowance. When no exam window matches, the
  source reads `f_desde` of None and raises. The model makes this the outcome `NoExamWindow`.
  `start_exam` appends an `Acceso` row. `submit_exam` stamps a row with the submission time
  and the link, and hands a confirmation to the mail sink. The six tables are sequences of
  records (`Tables`). Lookups take the first matching row in table order. Timestamps are
  integers, and "now" is a parameter. The read-only operations are functions of the tables.
  The two writing operations are methods of the class `ExamManager`, which owns the tables and
  the `acceso.id` sequence.
- **Input validators** (`src/validators.py`, module `Validators`). `validate_dni` strips the
  input and runs three checks: non-empty, all digits, 7 to 8 characters. It returns the
  integer value, or the messages of the failed checks in order. `validate_github_link`
  returns the link when it matches `^https?://(?:www\.)?github\.com/[\w-]+/[\w-]+/?$` under
  `re.match`, and None otherwise. The pattern is modelled by a parser (`Parse`) and a
  renderer (`Render`) of the link's parts. Under `re.match`, `$` also matches just before a
  final newline, and the model keeps that case (`trailingNewline`).
- **Exam timer** (`static/js/exam_timer.js`, module `Timer`). `ExamTimer.start` makes one of
  four decisions over `localStorage`: no limit, resume, expired or limit changed, or first
  start. Each tick of the countdown interval decrements the count and redraws `MM:SS`. When
  the count reaches 0 it stops, clears the three stored keys and calls `onTimerEnd`.
  `localStorage` is a shared `LocalStorage` object holding a `map<string, int>`. `Date.now()`
  is a parameter. The interval callback is the method `Tick`.

Shared helpers: module `Query` holds `.first()` over a filtered table (`FirstIndex`,
`First`). Module `Decimal` holds decimal digit strings: `int(s)` is `Value` and
`toString()` is `NatToString`.

Behaviours of the code that the model keeps as they are:

- `start_exam` has no duplicate check: every call of the corrected `StartExam` appends a row, even for an enrollment that already has one.
- `submit_exam` overwrites `hora` and `link` on every call and checks no time limit.
- A missing exam window makes `check_exam_eligibility` raise.

## Model

| member | source | states |
|---|---|---|
| `Query.FirstIndex` | src/exam_manager.py:16-34 | `.first()`: the index found satisfies the filter and every earlier row fails it; None exactly when no row satisfies it |
| `Query.First` | src/exam_manager.py:16-34 | the row returned is in the table, satisfies the filter, and no earlier row does; None exactly when no row matches |
| `Query.FirstOfUnique` | src/models.py:10 | when only one row satisfies the filter (as with the unique `dni`), `.first()` returns that row |
| `ExamAccess.ValidateDni` | src/exam_manager.py:12-43 | the student found has the DNI; the enrollment found belongs to that student; the exam window is the first `Turnos` row whose `idtec` and `regular` equal the enrollment's, or None when no row matches; the program is a `Tecnicatura` with the enrollment's `idtectun`, or None; None whenever no student has the DNI |
| `ExamAccess.ValidateDniFindsStudent` | src/exam_manager.py:16-23 | with unique DNIs the student found is the one holding the DNI, and the lookup fails exactly when that student has no enrollment |
| `ExamAccess.ValidateDniIgnoresAccesses` | src/exam_manager.py:12-43 | the lookups are independent of the access table |
| `ExamAccess.CheckExamEligibility` | src/exam_manager.py:45-80 | the "No existe DNI inscripto..." message exactly when the lookup fails; `NoExamWindow` (the exception at line 57) exactly when no window matches; "Fuera del rango..." exactly when now is outside `[f_desde, f_hasta]`, whether or not an access row exists; inside the window, eligible exactly when no `Acceso` has the enrollment's id, else "Ya ha ocupado su cupón de EXAMEN"; an eligible result carries the lookup's data and the window's `tiempo` |
| `ExamAccess.AccessRowBlocksEligibility` | src/exam_manager.py:59-67 | any access row for the enrollment, submitted or not, makes the student ineligible |
| `ExamAccess.StartConsumesEligibility` | src/exam_manager.py:82-92 | after an eligible student's access row is appended, every later check says "already used" or "out of range", never eligible |
| `ExamAccess.GetExamInstructions` | src/exam_manager.py:121-128 | the `exalink` of the first exam with that id; None exactly when no exam has it |
| `ExamAccess.StartExamAsWrittenRaises` | src/exam_manager.py:86-89 | the keywords `idins`, `timestamp` are rejected by the `Acceso` constructor (no such column); `idins`, `acceso` are accepted |
| `ExamAccess.ExamManager.constructor` | src/exam_manager.py:8-10 | the manager starts on the given tables with an `acceso.id` sequence above every existing id |
| `ExamAccess.ExamManager.StartExam` | src/exam_manager.py:82-94 | appends exactly one row with a fresh id, the enrollment's id, start time now, `hora` and `link` unset; every existing row and every other table is unchanged; no check for an existing row |
| `ExamAccess.ExamManager.StartExamAsWritten` | src/exam_manager.py:82-94 | as written, the constructor raises, so the call ends in the error outcome (a 500 from the route) and no row is created: the method changes nothing |
| `ExamAccess.ExamManager.SubmitExam` | src/exam_manager.py:96-119 | on an existing id sets that row's `hora` to now and `link` to the link and changes nothing else, also on a repeat call; mails the enrollment's address with now and the link; an unknown id changes nothing and returns false; a missing enrollment is the exception raised after the commit |
| `Decimal.NatToString` | static/js/exam_timer.js:72 | the decimal spelling is a non-empty digit string; `ValueOfNatToString` reads it back as the number |
| `Decimal.ValueOfNatToString` | src/validators.py:22-25 | reading the spelling of `n` back with `int` gives `n` |
| `Decimal.Value` | src/validators.py:24 | `int` of an all-digit string, leading zeros allowed: `k` digits have a value below 10^k |
| `Decimal.ValueLeadingZero` | src/validators.py:22-25 | a leading zero does not change the value |
| `Decimal.NatToStringLength` | src/validators.py:17 | the spelling of `n` has `k` digits exactly when `n` is in [10^(k-1), 10^k) |
| `Decimal.NatToStringNoLeadingZero` | static/js/exam_timer.js:72 | the spelling of a number starts with `0` only when the number is 0 |
| `Validators.StripLeft` | src/validators.py:11 | the result is a suffix of the input; the result is empty or starts with a non-space |
| `Validators.StripLeftRemovesSpaces` | src/validators.py:11 | everything `strip` removes at the front is whitespace |
| `Validators.StripRight` | src/validators.py:11 | the result is a prefix of the input; the result is empty or ends with a non-space |
| `Validators.StripRightRemovesSpaces` | src/validators.py:11 | everything `strip` removes at the back is whitespace |
| `Validators.Strip` | src/validators.py:11 | `strip()`: no longer than the input, and neither starts nor ends with whitespace; with the two lemmas above, exactly the surrounding whitespace is removed |
| `Validators.StripIgnoresPadding` | src/validators.py:11 | surrounding whitespace does not change what `strip` returns |
| `Validators.ValidateDni` | src/validators.py:6-37 | valid exactly when the stripped input is non-empty, all digits and 7 to 8 long; then the result is the integer value of the stripped digits, below 10^8 |
| `Validators.ErrorMessages` | src/validators.py:28-36 | one message per failed check, so as many messages as failed checks, each one of the three texts; `ValidateDniErrors` fixes which and in what order |
| `Validators.ValidateDniErrors` | src/validators.py:28-37 | on failure the errors are exactly the messages of the failed checks, each once, required before numeric before length |
| `Validators.ValidateDniBlank` | src/validators.py:14-31 | an empty or all-whitespace input yields all three messages |
| `Validators.ValidateDniIgnoresPadding` | src/validators.py:11 | leading and trailing whitespace never changes the verdict or the value |
| `Validators.ValidateDniOfNumber` | src/validators.py:14-25 | every 7- or 8-digit number, written out, validates to itself |
| `Validators.ValidateDniOfDigitString` | src/validators.py:11-25 | a string of 7 or 8 digits and nothing else is accepted with its decimal value |
| `Validators.SegmentRun` | src/validators.py:44 | the length of the longest `[\w-]` prefix |
| `Validators.ParsePathOf` | src/validators.py:44 | `owner/repo` followed by an optional `/` and an optional final newline parses to its parts |
| `Validators.ParsePathShape` | src/validators.py:44 | whatever path parses is two non-empty `[\w-]` segments, a `/` between them, and that tail |
| `Validators.Parse` | src/validators.py:44-46 | the match of the whole pattern: whatever it returns has two non-empty `[\w-]` segments; `ParseRender` and `RenderParse` show it accepts exactly the renderings of well-formed parts |
| `Validators.ParseRender` | src/validators.py:44 | every well-formed link parses back to its own parts |
| `Validators.RenderParse` | src/validators.py:44 | whatever parses is the rendering of well-formed parts |
| `Validators.ValidateGithubLink` | src/validators.py:40-49 | the result is None or the link itself, unchanged |
| `Validators.ValidateGithubLinkAccepts` | src/validators.py:44-47 | every rendering of a scheme, an optional `www.`, `github.com/`, two non-empty segments, an optional `/` and an optional final newline is accepted unchanged |
| `Validators.ValidateGithubLinkSound` | src/validators.py:44-47 | every accepted link is such a rendering: exactly two non-empty owner/repo segments of word characters or `-`, at most one trailing `/` |
| `Validators.ValidateGithubLinkIdempotent` | src/validators.py:46-47 | validating an accepted link again gives the same result |
| `Timer.JsRem` | static/js/exam_timer.js:70 | JavaScript `%`: for a non-negative dividend the remainder is in `[0, b)`; for a negative one it is in `(-b, 0]`; `JsRemTruncated` fixes its value |
| `Timer.JsRemTruncated` | static/js/exam_timer.js:70 | the dividend is the quotient truncated toward zero times the divisor, plus the remainder: `-1 % 60` is -1 |
| `Timer.IntToString` | static/js/exam_timer.js:72 | `toString()`: for a non-negative number, decimal digits whose value is the number, with no leading zero unless the number is 0; for a negative one, a minus sign followed by the digits of its magnitude, again with no leading zero |
| `Timer.PadStart` | static/js/exam_timer.js:72 | the result has the given width, or the input's length if longer |
| `Timer.PadStartShape` | static/js/exam_timer.js:72 | the input ends the result and every character before it is the fill |
| `Timer.PaddedNumber` | static/js/exam_timer.js:69-72 | a number padded to two places is at least two digits, exactly two below 100, and reads back as itself |
| `Timer.Display` | static/js/exam_timer.js:69-72 | no contract of its own: the `MM:SS` text `updateDisplay` writes; `DisplayRoundTrip`, `DisplayShape` and `DisplayBelowZero` state what it shows |
| `Timer.DisplayRoundTrip` | static/js/exam_timer.js:68-73 | for a non-negative count, the `MM:SS` text reads back as the count |
| `Timer.DisplayShape` | static/js/exam_timer.js:68-73 | for a non-negative count: minutes digits, a colon, exactly two seconds digits with value below 60, and `60 * minutes + seconds` is the count |
| `Timer.DisplayBelowZero` | static/js/exam_timer.js:47-48 | the count -1 is shown as `-1:-1` |
| `Timer.Decide` | static/js/exam_timer.js:10-43 | no limit exactly when `totalMinutes` is 0; first start exactly when one of the three keys is absent; expired exactly when the keys exist and the end has passed or the stored limit differs; on resume the seconds are `floor((end - now) / 1000)` |
| `Timer.BeginItems` | static/js/exam_timer.js:40-42 | a first start sets exactly the three timer keys: start to now, end to now plus the limit in milliseconds, limit to the limit in minutes; every other key keeps its value |
| `Timer.ReloadAfterBegin` | static/js/exam_timer.js:23-43 | after a first start at `t0`, a restart at `t1 >= t0` resumes with the whole seconds left until the stored end, never more than the limit; from the end on it is expired |
| `Timer.OtherLimitExpires` | static/js/exam_timer.js:28-35 | a timer whose limit differs from the stored one treats the exam as over |
| `Timer.ClearedStorageBegins` | static/js/exam_timer.js:37-43 | once the timer keys are cleared, the next start is a first start |
| `Timer.ClearKeepsOtherKeys` | static/js/exam_timer.js:62-66 | clearing removes the three timer keys and keeps every other key, such as `examInfo`, with its value |
| `Timer.LocalStorage.constructor` | static/js/exam_timer.js:12-14 | the storage the timer reads and writes, starting with the given items |
| `Timer.ExamTimer.constructor` | static/js/exam_timer.js:3-8 | records the limit; no interval scheduled, no callback stored |
| `Timer.ExamTimer.Start` | static/js/exam_timer.js:10-56 | follows `Decide`. No limit: calls `onTimerEnd` and changes nothing else. Expired: count 0, calls `onTimerEnd`, storage untouched. Resume: count from the stored end. First start: count `totalMinutes * 60`, stores start, end `now + totalMinutes * 60000` and limit. Resume and first start store the callback and schedule the interval |
| `Timer.ExamTimer.Tick` | static/js/exam_timer.js:46-55 | decrements the count by exactly 1 and redraws it; at 0 or below, stops, removes the three keys and calls `onTimerEnd`; otherwise storage and interval are untouched |
| `Timer.ExamTimer.Stop` | static/js/exam_timer.js:58-60 | the interval is no longer scheduled |
| `Timer.ExamTimer.ClearTimerStorage` | static/js/exam_timer.js:62-66 | the storage afterwards is the storage before minus exactly the three timer keys |
| `Timer.ExamTimer.UpdateDisplay` | static/js/exam_timer.js:68-73 | the display shows `Display` of the current count |

## Findings

| source | as written | input that shows it | evidently intended | confidence | as-written member | corrected member |
|---|---|---|---|---|---|---|
| src/exam_manager.py:86-89 | `Acceso(idins=..., timestamp=now)`: `Acceso` has no `timestamp` column (its start time column is `acceso`), and the declarative constructor raises TypeError for an unknown keyword, so no access row is ever created | any call of `start_exam` | store the start time in the `acceso` column | high; not executed | `ExamAccess.StartExamAsWrittenRaises` | `ExamAccess.ExamManager.StartExam` |

## Left out

- Database sessions, commits and `session.close()`: the tables are one in-memory value, and each operation is atomic.
- The ORM's `.first()` without `ORDER BY` returns an unspecified row. The model takes the first row in table order.
- Columns that SQLAlchemy allows to be NULL (all but the keys, and `hora`/`link` in the model) are assumed non-null. SQL's NULL comparison semantics are not modelled.
- The check-then-insert race between concurrent requests is not modelled. Operations run one at a time.
- Sending the mail (SendGrid) is not modelled. `submit_exam` returns the `Mail` value it hands over. The sender swallows every failure, so delivery never affects the outcome.
- The Flask routes in main.py are not part of this model. This includes their own DNI check `^\d+$`, which is not `InputValidator.validate_dni`, and the JSON shape of the `student_data` they pass to `start_exam`. `StartExam` takes the `StudentData` that the lookup returns.
- Python's `str.strip`, `str.isdigit` and the regular expression class `\w` are modelled on ASCII only. Non-ASCII whitespace, digits and letters are not modelled.
- `localStorage` holds strings. The model stores the integers the timer writes and reads them back as `parseInt` would. Values under other keys are opaque integers.
- `Timer.Decide`: `start` calls `Date.now()` separately for the start and the end key. The model uses one `now` for both.
- Numbers in the timer are unbounded integers. JavaScript numbers are doubles: the model agrees with JavaScript for integers below 2^53 in magnitude, and `IntToString` agrees with `toString()` only there (JavaScript switches to exponent notation from 10^21 on). Timestamps and counts stay far below that bound.
- `totalMinutes` is an integer. Other falsy values (`undefined`, `null`, `NaN`) are not modelled; 0 stands for them.
- `remainingSeconds` is `undefined` in JavaScript until `start` assigns it. The model starts it at 0.
- `setInterval`'s scheduling, the interval handle and calling `start` twice (which would leave two intervals running) are not modelled. The model keeps one flag saying whether the interval is scheduled, and `Tick` runs only while it is set.
- `console.error` and the page's DOM wiring (disabling inputs, `alert`, the `beforeunload` guard) are not modelled.
