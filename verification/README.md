# QR attendance: the decision and aggregation rules

A Dafny model of the rules inside a classroom attendance web application.
A teacher issues a QR code that is valid for one minute. Students scan it
to record their presence. Both roles then read aggregated history. The
pages call a hosted backend for everything else. The model lifts the few
rules out of those pages as pure functions over plain data:

- **Issuer** (`TeacherPortal.tsx`): builds the token `classId_timestamp`,
  stores a session that expires 60 000 ms later, and runs the one-second
  countdown that hides the code at zero.
- **Scan** (`StudentPortal.tsx`): looks the token up and refuses it once
  expired. Otherwise it inserts one attendance row and maps the backend's
  unique-violation code to "already marked".
- **Store**: the two backend tables and the two requests the student
  portal makes on them: select-one-by-token, and insert-attendance under
  the (student, session) unique constraint. The teacher's session insert
  is the `insertOk` flag of `Issuer.GenerateQR`. The session row it stores
  is related to a scan by `Scan.Persisted`.
- **Profile** (`StudentProfile.tsx`, `calculateStats`):
  - per-class present and total counts;
  - overall totals and rate;
  - the current day streak;
  - the zero-filled six-month trend;
  - the Good/Fair/Poor badge.
- **History** (`StudentHistory.tsx`): the filtered query, the filter reset
  and the CSV export.
- **Auth** (`Auth.tsx`): the order of the sign-up and sign-in checks, the
  request they send, and how service errors become messages.
- **Text**, **Calendar**, **Seqs**, **Wrappers**: the ECMAScript and
  calendar semantics these rules rely on:
  - `trim` and `includes`;
  - `join` and `split`;
  - decimal rendering;
  - `indexOf`-based de-duplication and sorting;
  - local days and months in a fixed-offset zone.

## Modelling choices

- Instants are integer milliseconds. The browser's zone is a fixed offset
  parameter. A local day is `(t + offset) / 86 400 000`, rounded down. A
  month is a (year, month) pair, computed with the proleptic Gregorian
  civil-from-days conversion. `CivilMonthOfDate` proves this conversion
  correct against the days-from-civil direction.
- JavaScript `Map`s keep insertion order. The model's maps are therefore
  sequences in order of first appearance.
- A percentage is the exact pair `Percent(num, den)`, standing for
  `100 * num / den`. The badge thresholds are compared by cross
  multiplication.
- A backend request becomes an input: the table contents plus a flag or
  an error value for a failed request.
- The email pattern of the validation schema is an abstract predicate.
  The locale renderings of dates and times are abstract functions.

Some edge cases:

- A scan at exactly `expiresAt` is accepted, because only a later instant
  is refused (`Scan.ExpiryInstantAccepted`).
- Exporting with no records shown is refused with "No records to export".
- The streak counts from today. If the latest marked day lies after today
  (a clock disagreement), the streak is 0. It is not the run that ends
  today.
- A failed session insert leaves the portal as it was. A code already on
  screen from an earlier issue stays shown.

The per-class `total` counts only the distinct sessions among the
student's own rows. It never exceeds `present`. So every percentage is at
least 100, and the badge is always "Good" (`Profile.ClassStatusAlwaysGood`).
When every row has its own session, every class shows exactly 100 percent
(`Profile.UniqueSessionsFullAttendance`).

The CSV export does no quoting. A line has three fields exactly when none
of its cells contains a comma (`History.LineFieldCount`).

## Model

| member | source | states |
|---|---|---|
| Profile.ClassStats | src/pages/StudentProfile.tsx:128-167 | one entry per distinct class name, in order of first appearance; `present` is the number of that class's rows, `total` the number of distinct session ids among them, the percentage their ratio, and 1 <= total <= present |
| Profile.Tally | src/pages/StudentProfile.tsx:143-156 | the class map has one entry per class name in first-appearance order, and each entry's present count equals that class's rows |
| Profile.GroupSessions | src/pages/StudentProfile.tsx:128-136 | sessionsByClass holds, for every class name in first-appearance order, exactly the set of session ids of its rows |
| Profile.ApplyTotals | src/pages/StudentProfile.tsx:158-165 | every class entry that has a session group takes that group's size as total and present/total as percentage; other entries and all present counts are untouched |
| Profile.CountRow | src/pages/StudentProfile.tsx:146-155 | one row raises its class entry's present count by one and leaves every other field and entry as it was; a class seen for the first time is appended as {total 0, present 1, percentage 0} |
| Profile.AddSession | src/pages/StudentProfile.tsx:130-135 | one row adds its class if new and adds its session id only to that class's set |
| Profile.SetTotal | src/pages/StudentProfile.tsx:160-164 | only the group's class entry changes: it gets the group's size and the matching percentage |
| Profile.OverallTotals | src/pages/StudentProfile.tsx:138-141 | totalSessions equals the sum of the per-class totals in the table; the present counts add up to the number of rows; totalSessions is at most the number of rows and positive when there are rows |
| Profile.TotalSessionsMatchesTable | src/pages/StudentProfile.tsx:138-141 | summing the session-group sizes gives the sum of the table's totals |
| Profile.TablePresentIsRows | src/pages/StudentProfile.tsx:143-156 | every row is counted in exactly one class |
| Profile.TallyCountsEveryRow | src/pages/StudentProfile.tsx:143-156 | the class-map pass counts every row once |
| Profile.SessionsAtMostRows | src/pages/StudentProfile.tsx:128-136 | a class has no more distinct sessions than rows |
| Profile.SessionsEqualRows | src/pages/StudentProfile.tsx:128-136 | with unique session ids, a class has exactly as many distinct sessions as rows |
| Profile.UniqueSessionsFullAttendance | src/pages/StudentProfile.tsx:158-165 | when no two rows share a session id, every class has total == present, i.e. 100 percent |
| Profile.StatusOf | src/pages/StudentProfile.tsx:388-390 | Good iff the percentage is at least 75, Fair iff it is at least 60 and below 75, Poor iff below 60 |
| Profile.ClassStatusAlwaysGood | src/pages/StudentProfile.tsx:158-165 | every class the aggregation produces gets the Good badge |
| Profile.SortedDays | src/pages/StudentProfile.tsx:170-173 | the distinct local days of the rows, strictly latest first, with exactly the rows' days as members |
| Profile.CurrentStreak | src/pages/StudentProfile.tsx:175-187 | the loop's result n is the count of leading days equal to today, today-1, ..., and day n (if any) breaks the run |
| Profile.StreakUnique | src/pages/StudentProfile.tsx:175-187 | the streak is determined by the sorted days and today |
| Profile.StreakIsRunEndingToday | src/pages/StudentProfile.tsx:175-187 | with no day after today, every day of the last n days is marked and the day before them is not; no mark today means a streak of 0 |
| Profile.StreakBounds | src/pages/StudentProfile.tsx:175-187 | the streak never exceeds the number of distinct marked days and is 0 when no row falls on today |
| Profile.StreakWithGap | src/pages/StudentProfile.tsx:170-187 | marks on today, yesterday and three days ago give a streak of 2 |
| Profile.SortedUnique | src/pages/StudentProfile.tsx:173 | a strictly latest-first ordering of a set of days is unique, so the sort's result does not depend on its algorithm |
| Profile.TrendWindow | src/pages/StudentProfile.tsx:193-197 | six valid months, consecutive, the last being the current month |
| Profile.MonthlyCounts | src/pages/StudentProfile.tsx:199-204 | each bucket counts the rows marked in its month; rows outside the window are ignored, so the counts add up to the rows inside the window |
| Profile.MonthlyTrend | src/pages/StudentProfile.tsx:190-209 | six entries, oldest first, consecutive months ending with the current local month, each with the number of rows marked in it |
| Profile.TrendSum | src/pages/StudentProfile.tsx:199-209 | the trend's counts add up to the number of rows within the six months |
| Profile.CalculateStats | src/pages/StudentProfile.tsx:124-219 | the class table is the per-class aggregation (`ClassStats`: first-appearance order, present and distinct-session counts, percentage present/total, 1 <= total <= present); totalPresent = rows; totalClasses = sum of class totals <= rows; rate = totalPresent/totalClasses, or 0 when there are no sessions; the streak is the run over the sorted days ending today; the trend is the six-month window (`MonthlyTrend`): consecutive months ending with the current one, each with its row count |
| Profile.ProfileStats | src/pages/StudentProfile.tsx:84-95 | after each fetch, no rows means the aggregation does not run and the figures already on the page stay (on first mount: empty class table and trend, all overall figures zero); with rows it shows the full aggregation: the class table, the trend, the streak, totalClasses as the sum of the class totals (at least one) and the rate totalPresent/totalClasses |
| Seqs.Dedupe | src/pages/StudentProfile.tsx:172 | the indexOf filter keeps a duplicate-free sequence holding exactly the input's elements |
| Seqs.DedupeOrder | src/pages/StudentProfile.tsx:172 | the kept elements appear in order of their first occurrence |
| Seqs.SortDesc | src/pages/StudentProfile.tsx:173 | the result is strictly decreasing and a permutation of the input |
| Calendar.EndOfDay | src/pages/StudentHistory.tsx:81-82 | the last millisecond of the instant's local day: not before it, on the same day, and the next millisecond is the next day |
| Calendar.NotAfterEndOfDay | src/pages/StudentHistory.tsx:80-84 | an instant is at or before the end of a day exactly when its local day is not later |
| Calendar.CivilMonth | src/pages/StudentProfile.tsx:200 | the calendar month of a day number is a valid (year, month) pair |
| Calendar.CivilMonthOfDate | src/pages/StudentProfile.tsx:194 | converting any valid date to its day number and back yields the date's year and month |
| Calendar.MonthsBefore | src/pages/StudentProfile.tsx:194 | going back k months yields a valid month whose index is k smaller, with the year wrapping |
| Calendar.NextMonth | src/pages/StudentProfile.tsx:193-197 | the month after December is January of the next year, otherwise the next month of the same year |
| Calendar.LocalMonth | src/pages/StudentProfile.tsx:200 | the local month of an instant is a valid (year, month) pair |
| Store.SelectSingle | src/pages/StudentPortal.tsx:87-91 | returns a row exactly when one session carries the token, and that row is the only one that does |
| Store.InsertAttendance | src/pages/StudentPortal.tsx:108-112 | the insert succeeds exactly when there is no fault and no row for the same student and session; on success it adds just that row; a backend fault is returned as is; a refusal without fault carries the unique-violation code; uniqueness is preserved |
| Scan.OnScan | src/pages/StudentPortal.tsx:83-124 | invalid iff the lookup fails; expired iff found and now is after expiresAt; marked iff found, not expired, no fault and no earlier row; a failed insert of a live code reports "already marked" when its code is 23505 and a marking failure otherwise; only a mark changes the table, by exactly the row with the student, session id and session's class id |
| Scan.Message | src/pages/StudentPortal.tsx:95-123 | only a successful mark shows a success toast |
| Scan.ScanTwice | src/pages/StudentPortal.tsx:115-123 | a second scan of a valid token reports the existing mark, changes nothing, and the student holds exactly one row for the session |
| Scan.SingleRow | src/pages/StudentPortal.tsx:115-117 | under the unique constraint a student with a row for a session has exactly one |
| Scan.IssueThenScan | src/pages/StudentPortal.tsx:99-113 | a freshly issued code marks a student iff scanned no later than one minute after issue, else it is expired, and the row names the issuing class |
| Scan.ExpiryInstantAccepted | src/pages/StudentPortal.tsx:103 | a scan at exactly expiresAt is accepted |
| Issuer.Token | src/pages/TeacherPortal.tsx:90 | the payload starts with the class id followed by an underscore that is the payload's last; the rest is the canonical decimal numeral of the issue time: digits only, no leading zero, reading back as that time |
| Issuer.TokenRoundTrip | src/pages/TeacherPortal.tsx:90 | splitting a token at its last underscore gives back the class id and timestamp, whatever the class id contains |
| Issuer.TokenInjective | src/pages/TeacherPortal.tsx:89-90 | two tokens are equal iff their class ids and timestamps are |
| Issuer.GenerateQR | src/pages/TeacherPortal.tsx:83-120 | no class: error, nothing stored, portal unchanged; failed insert: error, portal unchanged; success: a session expiring 60 000 ms after issue is stored, the token is shown and the countdown is 60 |
| Issuer.Settle | src/pages/TeacherPortal.tsx:57-60 | the class and countdown are kept; no code is left on screen at zero; a running countdown keeps its code; the "QR code expired" notice appears exactly when a code was hidden |
| Issuer.SettleIdempotent | src/pages/TeacherPortal.tsx:57-60 | settling an already settled state changes nothing and raises no second notice |
| Issuer.Tick | src/pages/TeacherPortal.tsx:51-60 | a running countdown drops by exactly one; the last tick clears the code and, when one was shown, raises the "QR code expired" notice; a stopped one does nothing |
| Issuer.Next | src/pages/TeacherPortal.tsx:51-61 | every event keeps a consistent portal consistent; choosing a class keeps the code and countdown; a Generate press always toasts and keeps the class, and on success restarts the countdown at 60 showing exactly the token of the class and the press time, otherwise leaves the portal unchanged; a second keeps the class and lowers a running countdown by one |
| Issuer.NextConsistent | src/pages/TeacherPortal.tsx:51-61 | every event keeps the countdown within 0..60 and shows a code only while it runs |
| Issuer.InitialConsistent | src/pages/TeacherPortal.tsx:18-20 | the initial portal is consistent |
| Issuer.CountdownClears | src/pages/TeacherPortal.tsx:51-61 | with n seconds left, the code stays for n-1 ticks with the countdown falling by one per tick, and is gone from the n-th on |
| Issuer.StoppedStays | src/pages/TeacherPortal.tsx:51-57 | a stopped countdown never changes again |
| Issuer.IssuedCodeExpires | src/pages/TeacherPortal.tsx:51-61 | an issued code is shown for 59 ticks and hidden from tick 60 on |
| History.Query | src/pages/StudentHistory.tsx:62-84 | the request always restricts to the student |
| History.QueryMeaning | src/pages/StudentHistory.tsx:69-84 | a row passes the request iff it is the student's, its class is the chosen one or "all" is chosen, it is not before the from-instant, and its local day is not after the to-day |
| History.Reset | src/pages/StudentHistory.tsx:100-104 | after reset the filters select every row of the student |
| History.Where | src/pages/StudentHistory.tsx:62-86 | the request returns exactly the table rows meeting every condition, each as many times as it occurs in the table, and no others |
| History.OrderNewestFirst | src/pages/StudentHistory.tsx:70 | rows come back newest first and are a permutation of the selected rows |
| History.Fetch | src/pages/StudentHistory.tsx:59-94 | a failed request keeps the records shown; otherwise the shown records are exactly the selected rows, newest first |
| History.ClassCell | src/pages/StudentHistory.tsx:120 | the class cell is the class name, or "N/A" when the name is missing or empty |
| History.Lines | src/pages/StudentHistory.tsx:118-128 | one line per record, in the order shown, each being that record's class, date and time cells joined by commas |
| History.ExportCsv | src/pages/StudentHistory.tsx:112-128 | refused with "No records to export" exactly when there are no records |
| History.ExportReadsBack | src/pages/StudentHistory.tsx:118-128 | with no line break in any cell the file splits into the header "Class,Date,Time" followed by one line per record, line i+1 being record i's cells joined by commas; with no comma either, each line splits back into its record's three cells |
| History.LineFieldCount | src/pages/StudentHistory.tsx:119-127 | a record's line has exactly three fields iff none of its cells contains a comma |
| Text.TrimPadded | src/pages/Auth.tsx:15 | trimming ignores any whitespace padding on either side |
| Text.TrimEmptyIffBlank | src/pages/Auth.tsx:63 | a string trims to empty exactly when it is all whitespace |
| Text.Split | src/pages/StudentHistory.tsx:125-128 | a split gives one more piece than separators, none holding the separator |
| Text.SplitJoin | src/pages/StudentHistory.tsx:125-128 | splitting undoes joining when no part holds the separator |
| Text.FieldCount | src/pages/StudentHistory.tsx:126-127 | a joined line splits into as many fields as were joined plus one per separator inside a field |
| Text.ParseDecimalOfDecimal | src/pages/TeacherPortal.tsx:90 | the decimal rendering of a timestamp reads back as that timestamp |
| Text.DecimalInjective | src/pages/TeacherPortal.tsx:90 | distinct timestamps render to distinct digit strings |
| Text.LastIndexOfSeparator | src/pages/TeacherPortal.tsx:90 | the last underscore of `classId_digits` is the one before the digits |
| Auth.ValidateSignUp | src/pages/Auth.tsx:58-85 | accepted iff the trimmed email matches, the password has at least 6 UTF-16 units, the name is not blank and a student's roll number is not blank; each message is given exactly when its check is the first to fail; the request carries the untrimmed fields and a roll number only for students |
| Auth.TeacherRollIgnored | src/pages/Auth.tsx:69-73 | a teacher's form is judged the same whatever its roll number field holds |
| Auth.EmailPaddingIgnored | src/pages/Auth.tsx:15 | whitespace before or after the typed address never changes whether it is refused, since the address is trimmed before the pattern check |
| Auth.PasswordError | src/pages/Auth.tsx:16 | at least 6 characters is always accepted, fewer than 3 never |
| Auth.Missing | src/pages/Auth.tsx:63 | a field is missing iff it is all whitespace |
| Auth.Utf16Length | src/pages/Auth.tsx:16 | the length the schema counts lies between the character count and twice it |
| Auth.Utf16LengthAppend | src/pages/Auth.tsx:16 | the length of a concatenation is the sum of the lengths |
| Auth.Utf16LengthBmp | src/pages/Auth.tsx:16 | the length counted by the schema equals the character count iff no character lies outside the Basic Multilingual Plane |
| Auth.ThreeEmojiPassword | src/pages/Auth.tsx:16 | three emoji pass the six-character minimum |
| Auth.ServiceErrorText | src/pages/Auth.tsx:105-111 | a message containing the known phrase gives the friendly text; a missing or empty message the fallback; any other message is shown as is |
| Auth.ErrorTextsNonEmpty | src/pages/Auth.tsx:105-111 | sign-up and sign-in error texts are never empty |
| Auth.PhraseMatchedInside | src/pages/Auth.tsx:107 | "already registered" anywhere inside the message selects the friendly text |
| Auth.SignUp | src/pages/Auth.tsx:54-116 | a request is sent iff validation passes, and it is the validated request: the untrimmed email and password, and a roll number exactly for students; the role row is written iff the service returns a user; a success toast iff the role row was stored; no toast iff the service returns neither user nor error |
| Auth.SignIn | src/pages/Auth.tsx:118-144 | the credentials are sent iff the email and password checks pass; success iff sent and the service reports no error; a refusal is mapped to its error text |
| Auth.SameCredentialChecks | src/pages/Auth.tsx:58-61 | sign-in and sign-up refuse the same email and password with the same messages |

## Left out

- The backend: authentication, row-level security, joins and the network.
  Tables are values. A failed request is a flag or an error value given
  as input.
- Who the user is: the session's user id is assumed present. The case
  where it is undefined is not modelled.
- React scheduling, effects and `setInterval`: the countdown is a discrete
  tick function. The model does not cover real intervals drifting, or the
  gap between the on-screen countdown and the stored expiry instant.
- QR drawing on the canvas and camera scanning: device and third-party
  I/O.
- Locale rendering: `toLocaleDateString`, `toLocaleTimeString`, `toFixed`
  and the month labels. Date and time cells are abstract functions of the
  instant. Month labels are (year, month) pairs, which are distinct
  exactly when the labels are.
- Floating point: percentages and the rate are exact ratios.
- Daylight saving time: the zone is a fixed offset.
- Decimal rendering of numbers from 1e21 up, where JavaScript switches to
  exponent form: millisecond timestamps stay far below it.
- The email regular expression of the validation library: an abstract
  predicate.
- The loading flag, toasts as UI, console logging, and the blob download
  with its dated file name.
- A response with neither data nor error, which the pages ignore.
- A profile row whose class join is missing, which makes the page throw:
  class names are always present in the model.
- The teacher's list of recent attendance, the class lists, and the
  index, header and routing components: plumbing with no rules.
- Auth.PasswordError: its contract states the bounds between the
  character count and the UTF-16 length. It does not state the exact
  threshold on UTF-16 units, which `Auth.ValidateSignUp` and
  `Auth.SignIn` state.
- Scan.Message: states only which outcome is a success. The exact texts
  are constants of the function.
- Auth.Utf16Length: its contract states only the bounds. The exact count,
  one unit per character of the Basic Multilingual Plane and two for any
  other, follows from `Auth.Utf16LengthAppend` and `Auth.Utf16LengthBmp`.
