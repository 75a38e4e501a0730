# AUTO_PRESENT attendance script, modelled in Dafny

`absensi.py` checks people in to an attendance page on a schedule. It has
three pieces of decision logic around the browser automation:

- **Schedule check** (`is_absen_time`). It maps the Jakarta hour and minute,
  plus a test-mode flag, to one of three window labels (`jadwal_1`, `jadwal_2`,
  `jadwal_3`), to `test_mode`, or to `None`. The windows are 09:30–10:00,
  12:30–13:00 and 13:30–14:00, and each one includes minute 0 of the next hour.
  Module `Schedule`, file `schedule.dfy`.
- **Outcome verifier** (`verify_absen_success`). It searches the lower-cased
  page source for two ordered lists of indicators:
  - "already done" indicators mean success with no screenshot;
  - success indicators mean success and a screenshot;
  - no match means failure.

  Module `Verifier`, file `verifier.dfy`. The screenshot is modelled as the
  `SuccessSnap` variant of the result, not as a file write.
- **Multi-user routine** (`login_dan_absen_multiple_users`). It returns False
  right away outside every window, unless test mode is on. Otherwise it reads
  `UNBIN_USERNAME_N` / `UNBIN_PASSWORD_N` for N = 1, 2, … and stops at the first
  N where either value is unset or empty. It runs one browser session per user,
  counts the successes, and returns "at least one success". Module
  `Attendance`, file `attendance.dfy`.

What the model takes as inputs or oracles:
- The clock becomes the `hour` and `minute` parameters.
- The environment becomes two maps from the index N to a string.
- One user's browser session (`login_dan_absen_single_user`) becomes an
  oracle `attempt: nat -> bool` from the index to the boolean that session
  returns.
- The multi-user method returns the indices whose variables it read and the
  indices it ran a session for, so "nothing beyond the first gap is read"
  becomes a postcondition.

The `Option` type that stands for Python's `None` lives in module `Wrappers`
(file `wrappers.dfy`), shared by `Schedule` and `Attendance`.

The windows get a second, independent definition: closed intervals of
minutes since midnight, [570, 600], [750, 780] and [810, 840]. The
hour-and-minute conditions of the source are proved equal to it.

The loop stops at the first index whose username or password is missing
*or empty*: Python's `not value` is true for both `None` and `""`
(absensi.py:103).

## Model

| member | source | states |
|---|---|---|
| `Schedule.IsAbsenTime` | absensi.py:18-38 | Test mode always gives `TestMode`. Otherwise the result is `Jadwal1` / `Jadwal2` / `Jadwal3` exactly when the minute of the day is in [570,600] / [750,780] / [810,840], and `None` exactly when it is in none of them. Outside test mode the result is never `TestMode`. |
| `Schedule.WindowsDisjoint` | absensi.py:31-36 | No minute of the day is in two different windows. |
| `Schedule.AnyContainingWindowIsTheAnswer` | absensi.py:31-36 | Whichever window contains the time is the result, so the order of the if/elif chain does not change the answer. |
| `Schedule.BoundaryTimes` | absensi.py:30-38 | 09:30 and 10:00 are in window 1, while 09:29 and 10:01 are in none. 13:00 is in window 2 and 13:01 is in none. 13:30 and 14:00 are in window 3, and 14:01 is in none. |
| `Verifier.Contains` | absensi.py:69 | Python's substring test `t in s` holds exactly when `t` occurs at some position of `s`. |
| `Verifier.ContainsAny` | absensi.py:73 | `any(ind in s for ind in inds)` holds exactly when some indicator of the list occurs in `s`. |
| `Verifier.Lower` | absensi.py:66 | Lower-casing keeps the length and leaves no upper-case ASCII letter. It changes nothing else, and it maps each upper-case letter to the character 32 code points higher. |
| `Verifier.Classify` | absensi.py:67-82 | On a lower-cased page the result is `Already` exactly when some "already done" indicator occurs. It is `SuccessSnap` exactly when none occurs and some success indicator does. It is `Fail` exactly when no indicator of either list occurs. |
| `Verifier.VerifyAbsenSuccess` | absensi.py:64-82 | The loop over the "already done" indicators with early return, then the `any` over the success indicators, gives the classification of the lower-cased page. |
| `Verifier.SucceedsIffSomeIndicator` | absensi.py:66-82 | The verifier succeeds exactly when the page contains one of "anda sudah melakukan absensi", "sudah absen", "absensi berhasil", "berhasil" or "logout". |
| `Verifier.Precedence` | absensi.py:67-80 | Any "already done" indicator gives `Already` (no screenshot), even when a success indicator is present too. A screenshot is taken exactly when no "already done" indicator occurs and "berhasil" or "logout" does. |
| `Verifier.AbsensiBerhasilShadowsBerhasil` | absensi.py:67-73 | A page with "absensi berhasil" also contains "berhasil", but it is classified `Already` and no screenshot is taken. |
| `Verifier.LoginBerhasilTakesScreenshot` | absensi.py:72-80 | The page "login berhasil" is classified as success with a screenshot. |
| `Attendance.CountSuccesses` | absensi.py:107-108 | The success tally over users 1..n is at most n. It is 0 exactly when every session failed, and n exactly when every session succeeded. |
| `Attendance.LoginDanAbsenMultipleUsers` | absensi.py:88-113 | Outside every window with test mode off, it returns False, reads no variable and runs no session. Otherwise it stops at the first index k+1 without a usable pair, with users 1..k gapless. It reads exactly indices 1..k+1 in order and runs sessions for exactly 1..k in order, and the tally is the number of successful sessions among them. The result is `successCount > 0`. |
| `Attendance.StopTestIffNoCredential` | absensi.py:100-103 | The stop test `not username or not password` on the two `os.getenv` results for index i holds exactly when index i has no usable pair, meaning both values set and non-empty. This ties `Getenv` and `Falsy`, which the loop uses, to `HasCredential`, in which the method's contract is stated. |
| `Attendance.FirstGapIsUnique` | absensi.py:99-104 | Only one count is both gapless and followed by a missing pair, so the environment alone decides where the loop stops. |
| `Attendance.GapAtTwoStopsAfterOne` | absensi.py:96-113 | With credentials for indices 1 and 3 but not 2, the run reads exactly indices 1 and 2, runs a session only for index 1, and returns that session's result. |
| `Attendance.TestModeWithoutCredentials` | absensi.py:88-113 | In test mode with no credentials set, the run returns False with 0 successes out of 0 users, whatever the time. |
| `Attendance.OneUserLoginBerhasil` | absensi.py:88-113 | In test mode with one credential whose session reaches "login berhasil", the run returns True with 1 success out of 1 user. |

## Left out

- The browser session (`setup_driver`, navigation, form filling, `driver.quit`) is foreign I/O. One user's session (`login_dan_absen_single_user`, absensi.py:116-144) is the `attempt` oracle. An exception inside its `try` (absensi.py:119-136) is caught at absensi.py:138-140 and is the oracle returning False.
- Attendance.LoginDanAbsenMultipleUsers: it does not model an exception from `driver.quit()` in the `finally` at absensi.py:141-143. That call is outside the `except`, so the exception escapes `login_dan_absen_single_user`, and the loop at absensi.py:99-110 has no handler either. The whole run then aborts: later indices are not tried, the summary at absensi.py:112 is not logged, and nothing is returned. The total oracle `attempt: nat -> bool` always returns, so the model's postcondition describes only runs in which every `driver.quit()` succeeds.
- Verifier.VerifyAbsenSuccess: it does not model the `except Exception` at absensi.py:83-85, which makes the source return False. That handler covers two kinds of failure:
  - reading `driver.page_source` at absensi.py:66;
  - the screenshot path at absensi.py:74-79: `get_jakarta_time().strftime`, `os.makedirs` and `driver.save_screenshot`.

  When the screenshot path raises after a success indicator has matched, the source returns False, but the model's `SuccessSnap` still counts as success. `Verifier.Classify`, `Verifier.SucceedsIffSomeIndicator` and `Verifier.Precedence` therefore describe only runs in which reading the page and saving the screenshot do not raise.
- The five-second `time.sleep` is timing only and is not modelled.
- `get_jakarta_time`, `pytz` and `strftime` are a foreign clock and a timezone library. The hour and minute are parameters.
- `setup_logging`, the log and screenshot directories, file names and `save_screenshot` are file-system side effects and are not modelled. Whether a screenshot is taken is the `SuccessSnap` result.
- `os.getenv` and `load_dotenv` are replaced by the two maps.
- Verifier.Lower: lower-cases ASCII letters only. Python's `str.lower()` also folds non-ASCII letters, and can change a string's length. Some non-ASCII capitals lower to ASCII letters: U+212A KELVIN SIGN lowers to `k`, which occurs in "melakukan". For example, on a page with "anda sudah melakukan absensi" written with U+212A in place of the `k`, the source finds the indicator and the model does not.
- The session oracle takes only the index. The credentials, test mode and window label the source passes to the session are not its arguments. This loses nothing, because both maps are fixed during the run, so the index determines the credentials.
