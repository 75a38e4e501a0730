/** The multi-user routine of absensi.py (`login_dan_absen_multiple_users`).
    The process environment is two maps from the 1-based index N to the
    values of UNBIN_USERNAME_N and UNBIN_PASSWORD_N; the browser session of
    one user (`login_dan_absen_single_user`) is an oracle from the index
    to the boolean that session returns. */
module Attendance {
  import opened Wrappers
  import opened Schedule
  import Verifier

  type Env = map<nat, string>

  /** `os.getenv(name)`: the value, or Python's `None` when unset. */
  function Getenv(env: Env, index: nat): Option<string>
  {
    if index in env then Some(env[index]) else None
  }

  /** Python's `not value` for a `str` or `None`. */
  predicate Falsy(v: Option<string>)
  {
    v.None? || v.value == ""
  }

  /** Index `i` has a usable credential pair: both values set and non-empty. */
  predicate HasCredential(usernames: Env, passwords: Env, i: nat)
  {
    i in usernames && usernames[i] != "" && i in passwords && passwords[i] != ""
  }

  /** The loop's stop test `not username or not password` on the values
      read for index `i` fails exactly when `i` has a usable pair. */
  lemma StopTestIffNoCredential(usernames: Env, passwords: Env, i: nat)
    ensures (Falsy(Getenv(usernames, i)) || Falsy(Getenv(passwords, i))) <==>
      !HasCredential(usernames, passwords, i)
  {
  }

  /** Indices 1..n all have usable credential pairs. */
  predicate GaplessUpTo(usernames: Env, passwords: Env, n: nat)
  {
    forall i :: 1 <= i <= n ==> HasCredential(usernames, passwords, i)
  }

  /** The indices 1, 2, ..., n in increasing order. */
  function Indices(n: nat): seq<nat>
  {
    seq(n, k requires 0 <= k < n => k + 1)
  }

  /** The number of indices among 1..n whose session reports success. */
  function CountSuccesses(attempt: nat -> bool, n: nat): (c: nat)
    ensures c <= n
    ensures c == 0 <==> forall i :: 1 <= i <= n ==> !attempt(i)
    ensures c == n <==> forall i :: 1 <= i <= n ==> attempt(i)
  {
    if n == 0 then 0
    else CountSuccesses(attempt, n - 1) + (if attempt(n) then 1 else 0)
  }

  /** The keys of `env` at or above `index`; finite, so the loop ends. */
  ghost function KeysFrom(env: Env, index: nat): set<nat>
  {
    set j | j in env.Keys && j >= index
  }

  /** `login_dan_absen_multiple_users(test_mode)` at the given Jakarta time.
      `envReads` lists, in order, the indices whose two variables were read;
      `attempts` lists the indices whose session was run; `userCount` is the
      `index - 1` of the final log line. */
  method LoginDanAbsenMultipleUsers(testMode: bool, hour: Hour, minute: Minute,
                                    usernames: Env, passwords: Env, attempt: nat -> bool)
    returns (ok: bool, successCount: nat, userCount: nat, envReads: seq<nat>, attempts: seq<nat>)
    ensures ok == (successCount > 0)
    ensures successCount <= userCount
    ensures IsAbsenTime(testMode, hour, minute) == None && !testMode ==>
      !ok && successCount == 0 && userCount == 0 && envReads == [] && attempts == []
    ensures IsAbsenTime(testMode, hour, minute) != None || testMode ==>
      && GaplessUpTo(usernames, passwords, userCount)
      && !HasCredential(usernames, passwords, userCount + 1)
      && envReads == Indices(userCount + 1)
      && attempts == Indices(userCount)
      && successCount == CountSuccesses(attempt, userCount)
  {
    var jadwal := IsAbsenTime(testMode, hour, minute);
    if jadwal == None && !testMode {
      return false, 0, 0, [], [];
    }

    var index: nat := 1;
    successCount := 0;
    envReads, attempts := [], [];
    while true
      invariant 1 <= index
      invariant GaplessUpTo(usernames, passwords, index - 1)
      invariant envReads == Indices(index - 1) && attempts == Indices(index - 1)
      invariant successCount == CountSuccesses(attempt, index - 1)
      decreases |KeysFrom(usernames, index)|
    {
      var username := Getenv(usernames, index);
      var password := Getenv(passwords, index);
      envReads := envReads + [index];
      if Falsy(username) || Falsy(password) {
        break;
      }
      if attempt(index) {
        successCount := successCount + 1;
      }
      attempts := attempts + [index];
      assert KeysFrom(usernames, index) == KeysFrom(usernames, index + 1) + {index};
      index := index + 1;
    }
    userCount := index - 1;
    ok := successCount > 0;
  }

  /** The gapless prefix is determined by the environment: there is only one
      count it can stop at. */
  lemma FirstGapIsUnique(usernames: Env, passwords: Env, n: nat, m: nat)
    requires GaplessUpTo(usernames, passwords, n) && !HasCredential(usernames, passwords, n + 1)
    requires GaplessUpTo(usernames, passwords, m) && !HasCredential(usernames, passwords, m + 1)
    ensures n == m
  {
  }

  /** Credentials for indices 1 and 3 but not 2: the run reads indices 1
      and 2, runs a session for index 1 only, and returns that session's
      result. */
  method GapAtTwoStopsAfterOne(hour: Hour, minute: Minute, attempt: nat -> bool)
    returns (ok: bool, envReads: seq<nat>, attempts: seq<nat>)
    ensures envReads == [1, 2] && attempts == [1] && ok == attempt(1)
  {
    var u: Env, p: Env := map[1 := "a", 3 := "c"], map[1 := "x", 3 := "z"];
    var successCount, userCount;
    ok, successCount, userCount, envReads, attempts :=
      LoginDanAbsenMultipleUsers(true, hour, minute, u, p, attempt);
    assert HasCredential(u, p, 1) && !HasCredential(u, p, 2);
    FirstGapIsUnique(u, p, userCount, 1);
  }

  /** Test mode bypasses the clock; with no credentials the run reports
      0 of 0 and returns False. */
  method TestModeWithoutCredentials(hour: Hour, minute: Minute, attempt: nat -> bool)
    returns (ok: bool, successCount: nat, userCount: nat)
    ensures !ok && successCount == 0 && userCount == 0
  {
    var empty: Env := map[];
    var envReads, attempts;
    ok, successCount, userCount, envReads, attempts :=
      LoginDanAbsenMultipleUsers(true, hour, minute, empty, empty, attempt);
    FirstGapIsUnique(empty, empty, userCount, 0);
  }

  /** One credential whose session lands on the page "login berhasil":
      the run succeeds with one success out of one user. */
  method OneUserLoginBerhasil(hour: Hour, minute: Minute)
    returns (ok: bool, successCount: nat, userCount: nat)
    ensures ok && successCount == 1 && userCount == 1
  {
    Verifier.LoginBerhasilTakesScreenshot();
    var u, p := map[1 := "user"], map[1 := "secret"];
    var attempt := (i: nat) => Verifier.Classify(Verifier.Lower("login berhasil")).Succeeded();
    var envReads, attempts;
    ok, successCount, userCount, envReads, attempts :=
      LoginDanAbsenMultipleUsers(true, hour, minute, u, p, attempt);
    assert HasCredential(u, p, 1) && !HasCredential(u, p, 2);
    FirstGapIsUnique(u, p, userCount, 1);
  }
}
