/** The outcome check of absensi.py (`verify_absen_success`): a keyword
    classifier over the lower-cased page source. Whether a screenshot is
    saved is part of the result instead of a file-system effect. */
module Verifier {

  /** The three ways `verify_absen_success` can end: an "already done"
      indicator matched (True, no screenshot), a success indicator matched
      (True, screenshot saved), or neither matched (False). */
  datatype Outcome = Already | SuccessSnap | Fail
  {
    /** The boolean `verify_absen_success` returns. */
    predicate Succeeded() { !Fail? }

    /** Whether `driver.save_screenshot` is called. */
    predicate TakesScreenshot() { SuccessSnap? }
  }

  const AlreadyIndicators: seq<string> :=
    ["anda sudah melakukan absensi", "sudah absen", "absensi berhasil"]

  const SuccessIndicators: seq<string> := ["berhasil", "logout"]

  /** `t` occurs in `s` starting at position `i`. */
  ghost predicate OccursAt(s: string, t: string, i: int)
  {
    0 <= i && i + |t| <= |s| && s[i..i + |t|] == t
  }

  /** Python's `t in s` on strings: the substring test. */
  function Contains(s: string, t: string): (r: bool)
    ensures r <==> exists i :: OccursAt(s, t, i)
    decreases |s|
  {
    if t <= s then
      assert OccursAt(s, t, 0);
      true
    else if s == [] then
      false
    else
      var rest := Contains(s[1..], t);
      assert forall i :: OccursAt(s[1..], t, i) <==> OccursAt(s, t, i + 1) by {
        forall i ensures OccursAt(s[1..], t, i) <==> OccursAt(s, t, i + 1) {
          if 0 <= i && i + |t| <= |s| - 1 {
            assert s[1..][i..i + |t|] == s[i + 1..i + 1 + |t|];
          }
        }
      }
      assert !OccursAt(s, t, 0);
      assert (exists i :: OccursAt(s, t, i)) ==> exists i :: OccursAt(s[1..], t, i) by {
        if i :| OccursAt(s, t, i) {
          assert i != 0;
          assert OccursAt(s[1..], t, i - 1);
        }
      }
      rest
  }

  /** Python's `any(ind in s for ind in inds)`. */
  function ContainsAny(s: string, inds: seq<string>): (r: bool)
    ensures r <==> exists k :: 0 <= k < |inds| && Contains(s, inds[k])
  {
    if inds == [] then false
    else Contains(s, inds[0]) || ContainsAny(s, inds[1..])
  }

  /** The decision `verify_absen_success` makes on an already lower-cased
      page: the "already done" list is checked first. */
  function Classify(page: string): (r: Outcome)
    ensures r == Already <==>
      exists k :: 0 <= k < |AlreadyIndicators| && Contains(page, AlreadyIndicators[k])
    ensures r == SuccessSnap <==>
      && (forall k :: 0 <= k < |AlreadyIndicators| ==> !Contains(page, AlreadyIndicators[k]))
      && (exists k :: 0 <= k < |SuccessIndicators| && Contains(page, SuccessIndicators[k]))
    ensures r == Fail <==>
      forall ind :: ind in AlreadyIndicators + SuccessIndicators ==> !Contains(page, ind)
  {
    if ContainsAny(page, AlreadyIndicators) then Already
    else if ContainsAny(page, SuccessIndicators) then SuccessSnap
    else Fail
  }

  predicate IsUpperAscii(c: char) { 'A' <= c <= 'Z' }

  function LowerChar(c: char): char
  {
    if IsUpperAscii(c) then (c as int + 32) as char else c
  }

  /** `str.lower()`, restricted to the ASCII letters. */
  function Lower(s: string): (r: string)
    ensures |r| == |s|
    ensures forall i :: 0 <= i < |s| ==> !IsUpperAscii(r[i])
    ensures forall i :: 0 <= i < |s| && !IsUpperAscii(s[i]) ==> r[i] == s[i]
    ensures forall i :: 0 <= i < |s| && IsUpperAscii(s[i]) ==> r[i] as int == s[i] as int + 32
  {
    seq(|s|, i requires 0 <= i < |s| => LowerChar(s[i]))
  }

  /** `verify_absen_success` on the raw page source: a loop over the
      "already done" indicators with an early return, then `any` over the
      success indicators. */
  method VerifyAbsenSuccess(pageSource: string) returns (outcome: Outcome)
    ensures outcome == Classify(Lower(pageSource))
  {
    var page := Lower(pageSource);
    for i := 0 to |AlreadyIndicators|
      invariant forall k :: 0 <= k < i ==> !Contains(page, AlreadyIndicators[k])
    {
      if Contains(page, AlreadyIndicators[i]) {
        return Already;
      }
    }
    if ContainsAny(page, SuccessIndicators) {
      return SuccessSnap;
    }
    return Fail;
  }

  /** The result is True exactly when one of the five indicators occurs. */
  lemma SucceedsIffSomeIndicator(page: string)
    ensures Classify(page).Succeeded() <==>
      Contains(page, "anda sudah melakukan absensi") || Contains(page, "sudah absen") ||
      Contains(page, "absensi berhasil") || Contains(page, "berhasil") || Contains(page, "logout")
  {
    assert AlreadyIndicators[0] == "anda sudah melakukan absensi";
    assert AlreadyIndicators[1] == "sudah absen";
    assert AlreadyIndicators[2] == "absensi berhasil";
    assert SuccessIndicators[0] == "berhasil";
    assert SuccessIndicators[1] == "logout";
  }

  /** An "already done" indicator wins over any success indicator, and a
      screenshot is taken exactly when no "already done" indicator occurs
      but "berhasil" or "logout" does. */
  lemma Precedence(page: string)
    ensures (Contains(page, "anda sudah melakukan absensi") || Contains(page, "sudah absen") ||
             Contains(page, "absensi berhasil")) ==> Classify(page) == Already
    ensures Classify(page).TakesScreenshot() <==>
      !Contains(page, "anda sudah melakukan absensi") && !Contains(page, "sudah absen") &&
      !Contains(page, "absensi berhasil") &&
      (Contains(page, "berhasil") || Contains(page, "logout"))
  {
    assert AlreadyIndicators[0] == "anda sudah melakukan absensi";
    assert AlreadyIndicators[1] == "sudah absen";
    assert AlreadyIndicators[2] == "absensi berhasil";
    assert SuccessIndicators[0] == "berhasil";
    assert SuccessIndicators[1] == "logout";
  }

  /** A substring of a substring is a substring. */
  lemma ContainsTransitive(s: string, u: string, t: string)
    requires Contains(s, u) && Contains(u, t)
    ensures Contains(s, t)
  {
    var i :| OccursAt(s, u, i);
    var j :| OccursAt(u, t, j);
    forall k | 0 <= k < |t|
      ensures s[i + j..i + j + |t|][k] == t[k]
    {
      assert t[k] == u[j + k] == s[i + j + k];
    }
    assert OccursAt(s, t, i + j);
  }

  /** "absensi berhasil" itself contains "berhasil": whenever that
      indicator occurs, a success indicator occurs too, and the
      "already done" check is what keeps the screenshot from being taken. */
  lemma AbsensiBerhasilShadowsBerhasil(page: string)
    requires Contains(page, "absensi berhasil")
    ensures Contains(page, "berhasil")
    ensures Classify(page) == Already && !Classify(page).TakesScreenshot()
  {
    assert OccursAt("absensi berhasil", "berhasil", 8);
    ContainsTransitive(page, "absensi berhasil", "berhasil");
    Precedence(page);
  }

  /** The page "login berhasil" after submission is a success with a
      screenshot. */
  lemma LoginBerhasilTakesScreenshot()
    ensures Classify(Lower("login berhasil")) == SuccessSnap
  {
    var page := "login berhasil";
    assert Lower(page) == page;
    assert OccursAt(page, "berhasil", 6);
    forall i | 0 <= i <= 3
      ensures !OccursAt(page, "sudah absen", i)
    {
      assert page[i] != 's';
    }
    Precedence(page);
  }
}
