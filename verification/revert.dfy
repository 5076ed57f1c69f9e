/** The test helper `assert_revert`: awaits a call that is expected to be
    rejected and decides, from how the call ended, whether the test step
    passes. */
module Revert {
  import opened Wrappers

  /** The `code` entry of a StarkException's error. */
  /** Only whether the code is TRANSACTION_FAILED matters to the helper, so
      every other code is one constructor. */
  datatype ErrorCode = TransactionFailed | OtherCode

  /** How the awaited expression ended. */
  datatype Outcome =
    | Completed
    | StarkFailure(code: ErrorCode, message: string)
    | OtherException(exception: string)

  /** The result of `assert_revert`: returns normally, raises
      AssertionError, or lets another exception through unchanged. */
  datatype Verdict = Pass | Fail | Propagate(exception: string)

  /** Python truthiness of the optional `error_msg`: `None` and `""` are
      both false. */
  predicate Truthy(errorMsg: Option<string>)
  {
    errorMsg.Some? && errorMsg.value != []
  }

  /** `p` occurs in `s` starting at position `i`. */
  ghost predicate OccursAt(p: string, s: string, i: int)
  {
    0 <= i <= |s| - |p| && s[i..i + |p|] == p
  }

  /** `p` occurs in `s` at some position. */
  ghost predicate IsSubstring(p: string, s: string)
  {
    exists i :: OccursAt(p, s, i)
  }

  /** Python's `p in s` on strings, scanning start positions left to
      right. */
  function Contains(s: string, p: string): (b: bool)
    ensures b <==> IsSubstring(p, s)
    decreases |s|
  {
    if |p| > |s| then false
    else if s[..|p|] == p then
      assert OccursAt(p, s, 0);
      true
    else
      var b := Contains(s[1..], p);
      if b then
        assert IsSubstring(p, s) by {
          var i :| OccursAt(p, s[1..], i);
          assert OccursAt(p, s, i + 1);
        }
        b
      else
        assert forall i :: OccursAt(p, s, i) ==> i >= 1 && OccursAt(p, s[1..], i - 1);
        b
  }

  /** `assert_revert(expression, error_msg)`. It passes exactly when the
      call raised a StarkException with code TRANSACTION_FAILED whose
      message contains `error_msg`, a falsy `error_msg` accepting any
      message. A normal completion fails (the `assert False` in the `try`
      is not a StarkException), and any other exception passes through
      unchanged. */
  function AssertRevert(outcome: Outcome, errorMsg: Option<string>): (v: Verdict)
    ensures v == Pass <==>
      && outcome.StarkFailure?
      && outcome.code == TransactionFailed
      && (Truthy(errorMsg) ==> IsSubstring(errorMsg.value, outcome.message))
    ensures v.Propagate? <==> outcome.OtherException?
    ensures v.Propagate? ==> v.exception == outcome.exception
  {
    match outcome
    case Completed => Fail
    case OtherException(e) => Propagate(e)
    case StarkFailure(code, message) =>
      if code != TransactionFailed then Fail
      else if Truthy(errorMsg) && !Contains(message, errorMsg.value) then Fail
      else Pass
  }

  // ---------------------------------------------------------------------
  // Lemmas

  lemma SubstringTransitive(p: string, q: string, s: string)
    requires IsSubstring(p, q) && IsSubstring(q, s)
    ensures IsSubstring(p, s)
  {
    var i :| OccursAt(p, q, i);
    var j :| OccursAt(q, s, j);
    forall k | 0 <= k < |p|
      ensures s[j + i + k] == p[k]
    {
      assert p[k] == q[i + k] == s[j + i + k];
    }
    assert OccursAt(p, s, j + i);
  }

  /** Expecting a shorter message is weaker: whatever passes with an
      expected message also passes with any part of it, the empty one included. */
  lemma ShorterMessageWeaker(outcome: Outcome, expected: string, part: string)
    requires AssertRevert(outcome, Some(expected)) == Pass
    requires Contains(expected, part)
    ensures AssertRevert(outcome, Some(part)) == Pass
  {
    if part != [] && expected != [] {
      SubstringTransitive(part, expected, outcome.message);
    }
  }
}
