/**
  The shape both forms give their `validateInput`: a `when` that tries its
  checks one after another and reports the first that fails, accepting the
  input only when none does. Each form lists its checks, in its own order,
  as pairs (error, "this check fails").
*/
module Validation {
  import opened Wrappers

  /** The error of the first failing check in list order; none when every check passes. */
  function FirstFailure<E(==)>(checks: seq<(E, bool)>): (r: Option<E>)
    ensures r.None? <==> forall i :: 0 <= i < |checks| ==> !checks[i].1
    ensures r.Some? ==> exists i :: (0 <= i < |checks| && checks[i].0 == r.value && checks[i].1
      && forall j :: 0 <= j < i ==> !checks[j].1)
  {
    if |checks| == 0 then None
    else if checks[0].1 then Some(checks[0].0)
    else
      var r := FirstFailure(checks[1..]);
      assert forall i :: 1 <= i < |checks| ==> checks[1..][i - 1] == checks[i];
      if r.Some? then
        var i :| (0 <= i < |checks[1..]| && checks[1..][i].0 == r.value && checks[1..][i].1
          && forall j :: 0 <= j < i ==> !checks[1..][j].1);
        assert checks[i + 1] == checks[1..][i];
        r
      else r
  }

  /** The checks before `k` pass and check `k` fails: its error is the one reported. */
  lemma FirstFailureIs<E>(checks: seq<(E, bool)>, k: nat)
    requires k < |checks| && checks[k].1
    requires forall j :: 0 <= j < k ==> !checks[j].1
    ensures FirstFailure(checks) == Some(checks[k].0)
  {
    var r := FirstFailure(checks);
    if r.Some? {
      var i :| (0 <= i < |checks| && checks[i].0 == r.value && checks[i].1
        && forall j :: 0 <= j < i ==> !checks[j].1);
      assert i == k;
    }
  }
}
