/** The one-shot acquisition both revisions of `Peripherals::get` share: a
    process-wide `GOT_PERIPHERALS` flag, false at start-up, decides whether the
    bundle of handles is handed out. Calls are taken to be made one at a time
    from a single context, as the source asks of its callers. */
module OneShot {
  import opened Common

  /** One call: given the flag before the call and the bundle the call would
      build, the call's result and the flag after it. */
  function Claim<T>(claimed: bool, bundle: T): (r: (Option<T>, bool))
    ensures r.0.Some? <==> !claimed
    ensures r.0.Some? ==> r.0.value == bundle
    ensures r.1
  {
    if claimed then (None, true)
    else (Some(bundle), true)
  }

  /** `n` calls in sequence, starting from flag `claimed`: each call's result,
      and the flag after the last one. */
  function Run<T>(claimed: bool, bundle: T, n: nat): (r: (seq<Option<T>>, bool))
    ensures |r.0| == n
    ensures claimed ==> r.1
    ensures n > 0 ==> r.1
    decreases n
  {
    if n == 0 then ([], claimed)
    else
      var (first, after) := Claim(claimed, bundle);
      var (rest, final) := Run(after, bundle, n - 1);
      ([first] + rest, final)
  }

  /** Number of calls in a run that handed the bundle out. */
  function Successes<T>(results: seq<Option<T>>): nat {
    if |results| == 0 then 0
    else (if results[0].Some? then 1 else 0) + Successes(results[1..])
  }

  /** Once the flag is set it is never reset, and every call fails. */
  lemma {:induction false} ClaimedRunFails<T>(bundle: T, n: nat)
    ensures Run(true, bundle, n).1
    ensures forall i :: 0 <= i < n ==> Run(true, bundle, n).0[i] == None
    ensures Successes(Run(true, bundle, n).0) == 0
  {
    if n > 0 {
      ClaimedRunFails(bundle, n - 1);
      var rest := Run(true, bundle, n - 1).0;
      assert Run(true, bundle, n).0 == [None] + rest;
      assert ([None] + rest)[1..] == rest;
    }
  }

  /** From a fresh flag, exactly the first of `n >= 1` calls succeeds, with the
      bundle, and the flag ends set. */
  lemma {:induction false} ExactlyFirstSucceeds<T>(bundle: T, n: nat)
    requires n >= 1
    ensures Run(false, bundle, n).0[0] == Some(bundle)
    ensures forall i :: 1 <= i < n ==> Run(false, bundle, n).0[i] == None
    ensures Successes(Run(false, bundle, n).0) == 1
    ensures Run(false, bundle, n).1
  {
    ClaimedRunFails(bundle, n - 1);
    var rest := Run(true, bundle, n - 1).0;
    assert Run(false, bundle, n).0 == [Some(bundle)] + rest;
    assert ([Some(bundle)] + rest)[1..] == rest;
  }

  /** Whatever the starting flag, a run of calls hands the bundle out at most
      once, and does so exactly when the flag started clear and a call was made. */
  lemma AtMostOnce<T>(claimed: bool, bundle: T, n: nat)
    ensures Successes(Run(claimed, bundle, n).0) == (if !claimed && n > 0 then 1 else 0)
  {
    if claimed {
      ClaimedRunFails(bundle, n);
    } else if n > 0 {
      ExactlyFirstSucceeds(bundle, n);
    }
  }
}
