/**
 * Choosing the generative model (interview_bot.py:41-49): start from the
 * default name and overwrite it with the first preferred name that the
 * service lists.
 */
module ModelSelection {

  const Flash: string := "models/gemini-1.5-flash"
  const Pro: string := "models/gemini-1.5-pro"
  /** The name `active_model` starts as. */
  const Default: string := Flash
  /** The order in which the names are tried. */
  const Preferences: seq<string> := [Flash, Pro]

  /**
   * The reference rule: the first name of `prefs` that occurs in `found`,
   * or `fallback` when none does.
   */
  function FirstAvailable(prefs: seq<string>, found: seq<string>, fallback: string): (r: string)
    ensures (exists k | 0 <= k < |prefs| :: prefs[k] in found) ==>
              exists k | 0 <= k < |prefs| :: r == prefs[k] && r in found && forall j | 0 <= j < k :: prefs[j] !in found
    ensures (forall k | 0 <= k < |prefs| :: prefs[k] !in found) ==> r == fallback
  {
    if prefs == [] then fallback
    else if prefs[0] in found then prefs[0]
    else
      var r := FirstAvailable(prefs[1..], found, fallback);
      assert forall k | 0 <= k < |prefs| - 1 :: prefs[1..][k] == prefs[k + 1];
      r
  }

  /** Only which names are listed matters, not their order or repetitions. */
  lemma {:induction false} FirstAvailableOnlyMembership(prefs: seq<string>, a: seq<string>, b: seq<string>, fallback: string)
    requires forall n :: n in a <==> n in b
    ensures FirstAvailable(prefs, a, fallback) == FirstAvailable(prefs, b, fallback)
  {
    if prefs != [] {
      FirstAvailableOnlyMembership(prefs[1..], a, b, fallback);
    }
  }

  /**
   * The if/elif over the listed names. Flash wins whenever it is listed; Pro
   * is chosen exactly when Flash is absent and Pro present; otherwise the
   * default Flash stays, so the result is always one of the two names.
   */
  method SelectModel(found: seq<string>) returns (active: string)
    ensures active == FirstAvailable(Preferences, found, Default)
    ensures Flash in found ==> active == Flash
    ensures active == Pro <==> Flash !in found && Pro in found
    ensures active == Flash || active == Pro
  {
    active := Default;
    if Flash in found {
      active := Flash;
    } else if Pro in found {
      active := Pro;
    }
  }
}
