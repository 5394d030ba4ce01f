/** Work limits: `modify_wlim` of caller_config.c. Zero stands for no limit. */
module WorkLimits {

  /** A limit of `a` allows no more than one of `b`. */
  predicate AsTight(a: nat, b: nat) {
    b == 0 || 0 < a <= b
  }

  /** A setting from the configuration or from the caller's environment. */
  datatype Setting = Setting(value: nat, isSystem: bool)

  /** `modify_wlim`: the configuration decides; the caller can only tighten. */
  method ModifyWlim(current: nat, s: Setting) returns (limit: nat)
    ensures limit == Tightened(current, s)
  {
    limit := current;
    if s.isSystem || limit == 0 || (s.value > 0 && s.value < limit) {
      limit := s.value;
    }
  }

  /** The configuration's value; or of the two limits, the one that is as tight as both. */
  function Tightened(limit: nat, s: Setting): (r: nat)
    ensures s.isSystem ==> r == s.value
    ensures !s.isSystem ==> AsTight(r, limit) && AsTight(r, s.value) && r in {limit, s.value}
  {
    if s.isSystem then s.value
    else if AsTight(limit, s.value) then limit
    else s.value
  }

  /** The limit in force after a sequence of settings, from none. */
  function InForce(settings: seq<Setting>): nat {
    if settings == [] then 0
    else Tightened(InForce(settings[..|settings| - 1]), settings[|settings| - 1])
  }

  /**
   Whatever the caller sets after the configuration's last word, the limit in
   force is the tightest of that word and the caller's settings; in
   particular a limit that was set is never lifted.
   */
  lemma {:induction false} CallerOnlyTightens(system: seq<Setting>, caller: seq<Setting>)
    requires forall s | s in caller :: !s.isSystem
    ensures var r := InForce(system + caller);
            && AsTight(r, InForce(system))
            && (forall s | s in caller :: AsTight(r, s.value))
            && (r == InForce(system) || exists s :: s in caller && r == s.value)
  {
    if caller == [] {
      assert system + caller == system;
    } else {
      var n := |caller| - 1;
      assert caller == caller[..n] + [caller[n]];
      assert (system + caller)[..|system + caller| - 1] == system + caller[..n];
      CallerOnlyTightens(system, caller[..n]);
    }
  }
}
