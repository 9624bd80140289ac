/** Who may use `!LootBal`: an author holding a role whose name is `member`
    or `trial`, in any mix of upper and lower case. */
module Roles {
  import opened PythonStr

  const MemberRole := "member"
  const TrialRole := "trial"

  /** A lower-cased role name that grants access. */
  predicate Grants(lowered: string) {
    lowered == Lower(MemberRole) || lowered == Lower(TrialRole)
  }

  /** The author's role names, each lower-cased. */
  function LowercaseRoles(roles: seq<string>): (lowered: seq<string>)
    ensures |lowered| == |roles|
    ensures forall i :: 0 <= i < |roles| ==> lowered[i] == Lower(roles[i])
  {
    seq(|roles|, i requires 0 <= i < |roles| => Lower(roles[i]))
  }

  /** Python's `any` over the lower-cased names: true exactly when one of
      them grants access. */
  function AnyGrants(names: seq<string>): (b: bool)
    ensures b <==> exists i :: 0 <= i < |names| && Grants(names[i])
  {
    if names == [] then false
    else if Grants(names[0]) then true
    else
      var b := AnyGrants(names[1..]);
      assert forall i :: 0 < i < |names| ==> names[i] == names[1..][i - 1];
      b
  }

  /** `member_or_trial(user)`: some role, lower-cased, is `member` or
      `trial`. */
  function MemberOrTrial(roles: seq<string>): (ok: bool)
    ensures ok <==> exists i :: 0 <= i < |roles| && (Lower(roles[i]) == "member" || Lower(roles[i]) == "trial")
  {
    var lowered := LowercaseRoles(roles);
    assert Lower(MemberRole) == "member" && Lower(TrialRole) == "trial";
    AnyGrants(lowered)
  }

  /** An author with no roles is refused. */
  lemma NoRolesRefused()
    ensures !MemberOrTrial([])
  {
  }

  /** Only the lower-cased role names matter: two role lists that agree
      name by name up to case are judged alike. */
  lemma {:induction false} MemberOrTrialIgnoresCase(roles: seq<string>, others: seq<string>)
    requires |roles| == |others|
    requires forall i :: 0 <= i < |roles| ==> Lower(roles[i]) == Lower(others[i])
    ensures MemberOrTrial(roles) == MemberOrTrial(others)
  {
    if MemberOrTrial(roles) {
      var i :| 0 <= i < |roles| && (Lower(roles[i]) == "member" || Lower(roles[i]) == "trial");
      assert Lower(others[i]) == Lower(roles[i]);
    }
    if MemberOrTrial(others) {
      var i :| 0 <= i < |others| && (Lower(others[i]) == "member" || Lower(others[i]) == "trial");
      assert Lower(others[i]) == Lower(roles[i]);
    }
  }

  /** Access is granted by a combined role list exactly when either part
      grants it; in particular extra roles never take access away. */
  lemma {:induction false} MemberOrTrialAppend(roles: seq<string>, more: seq<string>)
    ensures MemberOrTrial(roles + more) == (MemberOrTrial(roles) || MemberOrTrial(more))
  {
    var all := roles + more;
    if MemberOrTrial(roles) {
      var i :| 0 <= i < |roles| && (Lower(roles[i]) == "member" || Lower(roles[i]) == "trial");
      assert all[i] == roles[i];
    }
    if MemberOrTrial(more) {
      var i :| 0 <= i < |more| && (Lower(more[i]) == "member" || Lower(more[i]) == "trial");
      assert all[|roles| + i] == more[i];
    }
    if MemberOrTrial(all) {
      var i :| 0 <= i < |all| && (Lower(all[i]) == "member" || Lower(all[i]) == "trial");
      if i < |roles| {
        assert all[i] == roles[i];
      } else {
        assert all[i] == more[i - |roles|];
      }
    }
  }

  lemma Examples()
    ensures MemberOrTrial(["MeMbEr"])
    ensures MemberOrTrial(["Admin", "TRIAL"])
    ensures !MemberOrTrial(["guest"])
    ensures !MemberOrTrial(["members"])
  {
    assert Lower("MeMbEr") == "member";
    assert Lower("TRIAL") == "trial";
    assert Lower("guest") == "guest";
    assert |Lower("members")| == 7;
  }
}
