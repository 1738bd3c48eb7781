/**
  The fail-closed policy broker of policy.py.  Pattern matching (fnmatch) and rule expiry at the
  moment of the call are given as functions.
 */
module Policy {
  import opened ToolContracts
  import opened Wrappers

  datatype Decision = ALLOW | DENY | REQUIRE_APPROVAL

  datatype Rule = Rule(
    class_: PermissionClass, pattern: string, decision: Decision, requireApproval: bool, expiresAt: Option<string>)

  datatype Moment = Moment(matches: (string, string) -> bool, expired: Option<string> -> bool)

  predicate Applies(rule: Rule, p: Permission, now: Moment) {
    rule.class_ == p.class_ && now.matches(p.scope, rule.pattern) && !now.expired(rule.expiresAt)
  }

  // The applicable rules, in order.
  function Matching(rules: seq<Rule>, p: Permission, now: Moment): seq<Rule> {
    if rules == [] then []
    else
      var before := Matching(rules[..|rules| - 1], p, now);
      if Applies(rules[|rules| - 1], p, now) then before + [rules[|rules| - 1]] else before
  }

  // The head of a stable descending sort by pattern length: the first of the longest.
  function Foremost(matching: seq<Rule>): (k: nat)
    requires matching != []
    ensures k < |matching|
    ensures forall i :: 0 <= i < |matching| ==> |matching[i].pattern| <= |matching[k].pattern|
    ensures forall i :: 0 <= i < k ==> |matching[i].pattern| < |matching[k].pattern|
  {
    if |matching| == 1 then 0
    else
      var n := |matching| - 1;
      var k := Foremost(matching[..n]);
      if |matching[n].pattern| > |matching[k].pattern| then n else k
  }

  function Verdict(rule: Rule): Decision {
    if rule.decision == DENY then DENY
    else if rule.requireApproval || rule.decision == REQUIRE_APPROVAL then REQUIRE_APPROVAL
    else ALLOW
  }

  function Evaluate(rules: seq<Rule>, p: Permission, now: Moment): Decision {
    var matching := Matching(rules, p, now);
    if matching == [] then DENY else Verdict(matching[Foremost(matching)])
  }

  // The rule that decides: applicable, with no longer applicable pattern anywhere and none as long
  // before it.
  ghost predicate Decides(rules: seq<Rule>, p: Permission, now: Moment, k: nat)
    requires k < |rules|
  {
    && Applies(rules[k], p, now)
    && (forall i :: 0 <= i < |rules| && Applies(rules[i], p, now) ==> |rules[i].pattern| <= |rules[k].pattern|)
    && (forall i :: 0 <= i < k && Applies(rules[i], p, now) ==> |rules[i].pattern| < |rules[k].pattern|)
  }

  // Where each applicable rule stands among all.
  function Positions(rules: seq<Rule>, p: Permission, now: Moment): seq<nat> {
    if rules == [] then []
    else
      var n := |rules| - 1;
      var before := Positions(rules[..n], p, now);
      if Applies(rules[n], p, now) then before + [n] else before
  }

  ghost predicate Picks(rules: seq<Rule>, p: Permission, now: Moment, at: seq<nat>, matching: seq<Rule>) {
    && |at| == |matching|
    && (forall j :: 0 <= j < |at| ==> at[j] < |rules| && rules[at[j]] == matching[j] && Applies(rules[at[j]], p, now))
    && (forall i, j :: 0 <= i < j < |at| ==> at[i] < at[j])
    && (forall k :: 0 <= k < |rules| && Applies(rules[k], p, now) ==> k in at)
  }

  lemma {:induction false} PositionsPick(rules: seq<Rule>, p: Permission, now: Moment)
    ensures Picks(rules, p, now, Positions(rules, p, now), Matching(rules, p, now))
  {
    hide Applies;
    if rules != [] {
      var n := |rules| - 1;
      PositionsPick(rules[..n], p, now);
      PickMore(rules, p, now, Positions(rules[..n], p, now), Matching(rules[..n], p, now));
    }
  }

  lemma PickMore(rules: seq<Rule>, p: Permission, now: Moment, at: seq<nat>, matching: seq<Rule>)
    requires rules != [] && Picks(rules[..|rules| - 1], p, now, at, matching)
    ensures var n := |rules| - 1;
            if Applies(rules[n], p, now) then Picks(rules, p, now, at + [n], matching + [rules[n]])
            else Picks(rules, p, now, at, matching)
  {
    hide Applies;
    var n := |rules| - 1;
    forall k | 0 <= k < n && Applies(rules[k], p, now) ensures k in at && k in at + [n] {
      assert rules[..n][k] == rules[k];
    }
  }

  // The broker's decision is that of the deciding rule, and DENY when no rule applies: nothing is
  // allowed unless a rule says so.
  lemma EvaluatesExactly(rules: seq<Rule>, p: Permission, now: Moment)
    ensures (forall k :: 0 <= k < |rules| ==> !Applies(rules[k], p, now)) ==> Evaluate(rules, p, now) == DENY
    ensures forall k: nat :: k < |rules| && Decides(rules, p, now, k) ==> Evaluate(rules, p, now) == Verdict(rules[k])
    ensures (exists k: nat :: k < |rules| && Applies(rules[k], p, now)) ==>
              exists k: nat :: k < |rules| && Decides(rules, p, now, k)
  {
    var at, matching := Positions(rules, p, now), Matching(rules, p, now);
    PositionsPick(rules, p, now);
    hide Matching, Applies, Positions;
    if matching != [] {
      var f := Foremost(matching);
      hide Foremost;
      var d := at[f];
      assert Decides(rules, p, now, d) by {
        forall i | 0 <= i < |rules| && Applies(rules[i], p, now)
          ensures |rules[i].pattern| <= |rules[d].pattern| && (i < d ==> |rules[i].pattern| < |rules[d].pattern|)
        {
          var j :| 0 <= j < |at| && at[j] == i;
          assert i < d ==> j < f;
        }
      }
      forall k: nat | k < |rules| && Decides(rules, p, now, k) ensures k == d {
      }
    }
  }

  // A broker with a single rule: what the rule says, if it is of the class asked for, its pattern
  // matches and it has not expired; otherwise DENY.
  lemma OneRuleDecides(rule: Rule, p: Permission, now: Moment)
    ensures var decision := Evaluate([rule], p, now);
            var applies := rule.class_ == p.class_ && now.matches(p.scope, rule.pattern) && !now.expired(rule.expiresAt);
            && (decision == ALLOW <==> applies && rule.decision == ALLOW && !rule.requireApproval)
            && (decision == DENY <==> !applies || rule.decision == DENY)
  {
    assert [rule][..0] == [];
    assert Matching([], p, now) == [];
  }
}
