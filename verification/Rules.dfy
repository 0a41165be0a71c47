/**
 Allocation rules and the engine's evaluation of them: sort by descending
 priority, then the first rule that matches decides.
 */
module Rules {
  import opened Common

  /** None stands for a NULL column; an empty wing is Some(""). */
  datatype Rule = Rule(
    hostelId: Option<int>,
    year: Option<int>,
    wing: Option<string>,
    isAllowed: bool,
    priority: int)

  predicate EngineMatches(rule: Rule, hostelId: int, wing: Option<string>, year: int) {
    && (rule.hostelId.None? || rule.hostelId.value == hostelId)
    && (rule.wing.None? || rule.wing == wing)
    && (rule.year.None? || rule.year.value == year)
  }

  function FirstMatch(rules: seq<Rule>, hostelId: int, wing: Option<string>, year: int): Option<Rule> {
    if rules == [] then None
    else if EngineMatches(rules[0], hostelId, wing, year) then Some(rules[0])
    else FirstMatch(rules[1..], hostelId, wing, year)
  }

  function HighestFirst(r: Rule): seq<int> {
    [-r.priority]
  }

  /** `sorted(rules, key=priority, reverse=True)`, which keeps ties in order. */
  function ByPriority(rules: seq<Rule>): seq<Rule> {
    SortBy(rules, HighestFirst)
  }

  function DecidingRule(rules: seq<Rule>, hostelId: int, wing: Option<string>, year: int): Option<Rule> {
    FirstMatch(ByPriority(rules), hostelId, wing, year)
  }

  /** No matching rule means allowed. */
  predicate EngineAllows(rules: seq<Rule>, hostelId: int, wing: Option<string>, year: int) {
    var rule := DecidingRule(rules, hostelId, wing, year);
    rule.None? || rule.value.isAllowed
  }

  /** FirstMatch finds a matching rule exactly when there is one, and no earlier rule matches. */
  lemma {:induction false} FirstMatchFinds(rules: seq<Rule>, h: int, w: Option<string>, y: int)
    ensures FirstMatch(rules, h, w, y).None? <==> forall r :: r in rules ==> !EngineMatches(r, h, w, y)
    ensures var m := FirstMatch(rules, h, w, y);
            m.Some? ==> exists i :: 0 <= i < |rules| && rules[i] == m.value && EngineMatches(rules[i], h, w, y)
                          && forall k :: 0 <= k < i ==> !EngineMatches(rules[k], h, w, y)
  {
    if rules != [] {
      var rest := rules[1..];
      assert rules == [rules[0]] + rest;
      FirstMatchFinds(rest, h, w, y);
      if EngineMatches(rules[0], h, w, y) {
        assert rules[0] in rules;
      } else if FirstMatch(rest, h, w, y).Some? {
        var m := FirstMatch(rest, h, w, y).value;
        var i :| 0 <= i < |rest| && rest[i] == m && EngineMatches(rest[i], h, w, y)
                 && forall k :: 0 <= k < i ==> !EngineMatches(rest[k], h, w, y);
        forall k | 0 <= k < i + 1
          ensures !EngineMatches(rules[k], h, w, y)
        {
          if k > 0 { assert rules[k] == rest[k - 1]; }
        }
        assert rules[i + 1] == m;
      }
    }
  }

  ghost predicate DescendingPriority(rules: seq<Rule>) {
    forall i, j :: 0 <= i < j < |rules| ==> rules[i].priority >= rules[j].priority
  }

  lemma ByPriorityDescends(rules: seq<Rule>)
    ensures DescendingPriority(ByPriority(rules))
    ensures multiset(ByPriority(rules)) == multiset(rules)
    ensures forall r :: r in ByPriority(rules) <==> r in rules
  {
    SortByPermutes(rules, HighestFirst);
    SortBySorted(rules, HighestFirst);
    var sorted := SortBy(rules, HighestFirst);
    forall i, j | 0 <= i < j < |sorted|
      ensures sorted[i].priority >= sorted[j].priority
    {
      assert LexLeq(HighestFirst(sorted[i]), HighestFirst(sorted[j]));
    }
  }

  /** In a descending list no matching rule outranks the first match. */
  lemma FirstMatchIsTop(rules: seq<Rule>, h: int, w: Option<string>, y: int, r: Rule)
    requires DescendingPriority(rules)
    requires r in rules && EngineMatches(r, h, w, y)
    ensures FirstMatch(rules, h, w, y).Some?
    ensures FirstMatch(rules, h, w, y).value.priority >= r.priority
  {
  }

  /**
   The rule that decides is one of the matching rules, and no matching rule
   has a higher priority.
   */
  lemma DecidingRuleIsTop(rules: seq<Rule>, h: int, w: Option<string>, y: int)
    ensures DecidingRule(rules, h, w, y).None? <==> forall r :: r in rules ==> !EngineMatches(r, h, w, y)
    ensures var d := DecidingRule(rules, h, w, y);
            d.Some? ==> d.value in rules && EngineMatches(d.value, h, w, y)
                        && forall r :: r in rules && EngineMatches(r, h, w, y) ==> r.priority <= d.value.priority
  {
    ByPriorityDescends(rules);
    FirstMatchFinds(ByPriority(rules), h, w, y);
    forall r | r in rules && EngineMatches(r, h, w, y)
      ensures DecidingRule(rules, h, w, y).Some? && r.priority <= DecidingRule(rules, h, w, y).value.priority
    {
      FirstMatchIsTop(ByPriority(rules), h, w, y, r);
    }
  }

  /** Rule i of the list covers the room and year: each field it has is that of the room or the year. */
  ghost predicate Covers(rules: seq<Rule>, i: int, h: int, w: Option<string>, y: int) {
    && 0 <= i < |rules|
    && (rules[i].hostelId.Some? ==> rules[i].hostelId.value == h)
    && (rules[i].wing.Some? ==> w.Some? && rules[i].wing.value == w.value)
    && (rules[i].year.Some? ==> rules[i].year.value == y)
  }

  /** Rule i covers the room and year, and comes first of those that do: by higher priority, then by its place in the list. */
  ghost predicate Decides(rules: seq<Rule>, i: int, h: int, w: Option<string>, y: int) {
    && Covers(rules, i, h, w, y)
    && forall k :: Covers(rules, k, h, w, y) ==>
         rules[k].priority < rules[i].priority || (rules[k].priority == rules[i].priority && i <= k)
  }

  /** The rule that decides a room and year, and with it the verdict and the priority. */
  lemma DecidingRuleIs(rules: seq<Rule>, h: int, w: Option<string>, y: int, i: int)
    requires Decides(rules, i, h, w, y)
    ensures DecidingRule(rules, h, w, y) == Some(rules[i])
    ensures EngineAllows(rules, h, w, y) <==> rules[i].isAllowed
  {
    var applies := (r: Rule) => EngineMatches(r, h, w, y);
    forall k | 0 <= k < |rules| && applies(rules[k])
      ensures LexLeq(HighestFirst(rules[i]), HighestFirst(rules[k]))
      ensures k < i ==> !LexLeq(HighestFirst(rules[k]), HighestFirst(rules[i]))
    {
      assert Covers(rules, k, h, w, y);
    }
    var f := FirstOfSorted(rules, HighestFirst, applies, i);
    FirstMatchAt(ByPriority(rules), h, w, y, f);
  }

  /** Of the rules that cover a room and year, if there are any, one comes first. */
  lemma SomeRuleDecides(rules: seq<Rule>, h: int, w: Option<string>, y: int, j: int) returns (i: int)
    requires Covers(rules, j, h, w, y)
    ensures Decides(rules, i, h, w, y)
  {
    i := j;
    var k := 0;
    while k < |rules|
      invariant 0 <= k <= |rules| && Covers(rules, i, h, w, y)
      invariant forall m :: Covers(rules, m, h, w, y) && m < k ==>
                  rules[m].priority < rules[i].priority || (rules[m].priority == rules[i].priority && i <= m)
    {
      if Covers(rules, k, h, w, y)
         && (rules[k].priority > rules[i].priority || (rules[k].priority == rules[i].priority && k < i)) {
        i := k;
      }
      k := k + 1;
    }
  }

  lemma {:induction false} FirstMatchAt(rules: seq<Rule>, h: int, w: Option<string>, y: int, f: nat)
    requires f < |rules| && EngineMatches(rules[f], h, w, y) && forall g :: 0 <= g < f ==> !EngineMatches(rules[g], h, w, y)
    ensures FirstMatch(rules, h, w, y) == Some(rules[f])
  {
    if f > 0 {
      FirstMatchAt(rules[1..], h, w, y, f - 1);
    }
  }

  /** Without a rule that covers the room and year, the room is allowed. */
  lemma UncoveredAllowed(rules: seq<Rule>, h: int, w: Option<string>, y: int)
    requires forall i :: !Covers(rules, i, h, w, y)
    ensures DecidingRule(rules, h, w, y).None? && EngineAllows(rules, h, w, y)
  {
    DecidingRuleIsTop(rules, h, w, y);
    forall r | r in rules
      ensures !EngineMatches(r, h, w, y)
    {
      var i :| 0 <= i < |rules| && rules[i] == r;
      assert !Covers(rules, i, h, w, y);
    }
  }
}
