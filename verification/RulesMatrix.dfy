/**
 The rules matrix of the admin screen: its compilation to a rule list, the
 way back, and the two readers of that list.
 */
module RulesMatrix {
  import opened Common
  import opened Rules
  import opened AllocationModel

  type YearMap = map<int, bool>

  datatype HostelConfig = HostelConfig(years: YearMap, wings: map<string, YearMap>)

  type Matrix = map<int, HostelConfig>

  const HOSTEL_PRIORITY := 10
  const WING_PRIORITY := 15

  /** The wing's own entry, else the hostel's entry, else allowed. */
  predicate Lookup(matrix: Matrix, hostelId: int, wing: Option<string>, year: int) {
    if hostelId !in matrix then true
    else if wing.Some? && wing.value in matrix[hostelId].wings && year in matrix[hostelId].wings[wing.value]
    then matrix[hostelId].wings[wing.value][year]
    else if year in matrix[hostelId].years then matrix[hostelId].years[year]
    else true
  }

  // ---------- Compilation ----------

  /** The rule states an entry of the matrix. */
  predicate States(matrix: Matrix, rule: Rule) {
    && rule.hostelId.Some? && rule.hostelId.value in matrix && rule.year.Some?
    && var config := matrix[rule.hostelId.value];
    if rule.wing.None? then StatesYear(config.years, rule, HOSTEL_PRIORITY)
    else rule.wing.value in config.wings && StatesYear(config.wings[rule.wing.value], rule, WING_PRIORITY)
  }

  predicate StatesYear(years: YearMap, rule: Rule, priority: int) {
    rule.year.Some? && rule.year.value in years && rule.isAllowed == years[rule.year.value] && rule.priority == priority
  }

  /** One rule per entry and nothing else, in any order. */
  ghost predicate Compiles(matrix: Matrix, rules: seq<Rule>) {
    Unique(rules) && forall r :: r in rules <==> States(matrix, r)
  }

  /** The rules of a matrix, entry by entry: hostel-wide ones with priority 10, those of a wing with priority 15. */
  lemma CompiledIs(matrix: Matrix, rules: seq<Rule>, h: int, y: int, b: bool)
    requires Compiles(matrix, rules)
    ensures Rule(Some(h), Some(y), None, b, 10) in rules <==> h in matrix && y in matrix[h].years && matrix[h].years[y] == b
    ensures forall w :: Rule(Some(h), Some(y), Some(w), b, 15) in rules <==>
              h in matrix && w in matrix[h].wings && y in matrix[h].wings[w] && matrix[h].wings[w][y] == b
    ensures forall r :: r in rules ==> r.hostelId.Some? && r.year.Some? && r.priority == if r.wing.None? then 10 else 15
  {
  }

  /** The engine, given the compiled rules in any order, decides every room and year as the matrix says. */
  lemma EngineFollowsMatrix(matrix: Matrix, rules: seq<Rule>, hostelId: int, wing: Option<string>, year: int)
    requires Compiles(matrix, rules)
    ensures EngineAllows(rules, hostelId, wing, year) <==> Lookup(matrix, hostelId, wing, year)
  {
    DecidingRuleIsTop(rules, hostelId, wing, year);
    if hostelId in matrix {
      var config := matrix[hostelId];
      if wing.Some? && wing.value in config.wings && year in config.wings[wing.value] {
        var r := Rule(Some(hostelId), Some(year), wing, config.wings[wing.value][year], WING_PRIORITY);
        assert States(matrix, r) && EngineMatches(r, hostelId, wing, year);
      } else if year in config.years {
        var r := Rule(Some(hostelId), Some(year), None, config.years[year], HOSTEL_PRIORITY);
        assert States(matrix, r) && EngineMatches(r, hostelId, wing, year);
      }
    }
  }

  // ---------- The service's own reader ----------

  /** A falsy hostel id, year or wing counts as absent. `wing` is the room's wing name, "Default" if it has none. */
  predicate ScanMatches(rule: Rule, hostelId: int, wing: string, year: int) {
    && (rule.hostelId.None? || rule.hostelId.value == 0 || rule.hostelId.value == hostelId)
    && (rule.year.None? || rule.year.value == 0 || rule.year.value == year)
    && (rule.wing.None? || rule.wing.value == "" || rule.wing.value == wing)
  }

  function WingName(wing: Option<string>): string {
    if wing.Some? && wing.value != "" then wing.value else "Default"
  }

  function FirstScanned(rules: seq<Rule>, hostelId: int, wing: string, year: int): Option<Rule> {
    if rules == [] then None
    else if ScanMatches(rules[0], hostelId, wing, year) then Some(rules[0])
    else FirstScanned(rules[1..], hostelId, wing, year)
  }

  predicate ScanAllows(rules: seq<Rule>, hostelId: int, wing: string, year: int) {
    var rule := FirstScanned(rules, hostelId, wing, year);
    rule.None? || rule.value.isAllowed
  }

  /** No field is present but falsy, and the wing is not the name given to rooms without one. */
  predicate Plain(rule: Rule) {
    rule.hostelId != Some(0) && rule.year != Some(0) && rule.wing != Some("") && rule.wing != Some("Default")
  }

  /** The two readers agree on whether a rule applies, for every room and year, exactly when the rule is plain. */
  lemma ReadAlikeIff(rule: Rule)
    ensures Plain(rule) <==> forall h, w: Option<string>, y :: EngineMatches(rule, h, w, y) <==> ScanMatches(rule, h, WingName(w), y)
  {
    var h := if rule.hostelId == Some(0) then 1 else if rule.hostelId.Some? then rule.hostelId.value else 0;
    var y := if rule.year == Some(0) then 1 else if rule.year.Some? then rule.year.value else 0;
    var w := if rule.wing == Some("") then Some("A") else if rule.wing == Some("Default") then None else rule.wing;
    if !Plain(rule) {
      assert ScanMatches(rule, h, WingName(w), y) && !EngineMatches(rule, h, w, y);
    }
  }

  lemma {:induction false} ScanAgreesOnPlain(rules: seq<Rule>, h: int, w: Option<string>, y: int)
    requires forall r :: r in rules ==> (EngineMatches(r, h, w, y) <==> ScanMatches(r, h, WingName(w), y))
    ensures FirstScanned(rules, h, WingName(w), y) == FirstMatch(rules, h, w, y)
  {
    if rules != [] {
      assert rules == [rules[0]] + rules[1..];
      assert rules[0] in rules;
      ScanAgreesOnPlain(rules[1..], h, w, y);
    }
  }

  ghost predicate DistinctPriorities(rules: seq<Rule>) {
    forall a, b :: a in rules && b in rules && a.priority == b.priority ==> a == b
  }

  /** The rule applies to the room and year, and no rule that applies outranks it. */
  ghost predicate IsTop(rules: seq<Rule>, r: Rule, h: int, w: Option<string>, y: int) {
    && r in rules && EngineMatches(r, h, w, y)
    && forall q :: q in rules && EngineMatches(q, h, w, y) ==> q.priority <= r.priority
  }

  /** The highest rules that apply say the same. */
  ghost predicate TopAgrees(rules: seq<Rule>, h: int, w: Option<string>, y: int) {
    forall a, b :: IsTop(rules, a, h, w, y) && IsTop(rules, b, h, w, y) ==> a.isAllowed == b.isAllowed
  }

  /** An order in which the service may read the rules. */
  ghost predicate IsScan(rules: seq<Rule>, scan: seq<Rule>) {
    DescendingPriority(scan) && multiset(scan) == multiset(rules)
  }

  /** In any descending order the first rule that applies is a highest one. */
  lemma FirstIsTop(rules: seq<Rule>, scan: seq<Rule>, h: int, w: Option<string>, y: int)
    requires DescendingPriority(scan) && forall r :: r in scan <==> r in rules
    ensures FirstMatch(scan, h, w, y).None? <==> forall r :: r in rules ==> !EngineMatches(r, h, w, y)
    ensures FirstMatch(scan, h, w, y).Some? ==> IsTop(rules, FirstMatch(scan, h, w, y).value, h, w, y)
  {
    FirstMatchFinds(scan, h, w, y);
    forall q | q in rules && EngineMatches(q, h, w, y)
      ensures FirstMatch(scan, h, w, y).Some? && q.priority <= FirstMatch(scan, h, w, y).value.priority
    {
      FirstMatchIsTop(scan, h, w, y, q);
    }
  }

  lemma PlainScan(rules: seq<Rule>, scan: seq<Rule>, h: int, w: Option<string>, y: int)
    requires (forall r :: r in rules ==> Plain(r)) && forall r :: r in scan <==> r in rules
    ensures FirstScanned(scan, h, WingName(w), y) == FirstMatch(scan, h, w, y)
  {
    forall r | r in scan
      ensures EngineMatches(r, h, w, y) <==> ScanMatches(r, h, WingName(w), y)
    {
      ReadAlikeIff(r);
    }
    ScanAgreesOnPlain(scan, h, w, y);
  }

  lemma PlainVerdict(rules: seq<Rule>, scan: seq<Rule>, h: int, w: Option<string>, y: int)
    requires (forall r :: r in rules ==> Plain(r)) && TopAgrees(rules, h, w, y)
    requires DescendingPriority(scan) && forall r :: r in scan <==> r in rules
    ensures ScanAllows(scan, h, WingName(w), y) <==> EngineAllows(rules, h, w, y)
  {
    PlainScan(rules, scan, h, w, y);
    ByPriorityDescends(rules);
    FirstIsTop(rules, scan, h, w, y);
    FirstIsTop(rules, ByPriority(rules), h, w, y);
  }

  function RuleFirst(r: Rule): Rule -> seq<int> {
    (q: Rule) => [-q.priority, if q == r then 0 else 1]
  }

  lemma RuleFirstOrder(r: Rule, a: Rule, b: Rule)
    requires LexLeq(RuleFirst(r)(a), RuleFirst(r)(b))
    ensures a.priority >= b.priority && (a.priority == b.priority && b == r ==> a == r)
  {
    var last := RuleFirst(r)(b)[1..];
    assert last == [if b == r then 0 else 1] && last[1..] == [];
    assert RuleFirst(r)(a)[1..] == [if a == r then 0 else 1];
  }

  /** A rule that none outranks is the one that decides in some order of reading. */
  lemma SomeScanFollows(rules: seq<Rule>, r: Rule, h: int, w: Option<string>, y: int) returns (scan: seq<Rule>)
    requires IsTop(rules, r, h, w, y)
    ensures IsScan(rules, scan) && FirstMatch(scan, h, w, y) == Some(r)
  {
    scan := SortBy(rules, RuleFirst(r));
    SortByPermutes(rules, RuleFirst(r));
    SortBySorted(rules, RuleFirst(r));
    forall i, j | 0 <= i < j < |scan|
      ensures scan[i].priority >= scan[j].priority && (scan[i].priority == scan[j].priority && scan[j] == r ==> scan[i] == r)
    {
      RuleFirstOrder(r, scan[i], scan[j]);
    }
    FollowsFirst(rules, scan, r, h, w, y);
  }

  lemma FollowsFirst(rules: seq<Rule>, scan: seq<Rule>, r: Rule, h: int, w: Option<string>, y: int)
    requires DescendingPriority(scan) && (forall q :: q in scan <==> q in rules) && IsTop(rules, r, h, w, y)
    requires forall i, j :: 0 <= i < j < |scan| && scan[i].priority == scan[j].priority && scan[j] == r ==> scan[i] == r
    ensures FirstMatch(scan, h, w, y) == Some(r)
  {
    FirstMatchFinds(scan, h, w, y);
    FirstIsTop(rules, scan, h, w, y);
    var j :| 0 <= j < |scan| && scan[j] == r;
    var i :| 0 <= i < |scan| && scan[i] == FirstMatch(scan, h, w, y).value && forall k :: 0 <= k < i ==> !EngineMatches(scan[k], h, w, y);
    assert i <= j;
  }

  /** When highest rules disagree, the service may read the rules in an order that contradicts the engine. */
  lemma TiesCanSplitReaders(rules: seq<Rule>, h: int, w: Option<string>, y: int) returns (scan: seq<Rule>)
    requires (forall r :: r in rules ==> Plain(r)) && !TopAgrees(rules, h, w, y)
    ensures IsScan(rules, scan) && ScanAllows(scan, h, WingName(w), y) != EngineAllows(rules, h, w, y)
  {
    var a, b :| IsTop(rules, a, h, w, y) && IsTop(rules, b, h, w, y) && a.isAllowed != b.isAllowed;
    scan := SomeScanFollows(rules, if a.isAllowed == EngineAllows(rules, h, w, y) then b else a, h, w, y);
    SameElements(scan, rules);
    PlainScan(rules, scan, h, w, y);
  }

  /**
   For plain rules, the engine and the service give the same verdict on a
   hostel, wing and year, in whatever descending order the service reads the
   rules, exactly when the highest rules that apply say the same.
   */
  lemma EvaluatorsAgreeIff(rules: seq<Rule>, h: int, w: Option<string>, y: int)
    requires forall r :: r in rules ==> Plain(r)
    ensures (forall scan :: IsScan(rules, scan) ==> (ScanAllows(scan, h, WingName(w), y) <==> EngineAllows(rules, h, w, y)))
            <==> TopAgrees(rules, h, w, y)
  {
    if TopAgrees(rules, h, w, y) {
      forall scan | IsScan(rules, scan)
        ensures ScanAllows(scan, h, WingName(w), y) <==> EngineAllows(rules, h, w, y)
      {
        SameElements(scan, rules);
        PlainVerdict(rules, scan, h, w, y);
      }
    } else {
      var scan := TiesCanSplitReaders(rules, h, w, y);
      assert IsScan(rules, scan);
    }
  }

  /** In particular with distinct priorities, for every hostel, wing and year. */
  lemma EvaluatorsAgree(rules: seq<Rule>, scan: seq<Rule>, h: int, w: Option<string>, y: int)
    requires (forall r :: r in rules ==> Plain(r)) && DistinctPriorities(rules) && IsScan(rules, scan)
    ensures ScanAllows(scan, h, WingName(w), y) <==> EngineAllows(rules, h, w, y)
  {
    assert TopAgrees(rules, h, w, y);
    EvaluatorsAgreeIff(rules, h, w, y);
  }

  /** No zero id, no zero year, and no wing named "" or "Default". */
  predicate PlainMatrix(matrix: Matrix) {
    forall h :: h in matrix ==>
      && h != 0 && 0 !in matrix[h].years && "" !in matrix[h].wings && "Default" !in matrix[h].wings
      && forall w :: w in matrix[h].wings ==> 0 !in matrix[h].wings[w]
  }

  lemma StatedPlainly(matrix: Matrix, rule: Rule)
    requires PlainMatrix(matrix) && States(matrix, rule)
    ensures Plain(rule)
  {
    var h, y := rule.hostelId.value, rule.year.value;
    assert h in matrix && h != 0 && 0 !in matrix[h].years;
    if rule.wing.Some? {
      assert rule.wing.value in matrix[h].wings && 0 !in matrix[h].wings[rule.wing.value];
    }
    assert y != 0;
  }

  /** The service's reader, on rules saved from a plain matrix, decides every room and year as the matrix says. */
  lemma ServiceFollowsMatrix(matrix: Matrix, rules: seq<Rule>, scan: seq<Rule>, h: int, w: Option<string>, y: int)
    requires Compiles(matrix, rules) && PlainMatrix(matrix)
    requires DescendingPriority(scan) && forall r :: r in scan <==> r in rules
    ensures ScanAllows(scan, h, WingName(w), y) <==> Lookup(matrix, h, w, y)
  {
    EngineFollowsMatrix(matrix, rules, h, w, y);
    forall r | r in rules
      ensures Plain(r)
    {
      StatedPlainly(matrix, r);
    }
    PlainVerdict(rules, scan, h, w, y);
  }

  /** The hostel test of the eligibility page. */
  predicate HostelShown(hostel: Hostel, student: Student) {
    && !(hostel.genderType.Male? && !student.gender.Male?)
    && !(hostel.genderType.Female? && !student.gender.Female?)
  }

  /** The room lies in a wing that the student is shown. */
  predicate RoomShown(inp: Inputs, student: Student, room: Room, scan: seq<Rule>)
    requires room.hostelId in inp.hostels
  {
    HostelShown(inp.hostels[room.hostelId], student) && ScanAllows(scan, room.hostelId, WingName(room.wing), student.year)
  }

  /**
   A room the engine may give a student is a room of a wing the student is
   shown, and the other way round, for an available room that is not the
   student's current one, under plain rules: in every order of reading exactly
   when the highest rules on the room agree, or the student's gender keeps the
   student out of the hostel anyway.
   */
  lemma ShownIffValid(inp: Inputs, student: Student, room: Room)
    requires room.status.Available? && room.hostelId in inp.hostels && !IsCurrentRoom(student, room)
    requires !student.gender.CoEd?
    requires forall r :: r in inp.rules ==> Plain(r)
    ensures (forall scan :: IsScan(inp.rules, scan) ==> (ValidRoom(inp, student, room) <==> RoomShown(inp, student, room, scan)))
            <==> TopAgrees(inp.rules, room.hostelId, room.wing, student.year) || !HostelShown(inp.hostels[room.hostelId], student)
  {
    EvaluatorsAgreeIff(inp.rules, room.hostelId, room.wing, student.year);
    if HostelShown(inp.hostels[room.hostelId], student) {
      assert forall scan :: RoomShown(inp, student, room, scan) == ScanAllows(scan, room.hostelId, WingName(room.wing), student.year);
    }
  }

  // ---------- Reading the matrix back ----------

  predicate HasEntry(years: YearMap) {
    exists y :: y in years
  }

  function Blank(hostels: map<int, set<string>>): Matrix {
    map h | h in hostels :: HostelConfig(map[], map w | w in hostels[h] :: map[])
  }

  predicate Skipped(matrix: Matrix, rule: Rule) {
    rule.hostelId.None? || rule.year.None? || rule.hostelId.value !in matrix
  }

  predicate HostelWide(rule: Rule) {
    rule.wing.None? || rule.wing.value == ""
  }

  function ReadRule(matrix: Matrix, rule: Rule): Matrix {
    if Skipped(matrix, rule) then matrix
    else
      var h, y := rule.hostelId.value, rule.year.value;
      var config := matrix[h];
      if HostelWide(rule) then matrix[h := config.(years := config.years[y := rule.isAllowed])]
      else
        var w := rule.wing.value;
        var before := if w in config.wings then config.wings[w] else map[];
        matrix[h := config.(wings := config.wings[w := before[y := rule.isAllowed]])]
  }

  /** The matrix the rules are read back as; of two rules on one entry the later one stays. */
  function ReadAll(hostels: map<int, set<string>>, rules: seq<Rule>): Matrix {
    if rules == [] then Blank(hostels) else ReadRule(ReadAll(hostels, rules[..|rules| - 1]), rules[|rules| - 1])
  }

  /** r sets the entry of hostel h, year y: the hostel-wide one for an empty w, else that of wing w. */
  predicate Sets(r: Rule, h: int, w: string, y: int) {
    r.hostelId == Some(h) && r.year == Some(y) && (if HostelWide(r) then w == "" else r.wing.value == w)
  }

  function Entry(matrix: Matrix, h: int, w: string): YearMap
    requires h in matrix
  {
    if w == "" then matrix[h].years else if w in matrix[h].wings then matrix[h].wings[w] else map[]
  }

  /** Every entry read back comes from a rule that sets it, and every such rule makes an entry. */
  lemma {:induction false} ReadEntry(hostels: map<int, set<string>>, rules: seq<Rule>, h: int, w: string, y: int)
    requires h in hostels
    ensures ReadAll(hostels, rules).Keys == hostels.Keys
    ensures y in Entry(ReadAll(hostels, rules), h, w) <==> exists r :: r in rules && Sets(r, h, w, y)
    ensures y in Entry(ReadAll(hostels, rules), h, w)
            ==> exists r :: r in rules && Sets(r, h, w, y) && r.isAllowed == Entry(ReadAll(hostels, rules), h, w)[y]
  {
    if rules != [] {
      var n := |rules| - 1;
      assert rules == rules[..n] + [rules[n]];
      ReadEntry(hostels, rules[..n], h, w, y);
      var before, after := Entry(ReadAll(hostels, rules[..n]), h, w), Entry(ReadAll(hostels, rules), h, w);
      if Sets(rules[n], h, w, y) {
        assert rules[n] in rules;
        assert after == before[y := rules[n].isAllowed];
      } else {
        assert y in after <==> y in before;
        assert y in after ==> after[y] == before[y];
        assert (exists r :: r in rules && Sets(r, h, w, y)) <==> (exists r :: r in rules[..n] && Sets(r, h, w, y));
      }
    }
  }

  /** Of several rules that set one entry the last one counts. */
  lemma {:induction false} ReadLast(hostels: map<int, set<string>>, rules: seq<Rule>, h: int, w: string, y: int, k: nat)
    requires h in hostels && k < |rules| && Sets(rules[k], h, w, y) && forall i :: k < i < |rules| ==> !Sets(rules[i], h, w, y)
    ensures h in ReadAll(hostels, rules) && y in Entry(ReadAll(hostels, rules), h, w)
    ensures Entry(ReadAll(hostels, rules), h, w)[y] == rules[k].isAllowed
  {
    var n := |rules| - 1;
    ReadEntry(hostels, rules[..n], h, w, y);
    if k < n {
      ReadLast(hostels, rules[..n], h, w, y, k);
      var before, after := Entry(ReadAll(hostels, rules[..n]), h, w), Entry(ReadAll(hostels, rules), h, w);
      assert y in after && after[y] == before[y];
    } else {
      assert Entry(ReadAll(hostels, rules), h, w) == Entry(ReadAll(hostels, rules[..n]), h, w)[y := rules[k].isAllowed];
    }
  }

  /** The wings of a hostel after reading: those of its rooms, and those named by some rule. Never the empty name. */
  lemma {:induction false} ReadWings(hostels: map<int, set<string>>, rules: seq<Rule>, h: int, w: string)
    requires h in hostels && forall k :: k in hostels ==> "" !in hostels[k]
    ensures ReadAll(hostels, rules).Keys == hostels.Keys
    ensures w in ReadAll(hostels, rules)[h].wings <==>
            w in hostels[h]
            || (w != "" && exists r :: r in rules && r.hostelId == Some(h) && r.year.Some? && r.wing == Some(w))
  {
    if rules != [] {
      var n := |rules| - 1;
      assert rules == rules[..n] + [rules[n]];
      ReadWings(hostels, rules[..n], h, w);
    }
  }

  /**
   What the matrix must be like to come back unchanged: over exactly the
   existing hostels, with every room wing present, no wing named "", and no
   wing beyond the room wings without an entry.
   */
  predicate ComesBack(hostels: map<int, set<string>>, matrix: Matrix) {
    && matrix.Keys == hostels.Keys
    && forall h :: h in matrix ==>
         && hostels[h] <= matrix[h].wings.Keys
         && "" !in matrix[h].wings
         && forall w :: w in matrix[h].wings && w !in hostels[h] ==> HasEntry(matrix[h].wings[w])
  }

  /** Save, then get: the matrix comes back exactly when it fits the hostels. */
  lemma SaveThenGetIff(hostels: map<int, set<string>>, matrix: Matrix, rules: seq<Rule>)
    requires forall k :: k in hostels ==> "" !in hostels[k]
    requires Compiles(matrix, rules)
    ensures ReadAll(hostels, rules) == matrix <==> ComesBack(hostels, matrix)
  {
    var back := ReadAll(hostels, rules);
    BackKeys(hostels, rules);
    forall h | h in hostels && h in matrix
      ensures "" !in matrix[h].wings ==> back[h].years == matrix[h].years
      ensures forall w :: w in back[h].wings <==> w in hostels[h] || (w != "" && w in matrix[h].wings && HasEntry(matrix[h].wings[w]))
      ensures forall w :: w in back[h].wings && w in matrix[h].wings ==> back[h].wings[w] == matrix[h].wings[w]
    {
      BackConfig(hostels, matrix, rules, h);
    }
    if ComesBack(hostels, matrix) {
      forall h | h in matrix
        ensures back[h] == matrix[h]
      {
        assert back[h].wings.Keys == matrix[h].wings.Keys;
      }
    }
    if back == matrix {
      forall h | h in matrix
        ensures hostels[h] <= matrix[h].wings.Keys && "" !in matrix[h].wings
        ensures forall w :: w in matrix[h].wings && w !in hostels[h] ==> HasEntry(matrix[h].wings[w])
      {
        assert back[h] == matrix[h];
      }
    }
  }

  lemma {:induction false} BackKeys(hostels: map<int, set<string>>, rules: seq<Rule>)
    ensures ReadAll(hostels, rules).Keys == hostels.Keys
  {
    if rules != [] {
      BackKeys(hostels, rules[..|rules| - 1]);
    }
  }

  lemma BackConfig(hostels: map<int, set<string>>, matrix: Matrix, rules: seq<Rule>, h: int)
    requires h in hostels && h in matrix && (forall k :: k in hostels ==> "" !in hostels[k]) && Compiles(matrix, rules)
    ensures h in ReadAll(hostels, rules)
    ensures var config := ReadAll(hostels, rules)[h];
            && ("" !in matrix[h].wings ==> config.years == matrix[h].years)
            && (forall w :: w in config.wings <==> w in hostels[h] || (w != "" && w in matrix[h].wings && HasEntry(matrix[h].wings[w])))
            && (forall w :: w in config.wings && w in matrix[h].wings ==> config.wings[w] == matrix[h].wings[w])
  {
    BackKeys(hostels, rules);
    var config := ReadAll(hostels, rules)[h];
    forall w
      ensures w in config.wings <==> w in hostels[h] || (w != "" && w in matrix[h].wings && HasEntry(matrix[h].wings[w]))
    {
      ReadWings(hostels, rules, h, w);
      WingNamedIff(matrix, rules, h, w);
    }
    if "" !in matrix[h].wings {
      BackYears(hostels, matrix, rules, h, "");
    }
    forall w | w in config.wings && w in matrix[h].wings
      ensures config.wings[w] == matrix[h].wings[w]
    {
      BackYears(hostels, matrix, rules, h, w);
    }
  }

  lemma WingNamedIff(matrix: Matrix, rules: seq<Rule>, h: int, w: string)
    requires h in matrix && Compiles(matrix, rules)
    ensures (exists r :: r in rules && r.hostelId == Some(h) && r.year.Some? && r.wing == Some(w))
            <==> w in matrix[h].wings && HasEntry(matrix[h].wings[w])
  {
    if r :| r in rules && r.hostelId == Some(h) && r.year.Some? && r.wing == Some(w) {
      var y: int := r.year.value;
      assert States(matrix, r) && y in matrix[h].wings[w];
    }
    if w in matrix[h].wings && HasEntry(matrix[h].wings[w]) {
      var y :| y in matrix[h].wings[w];
      var r := Rule(Some(h), Some(y), Some(w), matrix[h].wings[w][y], WING_PRIORITY);
      assert States(matrix, r) && r in rules;
    }
  }

  /** The years of one entry list come back, for a wing name in use or for the hostel when no wing is nameless. */
  lemma BackYears(hostels: map<int, set<string>>, matrix: Matrix, rules: seq<Rule>, h: int, w: string)
    requires h in hostels && h in matrix && Compiles(matrix, rules)
    requires w == "" ==> "" !in matrix[h].wings
    ensures h in ReadAll(hostels, rules)
    ensures Entry(ReadAll(hostels, rules), h, w) == Entry(matrix, h, w)
  {
    BackKeys(hostels, rules);
    var back, years := Entry(ReadAll(hostels, rules), h, w), Entry(matrix, h, w);
    forall y
      ensures y in back <==> y in years
      ensures y in back && y in years ==> back[y] == years[y]
    {
      ReadEntry(hostels, rules, h, w, y);
      if y in years {
        var r := Rule(Some(h), Some(y), if w == "" then None else Some(w), years[y], if w == "" then HOSTEL_PRIORITY else WING_PRIORITY);
        assert States(matrix, r) && r in rules && Sets(r, h, w, y);
      }
    }
  }

  // ---------- The service ----------

  /** The rules for the years of one entry list. */
  ghost predicate YearRules(rules: seq<Rule>, hostelId: int, wing: Option<string>, years: YearMap, done: set<int>, priority: int) {
    && Unique(rules)
    && forall r :: r in rules <==>
         r.hostelId == Some(hostelId) && r.wing == wing && StatesYear(years, r, priority) && r.year.value in done
  }

  /** The rules for some of a hostel's wings. */
  ghost predicate WingRules(rules: seq<Rule>, hostelId: int, wings: map<string, YearMap>, done: set<string>) {
    && Unique(rules)
    && forall r :: r in rules <==>
         r.hostelId == Some(hostelId) && r.wing.Some? && r.wing.value in wings && r.wing.value in done
         && StatesYear(wings[r.wing.value], r, WING_PRIORITY)
  }

  /** The rules for some of the hostels. */
  ghost predicate HostelRules(rules: seq<Rule>, matrix: Matrix, done: set<int>) {
    Unique(rules) && forall r :: r in rules <==> States(matrix, r) && r.hostelId.value in done
  }

  lemma UniqueConcat<T>(a: seq<T>, b: seq<T>)
    requires Unique(a) && Unique(b) && forall x :: x in a ==> x !in b
    ensures Unique(a + b)
  {
    forall i, j | 0 <= i < j < |a + b|
      ensures (a + b)[i] != (a + b)[j]
    {
      if i < |a| <= j {
        assert a[i] in a && b[j - |a|] in b;
      }
    }
  }

  method MakeYearRules(hostelId: int, wing: Option<string>, years: YearMap, priority: int) returns (rules: seq<Rule>)
    ensures YearRules(rules, hostelId, wing, years, years.Keys, priority)
  {
    rules := [];
    var todo := years.Keys;
    while todo != {}
      invariant todo <= years.Keys
      invariant YearRules(rules, hostelId, wing, years, years.Keys - todo, priority)
      decreases |todo|
    {
      SomeMember(todo);
      var year: int :| year in todo;
      var rule := Rule(Some(hostelId), Some(year), wing, years[year], priority);
      rules := rules + [rule];
      todo := todo - {year};
    }
    assert years.Keys - todo == years.Keys;
  }

  method MakeWingRules(hostelId: int, wings: map<string, YearMap>) returns (rules: seq<Rule>)
    ensures WingRules(rules, hostelId, wings, wings.Keys)
  {
    rules := [];
    var todo := wings.Keys;
    while todo != {}
      invariant todo <= wings.Keys
      invariant WingRules(rules, hostelId, wings, wings.Keys - todo)
      decreases |todo|
    {
      var wing :| wing in todo;
      var more := MakeYearRules(hostelId, Some(wing), wings[wing], WING_PRIORITY);
      UniqueConcat(rules, more);
      rules := rules + more;
      todo := todo - {wing};
    }
    assert wings.Keys - todo == wings.Keys;
  }

  class RulesService {
    var rules: seq<Rule>

    /** Replaces all rules by one per entry of the matrix. */
    method SaveRulesMatrix(matrix: Matrix) returns (count: nat)
      modifies this
      ensures Compiles(matrix, rules) && count == |rules|
    {
      rules := [];
      var todo := matrix.Keys;
      while todo != {}
        invariant todo <= matrix.Keys
        invariant HostelRules(rules, matrix, matrix.Keys - todo)
        decreases |todo|
      {
        SomeMember(todo);
        var hostelId: int :| hostelId in todo;
        var config := matrix[hostelId];
        var own := MakeYearRules(hostelId, None, config.years, HOSTEL_PRIORITY);
        var wings := MakeWingRules(hostelId, config.wings);
        UniqueConcat(own, wings);
        UniqueConcat(rules, own + wings);
        rules := rules + (own + wings);
        todo := todo - {hostelId};
      }
      return |rules|;
    }

    /** Reads the matrix back over the existing hostels and the wings of their rooms. */
    method GetRulesMatrix(roomWings: map<int, seq<Option<string>>>) returns (matrix: Matrix)
      ensures matrix == ReadAll(NamedWings(roomWings), rules)
    {
      matrix := Blank(NamedWings(roomWings));
      var k := 0;
      while k < |rules|
        invariant 0 <= k <= |rules|
        invariant matrix == ReadAll(NamedWings(roomWings), rules[..k])
      {
        assert rules[..k + 1][..k] == rules[..k];
        ghost var before := matrix;
        var rule := rules[k];
        if rule.hostelId.Some? && rule.year.Some? && rule.hostelId.value in matrix {
          var h, y := rule.hostelId.value, rule.year.value;
          if rule.wing.None? || rule.wing.value == "" {
            matrix := matrix[h := matrix[h].(years := matrix[h].years[y := rule.isAllowed])];
          } else {
            var w := rule.wing.value;
            if w !in matrix[h].wings {
              matrix := matrix[h := matrix[h].(wings := matrix[h].wings[w := map[]])];
            }
            matrix := matrix[h := matrix[h].(wings := matrix[h].wings[w := matrix[h].wings[w][y := rule.isAllowed]])];
            assert matrix[h].wings == ReadRule(before, rule)[h].wings;
          }
        }
        assert matrix == ReadRule(before, rule);
        k := k + 1;
      }
      assert rules[..k] == rules;
    }
  }

  function NamedWings(roomWings: map<int, seq<Option<string>>>): (hostels: map<int, set<string>>)
    ensures forall h :: h in hostels ==> "" !in hostels[h]
  {
    map h | h in roomWings :: set w | w in roomWings[h] && w.Some? && w.value != "" :: w.value
  }

  /** Saving a matrix and reading it back at once. */
  method SaveThenGet(service: RulesService, matrix: Matrix, roomWings: map<int, seq<Option<string>>>) returns (back: Matrix)
    modifies service
    ensures back == matrix <==> ComesBack(NamedWings(roomWings), matrix)
  {
    var _ := service.SaveRulesMatrix(matrix);
    back := service.GetRulesMatrix(roomWings);
    SaveThenGetIff(NamedWings(roomWings), matrix, service.rules);
  }

  // ---------- What a student is shown ----------

  datatype WingRoom = WingRoom(wing: Option<string>, capacity: nat)

  datatype WingOffer = WingOffer(name: string, maxRoommates: nat, totalSpots: nat)

  function Spots(rooms: seq<WingRoom>, name: string): nat {
    if rooms == [] then 0
    else
      var n := |rooms| - 1;
      Spots(rooms[..n], name) + (if WingName(rooms[n].wing) == name then rooms[n].capacity else 0)
  }

  function Largest(rooms: seq<WingRoom>, name: string): nat {
    if rooms == [] then 0
    else
      var n := |rooms| - 1;
      var before := Largest(rooms[..n], name);
      if WingName(rooms[n].wing) == name && rooms[n].capacity > before then rooms[n].capacity else before
  }

  predicate HasWing(rooms: seq<WingRoom>, name: string) {
    exists k :: 0 <= k < |rooms| && WingName(rooms[k].wing) == name
  }

  /** One offer for each wing of the list that the rules admit, and none for any other. */
  ghost predicate Offers(rooms: seq<WingRoom>, scan: seq<Rule>, hostelId: int, year: int, names: seq<string>, offers: seq<WingOffer>) {
    && (forall i, j :: 0 <= i < j < |offers| ==> offers[i].name != offers[j].name)
    && (forall i :: 0 <= i < |offers| ==>
          && offers[i].totalSpots == Spots(rooms, offers[i].name)
          && offers[i].maxRoommates == (if Largest(rooms, offers[i].name) > 0 then Largest(rooms, offers[i].name) - 1 else 0))
    && (forall name :: (exists i :: 0 <= i < |offers| && offers[i].name == name)
                       <==> name in names && ScanAllows(scan, hostelId, name, year))
  }

  /** The wings of one hostel with their largest rooms, as collected room by room. */
  method CollectWings(rooms: seq<WingRoom>) returns (names: seq<string>, largest: map<string, nat>)
    ensures Unique(names) && (forall name :: name in names <==> HasWing(rooms, name))
    ensures (forall name :: name in names <==> name in largest) && forall name :: name in largest ==> largest[name] == Largest(rooms, name)
  {
    names, largest := [], map[];
    var k := 0;
    while k < |rooms|
      invariant 0 <= k <= |rooms|
      invariant Collected(rooms[..k], names, largest)
    {
      var name := WingName(rooms[k].wing);
      CollectedNext(rooms, k, names, largest);
      if name !in largest {
        names := names + [name];
        largest := largest[name := 0];
      }
      if rooms[k].capacity > largest[name] {
        largest := largest[name := rooms[k].capacity];
      }
      k := k + 1;
    }
    assert rooms[..k] == rooms;
  }

  ghost predicate Collected(rooms: seq<WingRoom>, names: seq<string>, largest: map<string, nat>) {
    && Unique(names) && (forall name :: name in names <==> HasWing(rooms, name))
    && (forall name :: name in names <==> name in largest)
    && (forall name :: name in largest ==> largest[name] == Largest(rooms, name))
    && (forall name :: name !in largest ==> Largest(rooms, name) == 0)
  }

  lemma CollectedNext(rooms: seq<WingRoom>, k: nat, names: seq<string>, largest: map<string, nat>)
    requires k < |rooms| && Collected(rooms[..k], names, largest)
    ensures var name, capacity := WingName(rooms[k].wing), rooms[k].capacity;
            var names' := if name in largest then names else names + [name];
            var begun := if name in largest then largest else largest[name := 0];
            Collected(rooms[..k + 1], names', if capacity > begun[name] then begun[name := capacity] else begun)
  {
    LargestNext(rooms, k);
  }

  /** The largest room of a wing and all of its beds. */
  lemma {:induction false} LargestIs(rooms: seq<WingRoom>, name: string)
    ensures forall k :: 0 <= k < |rooms| && WingName(rooms[k].wing) == name ==> rooms[k].capacity <= Largest(rooms, name)
    ensures Largest(rooms, name) == 0 || exists k :: 0 <= k < |rooms| && WingName(rooms[k].wing) == name && rooms[k].capacity == Largest(rooms, name)
    ensures Spots(rooms, name) == Total(rooms, (r: WingRoom) => if WingName(r.wing) == name then r.capacity else 0)
  {
    if rooms != [] {
      LargestIs(rooms[..|rooms| - 1], name);
    }
  }

  lemma LargestNext(rooms: seq<WingRoom>, k: nat)
    requires k < |rooms|
    ensures forall name :: HasWing(rooms[..k + 1], name) <==> HasWing(rooms[..k], name) || name == WingName(rooms[k].wing)
    ensures forall name :: Largest(rooms[..k + 1], name) ==
              if name == WingName(rooms[k].wing) && rooms[k].capacity > Largest(rooms[..k], name) then rooms[k].capacity
              else Largest(rooms[..k], name)
  {
    var upto := rooms[..k + 1];
    assert upto[..k] == rooms[..k];
    forall name
      ensures HasWing(upto, name) <==> HasWing(rooms[..k], name) || name == WingName(rooms[k].wing)
    {
      assert upto[k] == rooms[k];
      if HasWing(rooms[..k], name) {
        var j :| 0 <= j < k && WingName(rooms[..k][j].wing) == name;
        assert upto[j] == rooms[..k][j];
      }
      if HasWing(upto, name) {
        var j :| 0 <= j <= k && WingName(upto[j].wing) == name;
        if j < k {
          assert rooms[..k][j] == upto[j];
        }
      }
    }
  }

  method TotalSpots(rooms: seq<WingRoom>, name: string) returns (sum: nat)
    ensures sum == Spots(rooms, name)
  {
    sum := 0;
    var k := 0;
    while k < |rooms|
      invariant 0 <= k <= |rooms|
      invariant sum == Spots(rooms[..k], name)
    {
      assert rooms[..k + 1][..k] == rooms[..k];
      if WingName(rooms[k].wing) == name {
        sum := sum + rooms[k].capacity;
      }
      k := k + 1;
    }
    assert rooms[..k] == rooms;
  }

  /** The scan over the rules, by descending priority; the first that matches decides. */
  method IsBlocked(scan: seq<Rule>, hostelId: int, wing: string, year: int) returns (blocked: bool)
    ensures blocked <==> !ScanAllows(scan, hostelId, wing, year)
  {
    blocked := false;
    var k := 0;
    while k < |scan|
      invariant 0 <= k <= |scan|
      invariant FirstScanned(scan, hostelId, wing, year) == FirstScanned(scan[k..], hostelId, wing, year)
    {
      if ScanMatches(scan[k], hostelId, wing, year) {
        return !scan[k].isAllowed;
      }
      assert scan[k..][1..] == scan[k + 1..];
      k := k + 1;
    }
  }

  /** The wings of a hostel that a student of the year is shown. */
  method EligibleWings(rooms: seq<WingRoom>, scan: seq<Rule>, hostelId: int, year: int) returns (offers: seq<WingOffer>)
    ensures exists names :: (forall name :: name in names <==> HasWing(rooms, name))
                            && Offers(rooms, scan, hostelId, year, names, offers)
  {
    var names, largest := CollectWings(rooms);
    offers := [];
    var k := 0;
    while k < |names|
      invariant 0 <= k <= |names|
      invariant Offers(rooms, scan, hostelId, year, names[..k], offers)
    {
      var blocked := IsBlocked(scan, hostelId, names[k], year);
      assert names[..k + 1] == names[..k] + [names[k]];
      assert names[k] in names && names[k] !in names[..k];
      if !blocked {
        var total := TotalSpots(rooms, names[k]);
        var max := largest[names[k]];
        OfferOneMore(rooms, scan, hostelId, year, names[..k], offers, names[k]);
        offers := offers + [WingOffer(names[k], if max > 0 then max - 1 else 0, total)];
      }
      k := k + 1;
    }
    assert names[..k] == names;
  }

  lemma OfferOneMore(rooms: seq<WingRoom>, scan: seq<Rule>, hostelId: int, year: int, names: seq<string>, offers: seq<WingOffer>, name: string)
    requires Offers(rooms, scan, hostelId, year, names, offers) && name !in names && ScanAllows(scan, hostelId, name, year)
    ensures var max := Largest(rooms, name);
            Offers(rooms, scan, hostelId, year, names + [name],
                   offers + [WingOffer(name, if max > 0 then max - 1 else 0, Spots(rooms, name))])
  {
    var max := Largest(rooms, name);
    var more := offers + [WingOffer(name, if max > 0 then max - 1 else 0, Spots(rooms, name))];
    assert more[|offers|].name == name;
    forall other
      ensures (exists i :: 0 <= i < |more| && more[i].name == other)
              <==> other in names + [name] && ScanAllows(scan, hostelId, other, year)
    {
      if i :| 0 <= i < |offers| && offers[i].name == other {
        assert more[i].name == other;
      }
    }
    forall i | 0 <= i < |offers|
      ensures offers[i].name != name
    {
      assert offers[i].name in names;
    }
  }
}
