/**
 * The Chief Justice: deduplicates the judges' opinions, groups them by rubric criterion,
 * resolves each group to one score by priority-ordered synthesis rules, detects dissent,
 * composes remediation advice and averages the final scores (src/nodes/justice.py).
 */
module Justice {
  import opened Wrappers
  import opened Text
  import opened Seqs
  import opened State

  function Min(a: int, b: int): int { if a <= b then a else b }
  function Max(a: int, b: int): int { if a <= b then b else a }

  // ------------------------------------------------------------------------------------------
  // Rounding and the 0-10 to 1-5 scale

  /** Python's `round(n / d)` on integers: the integer nearest to n/d, a tie going to the even
      neighbour. The two postconditions are that definition. */
  function RoundHalfEven(n: int, d: int): (r: int)
    requires d > 0
    ensures -d <= 2 * (n - d * r) <= d
    ensures 2 * (n - d * r) == d || 2 * (n - d * r) == -d ==> r % 2 == 0
  {
    var q := n / d;
    var m := n % d;
    assert n == d * q + m;
    if 2 * m < d then q
    else if 2 * m > d then
      assert n - d * (q + 1) == m - d;
      q + 1
    else if q % 2 == 0 then q
    else
      assert n - d * (q + 1) == m - d;
      q + 1
  }

  /** Multiplying by a positive number preserves strict order, read backwards. */
  lemma MulStrictCancel(d: int, a: int, b: int)
    requires d > 0 && d * a < d * b
    ensures a < b
  {
    assert d * b - d * a == d * (b - a);
  }

  /** Rounding a quotient that lies between two integers stays between them. */
  lemma RoundHalfEvenWithin(n: int, d: int, lo: int, hi: int)
    requires d > 0 && d * lo <= n <= d * hi
    ensures lo <= RoundHalfEven(n, d) <= hi
  {
    var r := RoundHalfEven(n, d);
    assert d * (r + 1) == d * r + d;
    assert d * (r - 1) == d * r - d;
    MulStrictCancel(d, lo, r + 1);
    MulStrictCancel(d, r - 1, hi);
  }

  /** `normalise_score`: `max(1, min(5, round(score / 2)))`. */
  function NormaliseScore(score: int): (r: int)
    ensures 1 <= r <= 5
    ensures 2 <= score <= 10 ==> -1 <= 2 * r - score <= 1
    ensures score <= 2 ==> r == 1
    ensures score >= 10 ==> r == 5
  {
    Max(1, Min(5, RoundHalfEven(score, 2)))
  }

  /** A higher judge score never gives a lower final score. */
  lemma NormaliseScoreMonotone(a: int, b: int)
    requires a <= b
    ensures NormaliseScore(a) <= NormaliseScore(b)
  {
    var ra, rb := RoundHalfEven(a, 2), RoundHalfEven(b, 2);
    if ra > rb {
      assert a == b;
    }
  }

  /** Half-way cases round to the even neighbour, as Python's `round` does. */
  lemma NormaliseScoreExamples()
    ensures NormaliseScore(0) == 1 && NormaliseScore(1) == 1
    ensures NormaliseScore(4) == 2 && NormaliseScore(5) == 2
    ensures NormaliseScore(7) == 4 && NormaliseScore(9) == 4
    ensures NormaliseScore(10) == 5
  {
  }

  // ------------------------------------------------------------------------------------------
  // Deduplication

  /** The deduplication key: judge, criterion and argument without surrounding whitespace. */
  function Key(op: JudicialOpinion): (Judge, string, string) {
    (op.judge, op.criterionId, Strip(op.argument))
  }

  function KeysOf(ops: seq<JudicialOpinion>): set<(Judge, string, string)> {
    KeySet(Key, ops)
  }

  /** The first occurrence of every key, in input order. */
  function Dedup(ops: seq<JudicialOpinion>): seq<JudicialOpinion> {
    DedupBy(Key, ops)
  }

  /** The kept opinions carry every key of the input and no other. */
  lemma DedupKeys(ops: seq<JudicialOpinion>)
    ensures KeysOf(Dedup(ops)) == KeysOf(ops)
  {
    DedupByKeys(Key, ops);
  }

  /** `deduplicate_all_opinions` keeps the input order and drops elements only. */
  lemma DedupIsSubsequence(ops: seq<JudicialOpinion>)
    ensures IsSubsequence(Dedup(ops), ops)
  {
    DedupBySubsequence(Key, ops);
  }

  /** No two kept opinions share a key. */
  lemma DedupDistinctKeys(ops: seq<JudicialOpinion>)
    ensures forall i, j :: 0 <= i < j < |Dedup(ops)| ==> Key(Dedup(ops)[i]) != Key(Dedup(ops)[j])
  {
    DedupByDistinct(Key, ops);
  }

  /** Every opinion whose key has not been seen before it is kept. */
  lemma DedupKeepsFirst(ops: seq<JudicialOpinion>, i: int)
    requires 0 <= i < |ops| && Key(ops[i]) !in KeysOf(ops[..i])
    ensures ops[i] in Dedup(ops)
  {
    DedupByKeepsFirst(Key, ops, i);
  }

  /** A sequence whose keys are already pairwise distinct is its own deduplication. */
  lemma DedupOfDistinct(ops: seq<JudicialOpinion>)
    requires forall i, j :: 0 <= i < j < |ops| ==> Key(ops[i]) != Key(ops[j])
    ensures Dedup(ops) == ops
  {
    DedupByOfDistinct(Key, ops);
  }

  /** Deduplicating twice is deduplicating once. */
  lemma DedupIdempotent(ops: seq<JudicialOpinion>)
    ensures Dedup(Dedup(ops)) == Dedup(ops)
  {
    DedupByDistinct(Key, ops);
    DedupByOfDistinct(Key, DedupBy(Key, ops));
  }

  /** One more opinion either repeats a key already seen or is kept, adding its key. */
  lemma DedupPrefixStep(ops: seq<JudicialOpinion>, i: nat)
    requires i < |ops|
    ensures Dedup(ops[..i + 1]) ==
      if Key(ops[i]) in KeysOf(ops[..i]) then Dedup(ops[..i]) else Dedup(ops[..i]) + [ops[i]]
    ensures KeysOf(ops[..i + 1]) == KeysOf(ops[..i]) + {Key(ops[i])}
  {
    PrefixSnoc(ops, i);
    DedupByStep(Key, ops[..i], ops[i]);
  }

  /** `deduplicate_all_opinions`: a loop over the opinions with a `seen` set of keys. */
  method DeduplicateAllOpinions(opinions: seq<JudicialOpinion>) returns (unique: seq<JudicialOpinion>)
    ensures unique == Dedup(opinions)
  {
    var seen: set<(Judge, string, string)> := {};
    unique := [];
    for i := 0 to |opinions|
      invariant unique == Dedup(opinions[..i])
      invariant seen == KeysOf(opinions[..i])
    {
      var op := opinions[i];
      var key := Key(op);
      DedupPrefixStep(opinions, i);
      if key !in seen {
        seen := seen + {key};
        unique := unique + [op];
      }
    }
    PrefixAll(opinions);
  }

  // ------------------------------------------------------------------------------------------
  // Conflict resolution

  /** `i` is the position of the first opinion by judge `j`. */
  predicate IsFirstBy(ops: seq<JudicialOpinion>, i: int, j: Judge) {
    0 <= i < |ops| && ops[i].judge == j && forall k :: 0 <= k < i ==> ops[k].judge != j
  }

  /** `next((op.score for op in ops if op.judge == j), None)` */
  function FirstScore(ops: seq<JudicialOpinion>, j: Judge): (r: Option<int>)
    ensures r.Some? <==> exists i :: IsFirstBy(ops, i, j)
    ensures r.None? <==> forall i :: 0 <= i < |ops| ==> ops[i].judge != j
    ensures forall i :: IsFirstBy(ops, i, j) ==> r == Some(ops[i].score)
    decreases |ops|
  {
    if |ops| == 0 then None
    else if ops[0].judge == j then
      assert IsFirstBy(ops, 0, j);
      Some(ops[0].score)
    else
      var r := FirstScore(ops[1..], j);
      assert forall i :: IsFirstBy(ops, i, j) ==> i >= 1 && IsFirstBy(ops[1..], i - 1, j);
      assert forall i :: IsFirstBy(ops[1..], i, j) ==> IsFirstBy(ops, i + 1, j);
      assert forall i :: 1 <= i < |ops| ==> ops[i] == ops[1..][i - 1];
      r
  }

  function MinScore(ops: seq<JudicialOpinion>): (r: int)
    requires |ops| > 0
    ensures forall i :: 0 <= i < |ops| ==> r <= ops[i].score
    ensures exists i :: 0 <= i < |ops| && ops[i].score == r
    decreases |ops|
  {
    if |ops| == 1 then ops[0].score
    else
      var m := MinScore(ops[1..]);
      assert forall i :: 1 <= i < |ops| ==> ops[i] == ops[1..][i - 1];
      Min(ops[0].score, m)
  }

  function MaxScore(ops: seq<JudicialOpinion>): (r: int)
    requires |ops| > 0
    ensures forall i :: 0 <= i < |ops| ==> ops[i].score <= r
    ensures exists i :: 0 <= i < |ops| && ops[i].score == r
    decreases |ops|
  {
    if |ops| == 1 then ops[0].score
    else
      var m := MaxScore(ops[1..]);
      assert forall i :: 1 <= i < |ops| ==> ops[i] == ops[1..][i - 1];
      Max(ops[0].score, m)
  }

  function SumScores(ops: seq<JudicialOpinion>): int
    decreases |ops|
  {
    if |ops| == 0 then 0 else ops[0].score + SumScores(ops[1..])
  }

  lemma {:induction false} SumScoresBounds(ops: seq<JudicialOpinion>, lo: int, hi: int)
    requires forall i :: 0 <= i < |ops| ==> lo <= ops[i].score <= hi
    ensures |ops| * lo <= SumScores(ops) <= |ops| * hi
    decreases |ops|
  {
    if |ops| > 0 {
      assert forall i :: 0 <= i < |ops| - 1 ==> ops[1..][i] == ops[i + 1];
      SumScoresBounds(ops[1..], lo, hi);
      assert |ops| * lo == lo + (|ops| - 1) * lo;
      assert |ops| * hi == hi + (|ops| - 1) * hi;
    }
  }

  /** The security rule fires: the first Prosecutor opinion scores 1 and `security_override` is set. */
  predicate SecurityFires(ops: seq<JudicialOpinion>, rules: SynthesisRules) {
    rules.securityOverride && exists i | 0 <= i < |ops| :: IsFirstBy(ops, i, Prosecutor) && ops[i].score == 1
  }

  /** The functionality rule can fire: some TechLead opinion exists and `functionality_weight` is set. */
  predicate TechLeadFires(ops: seq<JudicialOpinion>, rules: SynthesisRules) {
    rules.functionalityWeight && exists i :: 0 <= i < |ops| && ops[i].judge == TechLead
  }

  /** `resolve_conflict`: security override first, then the first TechLead's score, otherwise
      the half-to-even rounded mean. The group must be non-empty: the mean divides by its length. */
  function ResolveConflict(ops: seq<JudicialOpinion>, rules: SynthesisRules): (r: int)
    requires |ops| > 0
    ensures MinScore(ops) <= r <= MaxScore(ops)
    ensures SecurityFires(ops, rules) ==> r == 1
    ensures !SecurityFires(ops, rules) && TechLeadFires(ops, rules) ==>
      forall i :: IsFirstBy(ops, i, TechLead) ==> r == ops[i].score
    ensures !SecurityFires(ops, rules) && !TechLeadFires(ops, rules) ==>
      r == RoundHalfEven(SumScores(ops), |ops|)
  {
    var prosecutorScore := FirstScore(ops, Prosecutor);
    var techLeadScore := FirstScore(ops, TechLead);
    if prosecutorScore == Some(1) && rules.securityOverride then
      Min(3, prosecutorScore.value)
    else if techLeadScore.Some? && rules.functionalityWeight then
      techLeadScore.value
    else
      SumScoresBounds(ops, MinScore(ops), MaxScore(ops));
      RoundHalfEvenWithin(SumScores(ops), |ops|, MinScore(ops), MaxScore(ops));
      RoundHalfEven(SumScores(ops), |ops|)
  }

  // ------------------------------------------------------------------------------------------
  // Dissent

  const DissentText := "Significant disagreement among judges."
  const ReEvaluationText := " Re-evaluation required."

  /** The dissent summary: present exactly when two judges' scores are more than 2 apart. */
  function Dissent(group: seq<JudicialOpinion>, rules: SynthesisRules): (d: Option<string>)
    requires |group| > 0
    ensures d.Some? <==>
      exists i, k :: 0 <= i < |group| && 0 <= k < |group| && group[i].score - group[k].score > 2
    ensures d.Some? ==>
      d.value == (if rules.varianceReEvaluation then DissentText + ReEvaluationText else DissentText)
  {
    if MaxScore(group) - MinScore(group) > 2 then
      Some((if rules.varianceReEvaluation then DissentText + ReEvaluationText else DissentText))
    else
      None
  }

  // ------------------------------------------------------------------------------------------
  // Evidence the Chief Justice consults

  /** `next((ev for ev in evidences if ev.goal == goal), None)` */
  function FindEvidence(evs: seq<Evidence>, goal: string): (r: Option<Evidence>)
    ensures r.Some? ==> r.value in evs && r.value.goal == goal
    ensures r.None? <==> forall i :: 0 <= i < |evs| ==> evs[i].goal != goal
    ensures r.Some? ==> exists i :: 0 <= i < |evs| && evs[i] == r.value &&
                                    (forall k :: 0 <= k < i ==> evs[k].goal != goal)
    decreases |evs|
  {
    if |evs| == 0 then None
    else if evs[0].goal == goal then Some(evs[0])
    else
      var r := FindEvidence(evs[1..], goal);
      assert forall i :: 1 <= i < |evs| ==> evs[i] == evs[1..][i - 1];
      if r.Some? then
        var i :| 0 <= i < |evs[1..]| && evs[1..][i] == r.value &&
                 (forall k :: 0 <= k < i ==> evs[1..][k].goal != goal);
        assert evs[i + 1] == r.value;
        r
      else
        r
  }

  /** The commits of the first "Repository Forensics" evidence, or none. */
  function RepoCommits(evs: seq<Evidence>): seq<Commit> {
    match FindEvidence(evs, "Repository Forensics")
    case None => []
    case Some(ev) => ev.content.commits.GetOr([])
  }

  /** The `author` values of the commits that carry one. */
  function Authors(commits: seq<Commit>): set<string> {
    set c | c in commits && c.stats.Some? :: c.stats.value.author
  }

  predicate SingleAuthor(commits: seq<Commit>) {
    |commits| > 0 && |Authors(commits)| == 1
  }

  /** The first "State Management" evidence says `reducers_used` is false. */
  predicate NoReducers(evs: seq<Evidence>) {
    match FindEvidence(evs, "State Management")
    case None => false
    case Some(ev) => ev.content.reducersUsed == Some(false)
  }

  /** The first "Graph Orchestration" evidence says `parallel_edges` is false. */
  predicate LinearGraph(evs: seq<Evidence>) {
    match FindEvidence(evs, "Graph Orchestration")
    case None => false
    case Some(ev) => ev.content.parallelEdges == Some(false)
  }

  // ------------------------------------------------------------------------------------------
  // Remediation text

  /** `{dim["id"]: dim for dim in rubric}.get(id)`: a later entry with the same id wins. */
  function RubricLookup(rubric: seq<RubricDimension>, id: string): (r: Option<RubricDimension>)
    ensures r.Some? ==> r.value.id == id && r.value in rubric
    ensures r.None? <==> forall k :: 0 <= k < |rubric| ==> rubric[k].id != id
    ensures r.Some? ==> exists k :: 0 <= k < |rubric| && rubric[k] == r.value &&
                                    (forall m :: k < m < |rubric| ==> rubric[m].id != id)
    decreases |rubric|
  {
    if |rubric| == 0 then None
    else if rubric[|rubric| - 1].id == id then Some(rubric[|rubric| - 1])
    else RubricLookup(rubric[..|rubric| - 1], id)
  }

  /** The rubric name, or the id with `_` as spaces in title case when the rubric has none. */
  function DimensionName(id: string, meta: Option<RubricDimension>): string {
    if meta.Some? && meta.value.name.Some? then meta.value.name.value
    else Title(ReplaceChar(id, '_', ' '))
  }

  predicate NonEmpty(o: Option<string>) { o.Some? && o.value != "" }

  function SuccessPattern(meta: Option<RubricDimension>): Option<string> {
    if meta.Some? then meta.value.successPattern else None
  }

  function FailurePattern(meta: Option<RubricDimension>): Option<string> {
    if meta.Some? then meta.value.failurePattern else None
  }

  function ForensicInstruction(meta: Option<RubricDimension>): Option<string> {
    if meta.Some? then meta.value.forensicInstruction else None
  }

  function HeaderLine(name: string): string { "To improve " + name + ":\n" }
  function AimLine(pattern: string): string { "- Aim for: " + pattern + ".\n" }
  function AvoidLine(pattern: string): string { "- Avoid: " + pattern + ".\n" }
  function NextStepLine(instruction: string): string { "- Next step: " + instruction + ".\n" }
  const CollaborationLine := "- Collaboration issue detected: " + "only one contributor in commit history.\n"
  const ReducersLine := "- Detective evidence: " + "No reducers detected in state management.\n"
  const LinearGraphLine := "- Detective evidence: " + "Graph orchestration is linear, " + "no parallel fan-out/fan-in.\n"

  /** Every line the remediation may hold, in the order the Chief Justice appends them. */
  function CandidateLines(name: string, meta: Option<RubricDimension>): seq<string> {
    [HeaderLine(name),
     AimLine(SuccessPattern(meta).GetOr("")),
     AvoidLine(FailurePattern(meta).GetOr("")),
     NextStepLine(ForensicInstruction(meta).GetOr("")),
     CollaborationLine, ReducersLine, LinearGraphLine]
  }

  /** When each candidate line is appended: always the header, a rubric line when its text is
      non-empty, a detective line when its evidence says so. */
  function CandidateConditions(meta: Option<RubricDimension>,
                               singleAuthor: bool, noReducers: bool, linearGraph: bool): seq<bool> {
    [true, NonEmpty(SuccessPattern(meta)), NonEmpty(FailurePattern(meta)),
     NonEmpty(ForensicInstruction(meta)), singleAuthor, noReducers, linearGraph]
  }

  /** The elements of `xs` whose flag is set, in order. */
  function Picked<T>(xs: seq<T>, flags: seq<bool>): seq<T>
    requires |xs| == |flags|
    decreases |xs|
  {
    if |xs| == 0 then []
    else
      var n := |xs| - 1;
      Picked(xs[..n], flags[..n]) + (if flags[n] then [xs[n]] else [])
  }

  /** Picking keeps the order of `xs`. */
  lemma {:induction false} PickedSubsequence<T>(xs: seq<T>, flags: seq<bool>)
    requires |xs| == |flags|
    ensures IsSubsequence(Picked(xs, flags), xs)
    decreases |xs|
  {
    if |xs| > 0 {
      var n := |xs| - 1;
      var p := Picked(xs[..n], flags[..n]);
      PickedSubsequence(xs[..n], flags[..n]);
      assert xs == xs[..n] + [xs[n]];
      SubsequenceExtend(p, xs[..n], xs[n]);
      if !flags[n] {
        assert Picked(xs, flags) == p;
      }
    }
  }

  /** Of pairwise distinct elements, picking keeps exactly those whose flag is set. */
  lemma {:induction false} PickedMembers<T>(xs: seq<T>, flags: seq<bool>)
    requires |xs| == |flags|
    requires forall i, j :: 0 <= i < j < |xs| ==> xs[i] != xs[j]
    ensures forall k :: 0 <= k < |xs| ==> (xs[k] in Picked(xs, flags) <==> flags[k])
    decreases |xs|
  {
    if |xs| > 0 {
      var n := |xs| - 1;
      var init := xs[..n];
      var p := Picked(init, flags[..n]);
      PickedMembers(init, flags[..n]);
      PickedSubsequence(init, flags[..n]);
      SubsequenceElements(p, init);
      assert xs[n] !in init by {
        assert forall i :: 0 <= i < n ==> init[i] == xs[i] != xs[n];
      }
      var picked := Picked(xs, flags);
      assert picked == p + (if flags[n] then [xs[n]] else []);
      forall k | 0 <= k < n
        ensures xs[k] in picked <==> flags[k]
      {
        assert xs[k] == init[k] && flags[k] == flags[..n][k];
      }
    }
  }

  /** A first element whose flag is set stays first. */
  lemma {:induction false} PickedFirst<T>(xs: seq<T>, flags: seq<bool>)
    requires |xs| == |flags| && |xs| > 0 && flags[0]
    ensures |Picked(xs, flags)| > 0 && Picked(xs, flags)[0] == xs[0]
    decreases |xs|
  {
    var n := |xs| - 1;
    if n > 0 {
      PickedFirst(xs[..n], flags[..n]);
    } else {
      assert xs[..n] == [];
    }
  }

  /** The remediation advice as its lines. */
  function RemediationLines(name: string, meta: Option<RubricDimension>,
                            singleAuthor: bool, noReducers: bool, linearGraph: bool): seq<string>
  {
    Picked(CandidateLines(name, meta), CandidateConditions(meta, singleAuthor, noReducers, linearGraph))
  }

  /** The candidate lines are pairwise distinct: their leading characters tell them apart. */
  lemma CandidateLinesDistinct(name: string, meta: Option<RubricDimension>)
    ensures var c := CandidateLines(name, meta);
      forall i, j :: 0 <= i < j < |c| ==> c[i] != c[j]
  {
    var c := CandidateLines(name, meta);
    assert c[0][0] == 'T';
    assert c[1][0] == '-' && c[1][2] == 'A' && c[1][3] == 'i';
    assert c[2][0] == '-' && c[2][2] == 'A' && c[2][3] == 'v';
    assert c[3][0] == '-' && c[3][2] == 'N';
    assert c[4][0] == '-' && c[4][2] == 'C';
    assert c[5][0] == '-' && c[5][2] == 'D' && c[5][22] == 'N';
    assert c[6][0] == '-' && c[6][2] == 'D' && c[6][22] == 'G';
  }

  /** The remediation starts with the header, keeps the fixed order of the candidate lines, and
      holds each of the other lines exactly when its condition holds. */
  lemma RemediationLinesLayout(name: string, meta: Option<RubricDimension>,
                               singleAuthor: bool, noReducers: bool, linearGraph: bool)
    ensures var lines := RemediationLines(name, meta, singleAuthor, noReducers, linearGraph);
      && |lines| > 0 && lines[0] == HeaderLine(name)
      && IsSubsequence(lines, CandidateLines(name, meta))
      && (AimLine(SuccessPattern(meta).GetOr("")) in lines <==> NonEmpty(SuccessPattern(meta)))
      && (AvoidLine(FailurePattern(meta).GetOr("")) in lines <==> NonEmpty(FailurePattern(meta)))
      && (NextStepLine(ForensicInstruction(meta).GetOr("")) in lines <==> NonEmpty(ForensicInstruction(meta)))
      && (CollaborationLine in lines <==> singleAuthor)
      && (ReducersLine in lines <==> noReducers)
      && (LinearGraphLine in lines <==> linearGraph)
  {
    var c := CandidateLines(name, meta);
    var f := CandidateConditions(meta, singleAuthor, noReducers, linearGraph);
    CandidateLinesDistinct(name, meta);
    PickedSubsequence(c, f);
    PickedMembers(c, f);
    PickedFirst(c, f);
    var lines := Picked(c, f);
    assert c[1] in lines <==> f[1];
    assert c[2] in lines <==> f[2];
    assert c[3] in lines <==> f[3];
    assert c[4] in lines <==> f[4];
    assert c[5] in lines <==> f[5];
    assert c[6] in lines <==> f[6];
  }

  /** `text += line` when `cond` holds. */
  function AppendIf(text: string, cond: bool, line: string): string {
    if cond then text + line else text
  }

  /** The remediation text, built as the Chief Justice builds it: the header, then each
      line whose condition holds appended in turn. */
  function RemediationText(name: string, meta: Option<RubricDimension>,
                           singleAuthor: bool, noReducers: bool, linearGraph: bool): string
  {
    var c := CandidateLines(name, meta);
    var f := CandidateConditions(meta, singleAuthor, noReducers, linearGraph);
    AppendIf(AppendIf(AppendIf(AppendIf(AppendIf(AppendIf(
      c[0], f[1], c[1]), f[2], c[2]), f[3], c[3]), f[4], c[4]), f[5], c[5]), f[6], c[6])
  }

  /** The text of the picked elements, appended left to right. */
  function PickedText(xs: seq<string>, flags: seq<bool>): string
    requires |xs| == |flags|
    decreases |xs|
  {
    if |xs| == 0 then ""
    else
      var n := |xs| - 1;
      AppendIf(PickedText(xs[..n], flags[..n]), flags[n], xs[n])
  }

  lemma {:induction false} PickedTextIsConcat(xs: seq<string>, flags: seq<bool>)
    requires |xs| == |flags|
    ensures PickedText(xs, flags) == Concat(Picked(xs, flags))
    decreases |xs|
  {
    if |xs| > 0 {
      var n := |xs| - 1;
      PickedTextIsConcat(xs[..n], flags[..n]);
      var p := Picked(xs[..n], flags[..n]);
      if flags[n] {
        assert (p + [xs[n]])[..|p|] == p;
      } else {
        assert p + [] == p;
      }
    }
  }

  /** Seven candidates whose first is always kept: the first, then the others in turn. */
  lemma PickedSeven(xs: seq<string>, fs: seq<bool>)
    requires |xs| == |fs| == 7 && fs[0]
    ensures PickedText(xs, fs) ==
      AppendIf(AppendIf(AppendIf(AppendIf(AppendIf(AppendIf(
        xs[0], fs[1], xs[1]), fs[2], xs[2]), fs[3], xs[3]), fs[4], xs[4]), fs[5], xs[5]), fs[6], xs[6])
  {
    assert xs[..1][..0] == [] && fs[..1][..0] == [];
    assert "" + xs[0] == xs[0];
    var text := xs[0];
    assert PickedText(xs[..1], fs[..1]) == text;
    assert xs[..2][..1] == xs[..1] && fs[..2][..1] == fs[..1];
    text := AppendIf(text, fs[1], xs[1]);
    assert PickedText(xs[..2], fs[..2]) == text;
    assert xs[..3][..2] == xs[..2] && fs[..3][..2] == fs[..2];
    text := AppendIf(text, fs[2], xs[2]);
    assert PickedText(xs[..3], fs[..3]) == text;
    assert xs[..4][..3] == xs[..3] && fs[..4][..3] == fs[..3];
    text := AppendIf(text, fs[3], xs[3]);
    assert PickedText(xs[..4], fs[..4]) == text;
    assert xs[..5][..4] == xs[..4] && fs[..5][..4] == fs[..4];
    text := AppendIf(text, fs[4], xs[4]);
    assert PickedText(xs[..5], fs[..5]) == text;
    assert xs[..6][..5] == xs[..5] && fs[..6][..5] == fs[..5];
    text := AppendIf(text, fs[5], xs[5]);
    assert PickedText(xs[..6], fs[..6]) == text;
    assert xs[..7][..6] == xs[..6] && fs[..7][..6] == fs[..6];
    text := AppendIf(text, fs[6], xs[6]);
    assert PickedText(xs[..7], fs[..7]) == text;
    assert xs[..7] == xs && fs[..7] == fs;
  }

  /** The text is the concatenation of the remediation lines. */
  lemma RemediationTextSteps(name: string, meta: Option<RubricDimension>,
                             singleAuthor: bool, noReducers: bool, linearGraph: bool)
    ensures var sp, fp, ins := SuccessPattern(meta), FailurePattern(meta), ForensicInstruction(meta);
      var rubricPart := AppendIf(AppendIf(AppendIf(HeaderLine(name),
        NonEmpty(sp), AimLine(sp.GetOr(""))), NonEmpty(fp), AvoidLine(fp.GetOr(""))),
        NonEmpty(ins), NextStepLine(ins.GetOr("")));
      RemediationText(name, meta, singleAuthor, noReducers, linearGraph) ==
        AppendIf(AppendIf(AppendIf(rubricPart, singleAuthor, CollaborationLine),
                          noReducers, ReducersLine), linearGraph, LinearGraphLine)
  {
  }

  lemma RemediationTextIsConcat(name: string, meta: Option<RubricDimension>,
                                singleAuthor: bool, noReducers: bool, linearGraph: bool)
    ensures RemediationText(name, meta, singleAuthor, noReducers, linearGraph) ==
      Concat(RemediationLines(name, meta, singleAuthor, noReducers, linearGraph))
  {
    var c := CandidateLines(name, meta);
    var f := CandidateConditions(meta, singleAuthor, noReducers, linearGraph);
    PickedSeven(c, f);
    PickedTextIsConcat(c, f);
  }

  /** The remediation block of `chief_justice_node`: the header, then `+=` of each line whose
      condition holds. */
  method ComposeRemediation(name: string, meta: Option<RubricDimension>,
                            singleAuthor: bool, noReducers: bool, linearGraph: bool)
    returns (remediation: string)
    ensures remediation == Concat(RemediationLines(name, meta, singleAuthor, noReducers, linearGraph))
  {
    remediation := HeaderLine(name);
    var successPattern := SuccessPattern(meta);
    if NonEmpty(successPattern) {
      remediation := remediation + AimLine(successPattern.value);
    }
    assert remediation == AppendIf(HeaderLine(name), NonEmpty(successPattern), AimLine(successPattern.GetOr("")));
    var failurePattern := FailurePattern(meta);
    ghost var before := remediation;
    if NonEmpty(failurePattern) {
      remediation := remediation + AvoidLine(failurePattern.value);
    }
    assert remediation == AppendIf(before, NonEmpty(failurePattern), AvoidLine(failurePattern.GetOr("")));
    var instruction := ForensicInstruction(meta);
    before := remediation;
    if NonEmpty(instruction) {
      remediation := remediation + NextStepLine(instruction.value);
    }
    assert remediation == AppendIf(before, NonEmpty(instruction), NextStepLine(instruction.GetOr("")));
    before := remediation;
    if singleAuthor {
      remediation := remediation + CollaborationLine;
    }
    assert remediation == AppendIf(before, singleAuthor, CollaborationLine);
    before := remediation;
    if noReducers {
      remediation := remediation + ReducersLine;
    }
    assert remediation == AppendIf(before, noReducers, ReducersLine);
    before := remediation;
    if linearGraph {
      remediation := remediation + LinearGraphLine;
    }
    assert remediation == AppendIf(before, linearGraph, LinearGraphLine);
    RemediationTextSteps(name, meta, singleAuthor, noReducers, linearGraph);
    RemediationTextIsConcat(name, meta, singleAuthor, noReducers, linearGraph);
  }


  // ------------------------------------------------------------------------------------------
  // One criterion

  /** The arbitrated verdict for one criterion's opinions, given the commits of the repository
      evidence and all evidence. */
  function CriterionVerdict(id: string, group: seq<JudicialOpinion>, rubric: seq<RubricDimension>,
                            rules: SynthesisRules, commits: seq<Commit>, evs: seq<Evidence>): (cr: CriterionResult)
    requires |group| > 0
    ensures cr.dimensionId == id && cr.judgeOpinions == group
    ensures 1 <= cr.finalScore <= 5
    ensures SingleAuthor(commits) && rules.collaborationOverride ==>
      cr.finalScore == Min(NormaliseScore(ResolveConflict(group, rules)), 3)
    ensures !(SingleAuthor(commits) && rules.collaborationOverride) ==>
      cr.finalScore == NormaliseScore(ResolveConflict(group, rules))
    ensures cr.dissentSummary == Dissent(group, rules)
    ensures cr.dimensionName == DimensionName(id, RubricLookup(rubric, id))
  {
    var normalised := NormaliseScore(ResolveConflict(group, rules));
    var single := SingleAuthor(commits);
    var finalScore := if single && rules.collaborationOverride then Min(normalised, 3) else normalised;
    var meta := RubricLookup(rubric, id);
    var name := DimensionName(id, meta);
    var lines := RemediationLines(name, meta, single, NoReducers(evs), LinearGraph(evs));
    CriterionResult(id, name, finalScore, group, Dissent(group, rules), Concat(lines))
  }

  /** A criterion's remediation opens with "To improve <name>:" and carries the collaboration
      warning exactly when the commit history has a single author. */
  lemma CriterionRemediation(id: string, group: seq<JudicialOpinion>, rubric: seq<RubricDimension>,
                             rules: SynthesisRules, commits: seq<Commit>, evs: seq<Evidence>)
    requires |group| > 0
    ensures var cr := CriterionVerdict(id, group, rubric, rules, commits, evs);
      var lines := RemediationLines(cr.dimensionName, RubricLookup(rubric, id),
                                    SingleAuthor(commits), NoReducers(evs), LinearGraph(evs));
      && cr.remediation == Concat(lines)
      && StartsWith(cr.remediation, HeaderLine(cr.dimensionName))
      && (CollaborationLine in lines <==> SingleAuthor(commits))
      && (ReducersLine in lines <==> NoReducers(evs))
      && (LinearGraphLine in lines <==> LinearGraph(evs))
  {
    var cr := CriterionVerdict(id, group, rubric, rules, commits, evs);
    var lines := RemediationLines(cr.dimensionName, RubricLookup(rubric, id),
                                  SingleAuthor(commits), NoReducers(evs), LinearGraph(evs));
    RemediationLinesLayout(cr.dimensionName, RubricLookup(rubric, id),
                           SingleAuthor(commits), NoReducers(evs), LinearGraph(evs));
    ConcatStartsWith(lines);
  }

  // ------------------------------------------------------------------------------------------
  // Grouping

  /** The distinct non-empty criterion ids, in order of first appearance. */
  function CriterionIds(ops: seq<JudicialOpinion>): seq<string>
    decreases |ops|
  {
    if |ops| == 0 then []
    else
      var ids := CriterionIds(ops[..|ops| - 1]);
      var id := ops[|ops| - 1].criterionId;
      if id != "" && id !in ids then ids + [id] else ids
  }

  /** The opinions on criterion `id`, in input order. */
  function OpinionsFor(ops: seq<JudicialOpinion>, id: string): seq<JudicialOpinion>
    decreases |ops|
  {
    if |ops| == 0 then []
    else
      var n := |ops| - 1;
      OpinionsFor(ops[..n], id) + (if ops[n].criterionId == id then [ops[n]] else [])
  }

  /** The ids are exactly the non-empty ids that occur, each once. */
  lemma {:induction false} CriterionIdsMembers(ops: seq<JudicialOpinion>)
    ensures forall x :: x in CriterionIds(ops) <==>
      x != "" && exists i :: 0 <= i < |ops| && ops[i].criterionId == x
    ensures forall i, j :: 0 <= i < j < |CriterionIds(ops)| ==> CriterionIds(ops)[i] != CriterionIds(ops)[j]
    decreases |ops|
  {
    if |ops| > 0 {
      var init := ops[..|ops| - 1];
      CriterionIdsMembers(init);
      assert forall i :: 0 <= i < |init| ==> init[i] == ops[i];
    }
  }

  /** First-seen order: every opinion on a later id is preceded by an opinion on each earlier id. */
  lemma {:induction false} CriterionIdsFirstSeen(ops: seq<JudicialOpinion>)
    ensures forall i, j, b ::
      (0 <= i < j < |CriterionIds(ops)| && 0 <= b < |ops| && ops[b].criterionId == CriterionIds(ops)[j]) ==>
      exists a :: 0 <= a < b && ops[a].criterionId == CriterionIds(ops)[i]
    decreases |ops|
  {
    if |ops| > 0 {
      var n := |ops| - 1;
      var init := ops[..n];
      var ids := CriterionIds(ops);
      var idsInit := CriterionIds(init);
      var x := ops[n].criterionId;
      CriterionIdsFirstSeen(init);
      CriterionIdsMembers(init);
      CriterionIdsMembers(ops);
      assert ids == if x != "" && x !in idsInit then idsInit + [x] else idsInit;
      forall i, j, b | 0 <= i < j < |ids| && 0 <= b < |ops| && ops[b].criterionId == ids[j]
        ensures exists a :: 0 <= a < b && ops[a].criterionId == ids[i]
      {
        assert ids[i] == idsInit[i];
        if b < n {
          assert init[b] == ops[b];
          assert ids[j] in idsInit;
          assert ids[j] == idsInit[j];
          var a :| 0 <= a < b && init[a].criterionId == idsInit[i];
          assert ops[a] == init[a];
        } else {
          assert idsInit[i] in idsInit;
          var a :| 0 <= a < n && init[a].criterionId == idsInit[i];
          assert ops[a] == init[a];
        }
      }
    }
  }

  /** A criterion's group holds exactly its opinions, in input order. */
  lemma {:induction false} OpinionsForMembers(ops: seq<JudicialOpinion>, id: string)
    ensures IsSubsequence(OpinionsFor(ops, id), ops)
    ensures forall o :: o in OpinionsFor(ops, id) ==> o.criterionId == id
    ensures forall i :: 0 <= i < |ops| && ops[i].criterionId == id ==> ops[i] in OpinionsFor(ops, id)
    decreases |ops|
  {
    if |ops| > 0 {
      var n := |ops| - 1;
      var init := ops[..n];
      var g := OpinionsFor(init, id);
      OpinionsForMembers(init, id);
      assert ops == init + [ops[n]];
      SubsequenceExtend(g, init, ops[n]);
      assert forall i :: 0 <= i < n ==> init[i] == ops[i];
      if ops[n].criterionId == id {
        assert OpinionsFor(ops, id) == g + [ops[n]];
      } else {
        assert OpinionsFor(ops, id) == g;
      }
    }
  }

  /** Grouping one more opinion: its id joins the ids if new, and its group grows by it. */
  lemma GroupStep(pre: seq<JudicialOpinion>, op: JudicialOpinion)
    ensures CriterionIds(pre + [op]) ==
      if op.criterionId != "" && op.criterionId !in CriterionIds(pre)
      then CriterionIds(pre) + [op.criterionId] else CriterionIds(pre)
    ensures OpinionsFor(pre + [op], op.criterionId) == OpinionsFor(pre, op.criterionId) + [op]
    ensures forall x :: x != op.criterionId ==> OpinionsFor(pre + [op], x) == OpinionsFor(pre, x)
  {
    assert (pre + [op])[..|pre|] == pre;
    forall x | x != op.criterionId
      ensures OpinionsFor(pre + [op], x) == OpinionsFor(pre, x)
    {
      assert OpinionsFor(pre, x) + [] == OpinionsFor(pre, x);
    }
  }

  lemma OpinionsForNonEmpty(ops: seq<JudicialOpinion>, id: string)
    requires id in CriterionIds(ops)
    ensures |OpinionsFor(ops, id)| > 0
  {
    CriterionIdsMembers(ops);
    OpinionsForMembers(ops, id);
  }

  lemma {:induction false} OpinionsForAbsent(ops: seq<JudicialOpinion>, id: string)
    requires forall i :: 0 <= i < |ops| ==> ops[i].criterionId != id
    ensures OpinionsFor(ops, id) == []
    decreases |ops|
  {
    if |ops| > 0 {
      OpinionsForAbsent(ops[..|ops| - 1], id);
    }
  }

  // ------------------------------------------------------------------------------------------
  // The whole verdict

  /** The verdict on one criterion that occurs among the opinions. */
  function VerdictFor(ops: seq<JudicialOpinion>, id: string, rubric: seq<RubricDimension>,
                      rules: SynthesisRules, evs: seq<Evidence>): (cr: CriterionResult)
    requires id in CriterionIds(ops)
    ensures cr.dimensionId == id && cr.judgeOpinions == OpinionsFor(ops, id)
  {
    OpinionsForNonEmpty(ops, id);
    CriterionVerdict(id, OpinionsFor(ops, id), rubric, rules, RepoCommits(evs), evs)
  }

  /** One verdict per criterion id, in first-seen order. */
  function Verdicts(ops: seq<JudicialOpinion>, rubric: seq<RubricDimension>,
                    rules: SynthesisRules, evs: seq<Evidence>): (vs: seq<CriterionResult>)
    ensures |vs| == |CriterionIds(ops)|
    ensures forall k :: 0 <= k < |vs| ==>
      vs[k].dimensionId == CriterionIds(ops)[k] && vs[k].judgeOpinions == OpinionsFor(ops, vs[k].dimensionId)
  {
    var ids := CriterionIds(ops);
    seq(|ids|, k requires 0 <= k < |ids| => VerdictFor(ops, ids[k], rubric, rules, evs))
  }

  lemma VerdictsAt(ops: seq<JudicialOpinion>, rubric: seq<RubricDimension>,
                   rules: SynthesisRules, evs: seq<Evidence>, k: int)
    requires 0 <= k < |CriterionIds(ops)|
    ensures Verdicts(ops, rubric, rules, evs)[k] == VerdictFor(ops, CriterionIds(ops)[k], rubric, rules, evs)
  {
  }

  /** The dimension ids are distinct and non-empty, and every opinion with an id lands in the
      verdict on its criterion. */
  lemma VerdictsGrouping(ops: seq<JudicialOpinion>, rubric: seq<RubricDimension>,
                         rules: SynthesisRules, evs: seq<Evidence>)
    ensures var vs := Verdicts(ops, rubric, rules, evs);
      && (forall k, l :: 0 <= k < l < |vs| ==> vs[k].dimensionId != vs[l].dimensionId)
      && (forall k :: 0 <= k < |vs| ==> vs[k].dimensionId != "")
      && (forall i :: 0 <= i < |ops| && ops[i].criterionId != "" ==>
            exists k :: 0 <= k < |vs| && vs[k].dimensionId == ops[i].criterionId
                        && ops[i] in vs[k].judgeOpinions)
  {
    var vs := Verdicts(ops, rubric, rules, evs);
    var ids := CriterionIds(ops);
    CriterionIdsMembers(ops);
    forall k | 0 <= k < |vs|
      ensures vs[k].dimensionId != ""
    {
      assert ids[k] in ids;
    }
    forall i | 0 <= i < |ops| && ops[i].criterionId != ""
      ensures exists k :: 0 <= k < |vs| && vs[k].dimensionId == ops[i].criterionId
                          && ops[i] in vs[k].judgeOpinions
    {
      var x := ops[i].criterionId;
      assert x in ids;
      var k :| 0 <= k < |ids| && ids[k] == x;
      OpinionsForMembers(ops, x);
      assert vs[k].dimensionId == x;
    }
  }

  /** The mean of the final scores, or 0 when there are no criteria. */
  function OverallScore(criteria: seq<CriterionResult>): real {
    if |criteria| > 0 then (SumFinal(criteria) as real) / (|criteria| as real) else 0.0
  }

  function SumFinal(criteria: seq<CriterionResult>): int
    decreases |criteria|
  {
    if |criteria| == 0 then 0 else criteria[0].finalScore + SumFinal(criteria[1..])
  }

  lemma {:induction false} SumFinalBounds(criteria: seq<CriterionResult>)
    requires forall k :: 0 <= k < |criteria| ==> 1 <= criteria[k].finalScore <= 5
    ensures |criteria| <= SumFinal(criteria) <= 5 * |criteria|
    decreases |criteria|
  {
    if |criteria| > 0 {
      assert forall k :: 0 <= k < |criteria| - 1 ==> criteria[1..][k] == criteria[k + 1];
      SumFinalBounds(criteria[1..]);
    }
  }

  /** With every final score in 1..5, the overall score is in 1..5, or 0 with no criteria. */
  lemma DivBounds(s: real, n: real)
    requires n > 0.0 && n <= s <= 5.0 * n
    ensures 1.0 <= s / n <= 5.0
  {
    var q := s / n;
    assert q * n == s;
    assert (q - 1.0) * n == s - n;
    assert (5.0 - q) * n == 5.0 * n - s;
  }

  lemma OverallScoreBounds(criteria: seq<CriterionResult>)
    requires forall k :: 0 <= k < |criteria| ==> 1 <= criteria[k].finalScore <= 5
    ensures |criteria| == 0 ==> OverallScore(criteria) == 0.0
    ensures |criteria| > 0 ==> 1.0 <= OverallScore(criteria) <= 5.0
  {
    if |criteria| > 0 {
      SumFinalBounds(criteria);
      var s, n := SumFinal(criteria) as real, |criteria| as real;
      assert n <= s <= 5.0 * n;
      DivBounds(s, n);
    }
  }

  /** The grouping loop of `chief_justice_node`: `grouped.setdefault(id, []).append(op)` for each
      opinion with a non-empty id; `order` is the insertion order of the dictionary. */
  method GroupByCriterion(opinions: seq<JudicialOpinion>)
    returns (order: seq<string>, grouped: map<string, seq<JudicialOpinion>>)
    ensures order == CriterionIds(opinions)
    ensures forall x :: x in grouped <==> x in order
    ensures forall x :: x in grouped ==> grouped[x] == OpinionsFor(opinions, x)
  {
    order := [];
    grouped := map[];
    for i := 0 to |opinions|
      invariant order == CriterionIds(opinions[..i])
      invariant forall x :: x in grouped <==> x in order
      invariant forall x :: x in grouped ==> grouped[x] == OpinionsFor(opinions[..i], x)
    {
      var op := opinions[i];
      ghost var pre := opinions[..i];
      assert opinions[..i + 1] == pre + [op];
      GroupStep(pre, op);
      CriterionIdsMembers(pre);
      if op.criterionId != "" {
        if op.criterionId !in grouped {
          OpinionsForAbsent(pre, op.criterionId);
          grouped := grouped[op.criterionId := [op]];
          order := order + [op.criterionId];
        } else {
          grouped := grouped[op.criterionId := grouped[op.criterionId] + [op]];
        }
      }
    }
    assert opinions[..|opinions|] == opinions;
  }

  /** The body of the per-criterion loop of `chief_justice_node`. */
  method ArbitrateCriterion(id: string, judgeOpinions: seq<JudicialOpinion>, rubric: seq<RubricDimension>,
                            rules: SynthesisRules, enrichedCommits: seq<Commit>, evs: seq<Evidence>)
    returns (result: CriterionResult)
    requires |judgeOpinions| > 0
    ensures result == CriterionVerdict(id, judgeOpinions, rubric, rules, enrichedCommits, evs)
  {
    var rawScore := ResolveConflict(judgeOpinions, rules);
    var finalScore := NormaliseScore(rawScore);

    var authors: set<string> := {};
    if |enrichedCommits| > 0 {
      authors := Authors(enrichedCommits);
      if |authors| == 1 && rules.collaborationOverride {
        finalScore := Min(finalScore, 3);
      }
    }

    var dissentSummary: Option<string> := None;
    if MaxScore(judgeOpinions) - MinScore(judgeOpinions) > 2 {
      var summary := DissentText;
      if rules.varianceReEvaluation {
        summary := summary + ReEvaluationText;
      }
      dissentSummary := Some(summary);
    }

    var meta := RubricLookup(rubric, id);
    var name := DimensionName(id, meta);
    var remediation := ComposeRemediation(name, meta, |enrichedCommits| > 0 && |authors| == 1,
                                          NoReducers(evs), LinearGraph(evs));
    result := CriterionResult(id, name, finalScore, judgeOpinions, dissentSummary, remediation);
  }

  const ExecutiveSummary := "Automated audit completed. See detailed criteria below."
  const RemediationPlan := "Apply remediation steps per criterion to improve architecture and compliance."

  /** `chief_justice_node`: deduplicate, group in first-seen order, then one verdict per group. */
  method ChiefJusticeNode(state: JusticeState) returns (report: AuditReport)
    ensures report.criteria ==
      Verdicts(Dedup(state.opinions), state.rubricDimensions, state.synthesisRules, state.evidences)
    ensures report.overallScore == OverallScore(report.criteria)
    ensures report.repoUrl == state.repoUrl
    ensures report.executiveSummary == ExecutiveSummary
    ensures report.remediationPlan == RemediationPlan
  {
    var opinions := DeduplicateAllOpinions(state.opinions);
    var rubric := state.rubricDimensions;
    var rules := state.synthesisRules;
    var evs := state.evidences;
    var enrichedCommits := RepoCommits(evs);

    var order, grouped := GroupByCriterion(opinions);

    ghost var expected := Verdicts(opinions, rubric, rules, evs);
    var results: seq<CriterionResult> := [];
    for j := 0 to |order|
      invariant results == expected[..j]
    {
      var id := order[j];
      OpinionsForNonEmpty(opinions, id);
      var result := ArbitrateCriterion(id, grouped[id], rubric, rules, enrichedCommits, evs);
      VerdictsAt(opinions, rubric, rules, evs, j);
      assert grouped[id] == OpinionsFor(opinions, id);
      assert expected[j] == CriterionVerdict(id, OpinionsFor(opinions, id), rubric, rules, enrichedCommits, evs);
      PrefixSnoc(expected, j);
      results := results + [result];
    }
    PrefixAll(expected);

    report := AuditReport(state.repoUrl, ExecutiveSummary, OverallScore(results), results, RemediationPlan);
  }
}
