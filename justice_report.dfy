/**
 * Rendering of the final audit report as Markdown (`format_audit_report` in
 * src/nodes/justice.py): a fixed header, one section per criterion, the remediation plan,
 * all joined with line feeds.
 */
module JusticeReport {
  import opened Wrappers
  import opened Text
  import opened Seqs
  import opened State

  // ------------------------------------------------------------------------------------------
  // `{x:.2f}`

  /** The number of hundredths nearest to `x`, a tie going to the even neighbour. */
  function Cents(x: real): (r: int)
    ensures -0.5 <= x * 100.0 - r as real <= 0.5
    ensures x * 100.0 - r as real == 0.5 || x * 100.0 - r as real == -0.5 ==> r % 2 == 0
  {
    var h := x * 100.0;
    var f := h.Floor;
    var frac := h - f as real;
    if frac < 0.5 then f
    else if frac > 0.5 then f + 1
    else if f % 2 == 0 then f
    else f + 1
  }

  /** Two decimal digits of `n`, with a leading zero. */
  function TwoDigits(n: nat): (r: string)
    requires n < 100
    ensures |r| == 2 && DigitsValue(r) == n
  {
    var r := [DigitChar(n / 10), DigitChar(n % 10)];
    assert r[..1][..0] == [];
    assert DigitsValue(r[..1]) == n / 10;
    assert DigitsValue(r) == DigitsValue(r[..1]) * 10 + n % 10;
    r
  }

  /** `f"{x:.2f}"`: optional minus sign, the whole part, a point and two decimals. */
  function Fixed2(x: real): string {
    var c := Cents(x);
    var a := if c < 0 then -c else c;
    (if x < 0.0 then "-" else "") + NatToString(a / 100) + "." + TwoDigits(a % 100)
  }

  /** For a non-negative value the text reads back as its rounded number of hundredths:
      the whole part before the point and two digits after it. */
  lemma Fixed2Value(x: real)
    requires x >= 0.0
    ensures var s := Fixed2(x);
      exists k :: 0 <= k < |s| && s[k] == '.' && |s| == k + 3
        && (forall i :: 0 <= i < k ==> IsDigit(s[i]))
        && DigitsValue(s[..k]) * 100 + DigitsValue(s[k + 1..]) == Cents(x)
  {
    var c := Cents(x);
    assert c >= 0 by {
      assert x * 100.0 >= 0.0;
    }
    var whole := NatToString(c / 100);
    var s := Fixed2(x);
    NatToStringValue(c / 100);
    var k := |whole|;
    assert s == whole + "." + TwoDigits(c % 100);
    assert s[..k] == whole;
    assert s[k + 1..] == TwoDigits(c % 100);
  }

  lemma Fixed2Examples()
    ensures Fixed2(0.0) == "0.00"
    ensures Fixed2(3.5) == "3.50"
    ensures Fixed2(2.125) == "2.12"
    ensures Fixed2(2.375) == "2.38"
  {
    assert Cents(0.0) == 0;
    assert Cents(3.5) == 350;
    assert Cents(2.125) == 212;
    assert Cents(2.375) == 238;
  }

  // ------------------------------------------------------------------------------------------
  // Lines of the report

  const NoteLine := "**Note:** Judge scores are on a 0\U{2013}10 scale. " + "Final scores are normalised to a 1\U{2013}5 scale."

  /** The six lines before the first criterion. */
  function HeadLines(report: AuditReport): seq<string> {
    ["# Audit Report for " + report.repoUrl,
     "",
     "**Executive Summary:** " + report.executiveSummary,
     NoteLine,
     "**Overall Score:** " + Fixed2(report.overallScore),
     ""]
  }

  function OpinionLine(op: JudicialOpinion): string {
    "- **" + JudgeName(op.judge) + "**: Score " + IntToString(op.score) + " out of 10, Argument: " + op.argument
  }

  function OpinionLines(ops: seq<JudicialOpinion>): seq<string> {
    Map(OpinionLine, ops)
  }

  /** A dissent summary is printed when it is present and not empty. */
  predicate Truthy(d: Option<string>) { d.Some? && d.value != "" }

  function CriterionHeading(cr: CriterionResult): string {
    "## Criterion: " + cr.dimensionName + " (" + cr.dimensionId + ")"
  }

  function FinalScoreLine(cr: CriterionResult): string {
    "Final Score: " + IntToString(cr.finalScore) + " out of 5"
  }

  /** The lines of a criterion's section up to and including "### Judge Opinions:". */
  function SectionTop(cr: CriterionResult): seq<string> {
    [CriterionHeading(cr), FinalScoreLine(cr)]
    + (if Truthy(cr.dissentSummary) then ["Dissent: " + cr.dissentSummary.value] else [])
    + ["### Judge Opinions:"]
  }

  function SectionLines(cr: CriterionResult): seq<string> {
    SectionTop(cr) + OpinionLines(cr.judgeOpinions) + ["### Remediation:", cr.remediation, ""]
  }

  function CriteriaLines(criteria: seq<CriterionResult>): seq<string>
    decreases |criteria|
  {
    if |criteria| == 0 then []
    else CriteriaLines(criteria[..|criteria| - 1]) + SectionLines(criteria[|criteria| - 1])
  }

  function ReportLines(report: AuditReport): seq<string> {
    HeadLines(report) + CriteriaLines(report.criteria) + ["## Remediation Plan", report.remediationPlan]
  }

  // ------------------------------------------------------------------------------------------
  // Layout

  /** A section: heading, score line, the dissent line exactly when the summary is truthy, the
      opinions in order under their heading, then the remediation and a blank line. */
  lemma SectionLayout(cr: CriterionResult)
    ensures var s := SectionLines(cr);
      var d := if Truthy(cr.dissentSummary) then 1 else 0;
      && |s| == 6 + d + |cr.judgeOpinions|
      && s[0] == CriterionHeading(cr)
      && s[1] == FinalScoreLine(cr)
      && (Truthy(cr.dissentSummary) ==> s[2] == "Dissent: " + cr.dissentSummary.value)
      && s[2 + d] == "### Judge Opinions:"
      && (forall k :: 0 <= k < |cr.judgeOpinions| ==> s[3 + d + k] == OpinionLine(cr.judgeOpinions[k]))
      && s[3 + d + |cr.judgeOpinions|] == "### Remediation:"
      && s[4 + d + |cr.judgeOpinions|] == cr.remediation
      && s[5 + d + |cr.judgeOpinions|] == ""
  {
  }

  lemma {:induction false} CriteriaLinesAppend(a: seq<CriterionResult>, b: seq<CriterionResult>)
    ensures CriteriaLines(a + b) == CriteriaLines(a) + CriteriaLines(b)
    decreases |b|
  {
    if |b| == 0 {
      AppendEmpty(a);
      AppendEmpty(CriteriaLines(a));
    } else {
      var n := |b| - 1;
      CriteriaLinesAppend(a, b[..n]);
      AppendInit(a, b);
      assert (a + b)[|a + b| - 1] == b[n];
      AppendAssoc(CriteriaLines(a), CriteriaLines(b[..n]), SectionLines(b[n]));
    }
  }

  /** The sections follow one another in the order of the criteria, without gaps: criterion
      `k`'s section comes after the sections of the criteria before it and before the rest. */
  lemma CriteriaLinesSections(criteria: seq<CriterionResult>, k: int)
    requires 0 <= k < |criteria|
    ensures CriteriaLines(criteria) ==
      CriteriaLines(criteria[..k]) + SectionLines(criteria[k]) + CriteriaLines(criteria[k + 1..])
  {
    SplitAt(criteria, k);
    CriteriaLinesAppend(criteria[..k + 1], criteria[k + 1..]);
  }

  /** The report opens with its title and ends with the remediation plan, and the heading of
      criterion `k` sits after the header and the sections of the criteria before it. */
  lemma ReportLayout(report: AuditReport, k: int)
    requires 0 <= k < |report.criteria|
    ensures var lines := ReportLines(report);
      && lines[0] == "# Audit Report for " + report.repoUrl
      && lines[4] == "**Overall Score:** " + Fixed2(report.overallScore)
      && lines[|lines| - 2] == "## Remediation Plan"
      && lines[|lines| - 1] == report.remediationPlan
      && 6 + |CriteriaLines(report.criteria[..k])| < |lines|
      && lines[6 + |CriteriaLines(report.criteria[..k])|] == CriterionHeading(report.criteria[k])
  {
    var cs := report.criteria;
    CriteriaLinesSections(cs, k);
    SectionLayout(cs[k]);
    var before := CriteriaLines(cs[..k]);
    var lines := ReportLines(report);
    var sec := SectionLines(cs[k]);
    assert lines == HeadLines(report) + (before + sec + CriteriaLines(cs[k + 1..]))
                    + ["## Remediation Plan", report.remediationPlan];
    assert lines[6 + |before|] == (before + sec + CriteriaLines(cs[k + 1..]))[|before|];
  }

  // ------------------------------------------------------------------------------------------
  // The formatter

  /** The body of the per-criterion loop of `format_audit_report`: appends one section. */
  method AppendSection(lines0: seq<string>, cr: CriterionResult) returns (lines: seq<string>)
    ensures lines == lines0 + SectionLines(cr)
  {
    lines := lines0;
    lines := lines + [CriterionHeading(cr)];
    lines := lines + [FinalScoreLine(cr)];
    if Truthy(cr.dissentSummary) {
      lines := lines + ["Dissent: " + cr.dissentSummary.value];
    }
    lines := lines + ["### Judge Opinions:"];
    assert lines == lines0 + SectionTop(cr);
    var ops := cr.judgeOpinions;
    for o := 0 to |ops|
      invariant lines == lines0 + SectionTop(cr) + OpinionLines(ops[..o])
    {
      MapSnoc(OpinionLine, ops, o);
      AppendAssoc(lines0 + SectionTop(cr), OpinionLines(ops[..o]), [OpinionLine(ops[o])]);
      lines := lines + [OpinionLine(ops[o])];
    }
    PrefixAll(ops);
    ghost var middle := lines;
    lines := lines + ["### Remediation:"];
    lines := lines + [cr.remediation];
    lines := lines + [""];
    ghost var tail := ["### Remediation:", cr.remediation, ""];
    assert lines == middle + tail;
    AppendAssoc(lines0 + SectionTop(cr), OpinionLines(ops), tail);
    AppendAssoc(lines0, SectionTop(cr), OpinionLines(ops) + tail);
    AppendAssoc(SectionTop(cr), OpinionLines(ops), tail);
  }

  /** `format_audit_report`: appends the lines one by one, then joins them with "\n". */
  method FormatAuditReport(report: AuditReport) returns (text: string)
    ensures text == Join(ReportLines(report), "\n")
  {
    var lines: seq<string> := [];
    lines := lines + ["# Audit Report for " + report.repoUrl];
    lines := lines + [""];
    lines := lines + ["**Executive Summary:** " + report.executiveSummary];
    lines := lines + [NoteLine];
    lines := lines + ["**Overall Score:** " + Fixed2(report.overallScore)];
    lines := lines + [""];
    assert lines == HeadLines(report);

    var criteria := report.criteria;
    for c := 0 to |criteria|
      invariant lines == HeadLines(report) + CriteriaLines(criteria[..c])
    {
      var cr := criteria[c];
      lines := AppendSection(lines, cr);
      SplitAt(criteria, c);
      AppendAssoc(HeadLines(report), CriteriaLines(criteria[..c]), SectionLines(cr));
    }
    PrefixAll(criteria);

    ghost var body := lines;
    lines := lines + ["## Remediation Plan"];
    lines := lines + [report.remediationPlan];
    assert lines == body + ["## Remediation Plan", report.remediationPlan];
    text := Join(lines, "\n");
  }
}
