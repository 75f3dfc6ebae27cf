/**
 * The records that flow through the auditor: judges' opinions, detectives' evidence,
 * rubric configuration and the final verdict. Their shapes follow how the nodes read and
 * build them (src/main.py:82-88 for opinions, src/nodes/detectives.py:81-93 for evidence).
 */
module State {
  import opened Wrappers

  datatype Judge = Prosecutor | Defense | TechLead

  function JudgeName(j: Judge): string {
    match j
    case Prosecutor => "Prosecutor"
    case Defense => "Defense"
    case TechLead => "TechLead"
  }

  /** One judge's score (0-10 by the opinion schema) and argument for one rubric criterion. */
  datatype JudicialOpinion = JudicialOpinion(
    judge: Judge,
    criterionId: string,
    score: int,
    argument: string,
    citedEvidence: seq<string>)

  /** What the GitHub commit API adds to a local commit record. */
  datatype CommitStats = CommitStats(author: string, filesChanged: nat, additions: int, deletions: int)

  /** A commit record: the three fields parsed from `git log`, plus the optional enrichment
      (`author`, `files_changed`, `additions`, `deletions`). */
  datatype Commit = Commit(hash: string, message: string, timestamp: string, stats: Option<CommitStats>)

  /** The flags returned by the AST scan of the audited repository's graph file. */
  datatype GraphFlags = GraphFlags(stategraphFound: bool, parallelEdges: bool, reducersUsed: bool)

  /** The `collaboration` part of the repository evidence: a note when no token is configured,
      otherwise the score computed by the collaboration scorer. */
  datatype Collaboration = CollaborationNote(note: string) | CollaborationCollected(collaborationScore: int)

  /** One embedded PDF image: 1-based page, 1-based position on its page, and the metadata
      the PDF library reports for it. */
  datatype Figure = Figure(page: nat, index: nat, width: int, height: int, ext: string)

  datatype VisualFlags = VisualFlags(
    pdfHasFigures: bool,
    repoHasImages: bool,
    umlDetected: bool,
    chartsDetected: bool)

  datatype VisualEvidence = VisualEvidence(
    pdfFigures: seq<Figure>,
    repoImages: seq<string>,
    visualFlags: VisualFlags)

  /** The open `content` dictionary of an evidence record, as the keys the core reads or writes;
      `None` stands for an absent key. */
  datatype EvidenceContent = EvidenceContent(
    commits: Option<seq<Commit>>,
    graphFlags: Option<GraphFlags>,
    collaboration: Option<Collaboration>,
    reducersUsed: Option<bool>,
    parallelEdges: Option<bool>,
    visual: Option<VisualEvidence>,
    error: Option<string>)

  const EmptyContent := EvidenceContent(None, None, None, None, None, None, None)

  datatype Evidence = Evidence(
    goal: string,
    found: bool,
    content: EvidenceContent,
    location: string,
    rationale: string)

  /** One rubric entry; the optional fields are keys that may be missing from the rubric JSON. */
  datatype RubricDimension = RubricDimension(
    id: string,
    name: Option<string>,
    successPattern: Option<string>,
    failurePattern: Option<string>,
    forensicInstruction: Option<string>)

  /** The rubric's synthesis rules; an absent rule reads as false. */
  datatype SynthesisRules = SynthesisRules(
    securityOverride: bool,
    functionalityWeight: bool,
    varianceReEvaluation: bool,
    collaborationOverride: bool)

  datatype CriterionResult = CriterionResult(
    dimensionId: string,
    dimensionName: string,
    finalScore: int,
    judgeOpinions: seq<JudicialOpinion>,
    dissentSummary: Option<string>,
    remediation: string)

  datatype AuditReport = AuditReport(
    repoUrl: string,
    executiveSummary: string,
    overallScore: real,
    criteria: seq<CriterionResult>,
    remediationPlan: string)

  /** The part of the run state the Chief Justice reads. Here `evidences` is a sequence of
      evidence records, as the Chief Justice iterates it. */
  datatype JusticeState = JusticeState(
    repoUrl: string,
    opinions: seq<JudicialOpinion>,
    rubricDimensions: seq<RubricDimension>,
    synthesisRules: SynthesisRules,
    evidences: seq<Evidence>)
}
