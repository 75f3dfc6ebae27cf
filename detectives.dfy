/**
 * The detective layer (src/nodes/detectives.py): the evidence aggregator that files each
 * detective's evidence under its goal, the RepoInvestigator's derivation of "owner/repo" and
 * its commit enrichment, and the VisionInspector's evidence. The collaborators these nodes call
 * (cloning, `git log`, the GitHub API, the collaboration scorer, the PDF and image tools) are
 * passed in as values or functions.
 */
module Detectives {
  import opened Wrappers
  import opened Text
  import opened State
  import opened VisionTools
  import opened RepoTools

  const RepoGoal := "Repository Forensics"
  const DocGoal := "PDF Report Forensics"
  const VisionGoal := "Visual Forensics"

  lemma GoalsDistinct()
    ensures RepoGoal != DocGoal && RepoGoal != VisionGoal && DocGoal != VisionGoal
  {
    assert RepoGoal[0] != DocGoal[0];
    assert |RepoGoal| != |VisionGoal|;
    assert |DocGoal| != |VisionGoal|;
  }

  // ------------------------------------------------------------------------------------------
  // evidence_aggregator

  /** The list filed under `goal`, empty when there is none. */
  function Filed(m: map<string, seq<Evidence>>, goal: string): seq<Evidence> {
    if goal in m then m[goal] else []
  }

  /** `evidences.setdefault(goal, []).append(e)` */
  function AppendEvidence(m: map<string, seq<Evidence>>, goal: string, e: Evidence): map<string, seq<Evidence>> {
    m[goal := Filed(m, goal) + [e]]
  }

  /** The evidence map after aggregation: the repository evidence, the document evidence and,
      when vision is enabled, the visual evidence, each appended under its goal when present. */
  function Aggregated(m: map<string, seq<Evidence>>, repo: Option<Evidence>, doc: Option<Evidence>,
                      vision: Option<Evidence>, enableVision: bool): map<string, seq<Evidence>>
  {
    var m1 := if repo.Some? then AppendEvidence(m, RepoGoal, repo.value) else m;
    var m2 := if doc.Some? then AppendEvidence(m1, DocGoal, doc.value) else m1;
    if enableVision && vision.Some? then AppendEvidence(m2, VisionGoal, vision.value) else m2
  }

  /** Appending files `e` at the end of the goal's list, creating the list when absent, and
      changes no other entry. */
  lemma AppendEvidenceEffect(m: map<string, seq<Evidence>>, goal: string, e: Evidence)
    ensures var r := AppendEvidence(m, goal, e);
      && r.Keys == m.Keys + {goal}
      && Filed(r, goal) == Filed(m, goal) + [e]
      && forall k :: k != goal ==> Filed(r, k) == Filed(m, k)
  {
  }

  /** Every list of `m` is still in `r`, as a prefix of the list there. */
  predicate Extends(m: map<string, seq<Evidence>>, r: map<string, seq<Evidence>>) {
    forall k :: k in m ==> k in r && |m[k]| <= |r[k]| && r[k][..|m[k]|] == m[k]
  }

  lemma {:induction false} ExtendsTransitive(a: map<string, seq<Evidence>>, b: map<string, seq<Evidence>>,
                                             c: map<string, seq<Evidence>>)
    requires Extends(a, b) && Extends(b, c)
    ensures Extends(a, c)
  {
    forall k | k in a ensures k in c && |a[k]| <= |c[k]| && c[k][..|a[k]|] == a[k] {
      assert c[k][..|a[k]|] == c[k][..|b[k]|][..|a[k]|];
    }
  }

  /** One step of the aggregator: the evidence, when there is some and the step is on, is
      appended under `goal`; no other key appears or changes and no list loses an entry. */
  lemma FileIfPresent(m: map<string, seq<Evidence>>, goal: string, e: Option<Evidence>, on: bool)
    ensures var r := if on && e.Some? then AppendEvidence(m, goal, e.value) else m;
      && Filed(r, goal) == Filed(m, goal) + (if on && e.Some? then [e.value] else [])
      && (forall k :: k != goal ==> (k in r <==> k in m) && Filed(r, k) == Filed(m, k))
      && Extends(m, r)
  {
    if on && e.Some? {
      AppendEvidenceEffect(m, goal, e.value);
    }
  }

  /** Each of the three goals gains exactly the evidence that is present (the visual evidence
      only when vision is enabled), at the end of its list. */
  lemma AggregatedGoals(m: map<string, seq<Evidence>>, repo: Option<Evidence>, doc: Option<Evidence>,
                        vision: Option<Evidence>, enableVision: bool)
    ensures var r := Aggregated(m, repo, doc, vision, enableVision);
      && Filed(r, RepoGoal) == Filed(m, RepoGoal) + (if repo.Some? then [repo.value] else [])
      && Filed(r, DocGoal) == Filed(m, DocGoal) + (if doc.Some? then [doc.value] else [])
      && Filed(r, VisionGoal) ==
           Filed(m, VisionGoal) + (if enableVision && vision.Some? then [vision.value] else [])
  {
    GoalsDistinct();
    var m1 := if true && repo.Some? then AppendEvidence(m, RepoGoal, repo.value) else m;
    var m2 := if true && doc.Some? then AppendEvidence(m1, DocGoal, doc.value) else m1;
    FileIfPresent(m, RepoGoal, repo, true);
    FileIfPresent(m1, DocGoal, doc, true);
    FileIfPresent(m2, VisionGoal, vision, enableVision);
  }

  /** Every other list is untouched, and no list loses or reorders an entry. */
  lemma AggregatedKeepsRest(m: map<string, seq<Evidence>>, repo: Option<Evidence>, doc: Option<Evidence>,
                            vision: Option<Evidence>, enableVision: bool)
    ensures var r := Aggregated(m, repo, doc, vision, enableVision);
      && (forall k :: k != RepoGoal && k != DocGoal && k != VisionGoal ==>
            (k in r <==> k in m) && Filed(r, k) == Filed(m, k))
      && Extends(m, r)
  {
    var m1 := if true && repo.Some? then AppendEvidence(m, RepoGoal, repo.value) else m;
    var m2 := if true && doc.Some? then AppendEvidence(m1, DocGoal, doc.value) else m1;
    var r := if enableVision && vision.Some? then AppendEvidence(m2, VisionGoal, vision.value) else m2;
    FileIfPresent(m, RepoGoal, repo, true);
    FileIfPresent(m1, DocGoal, doc, true);
    FileIfPresent(m2, VisionGoal, vision, enableVision);
    ExtendsTransitive(m, m1, m2);
    ExtendsTransitive(m, m2, r);
  }

  /** The part of the run state the aggregator reads and writes. */
  class DetectiveState {
    var evidences: map<string, seq<Evidence>>
    var repoInvestigator: Option<Evidence>
    var docAnalyst: Option<Evidence>
    var visionInspector: Option<Evidence>

    /** A state whose evidence map is still empty. */
    constructor(repo: Option<Evidence>, doc: Option<Evidence>, vision: Option<Evidence>)
      ensures evidences == map[]
      ensures repoInvestigator == repo && docAnalyst == doc && visionInspector == vision
    {
      evidences := map[];
      repoInvestigator := repo;
      docAnalyst := doc;
      visionInspector := vision;
    }

    /** `evidence_aggregator`: files each detective's evidence under its goal, in place. */
    method EvidenceAggregator(enableVision: bool)
      modifies this
      ensures evidences ==
        Aggregated(old(evidences), repoInvestigator, docAnalyst, visionInspector, enableVision)
      ensures repoInvestigator == old(repoInvestigator)
      ensures docAnalyst == old(docAnalyst)
      ensures visionInspector == old(visionInspector)
    {
      var ev := evidences;
      if repoInvestigator.Some? {
        ev := AppendEvidence(ev, RepoGoal, repoInvestigator.value);
      }
      if docAnalyst.Some? {
        ev := AppendEvidence(ev, DocGoal, docAnalyst.value);
      }
      if enableVision && visionInspector.Some? {
        ev := AppendEvidence(ev, VisionGoal, visionInspector.value);
      }
      evidences := ev;
    }
  }

  // ------------------------------------------------------------------------------------------
  // "owner/repo" from the repository URL

  const GithubMarker := "github.com/"
  const GitSuffixChars: set<char> := {'.', 'g', 'i', 't'}

  /** `repo_url.split("github.com/")[-1].rstrip(".git")`: note that `rstrip` removes trailing
      characters of the set {'.', 'g', 'i', 't'}, not the suffix ".git". */
  function RepoFullName(url: string): string {
    RStrip(LastPiece(url, GithubMarker), GitSuffixChars)
  }

  /** The name is taken from the text after the last "github.com/" (the whole URL when there is
      none), which does not itself contain the marker; the name is a prefix of that text, and
      exactly its trailing run of '.', 'g', 'i', 't' characters is dropped. */
  lemma RepoFullNameShape(url: string)
    ensures var piece := LastPiece(url, GithubMarker);
      var name := RepoFullName(url);
      && EndsWith(url, piece)
      && !Contains(piece, GithubMarker)
      && (Contains(url, GithubMarker) ==> EndsWith(url[..|url| - |piece|], GithubMarker))
      && StartsWith(piece, name)
      && (|name| == 0 || name[|name| - 1] !in GitSuffixChars)
      && (forall i :: |name| <= i < |piece| ==> piece[i] in GitSuffixChars)
  {
    LastPieceIsSuffix(url, GithubMarker);
    if Contains(url, GithubMarker) {
      LastPieceFollowsSeparator(url, GithubMarker);
    }
  }

  /** A URL that is the marker followed by a text without it gives that text, stripped. */
  lemma RepoFullNameAfterMarker(rest: string)
    requires !Contains(rest, GithubMarker)
    ensures RepoFullName(GithubMarker + rest) == RStrip(rest, GitSuffixChars)
  {
    var url := GithubMarker + rest;
    assert url[..|GithubMarker|] == GithubMarker;
    assert IndexOf(url, GithubMarker) == Some(0);
    assert url[|GithubMarker|..] == rest;
    LastPieceWhenSingle(rest, GithubMarker);
  }

  lemma MarkerAbsentFromExample()
    ensures !Contains("owner/repo.git", GithubMarker)
  {
    var rest := "owner/repo.git";
    forall i | 0 <= i <= |rest| ensures !OccursAt(rest, GithubMarker, i) {
      if i <= 3 {
        assert rest[i] != 'g' by {
          if i == 0 {} else if i == 1 {} else if i == 2 {} else {}
        }
        assert rest[i..i + |GithubMarker|][0] == rest[i];
      }
    }
  }

  lemma StripGitExample()
    ensures RStrip("owner/repo.git", GitSuffixChars) == "owner/repo"
  {
    assert "owner/repo.git"[..13] == "owner/repo.gi";
    assert "owner/repo.gi"[..12] == "owner/repo.g";
    assert "owner/repo.g"[..11] == "owner/repo.";
    assert "owner/repo."[..10] == "owner/repo";
    assert RStrip("owner/repo", GitSuffixChars) == "owner/repo";
  }

  /** "owner/repo.git" loses its ".git". */
  lemma RepoFullNameStripsGit()
    ensures RepoFullName(GithubMarker + "owner/repo.git") == "owner/repo"
  {
    MarkerAbsentFromExample();
    RepoFullNameAfterMarker("owner/repo.git");
    StripGitExample();
  }

  /** `rstrip` removes characters, not a suffix: "owner/audit" loses its trailing "it". */
  lemma RepoFullNameStripsCharacters()
    ensures RepoFullName(GithubMarker + "owner/audit") == "owner/aud"
  {
    var rest := "owner/audit";
    assert !OccursAt(rest, GithubMarker, 0) by {
      assert rest[0] != GithubMarker[0];
    }
    RepoFullNameAfterMarker(rest);
    assert "owner/audit"[..10] == "owner/audi";
    assert "owner/audi"[..9] == "owner/aud";
    assert RStrip("owner/aud", GitSuffixChars) == "owner/aud";
  }

  // ------------------------------------------------------------------------------------------
  // Commit enrichment

  /** One changed file of a commit, as the GitHub commit API reports it. */
  datatype FileChange = FileChange(additions: int, deletions: int)

  /** The parts of a GitHub commit API response the enrichment reads. */
  datatype CommitDetails = CommitDetails(authorName: string, files: seq<FileChange>)

  function SumAdditions(files: seq<FileChange>): int
    decreases |files|
  {
    if |files| == 0 then 0 else SumAdditions(files[..|files| - 1]) + files[|files| - 1].additions
  }

  function SumDeletions(files: seq<FileChange>): int
    decreases |files|
  {
    if |files| == 0 then 0 else SumDeletions(files[..|files| - 1]) + files[|files| - 1].deletions
  }

  /** The commit extended with the author, the number of files and the line totals. */
  function Enriched(c: Commit, d: CommitDetails): Commit {
    c.(stats := Some(CommitStats(d.authorName, |d.files|, SumAdditions(d.files), SumDeletions(d.files))))
  }

  /** A failed fetch keeps the commit as it is. */
  function EnrichedOrKept(c: Commit, fetched: Result<CommitDetails>): Commit {
    match fetched
    case Err(_) => c
    case Ok(d) => Enriched(c, d)
  }

  /** The enrichment of every commit, position by position; `fetch(fullName, hash)` stands for
      the GitHub commit API, an error for its `RepoError`. */
  function EnrichAll(fullName: string, commits: seq<Commit>,
                     fetch: (string, string) -> Result<CommitDetails>): seq<Commit>
  {
    seq(|commits|, i requires 0 <= i < |commits| => EnrichedOrKept(commits[i], fetch(fullName, commits[i].hash)))
  }

  /** The enrichment loop of `repo_investigator_node`: one entry per commit, in order, each the
      commit itself or the commit with the API's figures added. */
  method EnrichCommits(fullName: string, commits: seq<Commit>,
                       fetch: (string, string) -> Result<CommitDetails>) returns (enriched: seq<Commit>)
    ensures enriched == EnrichAll(fullName, commits, fetch)
    ensures |enriched| == |commits|
    ensures forall i :: 0 <= i < |commits| ==>
      && enriched[i].hash == commits[i].hash
      && enriched[i].message == commits[i].message
      && enriched[i].timestamp == commits[i].timestamp
      && (enriched[i] == commits[i] || enriched[i].stats.Some?)
  {
    enriched := [];
    for k := 0 to |commits|
      invariant |enriched| == k
      invariant forall i :: 0 <= i < k ==> enriched[i] == EnrichedOrKept(commits[i], fetch(fullName, commits[i].hash))
    {
      var c := commits[k];
      var fetched := fetch(fullName, c.hash);
      match fetched {
        case Ok(d) =>
          enriched := enriched + [Enriched(c, d)];
        case Err(_) =>
          enriched := enriched + [c];
      }
    }
  }

  // ------------------------------------------------------------------------------------------
  // repo_investigator_node

  const NoTokenNote := "No GitHub token, " + "collaboration evidence not collected."
  const RepoRationale := "Repo cloned and analysed"
  const EnrichedSuffix := " with GitHub API enrichment"
  const LocalSuffix := " locally only"

  /** `repo_investigator_node` after cloning, `git log` and the graph scan, whose results are
      `repoPath`, `commits` and `flags`. With a token the commits are enriched and the
      collaboration score of `score(fullName, enriched)` is recorded; without one the commits
      pass through and the collaboration entry is only a note. */
  method RepoInvestigatorNode(repoUrl: string, repoPath: string, commits: seq<Commit>, flags: GraphFlags,
                              token: Option<string>,
                              fetch: (string, string) -> Result<CommitDetails>,
                              score: (string, seq<Commit>) -> int) returns (ev: Evidence)
    ensures ev.goal == RepoGoal && ev.found && ev.location == repoPath
    ensures ev.content.graphFlags == Some(flags)
    ensures ev.content.commits.Some? && |ev.content.commits.value| == |commits|
    ensures HasToken(token) ==>
      var enriched := EnrichAll(RepoFullName(repoUrl), commits, fetch);
      && ev.content.commits == Some(enriched)
      && ev.content.collaboration == Some(CollaborationCollected(score(RepoFullName(repoUrl), enriched)))
      && ev.rationale == RepoRationale + EnrichedSuffix
    ensures !HasToken(token) ==>
      && ev.content.commits == Some(commits)
      && ev.content.collaboration == Some(CollaborationNote(NoTokenNote))
      && ev.rationale == RepoRationale + LocalSuffix
    ensures ev.content.reducersUsed.None? && ev.content.parallelEdges.None?
    ensures ev.content.visual.None? && ev.content.error.None?
  {
    var enriched: seq<Commit>;
    var collaboration: Collaboration;
    if HasToken(token) {
      var fullName := RepoFullName(repoUrl);
      enriched := EnrichCommits(fullName, commits, fetch);
      collaboration := CollaborationCollected(score(fullName, enriched));
    } else {
      enriched := commits;
      collaboration := CollaborationNote(NoTokenNote);
    }
    ev := Evidence(RepoGoal, true,
                   EmptyContent.(commits := Some(enriched), graphFlags := Some(flags),
                                 collaboration := Some(collaboration)),
                   repoPath,
                   RepoRationale + (if HasToken(token) then EnrichedSuffix else LocalSuffix));
  }

  // ------------------------------------------------------------------------------------------
  // vision_inspector_node

  const VisionRationale := "Extracted figures from PDF " + "and scanned repo for images."
  const VisionFailure := "VisionInspector failed to " + "analyse visual evidence."

  /** `vision_inspector_node` given the outcome of the visual analysis: evidence that is found
      exactly when there is a figure or an image; a failure gives evidence that is not found
      and carries the error message. */
  function VisionInspectorNode(pdfPath: string, repoUrl: string, analysed: Result<VisualEvidence>): (ev: Evidence)
    ensures ev.goal == VisionGoal
    ensures analysed.Ok? ==>
      && (ev.found <==> analysed.value.pdfFigures != [] || analysed.value.repoImages != [])
      && ev.content.visual == Some(analysed.value)
      && ev.content.error.None?
      && ev.location == pdfPath + " + " + repoUrl
    ensures analysed.Err? ==>
      && !ev.found
      && ev.content == EmptyContent.(error := Some(analysed.error))
      && ev.location == pdfPath
  {
    match analysed
    case Ok(v) =>
      Evidence(VisionGoal, |v.pdfFigures| > 0 || |v.repoImages| > 0, EmptyContent.(visual := Some(v)),
               pdfPath + " + " + repoUrl, VisionRationale)
    case Err(e) =>
      Evidence(VisionGoal, false, EmptyContent.(error := Some(e)), pdfPath, VisionFailure)
  }

  /** On a successful analysis the evidence is found exactly when one of the two presence flags
      of the analysis is set; when extraction fails the error names the PDF extraction. */
  lemma VisionFoundMatchesFlags(pdfPath: string, repoUrl: string, doc: Result<Pages>, walk: seq<WalkEntry>)
    ensures var analysed := if Extracted(doc).Ok? then Ok(Visual(Extracted(doc).value, ImagesOf(walk)))
                            else Err(Extracted(doc).error);
      var ev := VisionInspectorNode(pdfPath, repoUrl, analysed);
      && (analysed.Ok? ==>
            (ev.found <==> analysed.value.visualFlags.pdfHasFigures || analysed.value.visualFlags.repoHasImages))
      && (analysed.Err? ==> !ev.found && ev.content.error.Some? && StartsWith(ev.content.error.value, ExtractFailure))
  {
    match doc
    case Err(e) =>
    case Ok(pages) =>
  }
}
