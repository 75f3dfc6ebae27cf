# Automation Auditor — a verified model of its verdict and detective core

The Automation Auditor grades a software repository against a rubric. Detective nodes gather
evidence: the git history, the PDF report's text and the images in the PDF and the repository.
Three judges (Prosecutor, Defense and TechLead) each give an opinion on every rubric criterion.
The Chief Justice then turns those opinions into one result per criterion, and the result is
rendered as a Markdown report.

This project models that core in Dafny and proves what it promises.

- `state.dfy` (module `State`) defines the records that flow between the nodes: opinions,
  commits, evidence, rubric entries, synthesis rules, criterion results and the report.
- `justice.dfy` (module `Justice`) covers the Chief Justice:
  - score normalisation and de-duplication;
  - conflict resolution and dissent;
  - remediation text;
  - grouping by criterion and the overall score.
- `justice_report.dfy` (module `JusticeReport`) covers the Markdown renderer of the report.
- `detectives.dfy` (module `Detectives`) covers the detective nodes:
  - the evidence aggregator, a class whose evidence map is updated in place;
  - the `owner/repo` derivation;
  - commit enrichment;
  - the RepoInvestigator's evidence;
  - the VisionInspector's evidence.
- `doc_tools.dfy` (module `DocTools`) covers chunking, keyword search and path
  cross-referencing.
- `repo_tools.dfy` (module `RepoTools`) covers the `git log` line parser, the history
  extraction loop and the token rewrite of the clone URL.
- `vision_tools.dfy` (module `VisionTools`) covers PDF figure numbering, the repository image
  scan and the visual flags.
- `text.dfy` (module `Text`) holds the Python string operations the code relies on, over ASCII:
  - `lower`, `strip`, `split`, `join`, `rstrip`, `replace`;
  - `splitlines`, `title`, `find`, `in`, `startswith` and `endswith`;
  - `str(int)`.
- `seqs.dfy` (module `Seqs`) holds generic sequence facts:
  - subsequence;
  - map, filter-map and flatten;
  - de-duplication by key.
- `wrappers.dfy` holds the `Option` and `Result` types.

External effects become values or function parameters:

- `git log`'s output or error;
- `git clone`'s error;
- the GitHub commit API;
- the collaboration scorer;
- the pages and images of an opened PDF;
- the directories of an `os.walk`.

Loops that append to lists are methods with loop invariants. Each is proved equal to a
specification function, and the properties are proved about those functions.

## Model

| member | source | states |
|---|---|---|
| Justice.RoundHalfEven | src/nodes/justice.py:12 | the result is an integer nearest to n/d, and on an exact tie it is the even one (Python's `round`) |
| Justice.RoundHalfEvenWithin | src/nodes/justice.py:184 | rounding a mean whose numerator lies between d·lo and d·hi gives a value between lo and hi |
| Justice.NormaliseScore | src/nodes/justice.py:10-12 | the result is always in 1..5; for scores 2..10 it is within one half of score/2; scores ≤ 2 give 1 and scores ≥ 10 give 5 |
| Justice.NormaliseScoreMonotone | src/nodes/justice.py:10-12 | a higher judge score never gives a lower normalised score |
| Justice.NormaliseScoreExamples | src/nodes/justice.py:10-12 | 0→1, 1→1, 4→2, 5→2, 7→4, 9→4, 10→5, the ties going to the even neighbour |
| Justice.DedupKeys | src/nodes/justice.py:15-24 | the kept opinions carry exactly the (judge, criterion, stripped argument) keys of the input |
| Justice.DedupIsSubsequence | src/nodes/justice.py:15-24 | the kept opinions are a subsequence of the input, in input order |
| Justice.DedupDistinctKeys | src/nodes/justice.py:19-23 | no two kept opinions share a key |
| Justice.DedupKeepsFirst | src/nodes/justice.py:19-23 | an opinion whose key has not been seen earlier in the input is kept |
| Justice.DedupOfDistinct | src/nodes/justice.py:15-24 | an input whose keys are already distinct comes back unchanged |
| Justice.DedupIdempotent | src/nodes/justice.py:15-24 | de-duplicating twice is the same as once |
| Justice.DeduplicateAllOpinions | src/nodes/justice.py:15-24 | the loop over a `seen` set returns the first opinion of every key, in order |
| Text.Strip | src/nodes/justice.py:20 | `argument.strip()` in the key: the result is the slice of the argument that starts after its leading whitespace, everything after it is whitespace, and it neither starts nor ends with whitespace |
| Text.TrimEnd | src/nodes/justice.py:20 | the trailing half of `strip()`: a prefix of the input that does not end in whitespace, and everything it drops is whitespace |
| Justice.FirstScore | src/nodes/justice.py:168-173 | `next(...)` finds a score exactly when some opinion is by that judge, and the score is the first such opinion's |
| Justice.MinScore | src/nodes/justice.py:85-86 | a lower bound of all scores of the group that one of them attains |
| Justice.MaxScore | src/nodes/justice.py:85-86 | an upper bound of all scores of the group that one of them attains |
| Justice.SumScoresBounds | src/nodes/justice.py:184 | the sum of n scores in lo..hi lies between n·lo and n·hi |
| Justice.ResolveConflict | src/nodes/justice.py:154-184 | the first Prosecutor's 1 with `security_override` gives 1, whatever the TechLead said; otherwise, with `functionality_weight`, the first TechLead's score; otherwise the half-to-even rounded mean; the result always lies between the group's minimum and maximum |
| Justice.Dissent | src/nodes/justice.py:84-89 | a summary is present exactly when two scores differ by more than 2, and it carries " Re-evaluation required." exactly when `variance_re_evaluation` is set |
| Justice.FindEvidence | src/nodes/justice.py:57-59 | finds nothing exactly when no evidence has the goal, and otherwise the first evidence with it |
| Justice.RubricLookup | src/nodes/justice.py:54 | the dictionary built from the rubric has an entry for an id exactly when some dimension has it, and the entry is the last such dimension |
| Justice.RemediationLinesLayout | src/nodes/justice.py:99-124 | the remediation lines start with the header and are a subsequence of the seven candidate lines in their fixed order; each rubric line is present exactly when its field is non-empty, and each detective line exactly when its condition holds |
| Justice.CandidateLinesDistinct | src/nodes/justice.py:99-124 | the seven candidate lines are pairwise different, so presence identifies each line |
| Justice.PickedSeven | src/nodes/justice.py:99-124 | appending the lines whose flags are set, in order, is the chain of seven conditional `+=` |
| Justice.RemediationTextIsConcat | src/nodes/justice.py:99-124 | the text built by the conditional `+=` chain is the concatenation of the remediation lines |
| Justice.ComposeRemediation | src/nodes/justice.py:99-124 | the statements that grow `remediation` produce the concatenation of the remediation lines |
| Justice.CriterionVerdict | src/nodes/justice.py:74-135 | the result keeps the id and the group's opinions; its score is in 1..5; with one author and `collaboration_override` it is exactly the smaller of the normalised score and 3; otherwise it is the normalised score; the dissent and the dimension name are as computed |
| Justice.CriterionRemediation | src/nodes/justice.py:91-124 | a criterion's remediation starts "To improve {name}:\n", and the collaboration line is present exactly when there is a single author, even with the override off; the reducers and linear-graph lines are present exactly when their evidence says so |
| Justice.CriterionIdsMembers | src/nodes/justice.py:69-72 | the grouping keys are exactly the non-empty criterion ids of the opinions, each once |
| Justice.CriterionIdsFirstSeen | src/nodes/justice.py:69-74 | the ids come in order of first appearance |
| Justice.OpinionsForMembers | src/nodes/justice.py:69-72 | an id's group is the subsequence of the opinions with that id, and every opinion with that id is in it |
| Justice.GroupStep | src/nodes/justice.py:70-72 | one more opinion adds its id at the end if it is new and non-empty, and goes to the end of its own group only |
| Justice.OpinionsForNonEmpty | src/nodes/justice.py:69-72 | every grouped id has at least one opinion, so conflict resolution never sees an empty group |
| Justice.OpinionsForAbsent | src/nodes/justice.py:69-72 | an id no opinion carries has an empty group |
| Justice.VerdictFor | src/nodes/justice.py:74-135 | the result for a grouped id carries that id and its group |
| Justice.Verdicts | src/nodes/justice.py:74-135 | one result per distinct id, in first-seen order, each holding that id's opinions |
| Justice.VerdictsAt | src/nodes/justice.py:74-135 | the k-th result is the verdict for the k-th id |
| Justice.VerdictsGrouping | src/nodes/justice.py:69-74 | dimension ids are unique and non-empty, and every opinion with a non-empty id lands in the result of its id |
| Justice.SumFinalBounds | src/nodes/justice.py:137-141 | n final scores in 1..5 sum to between n and 5n |
| Justice.OverallScoreBounds | src/nodes/justice.py:137-141 | the overall score is 0 without criteria and otherwise the mean, between 1 and 5 |
| Justice.GroupByCriterion | src/nodes/justice.py:69-72 | the `setdefault(...).append` loop yields the ids in first-seen order and, for each, its opinions in input order |
| Justice.ArbitrateCriterion | src/nodes/justice.py:75-135 | the per-criterion body of the loop computes the criterion verdict |
| Justice.ChiefJusticeNode | src/nodes/justice.py:27-151 | the report holds the verdicts of the de-duplicated opinions, their mean as overall score, the repository URL and the fixed summary and plan |
| JusticeReport.Cents | src/nodes/justice.py:200 | the number of hundredths nearest to the score, a tie going to the even neighbour |
| JusticeReport.TwoDigits | src/nodes/justice.py:200 | two decimal digits that read back as the number |
| JusticeReport.Fixed2Value | src/nodes/justice.py:200 | `:.2f` of a non-negative score is digits, a point and two digits that read back as its rounded hundredths |
| JusticeReport.Fixed2Examples | src/nodes/justice.py:200 | 0 → "0.00", 3.5 → "3.50", 2.125 → "2.12", 2.375 → "2.38" |
| JusticeReport.SectionLayout | src/nodes/justice.py:204-217 | a section is the heading, the "Final Score: n out of 5" line, a "Dissent:" line exactly when the summary is non-empty, the opinions heading, one line per opinion in stored order, then the remediation and a blank line |
| JusticeReport.CriteriaLinesAppend | src/nodes/justice.py:203-217 | the lines of two runs of criteria are the lines of the first run followed by those of the second |
| JusticeReport.CriteriaLinesSections | src/nodes/justice.py:203-217 | criterion k's section sits between the sections of the criteria before and after it |
| JusticeReport.ReportLayout | src/nodes/justice.py:193-221 | the report opens with its title and score line, ends with the remediation plan, and criterion k's heading follows the header and the earlier sections |
| JusticeReport.AppendSection | src/nodes/justice.py:204-217 | one iteration of the criteria loop appends exactly that criterion's section |
| JusticeReport.FormatAuditReport | src/nodes/justice.py:187-221 | the text is the report's lines joined with line feeds |
| Detectives.AppendEvidenceEffect | src/nodes/detectives.py:198-200 | `setdefault(goal, []).append(e)` adds e at the end of that goal's list, creating it if absent, and no other list changes |
| Detectives.FileIfPresent | src/nodes/detectives.py:197-210 | one guarded append: the goal's list gains the evidence exactly when it is present and the step is on; other keys neither appear nor change; no list loses an entry |
| Detectives.AggregatedGoals | src/nodes/detectives.py:197-210 | "Repository Forensics" and "PDF Report Forensics" gain their evidence when it is present, and "Visual Forensics" gains its evidence only when vision is enabled and the evidence is present |
| Detectives.AggregatedKeepsRest | src/nodes/detectives.py:195-213 | every other key is untouched, and every existing list is kept as a prefix of its new list |
| Detectives.DetectiveState.EvidenceAggregator | src/nodes/detectives.py:191-213 | the evidence map is replaced by the aggregated map, and the detectives' outputs are not changed |
| Detectives.RepoFullNameShape | src/nodes/detectives.py:39 | the name comes from the text after the last "github.com/" (the whole URL without one), and that text does not contain the marker; the name is a prefix of that text, and exactly its trailing run of '.', 'g', 'i', 't' characters is removed |
| Detectives.RepoFullNameAfterMarker | src/nodes/detectives.py:39 | a URL that is the marker followed by text without it gives that text with the trailing characters stripped |
| Detectives.RepoFullNameStripsGit | src/nodes/detectives.py:39 | "github.com/owner/repo.git" gives "owner/repo" |
| Detectives.RepoFullNameStripsCharacters | src/nodes/detectives.py:39 | "github.com/owner/audit" gives "owner/aud", because `rstrip` removes characters and not a suffix |
| Detectives.EnrichCommits | src/nodes/detectives.py:40-57 | one entry per commit, in order, with the same hash, message and timestamp; each is the commit itself when the fetch fails, or the commit with the author and the file and line counts |
| Detectives.RepoInvestigatorNode | src/nodes/detectives.py:29-93 | with a token the commits are enriched and the collaboration score is recorded; without one they pass through unchanged with only the note; the goal, location, graph flags and rationale are as built |
| Detectives.VisionInspectorNode | src/nodes/detectives.py:133-165 | on success, `found` holds exactly when there is a figure or an image, and the content is the analysis; on failure, `found` is false and the content is only the error |
| Detectives.VisionFoundMatchesFlags | src/nodes/detectives.py:143-156 | `found` agrees with the analysis' `pdf_has_figures` or `repo_has_images`, and a failed extraction gives a not-found evidence whose error names the PDF extraction |
| DocTools.ChunksConcat | src/tools/doc_tools.py:50 | concatenating the chunks gives back the text |
| DocTools.ChunksSizes | src/tools/doc_tools.py:50 | every chunk is non-empty and at most the chunk size, and all but the last are exactly the chunk size |
| DocTools.ChunksCount | src/tools/doc_tools.py:50 | there are no chunks exactly when the text is empty, and otherwise the count is the text length divided by the size, rounded up |
| DocTools.ChunksAt | src/tools/doc_tools.py:50 | chunk i is the slice `text[i*size : (i+1)*size]` |
| DocTools.ChunkDocumentSpec | src/tools/doc_tools.py:34-51 | a size of 0 is an error; a negative size or an empty text gives no chunks; a positive size gives chunks that re-concatenate to the text and have the sizes above |
| DocTools.MatchingSubsequence | src/tools/doc_tools.py:70-74 | the matching chunks are a subsequence of the chunks, in their order |
| DocTools.MatchingMembers | src/tools/doc_tools.py:70-74 | a chunk is returned exactly when it is given and contains the keyword, ignoring case |
| DocTools.QueryDocument | src/tools/doc_tools.py:54-74 | the search loop returns exactly the matching chunks, in order, never more than given |
| DocTools.QueryExample | tests/test_doc_tools.py:37-41 | searching the two sample chunks for "RepoInvestigator" returns only the first |
| DocTools.PathsInMembers | src/tools/doc_tools.py:94-96 | a word is kept exactly when it starts with "src/" and ends with ".py" |
| DocTools.MentionedPathsSound | src/tools/doc_tools.py:92-96 | every mentioned path is a word of some chunk that looks like a path |
| DocTools.MentionedPathsComplete | src/tools/doc_tools.py:92-96 | every path-like word of every chunk is mentioned |
| DocTools.MentionedPathsMembers | src/tools/doc_tools.py:92-96 | the mentioned paths are exactly the path-like words of the chunks |
| DocTools.CrossReferencePaths | src/tools/doc_tools.py:77-98 | the keys are exactly the path-like words of the chunks, and each value is true exactly when the path is one of the repository files |
| RepoTools.Find | src/tools/repo_tools.py:96 | the first position of the character, or none when it does not occur |
| RepoTools.ParseAtBars | src/tools/repo_tools.py:96-99 | a line with its first two bars at i and j gives hash `line[..i]`, message `line[i+1..j]` and timestamp `line[j+1..]`, which may contain further bars |
| RepoTools.ParsedHasBars | src/tools/repo_tools.py:96-99 | a line that parses has two first bars |
| RepoTools.FewBarsFail | src/tools/repo_tools.py:100-101 | a line with fewer than two bars yields no commit |
| RepoTools.ParseLogLineDefined | src/tools/repo_tools.py:94-101 | a line yields a commit exactly when it has at least two bars |
| RepoTools.ParsedRendersBack | src/tools/repo_tools.py:96-99 | a parsed commit printed back as `hash|message|timestamp` is the line, with no bar in its hash or message |
| RepoTools.RenderedParsesBack | src/tools/repo_tools.py:84-99 | a commit without bars in its hash and message, printed in the `%H|%s|%cI` format, parses back to itself |
| RepoTools.ParsedCommitsInOrder | src/tools/repo_tools.py:93-102 | the commits, printed back, are a subsequence of the lines, so they come in line order and are never more than the lines |
| RepoTools.ParsedCommitsSound | src/tools/repo_tools.py:93-102 | every commit comes from some line |
| RepoTools.ParsedCommitsComplete | src/tools/repo_tools.py:93-102 | every line that parses contributes its commit |
| RepoTools.ParsedCommitsMembers | src/tools/repo_tools.py:93-102 | a commit is returned exactly when some line parses to it |
| RepoTools.TwoLogLines | src/tools/repo_tools.py:93-102 | two printed commits on two lines give back exactly those two commits |
| RepoTools.GitLogExample | tests/test_repo_tools.py:44-59 | the two sample lines give two commits, the first with hash "abc123" and the second with message "Add feature" |
| RepoTools.ExtractGitHistory | src/tools/repo_tools.py:66-102 | a failed `git log` gives the history error with its standard error; otherwise the loop returns the commits of the parsable lines, in order |
| RepoTools.CloneUrlSpec | src/tools/repo_tools.py:49-51 | without a token, or for a non-HTTPS URL, git gets the URL unchanged; with both, the URL starts "https://{token}@", and with a single scheme the rest is untouched |
| RepoTools.CloneRepositoryAsWritten | src/tools/repo_tools.py:46-63 | as written: the clone succeeds exactly when git succeeds, returning the temporary directory; on failure the error message is "Failed to clone repository ", the rewritten URL, ": " and git's error output |
| RepoTools.CloneRepository | src/tools/repo_tools.py:46-63 | the same, with the error message built from the caller's URL in place of the rewritten one |
| RepoTools.CloneErrorExposesToken | src/tools/repo_tools.py:49-62 | as written, a failed clone with a token has an error message that contains "https://{token}@" |
| RepoTools.CloneErrorHidesToken | src/tools/repo_tools.py:59-62 | corrected, the message of a failed clone never contains "https://{token}@" when neither the URL nor git's error contains '@' |
| VisionTools.PageErrorSticks | src/tools/vision_tools.py:25-43 | once an image of a page fails, the page fails with that error |
| VisionTools.DocumentErrorSticks | src/tools/vision_tools.py:25-43 | once a page fails, the whole extraction fails with that error, with no partial list |
| VisionTools.PageFiguresNumbering | src/tools/vision_tools.py:29-41 | a page succeeds exactly when all its images do, and then figure i has the 1-based page number and index i+1 |
| VisionTools.DocumentFiguresOk | src/tools/vision_tools.py:24-44 | the extraction succeeds exactly when every image of every page does |
| VisionTools.DocumentFiguresCount | src/tools/vision_tools.py:27-41 | one figure per image |
| VisionTools.DocumentFiguresPlaces | src/tools/vision_tools.py:27-41 | every figure names a real page and position, and carries that image's metadata |
| VisionTools.DocumentFiguresOrder | src/tools/vision_tools.py:27-41 | figures come in page order, and by index within a page, the index restarting on each page |
| VisionTools.ExtractPdfImages | src/tools/vision_tools.py:14-44 | the nested loop returns the numbered figures, or the extraction error prefixed with "Failed to extract images from PDF: " |
| VisionTools.RelPath | src/tools/vision_tools.py:63 | the relative path ends with the file name |
| VisionTools.LastDot | src/tools/vision_tools.py:61 | the position of the last '.', or none when there is none |
| VisionTools.Ext | src/tools/vision_tools.py:61 | the extension is empty or a '.' followed by dot-free text that ends the name |
| VisionTools.ImagesInMembers | src/tools/vision_tools.py:60-64 | a directory contributes a path exactly when it is the relative path of one of its files with an image extension |
| VisionTools.ScanMembers | src/tools/vision_tools.py:57-65 | the scan returns a path exactly when it is the relative path of some walked file with an image extension |
| VisionTools.ScannedAreImages | src/tools/vision_tools.py:58-64 | every returned path, lowercased, ends with .png, .jpg, .jpeg or .svg |
| VisionTools.ScanRepoImages | src/tools/vision_tools.py:47-65 | the nested walk loop returns the image paths in walk order |
| VisionTools.Visual | src/tools/vision_tools.py:82-93 | both lists are returned unchanged, and `pdf_has_figures` and `repo_has_images` hold exactly when their list is non-empty |
| VisionTools.DetectionNeedsImages | src/tools/vision_tools.py:82-87 | `uml_detected` and `charts_detected` hold exactly when some image path contains "uml" or "chart" ignoring case, which needs some image |
| VisionTools.AnalyseVisualEvidence | src/tools/vision_tools.py:68-93 | a failed extraction is passed on as the error; otherwise the result is the figures, the scanned images and their flags |

## Left out

- I/O and foreign libraries are parameters or absent:
  - `subprocess` runs of `git clone` and `git log`;
  - `tempfile.mkdtemp`;
  - `requests` calls to the GitHub API;
  - environment reads (`get_github_token`, `ENABLE_VISION_INSPECTOR`);
  - Docling's `ingest_pdf` and PyMuPDF's `fitz`;
  - `os.walk`;
  - the `print` calls.
- The AST scan `analyse_graph_structure` is not modelled; its flags are an input of the RepoInvestigator.
- `fetch_commit_details` is not modelled; it is a function parameter of the enrichment.
- The contributors, pull-request and review fetches are left out, and the collaboration scorer is a function parameter. Only its score is recorded, not the raw lists it reads.
- `doc_analyst_node` is not modelled. Its tools (chunking, search, cross-referencing) are.
- The LLM judges, the graph wiring and the command-line entry point are left out. Opinions are inputs.
- Evidence `confidence` values (floating point) are left out.
- The overall score is an exact real.
  - `JusticeReport.Fixed2Value`: `:.2f` is modelled as exact half-to-even rounding of that real. A binary double can round an exact decimal tie (such as 2.675) the other way.
- `Justice.ResolveConflict`: the mean is exact half-to-even rounding of sum/len. Python rounds the floating-point quotient, which agrees for these small integer scores.
- Python's Unicode-aware `lower`, `strip`, `title`, `split()` and `splitlines` are modelled over ASCII.
- In `cross_reference_paths`, a path mentioned twice appears once in the dictionary. The model states key membership and values, not the dictionary's insertion order.
- `chief_justice_node` returns the report wrapped in `{"final_report": report}`; the model returns the report itself.
- Content read with `.get` whose value is present but `None` is not distinguished from an absent key.
- Exceptions other than `RepoError` raised during enrichment, which would abort the node, are not modelled.
- The VisionInspector passes the repository URL where the analysis expects a clone path. The model takes the walk of the repository as an input.
- The Chief Justice reads the evidences as a sequence, while the aggregator builds a map from goal to list. Each is modelled in the view its own code uses.
- Some loop bodies are helper methods: `AppendSection`, `ArbitrateCriterion`, `GroupByCriterion` and `EnrichCommits`. They keep each proof small.

## Findings

| source | as written | input that shows it | evidently intended | confidence | as-written member | corrected member |
|---|---|---|---|---|---|---|
| src/tools/repo_tools.py:51 | the token is put into `repo_url` itself, and the `RepoError` raised at lines 59-62 formats that rewritten `repo_url` into its message | URL "https://github.com/o/r.git", token "t0k", and `git clone` fails: the error message contains "https://t0k@github.com/o/r.git" | the comment at line 50 asks that the token not be logged, so the error should name the URL the caller passed | not executed | RepoTools.CloneErrorExposesToken | RepoTools.CloneErrorHidesToken |
