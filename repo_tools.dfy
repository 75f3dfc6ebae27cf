/**
 * The RepoInvestigator's repository tools (src/tools/repo_tools.py): the parser of the
 * `git log --pretty=format:%H|%s|%cI` output and the rewrite of an HTTPS clone URL that puts
 * the GitHub token in front of the host. Running `git` itself is a parameter: its standard
 * output, or the standard error of a failed run.
 */
module RepoTools {
  import opened Wrappers
  import opened Text
  import opened Seqs
  import opened State

  // ------------------------------------------------------------------------------------------
  // One line of `git log`

  /** The position of the first `c` in `s`. */
  function Find(s: string, c: char): (r: Option<nat>)
    ensures r.Some? ==> r.value < |s| && s[r.value] == c
    ensures r.Some? ==> forall i :: 0 <= i < r.value ==> s[i] != c
    ensures r.None? ==> forall i :: 0 <= i < |s| ==> s[i] != c
    decreases |s|
  {
    if |s| == 0 then None
    else if s[0] == c then Some(0)
    else match Find(s[1..], c)
      case None => None
      case Some(k) => Some(k + 1)
  }

  lemma FindAt(s: string, c: char, i: int)
    requires 0 <= i < |s| && s[i] == c
    requires forall k :: 0 <= k < i ==> s[k] != c
    ensures Find(s, c) == Some(i)
  {
  }

  /** `line.split("|", 2)` unpacked into hash, message and timestamp: the hash ends at the first
      bar, the message at the second, and the timestamp is the rest of the line, bars included.
      A line with fewer than two bars makes the unpacking fail (`None`). */
  function ParseLogLine(line: string): Option<Commit> {
    match Find(line, '|')
    case None => None
    case Some(i) =>
      var rest := line[i + 1..];
      match Find(rest, '|')
      case None => None
      case Some(j) => Some(Commit(line[..i], rest[..j], rest[j + 1..], None))
  }

  /** The line `git log` prints for a commit. */
  function RenderLogLine(c: Commit): string {
    c.hash + "|" + c.message + "|" + c.timestamp
  }

  /** `i` and `j` are the positions of the first two bars of `line`. */
  predicate FirstBars(line: string, i: int, j: int) {
    0 <= i < j < |line| && line[i] == '|' && line[j] == '|'
    && (forall k :: 0 <= k < j && k != i ==> line[k] != '|')
  }

  /** With its first two bars at `i` and `j`, a line parses into the text around them. */
  lemma ParseAtBars(line: string, i: int, j: int)
    requires FirstBars(line, i, j)
    ensures ParseLogLine(line) == Some(Commit(line[..i], line[i + 1..j], line[j + 1..], None))
  {
    FindAt(line, '|', i);
    var rest := line[i + 1..];
    FindAt(rest, '|', j - i - 1);
    assert rest[..j - i - 1] == line[i + 1..j];
    assert rest[j - i..] == line[j + 1..];
  }

  /** A line that parses has two first bars. */
  lemma ParsedHasBars(line: string) returns (i: int, j: int)
    requires ParseLogLine(line).Some?
    ensures FirstBars(line, i, j)
  {
    i := Find(line, '|').value;
    var rest := line[i + 1..];
    j := i + 1 + Find(rest, '|').value;
    assert forall k :: i < k < j ==> line[k] == rest[k - i - 1];
  }

  /** A line with no bar or just one does not parse. */
  lemma FewBarsFail(line: string)
    requires !exists i, j :: 0 <= i < j < |line| && line[i] == '|' && line[j] == '|'
    ensures ParseLogLine(line).None?
  {
    if ParseLogLine(line).Some? {
      var i, j := ParsedHasBars(line);
    }
  }

  /** A line parses exactly when it holds at least two bars. */
  lemma ParseLogLineDefined(line: string)
    ensures ParseLogLine(line).Some? <==>
      exists i, j :: 0 <= i < j < |line| && line[i] == '|' && line[j] == '|'
  {
    if ParseLogLine(line).Some? {
      var i, j := ParsedHasBars(line);
    } else {
      FewBarsFail(line);
    }
  }

  /** What the parser returns reads back as the line: hash and message hold no bar and no
      statistics are attached. */
  lemma ParsedRendersBack(line: string)
    requires ParseLogLine(line).Some?
    ensures var c := ParseLogLine(line).value;
      && RenderLogLine(c) == line
      && '|' !in c.hash && '|' !in c.message
      && c.stats.None?
  {
    var i, j := ParsedHasBars(line);
    ParseAtBars(line, i, j);
    var h, m, t := line[..i], line[i + 1..j], line[j + 1..];
    assert line == h + "|" + m + "|" + t;
    assert forall k :: 0 <= k < |h| ==> h[k] == line[k];
    assert forall k :: 0 <= k < |m| ==> m[k] == line[i + 1 + k];
  }

  /** A commit whose hash and message hold no bar survives printing and parsing. */
  lemma RenderedParsesBack(c: Commit)
    requires '|' !in c.hash && '|' !in c.message && c.stats.None?
    ensures ParseLogLine(RenderLogLine(c)) == Some(c)
  {
    var line := RenderLogLine(c);
    var h, m := |c.hash|, |c.message|;
    assert line == c.hash + "|" + c.message + "|" + c.timestamp;
    forall k | 0 <= k < h + 1 + m && k != h
      ensures line[k] != '|'
    {
      if k < h {
        assert line[k] == c.hash[k];
      } else {
        assert line[k] == c.message[k - h - 1];
      }
    }
    ParseAtBars(line, h, h + 1 + m);
    assert line[..h] == c.hash;
    assert line[h + 1..h + 1 + m] == c.message;
    assert line[h + 2 + m..] == c.timestamp;
  }

  // ------------------------------------------------------------------------------------------
  // The whole output

  /** The commits one line yields: one when it parses, none when it is skipped. */
  function LineCommits(line: string): seq<Commit> {
    match ParseLogLine(line)
    case Some(c) => [c]
    case None => []
  }

  /** The commits of the lines, in line order. */
  function ParsedCommits(lines: seq<string>): seq<Commit>
    decreases |lines|
  {
    if |lines| == 0 then []
    else ParsedCommits(lines[..|lines| - 1]) + LineCommits(lines[|lines| - 1])
  }

  function Rendered(commits: seq<Commit>): (r: seq<string>)
    ensures |r| == |commits|
  {
    seq(|commits|, i requires 0 <= i < |commits| => RenderLogLine(commits[i]))
  }

  /** A line yields at most one commit, and that commit prints back as the line. */
  lemma LineCommitsRenderBack(line: string)
    ensures |LineCommits(line)| <= 1
    ensures |LineCommits(line)| == 1 ==> Rendered(LineCommits(line)) == [line]
  {
    if ParseLogLine(line).Some? {
      ParsedRendersBack(line);
    }
  }

  lemma RenderedStep(before: seq<Commit>, init: seq<string>, added: seq<Commit>, last: string)
    requires IsSubsequence(Rendered(before), init)
    requires |added| <= 1 && (|added| == 1 ==> Rendered(added) == [last])
    ensures IsSubsequence(Rendered(before + added), init + [last])
  {
    SubsequenceExtend(Rendered(before), init, last);
    if |added| == 1 {
      assert Rendered(before + added) == Rendered(before) + [last];
    } else {
      assert before + added == before;
    }
  }

  /** Printed back, the commits are the lines they came from, in the same order: no commit is
      invented or reordered, and there are never more commits than lines. */
  lemma {:induction false} ParsedCommitsInOrder(lines: seq<string>)
    ensures IsSubsequence(Rendered(ParsedCommits(lines)), lines)
    ensures |ParsedCommits(lines)| <= |lines|
    decreases |lines|
  {
    if |lines| > 0 {
      var init := lines[..|lines| - 1];
      var last := lines[|lines| - 1];
      ParsedCommitsInOrder(init);
      LineCommitsRenderBack(last);
      RenderedStep(ParsedCommits(init), init, LineCommits(last), last);
      assert lines == init + [last];
    }
  }

  lemma {:induction false} ParsedCommitsSound(lines: seq<string>, c: Commit)
    requires c in ParsedCommits(lines)
    ensures exists k :: 0 <= k < |lines| && ParseLogLine(lines[k]) == Some(c)
    decreases |lines|
  {
    var n := |lines| - 1;
    var init := lines[..n];
    assert ParsedCommits(lines) == ParsedCommits(init) + LineCommits(lines[n]);
    if c in ParsedCommits(init) {
      ParsedCommitsSound(init, c);
      var k :| 0 <= k < |init| && ParseLogLine(init[k]) == Some(c);
      assert lines[k] == init[k];
    } else {
      assert ParseLogLine(lines[n]) == Some(c);
    }
  }

  lemma {:induction false} ParsedCommitsComplete(lines: seq<string>, k: int)
    requires 0 <= k < |lines| && ParseLogLine(lines[k]).Some?
    ensures ParseLogLine(lines[k]).value in ParsedCommits(lines)
    decreases |lines|
  {
    var n := |lines| - 1;
    var init := lines[..n];
    assert ParsedCommits(lines) == ParsedCommits(init) + LineCommits(lines[n]);
    if k < n {
      assert init[k] == lines[k];
      ParsedCommitsComplete(init, k);
    } else {
      assert LineCommits(lines[n]) == [ParseLogLine(lines[k]).value];
    }
  }

  /** A commit is in the result exactly when some line parses to it: every well-formed line is
      kept and malformed lines are skipped. */
  lemma ParsedCommitsMembers(lines: seq<string>, c: Commit)
    ensures c in ParsedCommits(lines) <==>
      exists k :: 0 <= k < |lines| && ParseLogLine(lines[k]) == Some(c)
  {
    if c in ParsedCommits(lines) {
      ParsedCommitsSound(lines, c);
    }
    if exists k :: 0 <= k < |lines| && ParseLogLine(lines[k]) == Some(c) {
      var k :| 0 <= k < |lines| && ParseLogLine(lines[k]) == Some(c);
      ParsedCommitsComplete(lines, k);
    }
  }

  lemma ParsedTwoLines(a: string, b: string)
    ensures ParsedCommits([a, b]) == LineCommits(a) + LineCommits(b)
  {
    assert [a, b][..1] == [a];
    assert [a][..0] == [];
    assert ParsedCommits([a]) == [] + LineCommits(a);
    assert ParsedCommits([a, b]) == ParsedCommits([a]) + LineCommits(b);
  }

  /** Two commits printed on two lines come back as those two commits. */
  lemma TwoLogLines(c1: Commit, c2: Commit)
    requires '|' !in c1.hash && '|' !in c1.message && c1.stats.None?
    requires '|' !in c2.hash && '|' !in c2.message && c2.stats.None?
    requires NoLineBreaks(RenderLogLine(c1)) && NoLineBreaks(RenderLogLine(c2))
    ensures ParsedCommits(SplitLines(RenderLogLine(c1) + "\n" + RenderLogLine(c2))) == [c1, c2]
  {
    var a := RenderLogLine(c1);
    var b := RenderLogLine(c2);
    assert |b| > 0;
    SplitTwoLines(a, b);
    RenderedParsesBack(c1);
    RenderedParsesBack(c2);
    assert LineCommits(a) == [c1];
    assert LineCommits(b) == [c2];
    ParsedTwoLines(a, b);
  }

  const SampleFirst := Commit("abc123", "Initial commit", "2024-01-01T00:00:00Z", None)
  const SampleSecond := Commit("def456", "Add feature", "2024-01-02T00:00:00Z", None)

  /** A text of characters from space onwards has no line break. */
  lemma NoLineBreaksPrintable(s: string)
    requires forall i :: 0 <= i < |s| ==> ' ' <= s[i]
    ensures NoLineBreaks(s)
  {
  }

  lemma NoLineBreaksJoin(a: string, b: string)
    requires NoLineBreaks(a) && NoLineBreaks(b)
    ensures NoLineBreaks(a + b)
  {
    assert forall i :: |a| <= i < |a + b| ==> (a + b)[i] == b[i - |a|];
  }

  /** A printed commit has no line break when none of its fields has one. */
  lemma RenderedNoLineBreaks(c: Commit)
    requires NoLineBreaks(c.hash) && NoLineBreaks(c.message) && NoLineBreaks(c.timestamp)
    ensures NoLineBreaks(RenderLogLine(c))
  {
    NoLineBreaksPrintable("|");
    NoLineBreaksJoin(c.hash, "|");
    NoLineBreaksJoin(c.hash + "|", c.message);
    NoLineBreaksJoin(c.hash + "|" + c.message, "|");
    NoLineBreaksJoin(c.hash + "|" + c.message + "|", c.timestamp);
  }

  lemma SampleFirstClean()
    ensures '|' !in SampleFirst.hash && '|' !in SampleFirst.message
    ensures NoLineBreaks(RenderLogLine(SampleFirst))
  {
    NoLineBreaksPrintable(SampleFirst.hash);
    NoLineBreaksPrintable(SampleFirst.message);
    NoLineBreaksPrintable(SampleFirst.timestamp);
    RenderedNoLineBreaks(SampleFirst);
  }

  lemma SampleSecondClean()
    ensures '|' !in SampleSecond.hash && '|' !in SampleSecond.message
    ensures NoLineBreaks(RenderLogLine(SampleSecond))
  {
    NoLineBreaksPrintable(SampleSecond.hash);
    NoLineBreaksPrintable(SampleSecond.message);
    NoLineBreaksPrintable(SampleSecond.timestamp);
    RenderedNoLineBreaks(SampleSecond);
  }

  /** The sample `git log` output of two commits gives two commits, the first with hash
      "abc123" and the second with message "Add feature". */
  lemma GitLogExample()
    ensures var out := ParsedCommits(SplitLines(RenderLogLine(SampleFirst) + "\n" + RenderLogLine(SampleSecond)));
      |out| == 2 && out[0].hash == "abc123" && out[1].message == "Add feature"
  {
    SampleFirstClean();
    SampleSecondClean();
    TwoLogLines(SampleFirst, SampleSecond);
  }

  const HistoryFailure := "Failed to extract git history: "

  /** `extract_git_history` once `git log` has run: its standard error on failure, otherwise one
      commit per line that splits into three fields, in line order. */
  method ExtractGitHistory(log: Result<string>) returns (r: Result<seq<Commit>>)
    ensures log.Err? ==> r == Err(HistoryFailure + log.error)
    ensures log.Ok? ==> r == Ok(ParsedCommits(SplitLines(log.value)))
  {
    if log.Err? {
      return Err(HistoryFailure + log.error);
    }
    var lines := SplitLines(log.value);
    var commits: seq<Commit> := [];
    for i := 0 to |lines|
      invariant commits == ParsedCommits(lines[..i])
    {
      assert lines[..i + 1][..i] == lines[..i];
      var parsed := ParseLogLine(lines[i]);
      if parsed.Some? {
        commits := commits + [parsed.value];
      }
    }
    assert lines[..|lines|] == lines;
    return Ok(commits);
  }

  // ------------------------------------------------------------------------------------------
  // Cloning with a token

  /** A token is used when it is set and not empty. */
  predicate HasToken(token: Option<string>) {
    token.Some? && token.value != ""
  }

  const HttpsPrefix := "https://"

  /** The URL handed to `git clone`: with a token and an HTTPS URL every "https://" becomes
      "https://<token>@"; otherwise the URL itself. */
  function CloneUrl(url: string, token: Option<string>): string {
    if HasToken(token) && StartsWith(url, HttpsPrefix)
    then ReplaceAll(url, HttpsPrefix, HttpsPrefix + token.value + "@")
    else url
  }

  /** Without a token, or for a URL that is not HTTPS, git receives the URL unchanged; with
      both, the token follows the scheme, and when the scheme occurs only once the rest of the
      URL is untouched. */
  lemma CloneUrlSpec(url: string, token: Option<string>)
    ensures !HasToken(token) || !StartsWith(url, HttpsPrefix) ==> CloneUrl(url, token) == url
    ensures HasToken(token) && StartsWith(url, HttpsPrefix) ==>
      StartsWith(CloneUrl(url, token), HttpsPrefix + token.value + "@")
    ensures HasToken(token) && StartsWith(url, HttpsPrefix) && !Contains(url[|HttpsPrefix|..], HttpsPrefix) ==>
      CloneUrl(url, token) == HttpsPrefix + token.value + "@" + url[|HttpsPrefix|..]
  {
    if HasToken(token) && StartsWith(url, HttpsPrefix) {
      var q := HttpsPrefix + token.value + "@";
      var rest := url[|HttpsPrefix|..];
      assert CloneUrl(url, token) == q + ReplaceAll(rest, HttpsPrefix, q);
      if !Contains(rest, HttpsPrefix) {
        ReplaceAllAbsent(rest, HttpsPrefix, q);
      }
    }
  }

  const CloneFailure := "Failed to clone repository "

  /** `clone_repository` as written: `gitClone` runs `git clone` on the URL it is given and
      returns its standard error when the clone fails. The error message is built from the
      rewritten URL. */
  function CloneRepositoryAsWritten(repoUrl: string, token: Option<string>, tempDir: string,
                                    gitClone: string -> Option<string>): (r: Result<string>)
    ensures r.Ok? <==> gitClone(CloneUrl(repoUrl, token)).None?
    ensures r.Ok? ==> r.value == tempDir
    ensures r.Err? ==> r.error == CloneFailure + CloneUrl(repoUrl, token) + ": "
                                  + gitClone(CloneUrl(repoUrl, token)).value
  {
    var url := CloneUrl(repoUrl, token);
    match gitClone(url)
    case None => Ok(tempDir)
    case Some(stderr) => Err(CloneFailure + url + ": " + stderr)
  }

  /** `clone_repository` with the error message built from the URL the caller passed. */
  function CloneRepository(repoUrl: string, token: Option<string>, tempDir: string,
                           gitClone: string -> Option<string>): (r: Result<string>)
    ensures r.Ok? <==> gitClone(CloneUrl(repoUrl, token)).None?
    ensures r.Ok? ==> r.value == tempDir
    ensures r.Err? ==> r.error == CloneFailure + repoUrl + ": " + gitClone(CloneUrl(repoUrl, token)).value
  {
    match gitClone(CloneUrl(repoUrl, token))
    case None => Ok(tempDir)
    case Some(stderr) => Err(CloneFailure + repoUrl + ": " + stderr)
  }

  /** A failed clone with a token puts "https://<token>@" into the error message. */
  lemma CloneErrorExposesToken(repoUrl: string, token: Option<string>, tempDir: string,
                               gitClone: string -> Option<string>)
    requires HasToken(token) && StartsWith(repoUrl, HttpsPrefix)
    requires gitClone(CloneUrl(repoUrl, token)).Some?
    ensures var r := CloneRepositoryAsWritten(repoUrl, token, tempDir, gitClone);
      r.Err? && StartsWith(r.error, CloneFailure) &&
      Contains(r.error, HttpsPrefix + token.value + "@")
  {
    CloneUrlSpec(repoUrl, token);
    var url := CloneUrl(repoUrl, token);
    var x := HttpsPrefix + token.value + "@";
    var msg := CloneFailure + url + ": " + gitClone(url).value;
    var n := |CloneFailure|;
    assert msg[n..n + |url|] == url;
    assert msg[n..n + |x|] == url[..|x|];
    assert OccursAt(msg, x, n);
  }

  /** A text without '@' contains nothing that has an '@'. */
  lemma AbsentCharacter(s: string, x: string)
    requires '@' !in s && '@' in x
    ensures !Contains(s, x)
  {
  }

  /** With the caller's URL in the message, a failed clone leaks no "https://<token>@" when
      neither that URL nor git's error text has an '@' of its own. */
  lemma CloneErrorHidesToken(repoUrl: string, token: Option<string>, tempDir: string,
                             gitClone: string -> Option<string>)
    requires HasToken(token) && '@' !in repoUrl
    requires gitClone(CloneUrl(repoUrl, token)).Some?
    requires '@' !in gitClone(CloneUrl(repoUrl, token)).value
    ensures var r := CloneRepository(repoUrl, token, tempDir, gitClone);
      r.Err? && StartsWith(r.error, CloneFailure) &&
      !Contains(r.error, HttpsPrefix + token.value + "@")
  {
    var x := HttpsPrefix + token.value + "@";
    var msg := CloneRepository(repoUrl, token, tempDir, gitClone).error;
    assert x[|x| - 1] == '@';
    assert '@' !in CloneFailure;
    assert '@' !in ": ";
    AbsentCharacter(msg, x);
  }
}
