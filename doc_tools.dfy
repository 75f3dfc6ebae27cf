/**
 * The DocAnalyst's text tools (src/tools/doc_tools.py) over the document's plain text:
 * fixed-size chunking, case-insensitive keyword search over the chunks, and the check of the
 * `src/...py` paths a report mentions against the repository's files.
 */
module DocTools {
  import opened Wrappers
  import opened Text
  import opened Seqs

  // ------------------------------------------------------------------------------------------
  // chunk_document

  /** Consecutive pieces of `size` characters, the last one possibly shorter. */
  function Chunks(text: string, size: nat): seq<string>
    requires size > 0
    decreases |text|
  {
    if |text| == 0 then []
    else if |text| <= size then [text]
    else [text[..size]] + Chunks(text[size..], size)
  }

  function Min(a: int, b: int): int { if a <= b then a else b }

  /** `chunk_document` over the document's text. A size of zero is a zero step for `range`,
      which raises; a negative size makes the range empty. */
  function ChunkDocument(text: string, size: int): Result<seq<string>> {
    if size == 0 then Err("range() arg 3 must not be zero")
    else if size < 0 then Ok([])
    else Ok(Chunks(text, size))
  }

  /** The chunks put back together are the text. */
  lemma {:induction false} ChunksConcat(text: string, size: nat)
    requires size > 0
    ensures Concat(Chunks(text, size)) == text
    decreases |text|
  {
    if |text| == 0 {
    } else if |text| <= size {
      ConcatCons(text, []);
    } else {
      ChunksConcat(text[size..], size);
      ConcatCons(text[..size], Chunks(text[size..], size));
      assert text == text[..size] + text[size..];
    }
  }

  /** Every chunk is non-empty and at most `size` long, and every chunk but the last is
      exactly `size` long. */
  lemma {:induction false} ChunksSizes(text: string, size: nat)
    requires size > 0
    ensures forall k :: 0 <= k < |Chunks(text, size)| ==> 0 < |Chunks(text, size)[k]| <= size
    ensures forall k :: 0 <= k < |Chunks(text, size)| - 1 ==> |Chunks(text, size)[k]| == size
    decreases |text|
  {
    if |text| > size {
      var cs := Chunks(text, size);
      var tail := Chunks(text[size..], size);
      ChunksSizes(text[size..], size);
      assert cs == [text[..size]] + tail;
      forall k | 0 <= k < |cs|
        ensures 0 < |cs[k]| <= size
        ensures k < |cs| - 1 ==> |cs[k]| == size
      {
        if k > 0 {
          assert cs[k] == tail[k - 1];
          assert 0 < |tail[k - 1]| <= size;
        } else {
          assert cs[0] == text[..size];
        }
      }
    }
  }

  /** The number of chunks: none for the empty text, otherwise the fewest pieces of `size`
      characters that cover it. */
  lemma {:induction false} ChunksCount(text: string, size: nat)
    requires size > 0
    ensures var m := |Chunks(text, size)|;
      (m == 0 <==> text == "") && (m > 0 ==> (m - 1) * size < |text| <= m * size)
    decreases |text|
  {
    if |text| > size {
      ChunksCount(text[size..], size);
      var m := |Chunks(text[size..], size)|;
      assert (m + 1) * size == m * size + size;
      assert m * size == (m - 1) * size + size;
    }
  }

  /** Chunk `i` is the slice starting at `i * size`, `text[i * size : (i + 1) * size]`, as the
      comprehension over `range(0, len(text), size)` writes it. */
  lemma {:induction false} ChunksAt(text: string, size: nat, i: nat)
    requires size > 0 && i < |Chunks(text, size)|
    ensures i * size < |text|
    ensures Chunks(text, size)[i] == text[i * size..Min((i + 1) * size, |text|)]
    decreases |text|
  {
    if |text| > size && i > 0 {
      var rest := text[size..];
      ChunksAt(rest, size, i - 1);
      assert (i - 1) * size + size == i * size;
      assert i * size + size == (i + 1) * size;
      assert rest[(i - 1) * size..Min(i * size, |rest|)] == text[i * size..Min((i + 1) * size, |text|)];
    }
  }

  /** `chunk_document`: an error exactly for a zero size; otherwise chunks that give back the
      text, each non-empty and at most `size` long, all but the last exactly `size` long; no
      chunks for an empty text or a negative size. */
  lemma ChunkDocumentSpec(text: string, size: int)
    ensures ChunkDocument(text, size).Err? <==> size == 0
    ensures size < 0 || text == "" ==> size == 0 || ChunkDocument(text, size) == Ok([])
    ensures size > 0 ==>
      var cs := ChunkDocument(text, size).value;
      && Concat(cs) == text
      && (forall k :: 0 <= k < |cs| ==> 0 < |cs[k]| <= size)
      && (forall k :: 0 <= k < |cs| - 1 ==> |cs[k]| == size)
  {
    if size > 0 {
      ChunksConcat(text, size);
      ChunksSizes(text, size);
    }
  }

  // ------------------------------------------------------------------------------------------
  // query_document

  /** `keyword.lower() in chunk.lower()` */
  predicate HasKeyword(chunk: string, keyword: string) {
    Contains(Lower(chunk), Lower(keyword))
  }

  /** The chunks that contain the keyword, ignoring case, in their order. */
  function Matching(chunks: seq<string>, keyword: string): seq<string>
    decreases |chunks|
  {
    if |chunks| == 0 then []
    else
      var c := chunks[|chunks| - 1];
      Matching(chunks[..|chunks| - 1], keyword) + (if HasKeyword(c, keyword) then [c] else [])
  }

  /** The matches are taken from the chunks, in order. */
  lemma {:induction false} MatchingSubsequence(chunks: seq<string>, keyword: string)
    ensures IsSubsequence(Matching(chunks, keyword), chunks)
    decreases |chunks|
  {
    if |chunks| > 0 {
      var n := |chunks| - 1;
      var init := chunks[..n];
      var prev := Matching(init, keyword);
      MatchingSubsequence(init, keyword);
      assert chunks == init + [chunks[n]];
      SubsequenceExtend(prev, init, chunks[n]);
      if !HasKeyword(chunks[n], keyword) {
        assert Matching(chunks, keyword) == prev + [];
        assert prev + [] == prev;
      }
    }
  }

  /** A chunk is among the matches exactly when it contains the keyword. */
  lemma {:induction false} MatchingMembers(chunks: seq<string>, keyword: string)
    ensures forall c :: c in Matching(chunks, keyword) <==> c in chunks && HasKeyword(c, keyword)
    decreases |chunks|
  {
    if |chunks| > 0 {
      var n := |chunks| - 1;
      var init := chunks[..n];
      MatchingMembers(init, keyword);
      assert chunks == init + [chunks[n]];
    }
  }

  /** `query_document` */
  method QueryDocument(chunks: seq<string>, keyword: string) returns (results: seq<string>)
    ensures results == Matching(chunks, keyword)
    ensures IsSubsequence(results, chunks) && |results| <= |chunks|
    ensures forall c :: c in results <==> c in chunks && HasKeyword(c, keyword)
  {
    results := [];
    for i := 0 to |chunks|
      invariant results == Matching(chunks[..i], keyword)
    {
      var chunk := chunks[i];
      assert chunks[..i + 1][..i] == chunks[..i];
      if Contains(Lower(chunk), Lower(keyword)) {
        results := results + [chunk];
      }
    }
    assert chunks[..|chunks|] == chunks;
    MatchingSubsequence(chunks, keyword);
    MatchingMembers(chunks, keyword);
    SubsequenceElements(results, chunks);
  }

  lemma LowerSlice(s: string, i: nat, j: nat)
    requires i <= j <= |s|
    ensures Lower(s)[i..j] == Lower(s[i..j])
  {
  }

  /** Of a chunk that names the keyword and one too short to, only the first is returned. */
  lemma QueryExample()
    ensures Matching(["This is about " + "RepoInvestigator.", "Nothing here."], "RepoInvestigator")
            == ["This is about " + "RepoInvestigator."]
  {
    var a := "This is about ";
    var kw := "RepoInvestigator";
    var c1 := a + kw + ".";
    assert c1 == a + "RepoInvestigator.";
    assert c1[14..30] == kw;
    LowerSlice(c1, 14, 30);
    assert OccursAt(Lower(c1), Lower(kw), 14);
    assert HasKeyword(c1, kw);
    assert !HasKeyword("Nothing here.", kw) by {
      assert |Lower("Nothing here.")| < |Lower(kw)|;
    }
    var chunks := [c1, "Nothing here."];
    assert chunks[..1] == [c1];
    assert chunks[..1][..0] == [];
    assert Matching(chunks[..1], kw) == [] + [c1];
    assert Matching(chunks, kw) == Matching(chunks[..1], kw) + [];
  }

  // ------------------------------------------------------------------------------------------
  // cross_reference_paths

  /** `word.startswith("src/") and word.endswith(".py")` */
  predicate IsPathMention(word: string) {
    StartsWith(word, "src/") && EndsWith(word, ".py")
  }

  function PathsIn(words: seq<string>): seq<string>
    decreases |words|
  {
    if |words| == 0 then []
    else
      var w := words[|words| - 1];
      PathsIn(words[..|words| - 1]) + (if IsPathMention(w) then [w] else [])
  }

  /** The path mentions of all chunks, chunk by chunk, word by word. */
  function MentionedPaths(chunks: seq<string>): seq<string>
    decreases |chunks|
  {
    if |chunks| == 0 then []
    else MentionedPaths(chunks[..|chunks| - 1]) + PathsIn(Words(chunks[|chunks| - 1]))
  }

  lemma {:induction false} PathsInMembers(words: seq<string>)
    ensures forall p :: p in PathsIn(words) <==> p in words && IsPathMention(p)
    decreases |words|
  {
    if |words| > 0 {
      var n := |words| - 1;
      PathsInMembers(words[..n]);
      assert words == words[..n] + [words[n]];
    }
  }

  /** Every mentioned path is a whitespace-separated word of some chunk that starts with
      "src/" and ends with ".py". */
  lemma {:induction false} MentionedPathsSound(chunks: seq<string>, p: string)
    requires p in MentionedPaths(chunks)
    ensures exists k :: 0 <= k < |chunks| && p in Words(chunks[k]) && IsPathMention(p)
    decreases |chunks|
  {
    var n := |chunks| - 1;
    var init := chunks[..n];
    if p in MentionedPaths(init) {
      MentionedPathsSound(init, p);
      var k :| 0 <= k < n && p in Words(init[k]) && IsPathMention(p);
      assert chunks[k] == init[k];
    } else {
      PathsInMembers(Words(chunks[n]));
    }
  }

  /** Every such word of every chunk is mentioned. */
  lemma {:induction false} MentionedPathsComplete(chunks: seq<string>, p: string, k: int)
    requires 0 <= k < |chunks| && p in Words(chunks[k]) && IsPathMention(p)
    ensures p in MentionedPaths(chunks)
    decreases |chunks|
  {
    var n := |chunks| - 1;
    var init := chunks[..n];
    var last := PathsIn(Words(chunks[n]));
    assert MentionedPaths(chunks) == MentionedPaths(init) + last;
    if k < n {
      assert init[k] == chunks[k];
      MentionedPathsComplete(init, p, k);
    } else {
      PathsInMembers(Words(chunks[n]));
      assert p in last;
    }
  }

  /** A path is mentioned exactly when it is a whitespace-separated word of some chunk that
      starts with "src/" and ends with ".py". */
  lemma MentionedPathsMembers(chunks: seq<string>)
    ensures forall p :: p in MentionedPaths(chunks) <==>
      exists k :: 0 <= k < |chunks| && p in Words(chunks[k]) && IsPathMention(p)
  {
    forall p | p in MentionedPaths(chunks)
      ensures exists k :: 0 <= k < |chunks| && p in Words(chunks[k]) && IsPathMention(p)
    {
      MentionedPathsSound(chunks, p);
    }
    forall p, k | 0 <= k < |chunks| && p in Words(chunks[k]) && IsPathMention(p)
      ensures p in MentionedPaths(chunks)
    {
      MentionedPathsComplete(chunks, p, k);
    }
  }

  /** `cross_reference_paths`: the mentioned paths, each mapped to whether the repository has
      that file. */
  method CrossReferencePaths(chunks: seq<string>, repoFiles: seq<string>) returns (r: map<string, bool>)
    ensures forall p :: p in r <==>
      exists k :: 0 <= k < |chunks| && p in Words(chunks[k]) && IsPathMention(p)
    ensures forall p :: p in r ==> (r[p] <==> p in repoFiles)
  {
    var mentioned: seq<string> := [];
    for i := 0 to |chunks|
      invariant mentioned == MentionedPaths(chunks[..i])
    {
      var words := Words(chunks[i]);
      ghost var before := mentioned;
      for j := 0 to |words|
        invariant mentioned == before + PathsIn(words[..j])
      {
        var word := words[j];
        assert words[..j + 1][..j] == words[..j];
        if StartsWith(word, "src/") && EndsWith(word, ".py") {
          mentioned := mentioned + [word];
        }
      }
      assert words[..|words|] == words;
      assert chunks[..i + 1][..i] == chunks[..i];
    }
    assert chunks[..|chunks|] == chunks;
    MentionedPathsMembers(chunks);
    r := map p | p in mentioned :: p in repoFiles;
  }
}
