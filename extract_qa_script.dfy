/**
 * The older single-file script (extract-qa.py): its own block builder,
 * which appends a paragraph before checking the size and keeps blocks
 * strictly longer than the minimum; its copies of the detector, the
 * normalisers and the response parser; the block selection of `process`;
 * and the records it writes for each block.
 */
module ExtractQaScript {

  import opened Options
  import opened Strings
  import opened Seqs
  import opened JsonValues
  import TextProcessor
  import QaExtractor

  // ---------------------------------------------------------------------
  // The block builder (`create_hybrid_blocks`, older copy)
  // ---------------------------------------------------------------------

  /**
   * Where the older inner loop stops. Standing at paragraph `j` with `acc`
   * characters counted, it always takes paragraph `j`, and closes the run
   * right after the paragraph that brings the count to `maxSize` or beyond.
   */
  function RunEnd(paras: seq<string>, j: nat, acc: nat, maxSize: int): (e: nat)
    requires j <= |paras|
    ensures j <= e <= |paras|
    ensures j < |paras| ==> j < e
    decreases |paras| - j
  {
    if j == |paras| then j
    else if acc + |paras[j]| >= maxSize then j + 1
    else RunEnd(paras, j + 1, acc + |paras[j]|, maxSize)
  }

  /** The runs of paragraphs the outer loop collects, from paragraph `i` on. */
  function Runs(paras: seq<string>, i: nat, maxSize: int): seq<seq<string>>
    requires i <= |paras|
    decreases |paras| - i
  {
    if i == |paras| then []
    else
      var e := RunEnd(paras, i, 0, maxSize);
      [paras[i..e]] + Runs(paras, e, maxSize)
  }

  /** Each run joined with `"\n\n"`, keeping the blocks longer than `minSize`. */
  function KeepLongerBlocks(runs: seq<seq<string>>, minSize: int): seq<string>
  {
    if runs == [] then []
    else
      var block := JoinWith(runs[0], "\n\n");
      (if |block| > minSize then [block] else []) + KeepLongerBlocks(runs[1..], minSize)
  }

  lemma KeepLongerBlocksCons(run: seq<string>, rest: seq<seq<string>>, minSize: int)
    ensures var block := JoinWith(run, "\n\n");
      KeepLongerBlocks([run] + rest, minSize)
        == (if |block| > minSize then [block] else []) + KeepLongerBlocks(rest, minSize)
  {
    assert ([run] + rest)[1..] == rest;
  }

  /** What the older `create_hybrid_blocks(text, max_size, min_size)` returns; it has no empty-text guard. */
  function HybridBlocks(text: string, maxSize: int, minSize: int): seq<string>
  {
    MergedBlocks(TextProcessor.Paragraphs(text), maxSize, minSize)
  }

  /** The older `create_hybrid_blocks`: the paragraph split, then the two nested loops. */
  method CreateHybridBlocks(text: string, maxSize: int, minSize: int) returns (allBlocks: seq<string>)
    ensures allBlocks == HybridBlocks(text, maxSize, minSize)
  {
    var paragraphs := TextProcessor.Paragraphs(text);
    allBlocks := MergeParagraphs(paragraphs, maxSize, minSize);
  }

  /** The blocks the older merging loops build from the paragraphs. */
  function MergedBlocks(paras: seq<string>, maxSize: int, minSize: int): seq<string>
  {
    KeepLongerBlocks(Runs(paras, 0, maxSize), minSize)
  }

  /** The older inner loop: it appends first and closes the run once the count reaches `maxSize`. */
  method CollectRun(paragraphs: seq<string>, start: nat, maxSize: int) returns (blockParas: seq<string>, i: nat)
    requires start <= |paragraphs|
    ensures i == RunEnd(paragraphs, start, 0, maxSize)
    ensures blockParas == paragraphs[start..i]
  {
    i := start;
    blockParas := [];
    var currentLen := 0;
    while i < |paragraphs|
      invariant start <= i <= |paragraphs|
      invariant blockParas == paragraphs[start..i]
      invariant currentLen == SumLen(blockParas)
      invariant RunEnd(paragraphs, i, currentLen, maxSize) == RunEnd(paragraphs, start, 0, maxSize)
      decreases |paragraphs| - i
    {
      var para := paragraphs[i];
      SliceExtend(paragraphs, start, i);
      SumLenPush(blockParas, para);
      blockParas := blockParas + [para];
      currentLen := currentLen + |para|;
      if currentLen >= maxSize {
        i := i + 1;
        break;
      }
      i := i + 1;
    }
  }

  /** The two nested loops of the older `create_hybrid_blocks`. */
  method MergeParagraphs(paragraphs: seq<string>, maxSize: int, minSize: int) returns (allBlocks: seq<string>)
    ensures allBlocks == MergedBlocks(paragraphs, maxSize, minSize)
  {
    allBlocks := [];
    var i := 0;
    while i < |paragraphs|
      invariant i <= |paragraphs|
      invariant allBlocks + KeepLongerBlocks(Runs(paragraphs, i, maxSize), minSize)
             == KeepLongerBlocks(Runs(paragraphs, 0, maxSize), minSize)
      decreases |paragraphs| - i
    {
      ghost var start := i;
      var blockParas;
      blockParas, i := CollectRun(paragraphs, i, maxSize);
      ghost var rest := Runs(paragraphs, i, maxSize);
      assert Runs(paragraphs, start, maxSize) == [blockParas] + rest;
      KeepLongerBlocksCons(blockParas, rest, minSize);
      ghost var before := allBlocks;
      var blockText := JoinWith(blockParas, "\n\n");
      ghost var kept := if |blockText| > minSize then [blockText] else [];
      if |blockText| > minSize {
        allBlocks := allBlocks + [blockText];
      }
      assert allBlocks == before + kept;
      AppendAssoc(before, kept, KeepLongerBlocks(rest, minSize));
    }
  }

  /**
   * The runs partition the paragraphs from `i` on: taken in order they give
   * back every paragraph exactly once, and no run is empty.
   */
  lemma {:induction false} RunsPartition(paras: seq<string>, i: nat, maxSize: int)
    requires i <= |paras|
    ensures TextProcessor.Flatten(Runs(paras, i, maxSize)) == paras[i..]
    ensures forall k :: 0 <= k < |Runs(paras, i, maxSize)| ==> Runs(paras, i, maxSize)[k] != []
    decreases |paras| - i
  {
    if i < |paras| {
      var e := RunEnd(paras, i, 0, maxSize);
      var runs := Runs(paras, i, maxSize);
      RunsPartition(paras, e, maxSize);
      assert runs[1..] == Runs(paras, e, maxSize);
      assert paras[i..] == paras[i..e] + paras[e..];
    }
  }

  /**
   * One run, followed along the older inner loop: from paragraph `i`, having
   * taken the paragraphs up to `j` with every count so far below `maxSize`,
   * the run ends at `e` where every count before its last paragraph is below
   * `maxSize`, and its own count reaches `maxSize` unless it ends at the
   * last paragraph.
   */
  lemma {:induction false} RunEndFacts(paras: seq<string>, i: nat, j: nat, acc: nat, maxSize: int)
    requires i <= j <= |paras| && i < |paras|
    requires acc == SumLen(paras[i..j])
    requires forall m :: i < m <= j ==> SumLen(paras[i..m]) < maxSize
    ensures var e := RunEnd(paras, j, acc, maxSize);
      i < e &&
      (forall m :: i < m < e ==> SumLen(paras[i..m]) < maxSize) &&
      (e == |paras| || SumLen(paras[i..e]) >= maxSize)
    decreases |paras| - j
  {
    if j < |paras| {
      SliceExtend(paras, i, j);
      SumLenPush(paras[i..j], paras[j]);
      if acc + |paras[j]| < maxSize {
        RunEndFacts(paras, i, j + 1, acc + |paras[j]|, maxSize);
      }
    }
  }

  /**
   * Every count before a run's last paragraph is below `maxSize`, and every
   * run but the last counts `maxSize` or more.
   */
  predicate RunsCloseAtMax(runs: seq<seq<string>>, maxSize: int) {
    forall k :: 0 <= k < |runs| ==>
      (forall m :: 0 < m < |runs[k]| ==> SumLen(runs[k][..m]) < maxSize) &&
      (k < |runs| - 1 ==> SumLen(runs[k]) >= maxSize)
  }

  /**
   * The size rules of the older copy, for every run: every count before the
   * run's last paragraph is below `maxSize`, and every run but the last
   * counts `maxSize` characters or more.
   */
  lemma {:induction false} RunsSizes(paras: seq<string>, i: nat, maxSize: int)
    requires i <= |paras|
    ensures RunsCloseAtMax(Runs(paras, i, maxSize), maxSize)
    decreases |paras| - i
  {
    if i < |paras| {
      var e := RunEnd(paras, i, 0, maxSize);
      var runs := Runs(paras, i, maxSize);
      assert paras[i..i] == [];
      RunEndFacts(paras, i, i, 0, maxSize);
      var rest := Runs(paras, e, maxSize);
      RunsSizes(paras, e, maxSize);
      assert runs == [paras[i..e]] + rest;
      forall k | 0 <= k < |runs|
        ensures (forall m :: 0 < m < |runs[k]| ==> SumLen(runs[k][..m]) < maxSize)
          && (k < |runs| - 1 ==> SumLen(runs[k]) >= maxSize)
      {
        if k == 0 {
          forall m | 0 < m < |runs[0]| ensures SumLen(runs[0][..m]) < maxSize {
            assert runs[0][..m] == paras[i..i + m];
          }
        } else {
          assert runs[k] == rest[k - 1];
        }
      }
    }
  }

  /**
   * So a run of several paragraphs counts less than `maxSize` plus its last
   * paragraph: the paragraph that crosses `maxSize` is kept in the run.
   */
  lemma RunCountBound(run: seq<string>, maxSize: int)
    requires |run| > 1
    requires forall m :: 0 < m < |run| ==> SumLen(run[..m]) < maxSize
    ensures SumLen(run) < maxSize + |run[|run| - 1]|
  {
    assert SumLen(run[..|run| - 1]) < maxSize;
  }

  /** Every block the older copy returns is strictly longer than `minSize`. */
  lemma {:induction false} KeptBlocksLongerThanMin(runs: seq<seq<string>>, minSize: int)
    ensures forall b :: b in KeepLongerBlocks(runs, minSize) ==> |b| > minSize
    decreases |runs|
  {
    if runs != [] {
      KeptBlocksLongerThanMin(runs[1..], minSize);
    }
  }

  /** Without a guard, empty text still gives no blocks: its only piece is empty and is dropped. */
  lemma HybridBlocksEmpty(maxSize: int, minSize: int)
    ensures HybridBlocks("", maxSize, minSize) == []
  {
    assert TextProcessor.KeepStripped([""][1..]) == [];
    assert Strip("") == [];
  }

  // ---------------------------------------------------------------------
  // Detector and normalisers (older copies)
  // ---------------------------------------------------------------------

  /** The older `block_has_qa`: the same three pattern lists, without the empty-text guard. */
  predicate BlockHasQa(text: string) {
    TextProcessor.AnyFound(text, TextProcessor.AnswerMarkers)
    && (TextProcessor.AnyFound(text, TextProcessor.DirectQuestionMarkers)
        || TextProcessor.AnyFound(text, TextProcessor.IndirectQuestionMarkers))
  }

  /** No label is found in empty text. */
  lemma {:induction false} NoLabelInEmpty(markers: seq<TextProcessor.Marker>)
    requires forall k :: 0 <= k < |markers| ==> markers[k].Label?
    ensures !TextProcessor.AnyFound("", markers)
    decreases |markers|
  {
    if markers != [] {
      NoLabelInEmpty(markers[1..]);
    }
  }

  /** The guard makes no difference: both copies flag the same texts. */
  lemma BlockHasQaSame(text: string)
    ensures BlockHasQa(text) <==> TextProcessor.BlockHasQa(text)
  {
    if text == [] {
      NoLabelInEmpty(TextProcessor.AnswerMarkers);
    }
  }

  /** The older `preprocess_qa_text`: the same rewriting, without the empty-text guard. */
  function PreprocessQaText(text: string): (r: string)
    ensures |r| <= |text|
  {
    TextProcessor.CollapseBlankLines(TextProcessor.FixSpeakerColons(text))
  }

  /** The guard makes no difference: both copies rewrite every text alike. */
  lemma PreprocessQaTextSame(text: string)
    ensures PreprocessQaText(text) == TextProcessor.PreprocessQaText(text)
  {
  }

  /** The script's fixed list of known speaker prefixes. */
  const KnownPrefixes: seq<string> :=
    ["网友", "记者", "问", "提问者", "主持人", "文章引用", "Q", "观众", "评论", "主持", "用户"]

  /** The older `clean_question_text`: the known prefixes of the script's list first, then the fallback rule. */
  function CleanQuestionText(question: Option<string>): (r: string)
    ensures IsStripped(r)
  {
    TextProcessor.CleanQuestionText(question, KnownPrefixes)
  }

  /** The script cleans questions exactly as a package processor built with no prefix list does. */
  lemma CleanQuestionTextSame(question: Option<string>)
    ensures CleanQuestionText(question) == TextProcessor.CleanQuestionText(question, TextProcessor.KnownPrefixesOrDefault(None))
  {
    assert KnownPrefixes == TextProcessor.DefaultKnownPrefixes;
  }

  // ---------------------------------------------------------------------
  // Block selection in `process`
  // ---------------------------------------------------------------------

  /**
   * The sampling step of `process`: for a ratio below 1 the first
   * `max(int(n * ratio), 1)` blocks (a slice past the end stops at the
   * end); otherwise every block.
   */
  function SampleBlocks<T>(blocks: seq<T>, ratio: real): (r: seq<T>)
    ensures |r| <= |blocks| && r == blocks[..|r|]
  {
    if ratio < 1.0 then
      var sampleSize := TextProcessor.Trunc(|blocks| as real * ratio);
      var size := if sampleSize < 1 then 1 else sampleSize;
      blocks[..if size < |blocks| then size else |blocks|]
    else blocks
  }

  /**
   * The script never empties a non-empty block list: a ratio of 0 or less
   * keeps one block where the package's `filter_blocks_by_ratio` keeps none;
   * for a ratio strictly between 0 and 1 the two agree, and from 1 on every
   * block is kept.
   */
  lemma SampleBlocksFacts<T>(blocks: seq<T>, ratio: real)
    ensures ratio >= 1.0 ==> SampleBlocks(blocks, ratio) == blocks
    ensures blocks != [] ==> SampleBlocks(blocks, ratio) != []
    ensures blocks != [] && ratio <= 0.0 ==> |SampleBlocks(blocks, ratio)| == 1 && TextProcessor.FilterBlocksByRatio(blocks, ratio) == []
    ensures 0.0 < ratio < 1.0 ==> SampleBlocks(blocks, ratio) == TextProcessor.FilterBlocksByRatio(blocks, ratio)
  {
    if ratio <= 0.0 {
      assert |blocks| as real * ratio <= 0.0;
    }
  }

  /** `[b for b in blocks if block_has_qa(b)]` */
  function QaBlocks(blocks: seq<string>): seq<string>
  {
    if blocks == [] then []
    else QaBlocks(blocks[..|blocks| - 1]) + (if BlockHasQa(blocks[|blocks| - 1]) then [blocks[|blocks| - 1]] else [])
  }

  /** The blocks `process` sends to the model: optionally the QA blocks only, then sampled. */
  function SelectBlocks(blocks: seq<string>, enableFilter: bool, ratio: real): seq<string>
  {
    SampleBlocks(if enableFilter then QaBlocks(blocks) else blocks, ratio)
  }

  lemma {:induction false} QaBlocksIff(blocks: seq<string>, b: string)
    ensures b in QaBlocks(blocks) <==> b in blocks && BlockHasQa(b)
    decreases |blocks|
  {
    if blocks != [] {
      var n := |blocks| - 1;
      QaBlocksIff(blocks[..n], b);
      assert blocks == blocks[..n] + [blocks[n]];
    }
  }

  /**
   * Every selected block is one of the given blocks, and with the filter on
   * every selected block has a question and an answer; the selection is
   * empty only when nothing passed the filter.
   */
  lemma SelectBlocksFacts(blocks: seq<string>, enableFilter: bool, ratio: real)
    ensures forall b :: b in SelectBlocks(blocks, enableFilter, ratio) ==> b in blocks
    ensures enableFilter ==> forall b :: b in SelectBlocks(blocks, enableFilter, ratio) ==> BlockHasQa(b)
    ensures SelectBlocks(blocks, enableFilter, ratio) == [] <==> (if enableFilter then QaBlocks(blocks) else blocks) == []
  {
    var pool := if enableFilter then QaBlocks(blocks) else blocks;
    SampleBlocksFacts(pool, ratio);
    forall b | b in SelectBlocks(blocks, enableFilter, ratio)
      ensures b in blocks && (enableFilter ==> BlockHasQa(b))
    {
      assert b in pool;
      if enableFilter {
        QaBlocksIff(blocks, b);
      }
    }
  }

  // ---------------------------------------------------------------------
  // Response parsing (`_parse_json_content` and `extract_json`, older copies)
  // ---------------------------------------------------------------------

  /**
   * The older `_parse_json_content`: the whole stripped content is parsed
   * first; only when that fails does the fallback run, so it computes what
   * the package's parser does.
   */
  method ParseJsonContent(content: string, loads: string -> Option<Json>) returns (results: seq<Json>)
    ensures results == QaExtractor.ParsedContent(content, loads)
  {
    QaExtractor.ParsedContentCases(content, loads);
    results := [];
    var c := Strip(content);
    if c == [] {
      return;
    }
    var data := loads(c);
    if data.Some? {
      if data.value.JArr? {
        results := QaExtractor.DictItems(data.value.items);
      } else if data.value.JObj? {
        results := [data.value];
      }
    } else {
      results := ParseSeparateObjects(c, loads);
      assert results == QaExtractor.LoadedDicts(QaExtractor.Pieces(c, QaExtractor.ObjectSpans(c)), loads);
    }
  }

  /**
   * The fallback of the older `_parse_json_content`, with the brace scanner
   * written inline: the balanced `{...}` pieces, in order, each parsed on its
   * own, keeping those that parse to a dict.
   */
  method ParseSeparateObjects(c: string, loads: string -> Option<Json>) returns (results: seq<Json>)
    ensures results == QaExtractor.LoadedDicts(QaExtractor.Pieces(c, QaExtractor.ObjectSpans(c)), loads)
  {
    var jsonObjects: seq<string> := [];
    var braceCount := 0;
    var startPos := -1;
    ghost var emitted: seq<QaExtractor.Span> := [];
    for i := 0 to |c|
      invariant -1 <= startPos < i
      invariant jsonObjects == QaExtractor.Pieces(c, emitted)
      invariant emitted + QaExtractor.ScanFrom(c, i, braceCount, startPos) == QaExtractor.ObjectSpans(c)
    {
      ghost var next := QaExtractor.ScanStep(c, i, braceCount, startPos);
      QaExtractor.ScanAdvance(c, i, braceCount, startPos, emitted);
      ghost var emittedNext := emitted + (if next.out.Some? then [next.out.value] else []);
      var ch := c[i];
      if ch == '{' {
        if braceCount == 0 {
          startPos := i;
        }
        braceCount := braceCount + 1;
      } else if ch == '}' {
        braceCount := braceCount - 1;
        if braceCount == 0 && startPos != -1 {
          var jsonStr := c[startPos..i + 1];
          QaExtractor.PiecesSnoc(c, emitted, QaExtractor.Span(startPos, i + 1));
          jsonObjects := jsonObjects + [jsonStr];
          emitted := emitted + [QaExtractor.Span(startPos, i + 1)];
          startPos := -1;
        }
      }
      assert next.count == braceCount && next.start == startPos && emitted == emittedNext;
    }
    assert emitted + [] == emitted;
    results := QaExtractor.LoadPieces(jsonObjects, loads);
  }

  /**
   * The older `extract_json`: the same fences and the same validity test,
   * written inline.
   */
  method ExtractJson(text: string, loads: string -> Option<Json>) returns (validResults: seq<Json>)
    ensures validResults == QaExtractor.ValidPairs(QaExtractor.AllParsed(text, loads))
  {
    var results := ParseResponse(text, loads);
    validResults := [];
    for k := 0 to |results|
      invariant validResults == QaExtractor.ValidPairs(results[..k])
    {
      TakeSnoc(results, k);
      var data := results[k];
      if data.JObj? && "question" in data.fields && "answer" in data.fields
        && Truthy(Get(data.fields, "question")) && Truthy(Get(data.fields, "answer"))
        && !IsBlank(data.fields["question"]) && !IsBlank(data.fields["answer"])
      {
        validResults := validResults + [data];
      }
    }
    assert results[..|results|] == results;
  }

  /** The parsing half of the script's `extract_json`, the same as the package's. */
  method ParseResponse(text: string, loads: string -> Option<Json>) returns (results: seq<Json>)
    ensures results == QaExtractor.AllParsed(text, loads)
  {
    results := [];
    var jsonBlocks := QaExtractor.FenceBodies(text);
    if |jsonBlocks| > 0 {
      for k := 0 to |jsonBlocks|
        invariant results == QaExtractor.ParsedBodies(jsonBlocks[..k], loads)
      {
        TakeSnoc(jsonBlocks, k);
        var parsed := ParseJsonContent(jsonBlocks[k], loads);
        results := results + parsed;
      }
      assert jsonBlocks[..|jsonBlocks|] == jsonBlocks;
    } else {
      results := ParseJsonContent(text, loads);
    }
  }

  /**
   * The prompt `process` sends for one block: the base prompt, a blank
   * line and the preprocessed block, which is what the package's
   * `create_prompt` makes of the package's preprocessing.
   */
  function BlockPrompt(basePrompt: string, block: string): (prompt: string)
    ensures prompt == QaExtractor.CreatePrompt(basePrompt, TextProcessor.PreprocessQaText(block))
    ensures |prompt| <= |basePrompt| + 2 + |block|
  {
    PreprocessQaTextSame(block);
    basePrompt + "\n\n" + PreprocessQaText(block)
  }

  // ---------------------------------------------------------------------
  // The records `process` writes for one block
  // ---------------------------------------------------------------------

  /**
   * For each dict `d` of `extract_json`'s result, skipping those whose
   * question or answer is falsy: the cleaned question, the answer and the
   * original (not preprocessed) block.
   */
  function BlockRecords(data: seq<Json>, block: string, render: Json -> string): seq<QaExtractor.QaRecord>
    requires forall k :: 0 <= k < |data| ==> data[k].JObj?
  {
    if data == [] then []
    else
      var d := data[|data| - 1];
      BlockRecords(data[..|data| - 1], block, render)
      + (if !Truthy(Get(d.fields, "question")) || !Truthy(Get(d.fields, "answer")) then []
         else [QaExtractor.QaRecord(CleanQuestionText(Some(QaExtractor.PyStr(d.fields["question"], render))), d.fields["answer"], block)])
  }

  /**
   * On what `extract_json` returns the skip never fires, and the script
   * writes the records the package's `process_qa_pairs` builds with the
   * default prefixes and the block as source text.
   */
  lemma {:induction false} BlockRecordsSame(data: seq<Json>, block: string, render: Json -> string)
    requires forall k :: 0 <= k < |data| ==> QaExtractor.IsValidQaPair(data[k])
    ensures (forall k :: 0 <= k < |data| ==> data[k].JObj?)
      && BlockRecords(data, block, render) == QaExtractor.Processed(data, block, TextProcessor.KnownPrefixesOrDefault(None), render)
    decreases |data|
  {
    if data != [] {
      var n := |data| - 1;
      BlockRecordsSame(data[..n], block, render);
      CleanQuestionTextSame(Some(QaExtractor.PyStr(data[n].fields["question"], render)));
    }
  }

  /** In particular for the result of `extract_json` on any reply. */
  lemma ExtractedRecordsSame(reply: string, loads: string -> Option<Json>, block: string, render: Json -> string)
    ensures var data := QaExtractor.ValidPairs(QaExtractor.AllParsed(reply, loads));
      (forall k :: 0 <= k < |data| ==> data[k].JObj?)
      && BlockRecords(data, block, render) == QaExtractor.Processed(data, block, TextProcessor.KnownPrefixesOrDefault(None), render)
  {
    var data := QaExtractor.ValidPairs(QaExtractor.AllParsed(reply, loads));
    QaExtractor.ValidPairsSubsequence(QaExtractor.AllParsed(reply, loads));
    BlockRecordsSame(data, block, render);
  }
}
