/**
 * The text segmentation and cleaning operations of the package's
 * `TextProcessor` (src/core/text_processor.py).
 *
 * `TextProcessor` keeps one field, `known_prefixes`, which its constructor
 * sets and nothing updates afterwards, so its operations are modelled as
 * functions taking that list as a parameter.
 */
module TextProcessor {

  import opened Options
  import opened Strings
  import opened Seqs

  // ---------------------------------------------------------------------
  // Paragraphs and the hybrid block builder (`create_hybrid_blocks`)
  // ---------------------------------------------------------------------

  /** `[p.strip() for p in text.split("\n\n") if p.strip()]` */
  function Paragraphs(text: string): (paras: seq<string>)
    ensures AllNonEmpty(paras)
  {
    KeepStripped(SplitParagraphs(text))
  }

  /** The stripped pieces that are not empty, in order. */
  function KeepStripped(pieces: seq<string>): (paras: seq<string>)
    ensures AllNonEmpty(paras)
    ensures |paras| <= |pieces|
    ensures forall k :: 0 <= k < |paras| ==> IsStripped(paras[k])
  {
    if pieces == [] then []
    else (if Strip(pieces[0]) != [] then [Strip(pieces[0])] else []) + KeepStripped(pieces[1..])
  }

  predicate AllNonEmpty(paras: seq<string>) {
    forall k :: 0 <= k < |paras| ==> paras[k] != []
  }

  /**
   * Where the inner loop of `create_hybrid_blocks` stops. Standing at
   * paragraph `j` with `acc` characters already counted for the current
   * block, it returns the index of the first paragraph the block does not
   * take: it stops before a paragraph that would push a non-empty count past
   * `maxSize`, and right after a paragraph that brings the count to
   * `maxSize` or beyond.
   */
  function RunEnd(paras: seq<string>, j: nat, acc: nat, maxSize: int): (e: nat)
    requires j <= |paras|
    ensures j <= e <= |paras|
    ensures acc == 0 && j < |paras| ==> j < e
    decreases |paras| - j
  {
    if j == |paras| then j
    else if acc > 0 && acc + |paras[j]| > maxSize then j
    else if acc + |paras[j]| >= maxSize then j + 1
    else RunEnd(paras, j + 1, acc + |paras[j]|, maxSize)
  }

  /** The runs of paragraphs the outer loop collects, from paragraph `i` on. */
  function Runs(paras: seq<string>, i: nat, maxSize: int): seq<seq<string>>
    requires i <= |paras|
    decreases |paras| - i
  {
    if i == |paras| then []
    else
      var e := RunEnd(paras, i, 0, maxSize);
      [paras[i..e]] + Runs(paras, e, maxSize)
  }

  /** Each run joined with `"\n\n"`, keeping the blocks of at least `minSize` characters. */
  function KeepLongBlocks(runs: seq<seq<string>>, minSize: int): seq<string>
  {
    if runs == [] then []
    else
      var block := JoinWith(runs[0], "\n\n");
      (if |block| >= minSize then [block] else []) + KeepLongBlocks(runs[1..], minSize)
  }

  lemma KeepLongBlocksCons(run: seq<string>, rest: seq<seq<string>>, minSize: int)
    ensures var block := JoinWith(run, "\n\n");
      KeepLongBlocks([run] + rest, minSize)
        == (if |block| >= minSize then [block] else []) + KeepLongBlocks(rest, minSize)
  {
    assert ([run] + rest)[1..] == rest;
  }

  /** The blocks the merging loops build from the paragraphs. */
  function MergedBlocks(paras: seq<string>, maxSize: int, minSize: int): seq<string>
  {
    KeepLongBlocks(Runs(paras, 0, maxSize), minSize)
  }

  /** What `create_hybrid_blocks(text, max_size, min_size)` returns. */
  function HybridBlocks(text: string, maxSize: int, minSize: int): seq<string>
  {
    if text == [] then [] else MergedBlocks(Paragraphs(text), maxSize, minSize)
  }

  /** `create_hybrid_blocks`: the empty-text guard, the paragraph split, then the merging loops. */
  method CreateHybridBlocks(text: string, maxSize: int, minSize: int) returns (allBlocks: seq<string>)
    ensures allBlocks == HybridBlocks(text, maxSize, minSize)
  {
    if text == [] {
      return [];
    }
    var paragraphs := Paragraphs(text);
    allBlocks := MergeParagraphs(paragraphs, maxSize, minSize);
  }

  /** The inner loop of `create_hybrid_blocks`: it collects one run, from paragraph `start` on. */
  method CollectRun(paragraphs: seq<string>, start: nat, maxSize: int) returns (blockParas: seq<string>, i: nat)
    requires start <= |paragraphs|
    ensures i == RunEnd(paragraphs, start, 0, maxSize)
    ensures blockParas == paragraphs[start..i]
  {
    i := start;
    blockParas := [];
    var currentLen := 0;
    while i < |paragraphs|
      invariant start <= i <= |paragraphs|
      invariant blockParas == paragraphs[start..i]
      invariant currentLen == SumLen(blockParas)
      invariant RunEnd(paragraphs, i, currentLen, maxSize) == RunEnd(paragraphs, start, 0, maxSize)
      decreases |paragraphs| - i
    {
      var para := paragraphs[i];
      if currentLen > 0 && currentLen + |para| > maxSize {
        break;
      }
      SliceExtend(paragraphs, start, i);
      SumLenPush(blockParas, para);
      blockParas := blockParas + [para];
      currentLen := currentLen + |para|;
      i := i + 1;
      if currentLen >= maxSize {
        break;
      }
    }
  }

  /** The two nested loops of `create_hybrid_blocks`, over the stripped non-empty paragraphs. */
  method MergeParagraphs(paragraphs: seq<string>, maxSize: int, minSize: int) returns (allBlocks: seq<string>)
    ensures allBlocks == MergedBlocks(paragraphs, maxSize, minSize)
  {
    allBlocks := [];
    var i := 0;
    while i < |paragraphs|
      invariant i <= |paragraphs|
      invariant allBlocks + KeepLongBlocks(Runs(paragraphs, i, maxSize), minSize)
             == KeepLongBlocks(Runs(paragraphs, 0, maxSize), minSize)
      decreases |paragraphs| - i
    {
      ghost var start := i;
      var blockParas;
      blockParas, i := CollectRun(paragraphs, i, maxSize);
      ghost var rest := Runs(paragraphs, i, maxSize);
      assert Runs(paragraphs, start, maxSize) == [blockParas] + rest;
      KeepLongBlocksCons(blockParas, rest, minSize);
      ghost var before := allBlocks;
      ghost var kept := if |JoinWith(blockParas, "\n\n")| >= minSize then [JoinWith(blockParas, "\n\n")] else [];
      if |blockParas| > 0 {
        var blockText := JoinWith(blockParas, "\n\n");
        if |blockText| >= minSize {
          allBlocks := allBlocks + [blockText];
        }
      }
      assert allBlocks == before + kept;
      AppendAssoc(before, kept, KeepLongBlocks(rest, minSize));
    }
  }

  // Properties of the runs and blocks

  /** The runs one after another. */
  function Flatten(runs: seq<seq<string>>): seq<string>
  {
    if runs == [] then [] else runs[0] + Flatten(runs[1..])
  }

  /** Each non-empty paragraph adds at least one character to the running count. */
  lemma {:induction false} SumLenAtLeastCount(parts: seq<string>)
    requires AllNonEmpty(parts)
    ensures SumLen(parts) >= |parts|
    decreases |parts|
  {
    if parts != [] {
      SumLenAtLeastCount(parts[..|parts| - 1]);
    }
  }

  /**
   * The runs partition the paragraphs from `i` on: taken in order they give
   * back every paragraph exactly once, and no run is empty (each outer
   * iteration takes at least one paragraph).
   */
  lemma {:induction false} RunsPartition(paras: seq<string>, i: nat, maxSize: int)
    requires i <= |paras|
    ensures Flatten(Runs(paras, i, maxSize)) == paras[i..]
    ensures forall k :: 0 <= k < |Runs(paras, i, maxSize)| ==> Runs(paras, i, maxSize)[k] != []
    decreases |paras| - i
  {
    if i < |paras| {
      var e := RunEnd(paras, i, 0, maxSize);
      var runs := Runs(paras, i, maxSize);
      RunsPartition(paras, e, maxSize);
      assert runs[1..] == Runs(paras, e, maxSize);
      assert paras[i..] == paras[i..e] + paras[e..];
    }
  }

  /**
   * One run, followed along the inner loop: from paragraph `i`, having taken
   * the paragraphs up to `j` with every running count below `maxSize`, the
   * run ends at `e` where (1) it holds more than one paragraph only if its
   * count stays within `maxSize`, (2) every count before its last paragraph
   * is below `maxSize`, and (3) it ends at the last paragraph, at a count of
   * `maxSize` or more, or before a paragraph that would exceed `maxSize`.
   */
  lemma {:induction false} RunEndFacts(paras: seq<string>, i: nat, j: nat, acc: nat, maxSize: int)
    requires AllNonEmpty(paras)
    requires i <= j <= |paras| && i < |paras|
    requires acc == SumLen(paras[i..j])
    requires forall m :: i < m <= j ==> SumLen(paras[i..m]) < maxSize
    ensures var e := RunEnd(paras, j, acc, maxSize);
      i < e &&
      (e == i + 1 || SumLen(paras[i..e]) <= maxSize) &&
      (forall m :: i < m < e ==> SumLen(paras[i..m]) < maxSize) &&
      (e == |paras| || SumLen(paras[i..e]) >= maxSize || SumLen(paras[i..e]) + |paras[e]| > maxSize)
    decreases |paras| - j
  {
    if j < |paras| {
      var next := acc + |paras[j]|;
      SliceExtend(paras, i, j);
      SumLenPush(paras[i..j], paras[j]);
      assert SumLen(paras[i..j + 1]) == next;
      if j > i {
        SumLenAtLeastCount(paras[i..j]);
      }
      if acc > 0 && next > maxSize {
        assert RunEnd(paras, j, acc, maxSize) == j;
      } else if next >= maxSize {
        assert RunEnd(paras, j, acc, maxSize) == j + 1;
      } else {
        RunEndFacts(paras, i, j + 1, next, maxSize);
        assert RunEnd(paras, j, acc, maxSize) == RunEnd(paras, j + 1, next, maxSize);
      }
    } else {
      assert RunEnd(paras, j, acc, maxSize) == j;
    }
  }

  /**
   * Every run of several paragraphs counts at most `maxSize` characters, and
   * every count before a run's last paragraph is below `maxSize`.
   */
  predicate RunsFit(runs: seq<seq<string>>, maxSize: int) {
    forall k :: 0 <= k < |runs| ==>
      (|runs[k]| == 1 || SumLen(runs[k]) <= maxSize) &&
      (forall m :: 0 < m < |runs[k]| ==> SumLen(runs[k][..m]) < maxSize)
  }

  /**
   * The size rules of `create_hybrid_blocks`, for every run: a run of
   * several paragraphs counts at most `maxSize` characters; a paragraph
   * longer than `maxSize` stays whole, alone in its run; every count before
   * a run's last paragraph is below `maxSize`.
   */
  lemma {:induction false} RunsWithinSize(paras: seq<string>, i: nat, maxSize: int)
    requires AllNonEmpty(paras) && i <= |paras|
    ensures RunsFit(Runs(paras, i, maxSize), maxSize)
    decreases |paras| - i
  {
    if i < |paras| {
      var e := RunEnd(paras, i, 0, maxSize);
      var runs := Runs(paras, i, maxSize);
      var rest := Runs(paras, e, maxSize);
      assert paras[i..i] == [];
      RunEndFacts(paras, i, i, 0, maxSize);
      RunsWithinSize(paras, e, maxSize);
      assert runs == [paras[i..e]] + rest;
      forall k | 0 <= k < |runs|
        ensures (|runs[k]| == 1 || SumLen(runs[k]) <= maxSize)
          && (forall m :: 0 < m < |runs[k]| ==> SumLen(runs[k][..m]) < maxSize)
      {
        if k == 0 {
          forall m | 0 < m < |runs[0]| ensures SumLen(runs[0][..m]) < maxSize {
            assert runs[0][..m] == paras[i..i + m];
          }
        } else {
          assert runs[k] == rest[k - 1];
        }
      }
    }
  }

  /** Run `k` was closed at a count of `maxSize` or more, or because the next run's first paragraph would exceed `maxSize`. */
  predicate ClosedWhenFull(runs: seq<seq<string>>, k: nat, maxSize: int)
    requires k + 1 < |runs|
  {
    runs[k + 1] != [] && (SumLen(runs[k]) >= maxSize || SumLen(runs[k]) + |runs[k + 1][0]| > maxSize)
  }

  /**
   * No run is closed early: each run but the last ends at a count of
   * `maxSize` or more, or because the next paragraph would push the count
   * past `maxSize`.
   */
  lemma {:induction false} RunsAreGreedy(paras: seq<string>, i: nat, maxSize: int)
    requires AllNonEmpty(paras) && i <= |paras|
    ensures var runs := Runs(paras, i, maxSize);
      forall k :: 0 <= k < |runs| - 1 ==> ClosedWhenFull(runs, k, maxSize)
    decreases |paras| - i
  {
    if i < |paras| {
      var e := RunEnd(paras, i, 0, maxSize);
      var runs := Runs(paras, i, maxSize);
      assert paras[i..i] == [];
      RunEndFacts(paras, i, i, 0, maxSize);
      RunsAreGreedy(paras, e, maxSize);
      assert runs[1..] == Runs(paras, e, maxSize);
      assert runs[0] == paras[i..e];
      if e < |paras| {
        var e2 := RunEnd(paras, e, 0, maxSize);
        assert runs[1] == paras[e..e2];
        assert runs[1][0] == paras[e];
      }
      forall k | 0 < k < |runs| - 1 ensures ClosedWhenFull(runs, k, maxSize) {
        assert ClosedWhenFull(runs[1..], k - 1, maxSize);
      }
    }
  }

  /** Every block `create_hybrid_blocks` returns has at least `minSize` characters. */
  lemma {:induction false} KeptBlocksAtLeastMin(runs: seq<seq<string>>, minSize: int)
    ensures forall b :: b in KeepLongBlocks(runs, minSize) ==> |b| >= minSize
    decreases |runs|
  {
    if runs != [] {
      KeptBlocksAtLeastMin(runs[1..], minSize);
    }
  }

  /**
   * A block's length is its paragraphs' lengths plus two characters per
   * `"\n\n"` separator, which the running count leaves out: a block of
   * several paragraphs is at most `maxSize + 2 * (paragraphs - 1)` long.
   */
  lemma JoinedRunLength(run: seq<string>, maxSize: int)
    requires |run| > 1 ==> SumLen(run) <= maxSize
    requires run != []
    ensures |JoinWith(run, "\n\n")| == SumLen(run) + 2 * (|run| - 1)
    ensures |run| > 1 ==> |JoinWith(run, "\n\n")| <= maxSize + 2 * (|run| - 1)
  {
    JoinWithLength(run, "\n\n");
  }

  /** The package copy returns no blocks for empty text, and only blocks of at least `minSize` characters. */
  lemma HybridBlocksAtLeastMin(text: string, maxSize: int, minSize: int)
    ensures text == [] ==> HybridBlocks(text, maxSize, minSize) == []
    ensures forall b :: b in HybridBlocks(text, maxSize, minSize) ==> |b| >= minSize
  {
    if text != [] {
      KeptBlocksAtLeastMin(Runs(Paragraphs(text), 0, maxSize), minSize);
    }
  }

  /**
   * The running count leaves the separators out, so a block can be longer
   * than `maxSize`: two five-character paragraphs with `maxSize` 10 make one
   * twelve-character block.
   */
  lemma OversizeBlockExample()
    ensures var paras := ["aaaaa", "aaaaa"];
      MergedBlocks(paras, 10, 0) == ["aaaaa\n\naaaaa"] && |"aaaaa\n\naaaaa"| == 12
  {
    var paras := ["aaaaa", "aaaaa"];
    assert paras[..1] == ["aaaaa"] && SumLen(paras[..1]) == 5;
    assert RunEnd(paras, 1, 5, 10) == 2;
    assert RunEnd(paras, 0, 0, 10) == 2;
    assert Runs(paras, 2, 10) == [];
    assert paras[0..2] == paras;
    assert Runs(paras, 0, 10) == [paras];
    assert paras[1..] == ["aaaaa"];
    assert JoinWith(paras, "\n\n") == "aaaaa" + "\n\n" + "aaaaa" == "aaaaa\n\naaaaa";
    assert KeepLongBlocks([paras], 0) == [JoinWith(paras, "\n\n")] + KeepLongBlocks([], 0);
  }

  // ---------------------------------------------------------------------
  // Question-and-answer detection (`block_has_qa`)
  // ---------------------------------------------------------------------

  /** `[：:]`: the full-width or the ASCII colon. */
  predicate IsColon(c: char) {
    c == '：' || c == ':'
  }

  /**
   * One search pattern of `block_has_qa`: a speaker label that must be
   * followed by a colon (`网友[：:]`), or a bare phrase (`有人说`).
   */
  datatype Marker = Label(word: string) | Phrase(words: string)

  /** `re.search(pattern, text)` succeeds for the marker's pattern. */
  predicate Found(text: string, m: Marker) {
    match m
    case Label(w) => Contains(text, w + ":") || Contains(text, w + "：")
    case Phrase(p) => Contains(text, p)
  }

  /** `any(re.search(p, text) for p in markers)` */
  predicate AnyFound(text: string, markers: seq<Marker>)
    decreases |markers|
  {
    markers != [] && (Found(text, markers[0]) || AnyFound(text, markers[1..]))
  }

  /** The marker's pattern matches `text` starting at index `i`. */
  predicate MatchesAt(text: string, m: Marker, i: int) {
    match m
    case Label(w) => OccursAt(text, w, i) && i + |w| < |text| && IsColon(text[i + |w|])
    case Phrase(p) => OccursAt(text, p, i)
  }

  const DirectQuestionMarkers: seq<Marker> :=
    [Label("网友"), Label("问"), Label("问题"), Label("提问"), Label("主持人"), Label("观众"), Label("Q")]

  const IndirectQuestionMarkers: seq<Marker> :=
    [Label("文章引用"), Label("引用"), Phrase("有人说"), Phrase("有人认为"), Phrase("有观点认为"),
     Phrase("据说"), Phrase("听说")]

  const AnswerMarkers: seq<Marker> := [Label("段永平"), Label("段"), Label("大道")]

  /** `block_has_qa`: an answer speaker together with a direct or an indirect question. */
  predicate BlockHasQa(text: string) {
    text != [] && AnyFound(text, AnswerMarkers)
    && (AnyFound(text, DirectQuestionMarkers) || AnyFound(text, IndirectQuestionMarkers))
  }

  /** The search for a marker's pattern succeeds exactly when the pattern matches at some index. */
  lemma FoundIff(text: string, m: Marker)
    ensures Found(text, m) <==> exists i :: MatchesAt(text, m, i)
  {
    match m
    case Phrase(p) =>
      ContainsIff(text, p);
      if Contains(text, p) {
        var i :| OccursAt(text, p, i);
        assert MatchesAt(text, m, i);
      }
    case Label(w) =>
      LabelFoundIff(text, w);
  }

  /** The label then a colon `c` occurs at `i` exactly when the label matches at `i` with `c` as its colon. */
  lemma LabelColonAt(text: string, w: string, c: char, i: int)
    requires IsColon(c)
    ensures OccursAt(text, w + [c], i) <==> MatchesAt(text, Label(w), i) && text[i + |w|] == c
  {
    if 0 <= i && i + |w| + 1 <= |text| {
      assert text[i..i + |w| + 1] == text[i..i + |w|] + [text[i + |w|]];
      if text[i..i + |w| + 1] == w + [c] {
        assert text[i..i + |w|] == (w + [c])[..|w|];
      }
    }
  }

  /** A label pattern matches exactly where the label stands right before a colon. */
  lemma LabelFoundIff(text: string, w: string)
    ensures Found(text, Label(w)) <==> exists i :: MatchesAt(text, Label(w), i)
  {
    ContainsIff(text, w + [':']);
    ContainsIff(text, w + ['：']);
    assert w + ":" == w + [':'] && w + "：" == w + ['：'];
    forall i | MatchesAt(text, Label(w), i) ensures Contains(text, w + [':']) || Contains(text, w + ['：']) {
      LabelColonAt(text, w, ':', i);
      LabelColonAt(text, w, '：', i);
    }
    if Contains(text, w + [':']) {
      var i :| OccursAt(text, w + [':'], i);
      LabelColonAt(text, w, ':', i);
    } else if Contains(text, w + ['：']) {
      var i :| OccursAt(text, w + ['：'], i);
      LabelColonAt(text, w, '：', i);
    }
  }

  /** Some marker of the list matches somewhere in the text. */
  ghost predicate SomeMatch(text: string, markers: seq<Marker>) {
    exists k, i :: 0 <= k < |markers| && MatchesAt(text, markers[k], i)
  }

  lemma {:induction false} AnyFoundIff(text: string, markers: seq<Marker>)
    ensures AnyFound(text, markers) <==> SomeMatch(text, markers)
    decreases |markers|
  {
    if markers != [] {
      FoundIff(text, markers[0]);
      AnyFoundIff(text, markers[1..]);
      if SomeMatch(text, markers) {
        var k, i :| 0 <= k < |markers| && MatchesAt(text, markers[k], i);
        if k > 0 {
          assert MatchesAt(text, markers[1..][k - 1], i);
        }
      }
      if SomeMatch(text, markers[1..]) {
        var k, i :| 0 <= k < |markers[1..]| && MatchesAt(text, markers[1..][k], i);
        assert MatchesAt(text, markers[k + 1], i);
      }
    }
  }

  /**
   * `block_has_qa` holds exactly when an answer label stands before a colon
   * somewhere, and so does a direct question label, or an indirect question
   * label or phrase occurs. Empty text has no match, so it is never flagged.
   */
  lemma BlockHasQaIff(text: string)
    ensures BlockHasQa(text) <==>
      SomeMatch(text, AnswerMarkers)
      && (SomeMatch(text, DirectQuestionMarkers) || SomeMatch(text, IndirectQuestionMarkers))
    ensures text == [] ==> !BlockHasQa(text)
  {
    FlaggedIff(text, AnswerMarkers, DirectQuestionMarkers, IndirectQuestionMarkers);
  }

  /** The detector's shape for any three marker lists, so the literal lists need not be unfolded. */
  lemma FlaggedIff(text: string, answers: seq<Marker>, direct: seq<Marker>, indirect: seq<Marker>)
    ensures (AnyFound(text, answers) && (AnyFound(text, direct) || AnyFound(text, indirect))) <==>
      (SomeMatch(text, answers) && (SomeMatch(text, direct) || SomeMatch(text, indirect)))
  {
    AnyFoundIff(text, answers);
    AnyFoundIff(text, direct);
    AnyFoundIff(text, indirect);
  }

  /** A marker that matches somewhere in `s` still matches once text is added around `s`. */
  lemma MatchWithin(a: string, s: string, b: string, m: Marker, i: int)
    requires MatchesAt(s, m, i)
    ensures MatchesAt(a + s + b, m, |a| + i)
  {
    var w := if m.Label? then m.word else m.words;
    assert (a + s + b)[|a| + i..|a| + i + |w|] == s[i..i + |w|];
    if m.Label? {
      assert (a + s + b)[|a| + i + |w|] == s[i + |w|];
    }
  }

  lemma SomeMatchWithin(a: string, s: string, b: string, markers: seq<Marker>)
    requires SomeMatch(s, markers)
    ensures SomeMatch(a + s + b, markers)
  {
    var k, i :| 0 <= k < |markers| && MatchesAt(s, markers[k], i);
    MatchWithin(a, s, b, markers[k], i);
  }

  /** A block flagged as holding a question and an answer stays flagged inside any larger text. */
  lemma BlockHasQaWithin(a: string, s: string, b: string)
    requires BlockHasQa(s)
    ensures BlockHasQa(a + s + b)
  {
    BlockHasQaIff(s);
    BlockHasQaIff(a + s + b);
    SomeMatchWithin(a, s, b, AnswerMarkers);
    if SomeMatch(s, DirectQuestionMarkers) {
      SomeMatchWithin(a, s, b, DirectQuestionMarkers);
    } else {
      SomeMatchWithin(a, s, b, IndirectQuestionMarkers);
    }
  }

  /** A question label, then an answer label, each before a colon, makes a block that is flagged. */
  lemma QuestionThenAnswerFlagged(q: string, x: string, y: string)
    requires q == "网友：" + x + "\n段永平：" + y
    ensures BlockHasQa(q)
  {
    assert MatchesAt(q, Label("网友"), 0) by {
      assert q[0..2] == "网友";
    }
    var j := 4 + |x|;
    assert MatchesAt(q, Label("段永平"), j) by {
      assert q[j..j + 3] == "段永平";
    }
    assert MatchesAt(q, DirectQuestionMarkers[0], 0);
    assert MatchesAt(q, AnswerMarkers[0], j);
    BlockHasQaIff(q);
  }

  // ---------------------------------------------------------------------
  // Preprocessing (`preprocess_qa_text`)
  // ---------------------------------------------------------------------

  /**
   * `re.sub(label + '[：:]', label + '：', s)`: the text is scanned left to
   * right; each occurrence of the label followed by either colon is
   * rewritten with the full-width colon and the scan resumes after it.
   */
  function FixLabelColon(s: string, word: string): (r: string)
    requires word != []
    ensures |r| == |s|
    decreases |s|
  {
    if |s| > |word| && StartsWith(s, word) && IsColon(s[|word|]) then
      word + "：" + FixLabelColon(s[|word| + 1..], word)
    else if s == [] then []
    else [s[0]] + FixLabelColon(s[1..], word)
  }

  /** `word` stands right before index `k` and `s[k]` is a colon. */
  predicate ColonAfter(s: string, word: string, k: int) {
    |word| <= k < |s| && s[k - |word|..k] == word && IsColon(s[k])
  }

  predicate ColonFree(w: string) {
    forall k :: 0 <= k < |w| ==> !IsColon(w[k])
  }

  /** `t` differs from `s` at most by which colon stands at a colon position. */
  predicate SameUpToColons(s: string, t: string) {
    |s| == |t| && forall k :: 0 <= k < |s| ==> (IsColon(s[k]) <==> IsColon(t[k])) && (IsColon(s[k]) || s[k] == t[k])
  }

  /** The rewrite result, character by character. */
  predicate ColonsFixed(s: string, r: string, word: string) {
    |r| == |s| && forall k :: 0 <= k < |s| ==> r[k] == (if ColonAfter(s, word, k) then '：' else s[k])
  }

  /** The label cannot start inside an earlier label-and-colon match, since it holds no colon. */
  lemma ColonAfterShift(s: string, word: string, d: nat, k: int)
    requires word != [] && ColonFree(word)
    requires d <= |s| && d <= k
    requires d == |word| + 1 ==> IsColon(s[|word|])
    requires d == |word| + 1 || d == 1
    requires d == 1 ==> !ColonAfter(s, word, |word|)
    ensures ColonAfter(s, word, k) <==> ColonAfter(s[d..], word, k - d)
  {
    var n := |word|;
    if n <= k - d && k < |s| {
      assert s[d..][k - d - n..k - d] == s[k - n..k];
    } else if d == n + 1 && n < k < |s| && k - n <= n {
      assert s[k - n..k][n - (k - n)] == s[n];
    }
  }

  /**
   * Each `re.sub` of a speaker label rewrites exactly the colons that
   * follow the label, to the full-width colon, and leaves every other
   * character as it was.
   */
  lemma {:induction false} FixLabelColonPointwise(s: string, word: string)
    requires word != [] && ColonFree(word)
    ensures ColonsFixed(s, FixLabelColon(s, word), word)
    decreases |s|
  {
    var n := |word|;
    if |s| > n && StartsWith(s, word) && IsColon(s[n]) {
      FixLabelColonPointwise(s[n + 1..], word);
      LabelColonStep(s, word, FixLabelColon(s[n + 1..], word));
    } else if s != [] {
      FixLabelColonPointwise(s[1..], word);
      OtherCharStep(s, word, FixLabelColon(s[1..], word));
    }
  }

  /** The label and its colon at the front: the colon is rewritten, the rest as in the tail. */
  lemma LabelColonStep(s: string, word: string, ft: string)
    requires word != [] && ColonFree(word)
    requires |s| > |word| && StartsWith(s, word) && IsColon(s[|word|])
    requires ColonsFixed(s[|word| + 1..], ft, word)
    ensures ColonsFixed(s, word + "：" + ft, word)
  {
    var n := |word|;
    var r := word + "：" + ft;
    forall k | 0 <= k < |s| ensures r[k] == (if ColonAfter(s, word, k) then '：' else s[k]) {
      if k < n {
        assert r[k] == word[k] == s[k];
      } else if k == n {
        assert s[k - n..k] == word;
      } else {
        assert r[k] == ft[k - n - 1];
        assert s[n + 1..][k - n - 1] == s[k];
        ColonAfterShift(s, word, n + 1, k);
      }
    }
  }

  /** No label and colon at the front: the first character stays, the rest as in the tail. */
  lemma OtherCharStep(s: string, word: string, ft: string)
    requires word != [] && ColonFree(word)
    requires s != [] && !(|s| > |word| && StartsWith(s, word) && IsColon(s[|word|]))
    requires ColonsFixed(s[1..], ft, word)
    ensures ColonsFixed(s, [s[0]] + ft, word)
  {
    var r := [s[0]] + ft;
    forall k | 0 <= k < |s| ensures r[k] == (if ColonAfter(s, word, k) then '：' else s[k]) {
      if k >= 1 {
        assert r[k] == ft[k - 1];
        assert s[1..][k - 1] == s[k];
        ColonAfterShift(s, word, 1, k);
      }
    }
  }

  /** A rewrite that only replaces colons by colons keeps every colon-free label where it was. */
  lemma ColonAfterSameUpToColons(s: string, t: string, word: string, k: int)
    requires SameUpToColons(s, t) && ColonFree(word)
    ensures ColonAfter(s, word, k) <==> ColonAfter(t, word, k)
  {
    if |word| <= k < |s| {
      if s[k - |word|..k] == word {
        assert forall m :: k - |word| <= m < k ==> s[m] == t[m] by {
          forall m | k - |word| <= m < k ensures s[m] == t[m] {
            assert s[m] == word[m - (k - |word|)];
          }
        }
        assert s[k - |word|..k] == t[k - |word|..k];
      }
      if t[k - |word|..k] == word {
        assert forall m :: k - |word| <= m < k ==> s[m] == t[m] by {
          forall m | k - |word| <= m < k ensures s[m] == t[m] {
            assert t[m] == word[m - (k - |word|)];
          }
        }
        assert s[k - |word|..k] == t[k - |word|..k];
      }
    }
  }

  /** The speaker labels whose colon `preprocess_qa_text` makes full-width, in the order it rewrites them. */
  const SpeakerLabels: seq<string> := ["网友", "问", "段永平", "段", "大道"]

  /** Some speaker label stands right before index `k`, which holds a colon. */
  predicate AfterSpeakerLabel(s: string, k: int) {
    exists l :: 0 <= l < |SpeakerLabels| && ColonAfter(s, SpeakerLabels[l], k)
  }

  /** The five `re.sub` calls of `preprocess_qa_text`, in order. */
  function FixSpeakerColons(text: string): (r: string)
    ensures |r| == |text|
  {
    FixLabelColon(FixLabelColon(FixLabelColon(FixLabelColon(FixLabelColon(
      text, "网友"), "问"), "段永平"), "段"), "大道")
  }

  /** Rewriting colons keeps the string equal up to colons. */
  lemma ColonsFixedSame(s: string, r: string, word: string)
    requires ColonsFixed(s, r, word)
    ensures SameUpToColons(s, r)
  {
  }

  /** Composing rewrites that are each equal up to colons. */
  lemma SameUpToColonsTrans(a: string, b: string, c: string)
    requires SameUpToColons(a, b) && SameUpToColons(b, c)
    ensures SameUpToColons(a, c)
  {
  }

  /**
   * `t` is `s` with exactly the colons right after one of the labels `done`
   * made full-width.
   */
  predicate LabelsFixed(s: string, t: string, done: seq<string>) {
    SameUpToColons(s, t)
    && forall k :: 0 <= k < |s| ==>
      t[k] == (if exists l :: 0 <= l < |done| && ColonAfter(s, done[l], k) then '：' else s[k])
  }

  /** One more label rewrite on top of earlier ones: what the earlier labels fixed stays fixed. */
  lemma FixStep(s: string, t: string, word: string, done: seq<string>)
    requires word != [] && ColonFree(word)
    requires forall l :: 0 <= l < |done| ==> ColonFree(done[l])
    requires LabelsFixed(s, t, done)
    ensures LabelsFixed(s, FixLabelColon(t, word), done + [word])
  {
    var u := FixLabelColon(t, word);
    var all := done + [word];
    FixLabelColonPointwise(t, word);
    ColonsFixedSame(t, u, word);
    SameUpToColonsTrans(s, t, u);
    forall k | 0 <= k < |s|
      ensures u[k] == (if exists l :: 0 <= l < |all| && ColonAfter(s, all[l], k) then '：' else s[k])
    {
      ColonAfterSameUpToColons(s, t, word, k);
      if exists l :: 0 <= l < |all| && ColonAfter(s, all[l], k) {
        var l :| 0 <= l < |all| && ColonAfter(s, all[l], k);
        if l < |done| {
          assert all[l] == done[l];
        }
      } else {
        assert all[|done|] == word;
        assert forall l :: 0 <= l < |done| ==> all[l] == done[l];
      }
    }
  }

  /**
   * After the five label rewrites, a colon right after a speaker label is
   * the full-width colon, and every other character is unchanged.
   */
  lemma FixSpeakerColonsPointwise(text: string)
    ensures var r := FixSpeakerColons(text);
      |r| == |text| &&
      forall k :: 0 <= k < |text| ==> r[k] == (if AfterSpeakerLabel(text, k) then '：' else text[k])
  {
    var t1 := FixLabelColon(text, "网友");
    var t2 := FixLabelColon(t1, "问");
    var t3 := FixLabelColon(t2, "段永平");
    var t4 := FixLabelColon(t3, "段");
    var t5 := FixLabelColon(t4, "大道");
    assert ColonFree("网友") && ColonFree("问") && ColonFree("段永平") && ColonFree("段") && ColonFree("大道");
    assert LabelsFixed(text, text, []);
    FixStep(text, text, "网友", []);
    assert [] + ["网友"] == ["网友"];
    FixStep(text, t1, "问", ["网友"]);
    assert ["网友"] + ["问"] == ["网友", "问"];
    FixStep(text, t2, "段永平", ["网友", "问"]);
    assert ["网友", "问"] + ["段永平"] == ["网友", "问", "段永平"];
    FixStep(text, t3, "段", ["网友", "问", "段永平"]);
    assert ["网友", "问", "段永平"] + ["段"] == ["网友", "问", "段永平", "段"];
    FixStep(text, t4, "大道", ["网友", "问", "段永平", "段"]);
    assert ["网友", "问", "段永平", "段"] + ["大道"] == SpeakerLabels;
    assert LabelsFixed(text, t5, SpeakerLabels);
  }

  /** The label rewrites settle the speaker colons at once: running them again changes nothing. */
  lemma FixSpeakerColonsIdempotent(text: string)
    ensures FixSpeakerColons(FixSpeakerColons(text)) == FixSpeakerColons(text)
  {
    var r := FixSpeakerColons(text);
    var rr := FixSpeakerColons(r);
    FixSpeakerColonsPointwise(text);
    FixSpeakerColonsPointwise(r);
    assert SameUpToColons(text, r);
    forall k | 0 <= k < |text| ensures rr[k] == r[k] {
      forall l | 0 <= l < |SpeakerLabels| ensures ColonAfter(text, SpeakerLabels[l], k) <==> ColonAfter(r, SpeakerLabels[l], k) {
        ColonAfterSameUpToColons(text, r, SpeakerLabels[l], k);
      }
    }
  }

  /** Text whose colons are all full-width already comes through the label rewrites unchanged. */
  lemma FixSpeakerColonsNoAsciiColon(text: string)
    requires forall k :: 0 <= k < |text| ==> text[k] != ':'
    ensures FixSpeakerColons(text) == text
  {
    FixSpeakerColonsPointwise(text);
  }

  /** Number of line breaks in the whitespace that starts `s`. */
  function LeadingBreaks(s: string): nat
    decreases |s|
  {
    if s == [] || !IsSpace(s[0]) then 0 else (if s[0] == '\n' then 1 else 0) + LeadingBreaks(s[1..])
  }

  /** Index just past the last line break in the whitespace that starts `s` (0 when it holds none). */
  function LastBreakEnd(s: string): (e: nat)
    ensures LeadingBreaks(s) <= e <= |s| && AllSpace(s[..e])
    ensures LeadingBreaks(s[e..]) == 0
    ensures s != [] && s[0] == '\n' ==> e > 0
    decreases |s|
  {
    if s == [] || !IsSpace(s[0]) then 0
    else
      var e := LastBreakEnd(s[1..]);
      assert s[1..][e..] == s[e + 1..];
      assert s[..e + 1] == [s[0]] + s[1..][..e];
      if e > 0 then e + 1 else if s[0] == '\n' then 1 else 0
  }

  /**
   * `re.sub(r'\n\s*\n\s*\n', '\n\n', s)`. A match starts at a line break
   * whose run of whitespace holds at least three line breaks; the greedy
   * `\s*` make it run on to the last line break of that run, and the scan
   * resumes right after it.
   */
  function CollapseBlankLines(s: string): (r: string)
    ensures |r| <= |s|
    decreases |s|
  {
    if s == [] then []
    else if s[0] == '\n' && LeadingBreaks(s) >= 3 then "\n\n" + CollapseBlankLines(s[LastBreakEnd(s)..])
    else [s[0]] + CollapseBlankLines(s[1..])
  }

  /** No line break starts a run of whitespace holding three line breaks: the pattern has no match left. */
  predicate NoTripleBreak(s: string)
    decreases |s|
  {
    s == [] || (!(s[0] == '\n' && LeadingBreaks(s) >= 3) && NoTripleBreak(s[1..]))
  }

  lemma LeadingBreaksCons(c: char, x: string)
    ensures LeadingBreaks([c] + x) == if !IsSpace(c) then 0 else (if c == '\n' then 1 else 0) + LeadingBreaks(x)
  {
    assert ([c] + x)[1..] == x;
  }

  /** Collapsing turns a leading run of three or more line breaks into two and leaves a shorter run alone. */
  lemma {:induction false} CollapseLeadingBreaks(s: string)
    ensures LeadingBreaks(CollapseBlankLines(s)) == if LeadingBreaks(s) >= 3 then 2 else LeadingBreaks(s)
    decreases |s|
  {
    if s == [] {
    } else if s[0] == '\n' && LeadingBreaks(s) >= 3 {
      var rest := s[LastBreakEnd(s)..];
      CollapseLeadingBreaks(rest);
      var y := CollapseBlankLines(rest);
      LeadingBreaksCons('\n', y);
      LeadingBreaksCons('\n', ['\n'] + y);
      assert "\n\n" + y == ['\n'] + (['\n'] + y);
    } else {
      CollapseLeadingBreaks(s[1..]);
      LeadingBreaksCons(s[0], CollapseBlankLines(s[1..]));
    }
  }

  /** After collapsing, no run of whitespace holds three line breaks. */
  lemma {:induction false} CollapseNoTripleBreak(s: string)
    ensures NoTripleBreak(CollapseBlankLines(s))
    decreases |s|
  {
    if s == [] {
    } else if s[0] == '\n' && LeadingBreaks(s) >= 3 {
      var rest := s[LastBreakEnd(s)..];
      CollapseNoTripleBreak(rest);
      CollapseLeadingBreaks(rest);
      var y := CollapseBlankLines(rest);
      LeadingBreaksCons('\n', y);
      LeadingBreaksCons('\n', ['\n'] + y);
      assert (['\n'] + y)[1..] == y;
      assert (['\n'] + (['\n'] + y))[1..] == ['\n'] + y;
      assert "\n\n" + y == ['\n'] + (['\n'] + y);
    } else {
      CollapseNoTripleBreak(s[1..]);
      CollapseLeadingBreaks(s);
      assert ([s[0]] + CollapseBlankLines(s[1..]))[1..] == CollapseBlankLines(s[1..]);
    }
  }

  /** Text with no run of three line breaks is left as it is. */
  lemma {:induction false} CollapseIdentity(s: string)
    requires NoTripleBreak(s)
    ensures CollapseBlankLines(s) == s
    decreases |s|
  {
    if s != [] {
      CollapseIdentity(s[1..]);
      assert [s[0]] + s[1..] == s;
    }
  }

  /** Collapsing blank lines twice is the same as once. */
  lemma CollapseIdempotent(s: string)
    ensures CollapseBlankLines(CollapseBlankLines(s)) == CollapseBlankLines(s)
  {
    CollapseNoTripleBreak(s);
    CollapseIdentity(CollapseBlankLines(s));
  }

  /** The characters of `s` that are not whitespace, in order. */
  function Visible(s: string): string
    decreases |s|
  {
    if s == [] then [] else (if IsSpace(s[0]) then [] else [s[0]]) + Visible(s[1..])
  }

  lemma {:induction false} VisibleSkipSpace(s: string, e: nat)
    requires e <= |s| && AllSpace(s[..e])
    ensures Visible(s[e..]) == Visible(s)
    decreases e
  {
    if e > 0 {
      assert s[1..][..e - 1] == s[1..e];
      VisibleSkipSpace(s[1..], e - 1);
      assert s[1..][e - 1..] == s[e..];
    }
  }

  lemma VisibleCons(c: char, x: string)
    ensures Visible([c] + x) == (if IsSpace(c) then [] else [c]) + Visible(x)
  {
    assert ([c] + x)[1..] == x;
  }

  /** Collapsing only removes whitespace: every other character is kept, in order. */
  lemma {:induction false} CollapseKeepsVisible(s: string)
    ensures Visible(CollapseBlankLines(s)) == Visible(s)
    decreases |s|
  {
    if s == [] {
    } else if s[0] == '\n' && LeadingBreaks(s) >= 3 {
      var e := LastBreakEnd(s);
      CollapseKeepsVisible(s[e..]);
      VisibleSkipSpace(s, e);
      var y := CollapseBlankLines(s[e..]);
      assert IsSpace('\n');
      VisibleCons('\n', y);
      VisibleCons('\n', ['\n'] + y);
      assert CollapseBlankLines(s) == ['\n'] + (['\n'] + y);
    } else {
      var y := CollapseBlankLines(s[1..]);
      CollapseKeepsVisible(s[1..]);
      VisibleCons(s[0], y);
      assert CollapseBlankLines(s) == [s[0]] + y;
      assert Visible(s) == (if IsSpace(s[0]) then [] else [s[0]]) + Visible(s[1..]);
    }
  }

  /** `preprocess_qa_text`: empty text stays empty; otherwise the label rewrites, then the blank-line collapse. */
  function PreprocessQaText(text: string): string
  {
    if text == [] then [] else CollapseBlankLines(FixSpeakerColons(text))
  }

  /**
   * What `preprocess_qa_text` guarantees: empty text gives "", no run of
   * whitespace with three line breaks is left, nothing but whitespace is
   * removed (the colons after speaker labels are settled by
   * `FixSpeakerColonsPointwise`).
   */
  lemma PreprocessQaTextProperties(text: string)
    ensures var r := PreprocessQaText(text);
      (text == [] ==> r == []) &&
      |r| <= |text| &&
      NoTripleBreak(r) &&
      Visible(r) == Visible(FixSpeakerColons(text))
  {
    var r := PreprocessQaText(text);
    if text != [] {
      var f := FixSpeakerColons(text);
      CollapseNoTripleBreak(f);
      CollapseKeepsVisible(f);
    }
  }

  // ---------------------------------------------------------------------
  // Question prefixes (`__init__` and `clean_question_text`)
  // ---------------------------------------------------------------------

  const DefaultKnownPrefixes: seq<string> :=
    ["网友", "记者", "问", "提问者", "主持人", "文章引用", "Q", "观众", "评论", "主持", "用户"]

  /** The constructor's `known_prefixes or [...]`: a missing or empty list means the default list. */
  function KnownPrefixesOrDefault(given: Option<seq<string>>): (prefixes: seq<string>)
    ensures prefixes != []
    ensures given.Some? && given.value != [] ==> prefixes == given.value
  {
    if given.None? || given.value == [] then DefaultKnownPrefixes else given.value
  }

  /** `p` starts `q` and a colon follows it. */
  predicate PrefixColon(q: string, p: string) {
    |p| < |q| && StartsWith(q, p) && IsColon(q[|p|])
  }

  /**
   * `^(p1|p2|…)[：:]`: the alternatives are tried in list order and the
   * first that is followed by a colon wins. The result is the index just
   * past that colon.
   */
  function KnownPrefixEnd(q: string, prefixes: seq<string>): (e: Option<nat>)
    ensures e.Some? <==> exists k :: 0 <= k < |prefixes| && PrefixColon(q, prefixes[k])
    ensures e.Some? ==> exists k :: (0 <= k < |prefixes| && PrefixColon(q, prefixes[k]) && e.value == |prefixes[k]| + 1
      && forall j :: 0 <= j < k ==> !PrefixColon(q, prefixes[j]))
    decreases |prefixes|
  {
    if prefixes == [] then None
    else if PrefixColon(q, prefixes[0]) then Some(|prefixes[0]| + 1)
    else
      var e := KnownPrefixEnd(q, prefixes[1..]);
      assert forall k :: 1 <= k < |prefixes| ==> prefixes[k] == prefixes[1..][k - 1];
      if e.Some? then
        assert exists k :: (0 <= k < |prefixes| && PrefixColon(q, prefixes[k]) && e.value == |prefixes[k]| + 1
          && forall j :: 0 <= j < k ==> !PrefixColon(q, prefixes[j])) by {
          var k :| 0 <= k < |prefixes[1..]| && PrefixColon(q, prefixes[1..][k]) && e.value == |prefixes[1..][k]| + 1
            && forall j :: 0 <= j < k ==> !PrefixColon(q, prefixes[1..][j]);
          assert forall j :: 1 <= j < k + 1 ==> prefixes[j] == prefixes[1..][j - 1];
        }
        e
      else e
  }

  /**
   * The fallback class `[\u4e00-\u9fa5A-Za-z0-9（）【】「」《》""、,，.。·\s]`.
   * In the source the two ASCII apostrophes inside the pattern close one
   * string literal and open the next, so the apostrophe is not in the class
   * while the double quote is.
   */
  predicate InFallbackClass(c: char) {
    ('\U{4E00}' <= c <= '\U{9FA5}') || ('A' <= c <= 'Z') || ('a' <= c <= 'z') || ('0' <= c <= '9')
    || c in "（）【】「」《》\"、,，.。·" || IsSpace(c)
  }

  /** Length of the longest prefix of `q` drawn from the fallback class. */
  function ClassRun(q: string): (n: nat)
    ensures n <= |q| && (forall k :: 0 <= k < n ==> InFallbackClass(q[k])) && (n == |q| || !InFallbackClass(q[n]))
    decreases |q|
  {
    if q != [] && InFallbackClass(q[0]) then 1 + ClassRun(q[1..]) else 0
  }

  /**
   * `^[class]{1,20}[：:]`: no colon is in the class, so the greedy repeat can
   * only end at the first character outside the class, which must be a
   * colon within the first 21 characters.
   */
  function FallbackPrefixEnd(q: string): (e: Option<nat>)
    ensures e.Some? ==> (2 <= e.value <= 21 && e.value <= |q| && IsColon(q[e.value - 1])
      && forall k :: 0 <= k < e.value - 1 ==> InFallbackClass(q[k]))
    ensures forall n :: FallbackShape(q, n) ==> e == Some(n + 1)
  {
    var n := ClassRun(q);
    assert forall m :: FallbackShape(q, m) ==> m == n by {
      forall m | FallbackShape(q, m) ensures m == n {
        ClassRunStopsAtColon(q, m);
      }
    }
    if 1 <= n <= 20 && n < |q| && IsColon(q[n]) then Some(n + 1) else None
  }

  /** No colon is in the class, so a class run before a colon is the whole class run. */
  lemma ClassRunStopsAtColon(q: string, n: nat)
    requires FallbackShape(q, n)
    ensures ClassRun(q) == n
  {
    assert !InFallbackClass(q[n]);
  }

  /** `q` opens with `n` (one to twenty) class characters and then a colon. */
  predicate FallbackShape(q: string, n: nat) {
    1 <= n <= 20 && n < |q| && IsColon(q[n]) && forall k :: 0 <= k < n ==> InFallbackClass(q[k])
  }

  /** `re.sub(prefix + r'\s*', '', q)`: drops the matched prefix and the whitespace after it. */
  function DropPrefix(q: string, end: Option<nat>): (r: string)
    requires end.Some? ==> end.value <= |q|
    ensures end.None? ==> r == q
    ensures end.Some? ==> |r| <= |q| - end.value && Strip(r) == Strip(q[end.value..])
  {
    if end.None? then q
    else
      var rest := q[end.value..];
      var n := SpaceRun(rest);
      TrimStartSkipSpace(rest, n);
      rest[n..]
  }

  /**
   * `clean_question_text`: `None` gives ""; otherwise the known prefix is
   * removed and the rest stripped; only when that leaves the question
   * exactly as it was is the fallback prefix removed instead.
   */
  function CleanQuestionText(question: Option<string>, prefixes: seq<string>): (r: string)
    ensures IsStripped(r)
    ensures question.Some? ==> |r| <= |question.value|
  {
    match question
    case None => ""
    case Some(q) =>
      var cleaned := Strip(DropPrefix(q, KnownPrefixEnd(q, prefixes)));
      if cleaned != q then cleaned else Strip(DropPrefix(q, FallbackPrefixEnd(q)))
  }

  /**
   * A known prefix followed by a colon is removed together with the
   * whitespace after it, and the rest is stripped; the first prefix in list
   * order that fits is the one removed.
   */
  lemma CleanKnownPrefix(q: string, prefixes: seq<string>, k: nat)
    requires k < |prefixes| && PrefixColon(q, prefixes[k])
    requires forall j :: 0 <= j < k ==> !PrefixColon(q, prefixes[j])
    ensures CleanQuestionText(Some(q), prefixes) == Strip(q[|prefixes[k]| + 1..])
  {
    FirstPrefixEnd(q, prefixes, k);
    var e := KnownPrefixEnd(q, prefixes);
    var cleaned := Strip(DropPrefix(q, e));
    assert cleaned == Strip(q[e.value..]);
    assert |cleaned| < |q|;
    assert CleanQuestionText(Some(q), prefixes) == cleaned;
  }

  /** The alternation stops at the first prefix followed by a colon. */
  lemma {:induction false} FirstPrefixEnd(q: string, prefixes: seq<string>, k: nat)
    requires k < |prefixes| && PrefixColon(q, prefixes[k])
    requires forall j :: 0 <= j < k ==> !PrefixColon(q, prefixes[j])
    ensures KnownPrefixEnd(q, prefixes) == Some(|prefixes[k]| + 1)
    decreases k
  {
    if k > 0 {
      var tail := prefixes[1..];
      assert !PrefixColon(q, prefixes[0]);
      assert tail[k - 1] == prefixes[k];
      forall j | 0 <= j < k - 1 ensures !PrefixColon(q, tail[j]) {
        assert tail[j] == prefixes[j + 1];
      }
      FirstPrefixEnd(q, tail, k - 1);
    }
  }

  /**
   * A speaker line `name：body`, whose name is one to twenty class
   * characters that no listed prefix starts like, loses its name and colon
   * to the fallback rule: the question comes back as the body.
   */
  lemma CleanSpeakerLine(name: string, body: string, prefixes: seq<string>)
    requires 1 <= |name| <= 20 && !IsSpace(name[0]) && forall k :: 0 <= k < |name| ==> InFallbackClass(name[k])
    requires IsStripped(body)
    requires forall k :: 0 <= k < |prefixes| ==> prefixes[k] == [] || prefixes[k][0] != name[0]
    ensures CleanQuestionText(Some(name + "：" + body), prefixes) == body
  {
    var q := name + "：" + body;
    assert q[|name|] == '：';
    assert FallbackShape(q, |name|) by {
      forall k | 0 <= k < |name| ensures InFallbackClass(q[k]) {
        assert q[k] == name[k];
      }
    }
    assert CleanQuestionText(Some(q), prefixes) == Strip(q[|name| + 1..]) by {
      assert IsStripped(q) by {
        assert q[0] == name[0];
        assert q[|q| - 1] == if body == [] then '：' else body[|body| - 1];
      }
      forall k | 0 <= k < |prefixes| ensures !PrefixColon(q, prefixes[k]) {
        var p := prefixes[k];
        if p == [] {
          assert !IsColon(q[0]);
        } else if |p| <= |q| {
          assert q[..|p|][0] == q[0];
        }
      }
      CleanFallback(q, prefixes);
    }
    assert q[|name| + 1..] == body;
    StripStripped(body);
  }

  /** With no known prefix, a question that is not stripped comes back stripped and nothing else. */
  lemma CleanNoPrefixStrips(q: string, prefixes: seq<string>)
    requires forall k :: 0 <= k < |prefixes| ==> !PrefixColon(q, prefixes[k])
    requires !IsStripped(q)
    ensures CleanQuestionText(Some(q), prefixes) == Strip(q)
  {
    assert KnownPrefixEnd(q, prefixes).None?;
    assert DropPrefix(q, None) == q;
    assert Strip(q) != q;
  }

  /**
   * A stripped question with no known prefix goes to the fallback rule: a
   * run of one to twenty class characters before a colon is removed with
   * the whitespace after it; without such a run the question is returned
   * unchanged.
   */
  lemma CleanFallback(q: string, prefixes: seq<string>)
    requires forall k :: 0 <= k < |prefixes| ==> !PrefixColon(q, prefixes[k])
    requires IsStripped(q)
    ensures FallbackPrefixEnd(q).Some? ==>
      CleanQuestionText(Some(q), prefixes) == Strip(q[FallbackPrefixEnd(q).value..])
    ensures FallbackPrefixEnd(q).None? ==> CleanQuestionText(Some(q), prefixes) == q
    ensures forall n :: FallbackShape(q, n) ==> CleanQuestionText(Some(q), prefixes) == Strip(q[n + 1..])
  {
    assert KnownPrefixEnd(q, prefixes).None?;
    assert DropPrefix(q, None) == q;
    StripStripped(q);
    var f := FallbackPrefixEnd(q);
    assert CleanQuestionText(Some(q), prefixes) == Strip(DropPrefix(q, f));
    if f.None? {
      assert DropPrefix(q, f) == q;
    }
  }

  /** `None` and the empty question both give "", whatever the prefixes. */
  lemma CleanQuestionTextEmpty(prefixes: seq<string>)
    ensures CleanQuestionText(None, prefixes) == ""
    ensures CleanQuestionText(Some(""), prefixes) == ""
  {
    assert KnownPrefixEnd("", prefixes).None?;
    assert Strip("") == "" by { StripStripped(""); }
  }

  // ---------------------------------------------------------------------
  // Sampling (`filter_blocks_by_ratio`) and the quality check (`validate_text_quality`)
  // ---------------------------------------------------------------------

  /** Python's `int(x)` for a float: truncation toward zero. */
  function Trunc(x: real): (n: int)
    ensures x >= 0.0 ==> 0 <= n && n as real <= x < n as real + 1.0
    ensures x < 0.0 ==> n <= 0 && n as real - 1.0 < x <= n as real
  {
    if x >= 0.0 then x.Floor else -((-x).Floor)
  }

  /**
   * `filter_blocks_by_ratio`: all blocks for a ratio of 1 or more, none for
   * a ratio of 0 or less, otherwise the first `max(int(n * ratio), 1)`
   * blocks (a slice past the end stops at the end).
   */
  function FilterBlocksByRatio<T>(blocks: seq<T>, ratio: real): (r: seq<T>)
    ensures |r| <= |blocks| && r == blocks[..|r|]
  {
    if ratio >= 1.0 then blocks
    else if ratio <= 0.0 then []
    else
      var sampleSize := Trunc(|blocks| as real * ratio);
      var size := if sampleSize < 1 then 1 else sampleSize;
      blocks[..if size < |blocks| then size else |blocks|]
  }

  /**
   * How many blocks the sampling keeps: every block at a ratio of 1 or
   * more, none at 0 or less, and otherwise `floor(n * ratio)` but at least
   * one, so a non-empty list is never emptied by a positive ratio.
   */
  lemma FilterBlocksByRatioSize<T>(blocks: seq<T>, ratio: real)
    ensures var r := FilterBlocksByRatio(blocks, ratio);
      (ratio >= 1.0 ==> r == blocks) &&
      (ratio <= 0.0 ==> r == []) &&
      (0.0 < ratio < 1.0 && blocks != [] ==>
        1 <= |r| < |blocks| + 1 &&
        (|r| as real <= |blocks| as real * ratio < |r| as real + 1.0 || (|r| == 1 && |blocks| as real * ratio < 1.0)))
  {
    if 0.0 < ratio < 1.0 && blocks != [] {
      var x := |blocks| as real * ratio;
      assert x < |blocks| as real;
      assert Trunc(x) < |blocks|;
    }
  }

  /** The package's example: ten blocks sampled at one half give the first five, at one tenth the first one. */
  lemma FilterBlocksByRatioExamples<T>(blocks: seq<T>)
    requires |blocks| == 10
    ensures FilterBlocksByRatio(blocks, 0.5) == blocks[..5]
    ensures FilterBlocksByRatio(blocks, 0.1) == blocks[..1]
    ensures FilterBlocksByRatio(blocks, 0.0) == []
    ensures FilterBlocksByRatio(blocks, 1.0) == blocks
  {
    assert Trunc(10.0 * 0.5) == 5;
    assert Trunc(10.0 * 0.1) == 1;
  }

  /** `[\u4e00-\u9fa5]`: the CJK unified ideographs the quality check counts. */
  predicate IsCjk(c: char) {
    '\U{4E00}' <= c <= '\U{9FA5}'
  }

  /** `len(re.findall(r'[\u4e00-\u9fa5]', text))` */
  function CjkCount(s: string): (n: nat)
    ensures n <= |s|
  {
    if s == [] then 0 else (if IsCjk(s[0]) then 1 else 0) + CjkCount(s[1..])
  }

  /**
   * `validate_text_quality`: the text must not be blank, must keep at
   * least ten characters once stripped, and at least a tenth of its
   * characters must be CJK ideographs.
   */
  function ValidateTextQuality(text: string): bool
  {
    if text == [] || Strip(text) == [] then false
    else if |Strip(text)| < 10 then false
    else if (CjkCount(text) as real) < (|text| as real) * 0.1 then false
    else true
  }

  /** The quality check in integer terms: ten or more characters after stripping, and ten CJK characters for every hundred. */
  lemma ValidateTextQualityIff(text: string)
    ensures ValidateTextQuality(text) <==> |Strip(text)| >= 10 && 10 * CjkCount(text) >= |text|
  {
  }

  /** Text without a single CJK ideograph, such as digits only, never passes the check. */
  lemma NoCjkRejected(text: string)
    requires forall k :: 0 <= k < |text| ==> !IsCjk(text[k])
    ensures !ValidateTextQuality(text)
  {
    NoCjkCount(text);
    ValidateTextQualityIff(text);
    if |Strip(text)| >= 10 {
      assert |text| > 0;
    }
  }

  lemma {:induction false} NoCjkCount(s: string)
    requires forall k :: 0 <= k < |s| ==> !IsCjk(s[k])
    ensures CjkCount(s) == 0
    decreases |s|
  {
    if s != [] {
      NoCjkCount(s[1..]);
    }
  }
}
