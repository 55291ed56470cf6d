# legend-qa-extractor: a verified model of the text and response pipeline

legend-qa-extractor turns a long Chinese text, such as an interview or forum
archive, into question-and-answer records. It works in five steps:

1. Cut the text into blocks of whole paragraphs.
2. Keep the blocks that hold both a question and an answer by the expected
   speaker, and sample a prefix of them.
3. Normalise the speaker labels in each block and put it into a prompt for a
   language model.
4. Recover the JSON objects from the model's reply.
5. Turn the valid ones into records holding a cleaned question, the answer and
   the source block.

This project models those steps in Dafny and proves what they guarantee. It
covers two copies of the code:

- **The package**, `src/core/text_processor.py` and `src/core/qa_extractor.py`:
  the modules `TextProcessor` and `QaExtractor`.
- **The older single-file script**, `extract-qa.py`: the module
  `ExtractQaScript`.

Three small modules support them:

- `Strings`: the Python `str` operations used, such as `strip`,
  `split("\n\n")`, `join`, `in` and `find`.
- `JsonValues`: the values `json.loads` produces, Python truthiness, and the
  blank test.
- `Seqs` and `Options`: sequence facts and the optional value.

How the model is shaped:

- **Loops become verified methods.** The block builders, the brace scanner
  and the list-building loops of the parser, `extract_json` and
  `process_qa_pairs` are methods with loops. Each is proved equal to a
  specification function, and the properties are proved about those
  functions.
- **Pure code becomes functions.** The detector, the regular-expression
  rewrites, sampling and the metrics are functions.
- **The processors carry no state worth a class.** The package's
  `TextProcessor` only reads its `known_prefixes` field, so the operations
  take the prefix list as a parameter.
- **Dependencies are parameters.**
  - `json.loads` is `loads: string -> Option<Json>`, where `None` is
    `JSONDecodeError`.
  - Python's `str()` of a non-string value is `render: Json -> string`.
  - The prompt's fixed wording is `basePrompt`.

## Model

| member | source | states |
|---|---|---|
| TextProcessor.Paragraphs | src/core/text_processor.py:82 | the paragraphs are the stripped pieces of the `"\n\n"` split, and none is empty |
| Strings.SplitJoinRoundTrip | src/core/text_processor.py:82 | joining the `"\n\n"` split with `"\n\n"` gives back the text |
| Strings.SplitParagraphsShape | src/core/text_processor.py:82 | the pieces of `split("\n\n")` have the split's shape: the first piece starts the text and is followed by `"\n\n"` when more pieces follow, no piece holds two line breaks in a row, and no piece but the last ends with a line break |
| Strings.SplitParagraphsPieces | src/core/text_processor.py:82 | no piece contains `"\n\n"` and every piece but the last is empty or ends with a character other than a line break; with the round trip this fixes the split |
| Strings.SplitParagraphsExample | src/core/text_processor.py:82 | "a\n\n\nb" splits into "a" and "\nb": the separator is the first two line breaks |
| Strings.StripIsSlice | src/core/text_processor.py:82 | `strip()` keeps one contiguous run of the text, with only whitespace cut on each side |
| Strings.StripEmptyIff | src/core/text_processor.py:82 | a piece is dropped exactly when it is all whitespace |
| TextProcessor.CreateHybridBlocks | src/core/text_processor.py:68-110 | the method returns `HybridBlocks(text, max_size, min_size)`, which is empty for empty text |
| TextProcessor.CollectRun | src/core/text_processor.py:87-102 | the inner loop stops where `RunEnd` says and has collected exactly the paragraphs from the run's start up to there |
| TextProcessor.MergeParagraphs | src/core/text_processor.py:84-108 | the nested loops produce exactly the runs of `Runs`, joined with `"\n\n"` and kept when at least `min_size` long |
| TextProcessor.RunsPartition | src/core/text_processor.py:84-102 | the runs are non-empty and, concatenated in order, give back every paragraph exactly once |
| TextProcessor.RunsWithinSize | src/core/text_processor.py:90-102 | a run of several paragraphs counts at most `max_size` characters; an oversized paragraph stays whole and alone; every count before a run's last paragraph is below `max_size` |
| TextProcessor.RunsAreGreedy | src/core/text_processor.py:93-102 | each run but the last is closed only at a count of `max_size` or more, or because the next paragraph would exceed `max_size` |
| TextProcessor.HybridBlocksAtLeastMin | src/core/text_processor.py:79-80 | empty text gives no blocks; every block returned has at least `min_size` characters |
| TextProcessor.KeptBlocksAtLeastMin | src/core/text_processor.py:104-107 | a kept block has at least `min_size` characters; shorter joined runs are dropped, not merged |
| TextProcessor.JoinedRunLength | src/core/text_processor.py:105 | a block is its paragraphs' lengths plus two characters per separator, so it can exceed `max_size` by `2 * (paragraphs - 1)` |
| TextProcessor.OversizeBlockExample | src/core/text_processor.py:96-107 | two five-character paragraphs with `max_size` 10 give one twelve-character block |
| TextProcessor.BlockHasQaIff | src/core/text_processor.py:121-157 | a block is flagged iff an answer label matches and a direct or indirect question marker matches, each at some index; empty text is never flagged |
| TextProcessor.FoundIff | src/core/text_processor.py:153-155 | `re.search` of a label plus `[：:]`, or of a bare phrase, succeeds iff the pattern occurs at some index |
| TextProcessor.AnyFoundIff | src/core/text_processor.py:153-155 | `any(...)` over a pattern list succeeds iff some marker of the list matches somewhere |
| TextProcessor.BlockHasQaWithin | src/core/text_processor.py:153-157 | a flagged block stays flagged inside any larger text |
| TextProcessor.QuestionThenAnswerFlagged | src/core/text_processor.py:126-157 | `网友：x` followed by `段永平：y` on a new line is flagged |
| TextProcessor.FixLabelColonPointwise | src/core/text_processor.py:33-37 | one label rewrite replaces exactly the colons right after the label with the full-width colon and changes nothing else |
| TextProcessor.FixSpeakerColonsPointwise | src/core/text_processor.py:33-37 | after the five rewrites, a colon right after 网友, 问, 段永平, 段 or 大道 is full-width, and every other character is unchanged |
| TextProcessor.FixSpeakerColonsIdempotent | src/core/text_processor.py:33-37 | running the five rewrites twice is the same as running them once |
| TextProcessor.FixSpeakerColonsNoAsciiColon | src/core/text_processor.py:33-37 | text without an ASCII colon comes through unchanged |
| TextProcessor.CollapseNoTripleBreak | src/core/text_processor.py:40 | after the collapse, no whitespace run holds three line breaks |
| TextProcessor.CollapseLeadingBreaks | src/core/text_processor.py:40 | a leading whitespace run with three or more breaks is left with exactly two; others are left as they were |
| TextProcessor.CollapseKeepsVisible | src/core/text_processor.py:40 | the collapse removes whitespace only: the visible characters are the same, in order |
| TextProcessor.CollapseIdempotent | src/core/text_processor.py:40 | collapsing twice is collapsing once |
| TextProcessor.PreprocessQaTextProperties | src/core/text_processor.py:20-42 | empty text gives ""; the result is no longer than the input, has no triple break, and keeps the visible characters of the label-rewritten text |
| TextProcessor.KnownPrefixesOrDefault | src/core/text_processor.py:13-18 | a missing or empty prefix list means the eleven default prefixes; a non-empty list is used as given |
| TextProcessor.KnownPrefixEnd | src/core/text_processor.py:59-60 | the known-prefix pattern matches iff some listed prefix starts the question followed by a colon, and it ends after the first such prefix in list order |
| TextProcessor.FallbackPrefixEnd | src/core/text_processor.py:65-66 | a fallback match is one to twenty class characters followed by a colon, and every question that opens with such a run and a colon is matched right after that colon |
| TextProcessor.CleanQuestionText | src/core/text_processor.py:44-66 | the result is stripped and no longer than the question |
| TextProcessor.CleanKnownPrefix | src/core/text_processor.py:59-62 | the first fitting known prefix and its colon are removed and the rest is stripped |
| TextProcessor.CleanNoPrefixStrips | src/core/text_processor.py:60-62 | with no known prefix, a question with surrounding whitespace comes back stripped and otherwise unchanged |
| TextProcessor.CleanFallback | src/core/text_processor.py:60-66 | a stripped question with no known prefix loses its fallback prefix, or comes back unchanged when there is none; a question that opens with one to twenty class characters and a colon comes back as the stripped rest after that colon |
| TextProcessor.CleanSpeakerLine | src/core/text_processor.py:60-66 | a speaker line `name：body`, with a name of one to twenty class characters that no listed prefix starts like, and a stripped body, comes back as the body |
| TextProcessor.CleanQuestionTextEmpty | src/core/text_processor.py:53-54 | `None` and "" both give "" |
| TextProcessor.Trunc | src/core/text_processor.py:175 | `int()` of a float truncates toward zero |
| TextProcessor.FilterBlocksByRatio | src/core/text_processor.py:159-179 | the sample is a prefix of the blocks |
| TextProcessor.FilterBlocksByRatioSize | src/core/text_processor.py:169-179 | a ratio of 1 or more keeps every block and 0 or less keeps none; otherwise the sample has `floor(n * ratio)` blocks, and at least one |
| TextProcessor.FilterBlocksByRatioExamples | src/core/text_processor.py:169-177 | ten blocks at 0.5 give five, at 0.1 give one, at 0.0 none and at 1.0 all |
| TextProcessor.ValidateTextQualityIff | src/core/text_processor.py:181-202 | text passes iff it keeps ten characters once stripped and at least a tenth of its characters are CJK ideographs |
| TextProcessor.NoCjkRejected | src/core/text_processor.py:198-200 | text without a CJK ideograph never passes |
| QaExtractor.ExtractJsonObjects | src/core/qa_extractor.py:163-188 | the scanning loop returns the pieces of `ObjectSpans`, the spans the brace-counter scan cuts out |
| QaExtractor.ObjectSpansIff | src/core/qa_extractor.py:176-186 | a span is cut out iff at its start the counter is zero at a `{`, and its end is the first later point where the counter is zero again |
| QaExtractor.ObjectSpanIsObject | src/core/qa_extractor.py:177-186 | that is the same as: the counter is zero before the span, and the piece is balanced with all its proper prefixes open |
| QaExtractor.ObjectSpansOrdered | src/core/qa_extractor.py:176-188 | the spans are in left-to-right order, do not overlap and lie within the content |
| QaExtractor.ExtractedObjects | src/core/qa_extractor.py:176-188 | each piece is the substring at its span, starts with `{`, ends with `}` and is balanced; the pieces are ordered; every balanced piece at a zero counter is returned |
| QaExtractor.ScanFromIff | src/core/qa_extractor.py:177-186 | from any point of the scan, the spans still to come are exactly the object spans that end later and that start later or at the recorded start |
| QaExtractor.ParseJsonContent | src/core/qa_extractor.py:118-161 | the method returns `ParsedContent(content, loads)` |
| QaExtractor.DictItems | src/core/qa_extractor.py:136-140 | the loop over a parsed list keeps exactly its dict items, in order |
| QaExtractor.LoadPieces | src/core/qa_extractor.py:150-156 | the loop over the scanned pieces keeps, in order, the dicts they parse to; the older copy runs the same loop at extract-qa.py:311-317 |
| QaExtractor.ParsedContentBlank | src/core/qa_extractor.py:127-131 | empty or whitespace-only content gives no results |
| QaExtractor.ParsedContentSources | src/core/qa_extractor.py:133-156 | every result is a dict: the parsed value itself, a dict item of the parsed list, or, when the content does not parse, a balanced piece that parses to it |
| QaExtractor.ParsedContentComplete | src/core/qa_extractor.py:146-156 | when the content does not parse whole, every balanced piece at a zero counter that parses to a dict is among the results |
| QaExtractor.DictsIff | src/core/qa_extractor.py:136-140 | the results for a parsed list are exactly its dict items |
| QaExtractor.LoadedDictsIff | src/core/qa_extractor.py:150-156 | the results for the pieces are exactly the dicts that some piece parses to |
| QaExtractor.NextFence | src/core/qa_extractor.py:98 | a fence match lies within the text, its body before its closing fence |
| QaExtractor.FenceBodiesNone | src/core/qa_extractor.py:98-105 | text without "```json" has no fenced bodies, so the whole text is parsed |
| QaExtractor.FenceBodiesRoundTrip | src/core/qa_extractor.py:98 | a body with no backtick and no whitespace at either end, written between "```json" and "```", is found as the one body |
| QaExtractor.FencedBodiesRoundTrip | src/core/qa_extractor.py:98 | the same for any opening marker and any closing marker that does not start with whitespace and whose first character the body lacks |
| QaExtractor.FencedBodiesCons | src/core/qa_extractor.py:98-102 | under the same conditions, a fenced body followed by more text is the first body found, and the bodies of the rest follow it in order |
| QaExtractor.FenceBodiesCons | src/core/qa_extractor.py:98-102 | a reply with several "```json" fences yields their bodies in order, one per fence |
| QaExtractor.FilledIff | src/core/qa_extractor.py:199-203 | a value passes the truth and blank tests iff it is a string with a visible character or a truthy non-string |
| QaExtractor.ValidPairsIff | src/core/qa_extractor.py:110-116 | a value is kept iff it is in the input and is a valid pair |
| QaExtractor.ValidPairsSubsequence | src/core/qa_extractor.py:110-116 | the filter returns no more values than it gets, all of them valid |
| QaExtractor.ValidPairsIdempotent | src/core/qa_extractor.py:110-116 | filtering twice is filtering once |
| QaExtractor.ExtractJson | src/core/qa_extractor.py:85-116 | the method returns the valid pairs among the results of the fenced bodies, or of the whole text when there is no fence |
| QaExtractor.ParseResponse | src/core/qa_extractor.py:94-108 | the parsing half of `extract_json` returns the results of every "```json" fenced body in order, or of the whole text when there is no fence |
| QaExtractor.ExtractJsonFacts | src/core/qa_extractor.py:98-116 | without a "```json" fence the whole text is parsed; every returned value satisfies `_is_valid_qa_pair` |
| QaExtractor.ExtractJsonOneFence | src/core/qa_extractor.py:98-102 | a reply holding one fenced body is parsed as that body |
| QaExtractor.ProcessQaPairs | src/core/qa_extractor.py:205-236 | the method returns `Processed`, the records of the valid pairs in order |
| QaExtractor.ProcessedIsMapOfValid | src/core/qa_extractor.py:218-236 | record k is the record of the k-th valid pair, and there is one record per valid pair |
| QaExtractor.ProcessedFields | src/core/qa_extractor.py:218-236 | there are no more records than pairs; each record holds the cleaned question, the answer unchanged and the given source text |
| QaExtractor.ProcessedRecords | src/core/qa_extractor.py:218-236 | every record's question is stripped and its answer is a filled value |
| QaExtractor.CreatePrompt | src/core/qa_extractor.py:74-83 | the prompt is the base prompt, then `"\n\n"`, then the text, at those positions |
| QaExtractor.AnswerLengthSumNone | src/core/qa_extractor.py:262 | `len()` of the answers fails iff some answer is a number, a boolean or null |
| QaExtractor.QuestionSetMembers | src/core/qa_extractor.py:268-269 | `set(questions)` holds exactly the records' questions |
| QaExtractor.QuestionSetSize | src/core/qa_extractor.py:268-269 | the set is no larger than the list, and equal in size iff no question repeats |
| QaExtractor.ValidateExtractionQualityFacts | src/core/qa_extractor.py:238-284 | no records give the zero metrics; otherwise it fails iff some answer has no length; when it succeeds, `has_duplicates` says whether a question repeats and the score lies in [0.2, 1.0], reaching 1.0 iff both averages pass and no question repeats |
| ExtractQaScript.CreateHybridBlocks | extract-qa.py:207-230 | the method returns `HybridBlocks`, the older runs joined and kept when longer than `min_size` |
| ExtractQaScript.CollectRun | extract-qa.py:213-224 | the older inner loop stops where the older `RunEnd` says and has collected exactly the paragraphs from the run's start up to there |
| ExtractQaScript.MergeParagraphs | extract-qa.py:211-228 | the nested loops, which append a paragraph before the size check, produce exactly the older `Runs` |
| ExtractQaScript.RunEnd | extract-qa.py:216-224 | every run takes at least one paragraph, so the outer loop advances |
| ExtractQaScript.RunsPartition | extract-qa.py:211-224 | the runs are non-empty and, concatenated in order, give back every paragraph exactly once |
| ExtractQaScript.RunsSizes | extract-qa.py:216-224 | every count before a run's last paragraph is below `max_size`; every run but the last counts `max_size` or more |
| ExtractQaScript.RunCountBound | extract-qa.py:216-224 | a run of several paragraphs counts less than `max_size` plus its last paragraph |
| ExtractQaScript.KeptBlocksLongerThanMin | extract-qa.py:226-228 | every block returned is strictly longer than `min_size` |
| ExtractQaScript.HybridBlocksEmpty | extract-qa.py:208 | with no guard, empty text still gives no blocks |
| ExtractQaScript.BlockHasQaSame | extract-qa.py:151-187 | the older detector, which has no empty-text guard, flags exactly the blocks the package flags |
| ExtractQaScript.PreprocessQaText | extract-qa.py:190-204 | the older rewrite is no longer than its input |
| ExtractQaScript.PreprocessQaTextSame | extract-qa.py:190-204 | the older rewrite, which has no empty-text guard, equals the package's on every text |
| ExtractQaScript.CleanQuestionText | extract-qa.py:118-136 | the cleaned question is stripped |
| ExtractQaScript.CleanQuestionTextSame | extract-qa.py:127-136 | the script's prefix list is the package default, so it cleans as a package processor built without a list does |
| ExtractQaScript.SampleBlocks | extract-qa.py:351-353 | the sample is a prefix of the blocks |
| ExtractQaScript.SampleBlocksFacts | extract-qa.py:351-353 | a ratio of 1 or more keeps everything; a non-empty list is never emptied; at a ratio of 0 or less one block is kept where the package keeps none; between 0 and 1 it agrees with the package |
| ExtractQaScript.QaBlocksIff | extract-qa.py:347-348 | a block passes the filter iff it is one of the blocks and is flagged |
| ExtractQaScript.SelectBlocksFacts | extract-qa.py:344-353 | the selected blocks are among the built blocks and, with the filter on, all flagged; the selection is empty only when nothing passed the filter |
| ExtractQaScript.ParseJsonContent | extract-qa.py:269-322 | the older parser computes the package's `ParsedContent` |
| ExtractQaScript.ParseSeparateObjects | extract-qa.py:290-318 | the inline scanner and the per-piece parse give the dicts that the balanced pieces parse to, in order |
| ExtractQaScript.ExtractJson | extract-qa.py:233-267 | the older `extract_json`, with its inline filter, returns the package's valid pairs |
| ExtractQaScript.ParseResponse | extract-qa.py:241-256 | the script's parsing half returns the same results as the package's |
| ExtractQaScript.BlockPrompt | extract-qa.py:367-369 | the prompt is the package's `create_prompt` applied to the package's preprocessing of the block |
| ExtractQaScript.BlockRecordsSame | extract-qa.py:379-390 | on valid pairs the skip never fires, and the records are the package's `process_qa_pairs` records with the default prefixes |
| ExtractQaScript.ExtractedRecordsSame | extract-qa.py:376-390 | so for any reply, the records written for a block are the package's processed records of `extract_json`'s result |

## Left out

- PDF extraction, the Ollama client, the progress bar, logging and the
  output files (`extract_text_from_pdf`, `call_ollama`, `src/core/pdf_processor.py`,
  `src/core/llm_client.py`): they are foreign libraries, network and file I/O.
  The model starts from the `"\n\n"`-joined text and the model's reply.
- The orchestration in `src/processor.py`. The smart block processor
  (`src/core/smart_block_processor.py`, imported at `src/processor.py:9`)
  and the token-budget prompt builder (`estimate_token_count` and
  `compact_prompt`, used at `src/processor.py:469` and `:478`, which the
  `QAExtractor` class does not define) are not part of this model.
- The JSON grammar: `json.loads` is the `loads` parameter, and `str()` of a
  non-string value is the `render` parameter. Both are deterministic
  functions.
- The wording of the base prompt: it is the `basePrompt` parameter.
- The `original_text` argument of `validate_extraction_quality`: the source
  never reads it.
- Exceptions other than `JSONDecodeError` and the `TypeError` of `len()` on
  an answer:
  the `except Exception` handlers around the parsers catch nothing the model
  can raise.
- QaExtractor.ValidateExtractionQuality: its input is the records that
  `process_qa_pairs` makes, whose questions are strings. A raw pair whose
  question is a number, a boolean or null (the `TypeError` of `len()`), a
  list or a dict (the unhashable `TypeError` of `set()`), or that lacks a
  key (the `KeyError`), is not modelled.
- QaExtractor.ValidateExtractionQuality: floats are exact reals. IEEE
  rounding of the averages and of the score sums is not modelled.
- TextProcessor.FilterBlocksByRatio: `len(blocks) * ratio` is exact real
  arithmetic, not a rounded float product.
- ExtractQaScript.SampleBlocks: the same real arithmetic.
- TextProcessor.ValidateTextQuality: the 10% threshold compares exact reals.

### Where the code and its description differ

The model follows the code:

- **Separators are not counted toward the block size.** The block builders
  add up paragraph lengths only, so a joined block can be longer than
  `max_size`. See `JoinedRunLength` and `OversizeBlockExample`.
- **Minimum block length.** The older script keeps blocks strictly longer
  than `min_size`; the package keeps blocks of at least `min_size`.
- **Sampling at a ratio of 0 or less.** The older script keeps one block of
  a non-empty list; the package keeps none.
- **The apostrophe in the fallback class.** In the fallback prefix class,
  the `''` inside the raw string literal ends and restarts the literal. The
  ASCII apostrophe is therefore not in the class, while the double quote
  is.
