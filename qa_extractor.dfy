/**
 * The response-parsing side of the package's `QAExtractor`
 * (src/core/qa_extractor.py): the prompt, the brace scanner that splits
 * several JSON objects apart, the JSON content parser, the fenced-block
 * extraction, the question-and-answer validity test, the record builder and
 * the quality metrics.
 *
 * `json.loads` is the parameter `loads`; `None` is a `JSONDecodeError`.
 */
module QaExtractor {

  import opened Options
  import opened Strings
  import opened JsonValues
  import opened Seqs
  import TextProcessor

  // ---------------------------------------------------------------------
  // The brace scanner (`_extract_json_objects`)
  // ---------------------------------------------------------------------

  /** The characters `content[lo:hi]`. */
  datatype Span = Span(lo: nat, hi: nat)

  /** What a character does to `brace_count`. */
  function BraceDelta(c: char): int {
    if c == '{' then 1 else if c == '}' then -1 else 0
  }

  /** `brace_count` after scanning all of `s`: opening minus closing braces. */
  function Balance(s: string): int
  {
    if s == [] then 0 else Balance(s[..|s| - 1]) + BraceDelta(s[|s| - 1])
  }

  /** The counter and recorded start after one character, and the span emitted there if any. */
  datatype Step = Step(count: int, start: int, out: Option<Span>)

  /**
   * One iteration of the loop at character `c[i]`: an opening brace at
   * counter 0 records its index as the start; a closing brace that brings
   * the counter back to 0 with a start recorded emits the span from the
   * start through itself and forgets the start.
   */
  function ScanStep(c: string, i: nat, count: int, start: int): (r: Step)
    requires i < |c| && -1 <= start < i
    ensures -1 <= r.start < i + 1
    ensures r.out.Some? ==> r.out.value.lo < r.out.value.hi <= |c|
  {
    if c[i] == '{' then Step(count + 1, if count == 0 then i else start, None)
    else if c[i] == '}' then
      if count - 1 == 0 && start != -1 then Step(0, -1, Some(Span(start, i + 1)))
      else Step(count - 1, start, None)
    else Step(count, start, None)
  }

  /**
   * The rest of the scan from index `i`, with the counter at `count` and the
   * recorded start at `start` (-1 when none): the spans it emits.
   */
  function ScanFrom(c: string, i: nat, count: int, start: int): (spans: seq<Span>)
    requires i <= |c| && -1 <= start < i
    decreases |c| - i
  {
    if i == |c| then []
    else
      var st := ScanStep(c, i, count, start);
      (if st.out.Some? then [st.out.value] else []) + ScanFrom(c, i + 1, st.count, st.start)
  }

  /** One step of the scan moves the span it emits (if any) from the rest of the scan to the spans emitted so far. */
  lemma ScanAdvance(c: string, i: nat, count: int, start: int, emitted: seq<Span>)
    requires i < |c| && -1 <= start < i
    ensures var st := ScanStep(c, i, count, start);
      emitted + ScanFrom(c, i, count, start)
      == (emitted + (if st.out.Some? then [st.out.value] else [])) + ScanFrom(c, i + 1, st.count, st.start)
  {
    var st := ScanStep(c, i, count, start);
    AppendAssoc(emitted, if st.out.Some? then [st.out.value] else [], ScanFrom(c, i + 1, st.count, st.start));
  }

  /** The spans `_extract_json_objects` cuts out of `c`. */
  function ObjectSpans(c: string): seq<Span>
  {
    ScanFrom(c, 0, 0, -1)
  }

  /** `c[lo:hi]` (empty when the span does not fit inside `c`; the scanner's spans always do). */
  function Slice(c: string, sp: Span): string {
    if sp.lo <= sp.hi <= |c| then c[sp.lo..sp.hi] else []
  }

  /** The substrings the spans select, in order. */
  function Pieces(c: string, spans: seq<Span>): (pieces: seq<string>)
    ensures |pieces| == |spans|
  {
    if spans == [] then [] else Pieces(c, spans[..|spans| - 1]) + [Slice(c, spans[|spans| - 1])]
  }

  lemma PiecesSnoc(c: string, spans: seq<Span>, sp: Span)
    ensures Pieces(c, spans + [sp]) == Pieces(c, spans) + [Slice(c, sp)]
  {
    assert (spans + [sp])[..|spans|] == spans;
  }

  lemma PiecesAt(c: string, spans: seq<Span>, k: nat)
    requires k < |spans|
    ensures Pieces(c, spans)[k] == Slice(c, spans[k])
    decreases |spans|
  {
    if k < |spans| - 1 {
      PiecesAt(c, spans[..|spans| - 1], k);
    }
  }

  /** `_extract_json_objects`: one pass over the characters with a brace counter and a start index. */
  method ExtractJsonObjects(content: string) returns (jsonObjects: seq<string>)
    ensures jsonObjects == Pieces(content, ObjectSpans(content))
  {
    jsonObjects := [];
    var braceCount := 0;
    var startPos := -1;
    ghost var emitted: seq<Span> := [];
    for i := 0 to |content|
      invariant -1 <= startPos < i
      invariant jsonObjects == Pieces(content, emitted)
      invariant emitted + ScanFrom(content, i, braceCount, startPos) == ObjectSpans(content)
    {
      ghost var next := ScanStep(content, i, braceCount, startPos);
      ScanAdvance(content, i, braceCount, startPos, emitted);
      ghost var emittedNext := emitted + (if next.out.Some? then [next.out.value] else []);
      var ch := content[i];
      if ch == '{' {
        if braceCount == 0 {
          startPos := i;
        }
        braceCount := braceCount + 1;
      } else if ch == '}' {
        braceCount := braceCount - 1;
        if braceCount == 0 && startPos != -1 {
          var jsonStr := content[startPos..i + 1];
          PiecesSnoc(content, emitted, Span(startPos, i + 1));
          jsonObjects := jsonObjects + [jsonStr];
          emitted := emitted + [Span(startPos, i + 1)];
          startPos := -1;
        }
      }
      assert next.count == braceCount && next.start == startPos && emitted == emittedNext;
    }
    assert emitted + [] == emitted;
  }

  // What the scanner finds

  lemma BalanceSnoc(c: string, i: nat)
    requires i < |c|
    ensures Balance(c[..i + 1]) == Balance(c[..i]) + BraceDelta(c[i])
  {
    assert c[..i + 1][..i] == c[..i];
  }

  lemma {:induction false} BalanceAppend(a: string, b: string)
    ensures Balance(a + b) == Balance(a) + Balance(b)
    decreases |b|
  {
    if b == [] {
      assert a + b == a;
    } else {
      assert (a + b)[..|a + b| - 1] == a + b[..|b| - 1];
      BalanceAppend(a, b[..|b| - 1]);
    }
  }

  /**
   * A balanced object text: it opens with `{`, the counter first returns to
   * zero at its last character, and stays positive in between.
   */
  predicate IsObject(p: string) {
    p != [] && p[0] == '{' && Balance(p) == 0 && forall j :: 0 < j < |p| ==> Balance(p[..j]) > 0
  }

  /**
   * `c[lo:hi]` is a span the scanner cuts out: at `lo` the counter over the
   * whole of `c` is zero and an opening brace is read, and `hi` is the first
   * point after it where the counter is zero again.
   */
  ghost predicate IsObjectSpan(c: string, sp: Span) {
    sp.lo < sp.hi <= |c| && c[sp.lo] == '{' && Balance(c[..sp.lo]) == 0 && Balance(c[..sp.hi]) == 0
    && forall k :: sp.lo < k < sp.hi ==> Balance(c[..k]) > 0
  }

  /** Such a span holds at least two characters and ends with a closing brace. */
  lemma ObjectSpanShape(c: string, sp: Span)
    requires IsObjectSpan(c, sp)
    ensures sp.lo + 2 <= sp.hi && c[sp.hi - 1] == '}'
  {
    BalanceSnoc(c, sp.lo);
    BalanceSnoc(c, sp.hi - 1);
  }

  /**
   * What holds of the loop's variables before index `i`: the counter is the
   * balance of what was read; with no start recorded it is not positive; with
   * a start recorded, the start is an opening brace read at counter zero and
   * the counter has stayed positive since.
   */
  ghost predicate ScanInv(c: string, i: nat, count: int, start: int) {
    i <= |c| && -1 <= start < i && count == Balance(c[..i])
    && (start == -1 ==> count <= 0)
    && (start != -1 ==> c[start] == '{' && Balance(c[..start]) == 0 && forall k :: start < k <= i ==> Balance(c[..k]) > 0)
  }

  lemma ScanInvStep(c: string, i: nat, count: int, start: int)
    requires ScanInv(c, i, count, start) && i < |c|
    ensures var st := ScanStep(c, i, count, start); ScanInv(c, i + 1, st.count, st.start)
  {
    BalanceSnoc(c, i);
  }

  /** One step of the scan, for one span: it is emitted now or later exactly when it is an object span not yet passed. */
  lemma ScanStepSpan(c: string, i: nat, count: int, start: int, sp: Span)
    requires ScanInv(c, i, count, start) && i < |c|
    ensures var st := ScanStep(c, i, count, start);
      (st.out == Some(sp) || (IsObjectSpan(c, sp) && i + 1 < sp.hi && (i + 1 <= sp.lo || sp.lo == st.start)))
      <==> (IsObjectSpan(c, sp) && i < sp.hi && (i <= sp.lo || sp.lo == start))
  {
    BalanceSnoc(c, i);
    if IsObjectSpan(c, sp) {
      ObjectSpanShape(c, sp);
    }
    if c[i] == '}' && count - 1 == 0 && start != -1 {
      assert IsObjectSpan(c, Span(start, i + 1));
    }
  }

  /** The spans the scan emits from index `i` on are the object spans it has not passed yet. */
  lemma {:induction false} ScanFromIff(c: string, i: nat, count: int, start: int)
    requires ScanInv(c, i, count, start)
    ensures forall sp :: sp in ScanFrom(c, i, count, start) <==> IsObjectSpan(c, sp) && i < sp.hi && (i <= sp.lo || sp.lo == start)
    decreases |c| - i
  {
    if i < |c| {
      var st := ScanStep(c, i, count, start);
      ScanInvStep(c, i, count, start);
      ScanFromIff(c, i + 1, st.count, st.start);
      forall sp
        ensures sp in ScanFrom(c, i, count, start) <==> IsObjectSpan(c, sp) && i < sp.hi && (i <= sp.lo || sp.lo == start)
      {
        ScanStepSpan(c, i, count, start, sp);
      }
    }
  }

  /** `_extract_json_objects` cuts out exactly the object spans of its input. */
  lemma ObjectSpansIff(c: string, sp: Span)
    ensures sp in ObjectSpans(c) <==> IsObjectSpan(c, sp)
  {
    assert c[..0] == [];
    ScanFromIff(c, 0, 0, -1);
  }

  /** Spans in left-to-right order and not overlapping. */
  predicate Ordered(spans: seq<Span>) {
    (forall k :: 0 <= k < |spans| ==> spans[k].lo < spans[k].hi)
    && forall j, k :: 0 <= j < k < |spans| ==> spans[j].hi <= spans[k].lo
  }

  lemma {:induction false} ScanFromOrdered(c: string, i: nat, count: int, start: int)
    requires i <= |c| && -1 <= start < i
    ensures var spans := ScanFrom(c, i, count, start);
      Ordered(spans) && forall k :: 0 <= k < |spans| ==> i < spans[k].hi <= |c| && (i <= spans[k].lo || spans[k].lo == start)
    decreases |c| - i
  {
    if i < |c| {
      var st := ScanStep(c, i, count, start);
      ScanFromOrdered(c, i + 1, st.count, st.start);
    }
  }

  /** The emitted spans come in input order, do not overlap and lie inside the input. */
  lemma ObjectSpansOrdered(c: string)
    ensures Ordered(ObjectSpans(c))
    ensures forall k :: 0 <= k < |ObjectSpans(c)| ==> ObjectSpans(c)[k].hi <= |c|
  {
    ScanFromOrdered(c, 0, 0, -1);
  }

  /** An object span is a place where the counter is zero and a balanced object text follows. */
  lemma ObjectSpanIsObject(c: string, sp: Span)
    requires sp.lo < sp.hi <= |c|
    ensures IsObjectSpan(c, sp) <==> Balance(c[..sp.lo]) == 0 && IsObject(c[sp.lo..sp.hi])
  {
    var p := c[sp.lo..sp.hi];
    assert c[..sp.hi] == c[..sp.lo] + p;
    BalanceAppend(c[..sp.lo], p);
    forall j | 0 < j < |p|
      ensures Balance(c[..sp.lo + j]) == Balance(c[..sp.lo]) + Balance(p[..j])
    {
      assert c[..sp.lo + j] == c[..sp.lo] + p[..j];
      BalanceAppend(c[..sp.lo], p[..j]);
    }
    if Balance(c[..sp.lo]) == 0 && IsObject(p) {
      forall k | sp.lo < k < sp.hi
        ensures Balance(c[..k]) > 0
      {
        assert Balance(c[..sp.lo + (k - sp.lo)]) == Balance(c[..sp.lo]) + Balance(p[..k - sp.lo]);
      }
    }
    if IsObjectSpan(c, sp) {
      forall j | 0 < j < |p|
        ensures Balance(p[..j]) > 0
      {
        assert Balance(c[..sp.lo + j]) > 0;
      }
    }
  }

  /**
   * What `_extract_json_objects` returns: balanced object texts that each
   * begin with `{` and end with `}`, taken at ordered, non-overlapping places
   * of the input where the counter is zero; and every such place is taken.
   */
  lemma ExtractedObjects(c: string)
    ensures var spans := ObjectSpans(c); var pieces := Pieces(c, spans);
      Ordered(spans)
      && (forall k :: 0 <= k < |spans| ==>
            spans[k].hi <= |c| && pieces[k] == c[spans[k].lo..spans[k].hi]
            && Balance(c[..spans[k].lo]) == 0 && IsObject(pieces[k]) && pieces[k][|pieces[k]| - 1] == '}')
      && (forall sp: Span :: sp.lo < sp.hi <= |c| && Balance(c[..sp.lo]) == 0 && IsObject(c[sp.lo..sp.hi]) ==> sp in spans)
  {
    var spans := ObjectSpans(c);
    var pieces := Pieces(c, spans);
    ObjectSpansOrdered(c);
    forall k | 0 <= k < |spans|
      ensures spans[k].hi <= |c| && pieces[k] == c[spans[k].lo..spans[k].hi]
        && Balance(c[..spans[k].lo]) == 0 && IsObject(pieces[k]) && pieces[k][|pieces[k]| - 1] == '}'
    {
      PiecesAt(c, spans, k);
      ObjectSpansIff(c, spans[k]);
      ObjectSpanIsObject(c, spans[k]);
      ObjectSpanShape(c, spans[k]);
    }
    forall sp: Span | sp.lo < sp.hi <= |c| && Balance(c[..sp.lo]) == 0 && IsObject(c[sp.lo..sp.hi])
      ensures sp in spans
    {
      ObjectSpanIsObject(c, sp);
      ObjectSpansIff(c, sp);
    }
  }

  // ---------------------------------------------------------------------
  // Parsing (`_parse_json_content`)
  // ---------------------------------------------------------------------

  /** The dicts among a parsed list's items, in order (`if isinstance(item, dict)`). */
  function Dicts(items: seq<Json>): seq<Json>
  {
    if items == [] then [] else Dicts(items[..|items| - 1]) + (if items[|items| - 1].JObj? then [items[|items| - 1]] else [])
  }

  /** The pieces that parse to a dict, parsed, in order; the others are skipped. */
  function LoadedDicts(pieces: seq<string>, loads: string -> Option<Json>): seq<Json>
  {
    if pieces == [] then []
    else
      var v := loads(pieces[|pieces| - 1]);
      LoadedDicts(pieces[..|pieces| - 1], loads) + (if v.Some? && v.value.JObj? then [v.value] else [])
  }

  /**
   * `_parse_json_content`: the stripped content is parsed whole; a list gives
   * its dict items, a dict gives itself, anything else nothing; only when it
   * does not parse are the scanner's pieces parsed one by one.
   */
  function ParsedContent(content: string, loads: string -> Option<Json>): seq<Json>
  {
    var c := Strip(content);
    if c == [] then []
    else
      var data := loads(c);
      if data.None? then LoadedDicts(Pieces(c, ObjectSpans(c)), loads)
      else if data.value.JArr? then Dicts(data.value.items)
      else if data.value.JObj? then [data.value]
      else []
  }

  /** The four outcomes of `_parse_json_content`, one per case of the stripped content. */
  lemma ParsedContentCases(content: string, loads: string -> Option<Json>)
    ensures var c := Strip(content);
      (c == [] ==> ParsedContent(content, loads) == [])
      && (c != [] && loads(c).None? ==> ParsedContent(content, loads) == LoadedDicts(Pieces(c, ObjectSpans(c)), loads))
      && (c != [] && loads(c).Some? && loads(c).value.JArr? ==> ParsedContent(content, loads) == Dicts(loads(c).value.items))
      && (c != [] && loads(c).Some? && loads(c).value.JObj? ==> ParsedContent(content, loads) == [loads(c).value])
      && (c != [] && loads(c).Some? && !loads(c).value.JArr? && !loads(c).value.JObj? ==> ParsedContent(content, loads) == [])
  {
  }

  /** `_parse_json_content`, with its two loops. */
  method ParseJsonContent(content: string, loads: string -> Option<Json>) returns (results: seq<Json>)
    ensures results == ParsedContent(content, loads)
  {
    ParsedContentCases(content, loads);
    results := [];
    var c := Strip(content);
    if c == [] {
      return;
    }
    var data := loads(c);
    if data.Some? {
      if data.value.JArr? {
        results := DictItems(data.value.items);
      } else if data.value.JObj? {
        results := [data.value];
      }
    } else {
      var jsonObjects := ExtractJsonObjects(c);
      results := LoadPieces(jsonObjects, loads);
      assert results == LoadedDicts(Pieces(c, ObjectSpans(c)), loads);
    }
  }

  /** The loop of `_parse_json_content` over a parsed list, keeping its dict items. */
  method DictItems(items: seq<Json>) returns (results: seq<Json>)
    ensures results == Dicts(items)
  {
    results := [];
    for k := 0 to |items|
      invariant results == Dicts(items[..k])
    {
      TakeSnoc(items, k);
      if items[k].JObj? {
        results := results + [items[k]];
      }
    }
    assert items[..|items|] == items;
  }

  /** The loop of `_parse_json_content` that parses each scanned piece and keeps the dicts. */
  method LoadPieces(jsonObjects: seq<string>, loads: string -> Option<Json>) returns (results: seq<Json>)
    ensures results == LoadedDicts(jsonObjects, loads)
  {
    results := [];
    for k := 0 to |jsonObjects|
      invariant results == LoadedDicts(jsonObjects[..k], loads)
    {
      TakeSnoc(jsonObjects, k);
      var parsed := loads(jsonObjects[k]);
      if parsed.Some? && parsed.value.JObj? {
        results := results + [parsed.value];
      }
    }
    assert jsonObjects[..|jsonObjects|] == jsonObjects;
  }

  lemma {:induction false} DictsIff(items: seq<Json>, v: Json)
    ensures v in Dicts(items) <==> v in items && v.JObj?
    decreases |items|
  {
    if items != [] {
      var n := |items| - 1;
      DictsIff(items[..n], v);
      assert items == items[..n] + [items[n]];
    }
  }

  lemma {:induction false} LoadedDictsIff(pieces: seq<string>, loads: string -> Option<Json>, v: Json)
    ensures v in LoadedDicts(pieces, loads) <==> v.JObj? && exists k :: 0 <= k < |pieces| && loads(pieces[k]) == Some(v)
    decreases |pieces|
  {
    if pieces != [] {
      var n := |pieces| - 1;
      LoadedDictsIff(pieces[..n], loads, v);
      if exists k :: 0 <= k < |pieces| && loads(pieces[k]) == Some(v) {
        var k :| 0 <= k < |pieces| && loads(pieces[k]) == Some(v);
        if k < n {
          assert pieces[..n][k] == pieces[k];
        }
      }
      if exists k :: 0 <= k < n && loads(pieces[..n][k]) == Some(v) {
        var k :| 0 <= k < n && loads(pieces[..n][k]) == Some(v);
        assert loads(pieces[k]) == Some(v);
      }
    }
  }

  /** Empty or whitespace-only content gives no results. */
  lemma ParsedContentBlank(content: string, loads: string -> Option<Json>)
    requires AllSpace(content)
    ensures ParsedContent(content, loads) == []
  {
    StripEmptyIff(content);
  }

  /**
   * Every result is a dict. When the stripped content parses, the results are
   * the dicts of that one value: the value itself, or the dict items of a
   * list. When it does not, each result is what some balanced `{…}` piece of
   * the stripped content, taken where the brace counter is zero, parses to.
   */
  lemma ParsedContentSources(content: string, loads: string -> Option<Json>, v: Json)
    requires v in ParsedContent(content, loads)
    ensures v.JObj?
    ensures loads(Strip(content)).Some? ==>
      v == loads(Strip(content)).value || (loads(Strip(content)).value.JArr? && v in loads(Strip(content)).value.items)
    ensures loads(Strip(content)).None? ==>
      var c := Strip(content);
      exists sp: Span :: sp.lo < sp.hi <= |c| && Balance(c[..sp.lo]) == 0 && IsObject(c[sp.lo..sp.hi]) && loads(c[sp.lo..sp.hi]) == Some(v)
  {
    var c := Strip(content);
    match loads(c)
    case Some(JArr(items)) =>
      DictsIff(items, v);
    case Some(JObj(fields)) =>
    case None =>
      var spans := ObjectSpans(c);
      var pieces := Pieces(c, spans);
      LoadedDictsIff(pieces, loads, v);
      var k :| 0 <= k < |pieces| && loads(pieces[k]) == Some(v);
      ExtractedObjects(c);
      var sp := spans[k];
      assert sp.lo < sp.hi <= |c| && Balance(c[..sp.lo]) == 0 && IsObject(c[sp.lo..sp.hi]) && loads(c[sp.lo..sp.hi]) == Some(v);
  }

  /** When the content does not parse whole, every balanced `{…}` piece that parses to a dict is among the results. */
  lemma ParsedContentComplete(content: string, loads: string -> Option<Json>, sp: Span)
    requires Strip(content) != [] && loads(Strip(content)).None?
    requires var c := Strip(content);
      sp.lo < sp.hi <= |c| && Balance(c[..sp.lo]) == 0 && IsObject(c[sp.lo..sp.hi])
      && loads(c[sp.lo..sp.hi]).Some? && loads(c[sp.lo..sp.hi]).value.JObj?
    ensures loads(Strip(content)[sp.lo..sp.hi]).value in ParsedContent(content, loads)
  {
    var c := Strip(content);
    var spans := ObjectSpans(c);
    var pieces := Pieces(c, spans);
    ExtractedObjects(c);
    var k :| 0 <= k < |spans| && spans[k] == sp;
    assert pieces[k] == c[sp.lo..sp.hi];
    LoadedDictsIff(pieces, loads, loads(c[sp.lo..sp.hi]).value);
  }

  // ---------------------------------------------------------------------
  // Fenced blocks (`re.findall(r'```json\s*(.*?)\s*```', text, re.DOTALL)`)
  // ---------------------------------------------------------------------

  const JsonOpen: string := "```json"
  const Fence: string := "```"

  /** One match of a fenced findall: the body is `s[lo:hi]` and the search goes on at `next`. */
  datatype FenceHit = FenceHit(lo: nat, hi: nat, next: nat)

  /**
   * The first match of `open + r'\s*(.*?)\s*' + close` (with `re.DOTALL`)
   * for literal fences: at the first `open`, skip the whitespace after it and
   * take everything up to the first `close` after that; the body's trailing
   * whitespace is cut later. With no `close` after the first `open` there is
   * no match at all, since a later `open` has no later `close` either.
   */
  function NextFence(s: string, open: string, close: string): (h: Option<FenceHit>)
    requires close != []
    ensures h.Some? ==> h.value.lo <= h.value.hi < h.value.next <= |s|
  {
    match Find(s, open)
    case None => None
    case Some(p) =>
      var a := p + |open| + SpaceRun(s[p + |open|..]);
      match Find(s[a..], close)
      case None => None
      case Some(f) => Some(FenceHit(a, a + f, a + f + |close|))
  }

  /** `re.findall` of that pattern: every match's body with its trailing whitespace cut, left to right. */
  function FencedBodies(s: string, open: string, close: string): (bodies: seq<string>)
    requires close != []
    decreases |s|
  {
    match NextFence(s, open, close)
    case None => []
    case Some(h) => [TrimEnd(s[h.lo..h.hi])] + FencedBodies(s[h.next..], open, close)
  }

  /** The bodies of the "```json" … "```" fences. */
  function FenceBodies(s: string): seq<string> {
    FencedBodies(s, JsonOpen, Fence)
  }

  /** Without an opening fence there are no fenced bodies. */
  lemma FenceBodiesNone(s: string)
    requires !Contains(s, JsonOpen)
    ensures FenceBodies(s) == []
  {
    ContainsIff(s, JsonOpen);
  }

  /** A needle whose first character does not occur in `b` is first found in `b + q` right after `b`. */
  lemma FindAfter(b: string, q: string)
    requires q != [] && forall k :: 0 <= k < |b| ==> b[k] != q[0]
    ensures Find(b + q, q) == Some(|b|)
  {
    var t := b + q;
    assert t[|b|..|b| + |q|] == q;
    assert OccursAt(t, q, |b|);
    forall j | 0 <= j < |b|
      ensures !OccursAt(t, q, j)
    {
      assert t[j] == b[j];
      FirstOfOccurrence(t, q, j);
    }
  }

  lemma FirstOfOccurrence(t: string, q: string, j: nat)
    requires q != [] && j < |t|
    ensures OccursAt(t, q, j) ==> t[j] == q[0]
  {
    if OccursAt(t, q, j) {
      assert t[j..j + |q|][0] == t[j];
    }
  }

  /**
   * A body written between the fences is found again: a body that has no
   * character of the closing fence's first kind and no whitespace at either
   * end comes back as the one fenced body.
   */
  lemma FencedBodiesRoundTrip(b: string, open: string, close: string)
    requires close != [] && !IsSpace(close[0]) && IsStripped(b) && forall k :: 0 <= k < |b| ==> b[k] != close[0]
    ensures FencedBodies(open + b + close, open, close) == [b]
  {
    var s := open + b + close;
    NextFenceAround(b, open, close);
    assert s[|open|..|open| + |b|] == b;
    assert s[|s|..] == [];
    FencedBodiesEmpty(open, close);
  }

  /** The match in `open + b + close` is `b` itself. */
  lemma NextFenceAround(b: string, open: string, close: string)
    requires close != [] && !IsSpace(close[0]) && IsStripped(b) && forall k :: 0 <= k < |b| ==> b[k] != close[0]
    ensures var s := open + b + close;
      NextFence(s, open, close) == Some(FenceHit(|open|, |open| + |b|, |s|))
  {
    var s := open + b + close;
    var t := b + close;
    assert s[..|open|] == open;
    assert s[|open|..] == t;
    assert SpaceRun(t) == 0 by {
      assert t[0] == if b != [] then b[0] else close[0];
    }
    FindAfter(b, close);
  }

  lemma FencedBodiesEmpty(open: string, close: string)
    requires close != []
    ensures FencedBodies([], open, close) == []
  {
  }

  /** A body between "```json" and "```" with no backtick and no whitespace at either end is the one fenced body. */
  lemma FenceBodiesRoundTrip(b: string)
    requires IsStripped(b) && forall k :: 0 <= k < |b| ==> b[k] != '`'
    ensures FenceBodies(JsonOpen + b + Fence) == [b]
  {
    FencedBodiesRoundTrip(b, JsonOpen, Fence);
  }

  /**
   * `findall` goes on after each match: a fenced body followed by more text
   * is the first body, and the bodies of the rest follow it.
   */
  lemma FencedBodiesCons(b: string, open: string, close: string, rest: string)
    requires close != [] && !IsSpace(close[0]) && IsStripped(b) && forall k :: 0 <= k < |b| ==> b[k] != close[0]
    ensures FencedBodies(open + b + close + rest, open, close) == [b] + FencedBodies(rest, open, close)
  {
    var s := open + b + close + rest;
    NextFenceBefore(b, open, close, rest);
    var n := |open| + |b| + |close|;
    assert FencedBodies(s, open, close) == [TrimEnd(s[|open|..|open| + |b|])] + FencedBodies(s[n..], open, close);
    FourSlices(open, b, close, rest);
    assert TrimEnd(b) == b;
  }

  lemma FourSlices(w: string, x: string, y: string, z: string)
    ensures (w + x + y + z)[|w|..|w| + |x|] == x
    ensures (w + x + y + z)[|w| + |x| + |y|..] == z
  {
    var s := w + x + y + z;
    assert s == w + (x + (y + z));
    assert s[|w|..] == x + (y + z);
    assert s[|w|..][..|x|] == x;
    assert s[|w| + |x| + |y|..] == s[|w|..][|x|..][|y|..];
  }

  /** The first match in `open + b + close + rest` is `b`. */
  lemma NextFenceBefore(b: string, open: string, close: string, rest: string)
    requires close != [] && !IsSpace(close[0]) && IsStripped(b) && forall k :: 0 <= k < |b| ==> b[k] != close[0]
    ensures var s := open + b + close + rest;
      NextFence(s, open, close) == Some(FenceHit(|open|, |open| + |b|, |open| + |b| + |close|))
  {
    var s := open + b + close + rest;
    var t := b + close + rest;
    assert s[..|open|] == open;
    assert s[|open|..] == t;
    assert SpaceRun(t) == 0 by {
      assert t[0] == if b != [] then b[0] else close[0];
    }
    FindBefore(b, close, rest);
  }

  /** A needle whose first character does not occur in `b` is first found in `b + q + r` right after `b`. */
  lemma FindBefore(b: string, q: string, r: string)
    requires q != [] && forall k :: 0 <= k < |b| ==> b[k] != q[0]
    ensures Find(b + q + r, q) == Some(|b|)
  {
    var t := b + q + r;
    assert t[|b|..|b| + |q|] == q;
    assert OccursAt(t, q, |b|);
    forall j | 0 <= j < |b|
      ensures !OccursAt(t, q, j)
    {
      assert t[j] == b[j];
      FirstOfOccurrence(t, q, j);
    }
  }

  /** A reply with several fences yields their bodies in order, one per fence. */
  lemma FenceBodiesCons(b: string, rest: string)
    requires IsStripped(b) && forall k :: 0 <= k < |b| ==> b[k] != '`'
    ensures FenceBodies(JsonOpen + b + Fence + rest) == [b] + FenceBodies(rest)
  {
    FencedBodiesCons(b, JsonOpen, Fence, rest);
  }

  // ---------------------------------------------------------------------
  // Validity and `extract_json`
  // ---------------------------------------------------------------------

  /** `_is_valid_qa_pair`: a dict with "question" and "answer" whose values are truthy and not blank. */
  predicate IsValidQaPair(v: Json) {
    v.JObj? && "question" in v.fields && "answer" in v.fields
    && Truthy(Get(v.fields, "question")) && Truthy(Get(v.fields, "answer"))
    && !IsBlank(v.fields["question"]) && !IsBlank(v.fields["answer"])
  }

  /** A value passes both the truth test and the blank test exactly when it is a string with a visible character or a truthy non-string. */
  lemma FilledIff(v: Json)
    ensures Truthy(v) && !IsBlank(v) <==> (if v.JStr? then !AllSpace(v.s) else Truthy(v))
  {
    match v
    case JStr(s) =>
      StripEmptyIff(s);
      assert Truthy(v) <==> s != [];
      assert IsBlank(v) <==> AllSpace(s);
    case _ =>
      assert !IsBlank(v);
  }

  /** The valid pairs, in order (the filter loop of `extract_json`). */
  function ValidPairs(values: seq<Json>): seq<Json>
  {
    if values == [] then []
    else ValidPairs(values[..|values| - 1]) + (if IsValidQaPair(values[|values| - 1]) then [values[|values| - 1]] else [])
  }

  lemma {:induction false} ValidPairsIff(values: seq<Json>, v: Json)
    ensures v in ValidPairs(values) <==> v in values && IsValidQaPair(v)
    decreases |values|
  {
    if values != [] {
      var n := |values| - 1;
      ValidPairsIff(values[..n], v);
      assert values == values[..n] + [values[n]];
    }
  }

  /** The filter keeps order: its result is a subsequence of its input, so it is no longer. */
  lemma {:induction false} ValidPairsSubsequence(values: seq<Json>)
    ensures |ValidPairs(values)| <= |values|
    ensures forall k :: 0 <= k < |ValidPairs(values)| ==> IsValidQaPair(ValidPairs(values)[k])
    decreases |values|
  {
    if values != [] {
      ValidPairsSubsequence(values[..|values| - 1]);
    }
  }

  /** Filtering twice is filtering once. */
  lemma {:induction false} ValidPairsIdempotent(values: seq<Json>)
    ensures ValidPairs(ValidPairs(values)) == ValidPairs(values)
    decreases |values|
  {
    if values != [] {
      var n := |values| - 1;
      var prev := ValidPairs(values[..n]);
      ValidPairsIdempotent(values[..n]);
      if IsValidQaPair(values[n]) {
        var r := prev + [values[n]];
        assert r[..|r| - 1] == prev;
      } else {
        assert prev + [] == prev;
      }
    }
  }

  /** The parsed results of all fenced bodies, in order. */
  function ParsedBodies(bodies: seq<string>, loads: string -> Option<Json>): seq<Json>
  {
    if bodies == [] then [] else ParsedBodies(bodies[..|bodies| - 1], loads) + ParsedContent(bodies[|bodies| - 1], loads)
  }

  /** What `extract_json` parses: the fenced bodies when there is one, the whole text otherwise. */
  function AllParsed(text: string, loads: string -> Option<Json>): seq<Json>
  {
    var bodies := FenceBodies(text);
    if bodies != [] then ParsedBodies(bodies, loads) else ParsedContent(text, loads)
  }

  /** `extract_json`: parse, then keep the valid pairs. */
  method ExtractJson(text: string, loads: string -> Option<Json>) returns (validResults: seq<Json>)
    ensures validResults == ValidPairs(AllParsed(text, loads))
  {
    var results := ParseResponse(text, loads);
    validResults := [];
    for k := 0 to |results|
      invariant validResults == ValidPairs(results[..k])
    {
      TakeSnoc(results, k);
      if IsValidQaPair(results[k]) {
        validResults := validResults + [results[k]];
      }
    }
    assert results[..|results|] == results;
  }

  /** The parsing half of `extract_json`: every fenced body in turn, or the whole text when there is none. */
  method ParseResponse(text: string, loads: string -> Option<Json>) returns (results: seq<Json>)
    ensures results == AllParsed(text, loads)
  {
    results := [];
    var jsonBlocks := FenceBodies(text);
    if |jsonBlocks| > 0 {
      for k := 0 to |jsonBlocks|
        invariant results == ParsedBodies(jsonBlocks[..k], loads)
      {
        TakeSnoc(jsonBlocks, k);
        var parsed := ParseJsonContent(jsonBlocks[k], loads);
        results := results + parsed;
      }
      assert jsonBlocks[..|jsonBlocks|] == jsonBlocks;
    } else {
      results := ParseJsonContent(text, loads);
    }
  }

  /** Text with no "```json" fence is parsed whole; and everything `extract_json` returns is a valid pair. */
  lemma ExtractJsonFacts(text: string, loads: string -> Option<Json>)
    ensures !Contains(text, JsonOpen) ==> ValidPairs(AllParsed(text, loads)) == ValidPairs(ParsedContent(text, loads))
    ensures forall v :: v in ValidPairs(AllParsed(text, loads)) ==> IsValidQaPair(v)
  {
    if !Contains(text, JsonOpen) {
      FenceBodiesNone(text);
    }
    forall v | v in ValidPairs(AllParsed(text, loads))
      ensures IsValidQaPair(v)
    {
      ValidPairsIff(AllParsed(text, loads), v);
    }
  }

  /** A response that is one fenced body is parsed from that body alone. */
  lemma ExtractJsonOneFence(b: string, loads: string -> Option<Json>)
    requires IsStripped(b) && forall k :: 0 <= k < |b| ==> b[k] != '`'
    ensures AllParsed(JsonOpen + b + Fence, loads) == ParsedContent(b, loads)
  {
    FenceBodiesRoundTrip(b);
    assert [b][..0] == [];
    assert ParsedBodies([b], loads) == [] + ParsedContent(b, loads);
  }

  // ---------------------------------------------------------------------
  // Records (`process_qa_pairs`) and the prompt (`create_prompt`)
  // ---------------------------------------------------------------------

  /** One processed pair: the cleaned question, the answer as given and the block it came from. */
  datatype QaRecord = QaRecord(question: string, answer: Json, sourceText: string)

  /** Python's `str(v)`: a string is itself; any other value is printed by `render`. */
  function PyStr(v: Json, render: Json -> string): string {
    if v.JStr? then v.s else render(v)
  }

  /** The record `process_qa_pairs` builds for one valid pair. */
  function RecordOf(v: Json, sourceText: string, prefixes: seq<string>, render: Json -> string): QaRecord
    requires IsValidQaPair(v)
  {
    QaRecord(TextProcessor.CleanQuestionText(Some(PyStr(v.fields["question"], render)), prefixes), v.fields["answer"], sourceText)
  }

  /** The records for the valid pairs among `pairs`, in order. */
  function Processed(pairs: seq<Json>, sourceText: string, prefixes: seq<string>, render: Json -> string): seq<QaRecord>
  {
    if pairs == [] then []
    else
      var v := pairs[|pairs| - 1];
      Processed(pairs[..|pairs| - 1], sourceText, prefixes, render)
      + (if IsValidQaPair(v) then [RecordOf(v, sourceText, prefixes, render)] else [])
  }

  /**
   * `process_qa_pairs`; `prefixes` are the `known_prefixes` of the text
   * processor passed in and `render` is `str()` on non-string values.
   */
  method ProcessQaPairs(qaPairs: seq<Json>, sourceText: string, prefixes: seq<string>, render: Json -> string)
    returns (processedPairs: seq<QaRecord>)
    ensures processedPairs == Processed(qaPairs, sourceText, prefixes, render)
  {
    processedPairs := [];
    for k := 0 to |qaPairs|
      invariant processedPairs == Processed(qaPairs[..k], sourceText, prefixes, render)
    {
      TakeSnoc(qaPairs, k);
      var qaPair := qaPairs[k];
      if !IsValidQaPair(qaPair) {
        continue;
      }
      var cleanQuestion := TextProcessor.CleanQuestionText(Some(PyStr(qaPair.fields["question"], render)), prefixes);
      var finalPair := QaRecord(cleanQuestion, qaPair.fields["answer"], sourceText);
      processedPairs := processedPairs + [finalPair];
    }
    assert qaPairs[..|qaPairs|] == qaPairs;
  }

  /** One record per valid pair, in order: processing is a map over the filter. */
  lemma {:induction false} ProcessedIsMapOfValid(pairs: seq<Json>, sourceText: string, prefixes: seq<string>, render: Json -> string)
    ensures var valid := ValidPairs(pairs); var out := Processed(pairs, sourceText, prefixes, render);
      |out| == |valid| && forall k :: 0 <= k < |out| ==> IsValidQaPair(valid[k]) && out[k] == RecordOf(valid[k], sourceText, prefixes, render)
    decreases |pairs|
  {
    ValidPairsSubsequence(pairs);
    if pairs != [] {
      var n := |pairs| - 1;
      var v := pairs[n];
      ProcessedIsMapOfValid(pairs[..n], sourceText, prefixes, render);
      var out0, valid0 := Processed(pairs[..n], sourceText, prefixes, render), ValidPairs(pairs[..n]);
      var out, valid := Processed(pairs, sourceText, prefixes, render), ValidPairs(pairs);
      if IsValidQaPair(v) {
        assert out == out0 + [RecordOf(v, sourceText, prefixes, render)];
        assert valid == valid0 + [v];
      } else {
        assert out == out0 + [];
        assert valid == valid0 + [];
      }
      forall k | 0 <= k < |out|
        ensures IsValidQaPair(valid[k]) && out[k] == RecordOf(valid[k], sourceText, prefixes, render)
      {
        if k < |out0| {
          assert out[k] == out0[k] && valid[k] == valid0[k];
        }
      }
    }
  }

  /**
   * What each record holds: the cleaned question of the matching valid pair,
   * its answer unchanged and the given source text; there are no more records
   * than input pairs.
   */
  lemma ProcessedFields(pairs: seq<Json>, sourceText: string, prefixes: seq<string>, render: Json -> string)
    ensures var valid := ValidPairs(pairs); var out := Processed(pairs, sourceText, prefixes, render);
      |out| == |valid| <= |pairs|
      && forall k :: 0 <= k < |out| ==> (IsValidQaPair(valid[k])
        && out[k].question == TextProcessor.CleanQuestionText(Some(PyStr(valid[k].fields["question"], render)), prefixes)
        && out[k].answer == valid[k].fields["answer"] && out[k].sourceText == sourceText)
  {
    ValidPairsSubsequence(pairs);
    ProcessedIsMapOfValid(pairs, sourceText, prefixes, render);
  }

  /** Every record's question is stripped and its answer is a filled value. */
  lemma ProcessedRecords(pairs: seq<Json>, sourceText: string, prefixes: seq<string>, render: Json -> string)
    ensures forall r :: r in Processed(pairs, sourceText, prefixes, render) ==>
      IsStripped(r.question) && Truthy(r.answer) && !IsBlank(r.answer) && r.sourceText == sourceText
  {
    ProcessedIsMapOfValid(pairs, sourceText, prefixes, render);
    forall r | r in Processed(pairs, sourceText, prefixes, render)
      ensures IsStripped(r.question) && Truthy(r.answer) && !IsBlank(r.answer) && r.sourceText == sourceText
    {
      var k :| 0 <= k < |Processed(pairs, sourceText, prefixes, render)| && Processed(pairs, sourceText, prefixes, render)[k] == r;
    }
  }

  /** `create_prompt`: the base prompt, a blank line and the text. */
  function CreatePrompt(basePrompt: string, text: string): (prompt: string)
    ensures |prompt| == |basePrompt| + 2 + |text|
    ensures prompt[..|basePrompt|] == basePrompt && prompt[|basePrompt|..|basePrompt| + 2] == "\n\n"
    ensures prompt[|basePrompt| + 2..] == text
  {
    basePrompt + "\n\n" + text
  }

  // ---------------------------------------------------------------------
  // Quality metrics (`validate_extraction_quality`)
  // ---------------------------------------------------------------------

  /** The metrics dictionary; the averages and the score are Python floats, modelled as reals. */
  datatype Metrics = Metrics(totalPairs: nat, avgQuestionLength: real, avgAnswerLength: real, hasDuplicates: bool, qualityScore: real)

  /** `len(v)`: defined for strings, lists and dicts; `None` is the `TypeError` raised otherwise. */
  function PyLen(v: Json): Option<nat> {
    match v
    case JStr(s) => Some(|s|)
    case JArr(items) => Some(|items|)
    case JObj(fields) => Some(|fields|)
    case _ => None
  }

  /** Sum of the question lengths. */
  function QuestionLengthSum(records: seq<QaRecord>): nat
  {
    if records == [] then 0 else QuestionLengthSum(records[..|records| - 1]) + |records[|records| - 1].question|
  }

  /** Sum of the answer lengths, or `None` when some answer has no length. */
  function AnswerLengthSum(records: seq<QaRecord>): Option<nat>
  {
    if records == [] then Some(0)
    else
      var prev := AnswerLengthSum(records[..|records| - 1]);
      var last := PyLen(records[|records| - 1].answer);
      if prev.None? || last.None? then None else Some(prev.value + last.value)
  }

  /** `set(questions)`, built one question at a time. */
  function QuestionSet(records: seq<QaRecord>): set<string>
  {
    if records == [] then {} else QuestionSet(records[..|records| - 1]) + {records[|records| - 1].question}
  }

  /** The score heuristic: 0.3, 0.3, 0.2 and 0.2 for its four tests. */
  function QualityScore(avgQuestion: real, avgAnswer: real, hasDuplicates: bool, totalPairs: nat): real
  {
    (if avgQuestion > 5.0 then 0.3 else 0.0) + (if avgAnswer > 10.0 then 0.3 else 0.0)
    + (if !hasDuplicates then 0.2 else 0.0) + (if totalPairs > 0 then 0.2 else 0.0)
  }

  /**
   * `validate_extraction_quality` on processed records; `None` is the
   * `TypeError` from `len` of an answer that is a number, a boolean or null.
   * The `original_text` argument is unused by the source and left out.
   */
  function ValidateExtractionQuality(records: seq<QaRecord>): Option<Metrics>
  {
    if records == [] then Some(Metrics(0, 0.0, 0.0, false, 0.0))
    else
      var answers := AnswerLengthSum(records);
      if answers.None? then None
      else
        var n := |records|;
        var avgQ := QuestionLengthSum(records) as real / n as real;
        var avgA := answers.value as real / n as real;
        var dup := n != |QuestionSet(records)|;
        Some(Metrics(n, avgQ, avgA, dup, QualityScore(avgQ, avgA, dup, n)))
  }

  lemma {:induction false} AnswerLengthSumNone(records: seq<QaRecord>)
    ensures AnswerLengthSum(records).None? <==> exists k :: 0 <= k < |records| && PyLen(records[k].answer).None?
    decreases |records|
  {
    if records != [] {
      var n := |records| - 1;
      AnswerLengthSumNone(records[..n]);
      if exists k :: 0 <= k < |records| && PyLen(records[k].answer).None? {
        var k :| 0 <= k < |records| && PyLen(records[k].answer).None?;
        if k < n {
          assert records[..n][k] == records[k];
        }
      }
    }
  }

  /** No two records share a question. */
  predicate DistinctQuestions(records: seq<QaRecord>) {
    forall i, j :: 0 <= i < j < |records| ==> records[i].question != records[j].question
  }

  lemma {:induction false} QuestionSetMembers(records: seq<QaRecord>, q: string)
    ensures q in QuestionSet(records) <==> exists k :: 0 <= k < |records| && records[k].question == q
    decreases |records|
  {
    if records != [] {
      var n := |records| - 1;
      QuestionSetMembers(records[..n], q);
      if exists k :: 0 <= k < |records| && records[k].question == q {
        var k :| 0 <= k < |records| && records[k].question == q;
        if k < n {
          assert records[..n][k] == records[k];
        }
      }
    }
  }

  /** `set(questions)` is as large as the list exactly when no question repeats. */
  lemma {:induction false} QuestionSetSize(records: seq<QaRecord>)
    ensures |QuestionSet(records)| <= |records|
    ensures |QuestionSet(records)| == |records| <==> DistinctQuestions(records)
    decreases |records|
  {
    if records != [] {
      var n := |records| - 1;
      var prefix := records[..n];
      QuestionSetSize(prefix);
      QuestionSetMembers(prefix, records[n].question);
      if DistinctQuestions(records) {
        assert DistinctQuestions(prefix);
        assert records[n].question !in QuestionSet(prefix);
      } else if DistinctQuestions(prefix) {
        var i, j :| 0 <= i < j < |records| && records[i].question == records[j].question;
        assert j == n && prefix[i] == records[i];
      }
    }
  }

  /**
   * No records give the zero metrics. Otherwise the call fails exactly when
   * some answer has no length; when it succeeds, `has_duplicates` says
   * exactly whether a question repeats, and the score lies between 0.2 and
   * 1.0, reaching 1.0 exactly when both averages pass their thresholds and
   * no question repeats.
   */
  lemma ValidateExtractionQualityFacts(records: seq<QaRecord>)
    ensures records == [] ==> ValidateExtractionQuality(records) == Some(Metrics(0, 0.0, 0.0, false, 0.0))
    ensures records != [] ==>
      (ValidateExtractionQuality(records).None? <==> exists k :: 0 <= k < |records| && PyLen(records[k].answer).None?)
    ensures records != [] && ValidateExtractionQuality(records).Some? ==>
      var m := ValidateExtractionQuality(records).value;
      m.totalPairs == |records|
      && (m.hasDuplicates <==> !DistinctQuestions(records))
      && 0.2 <= m.qualityScore <= 1.0
      && (m.qualityScore == 1.0 <==> m.avgQuestionLength > 5.0 && m.avgAnswerLength > 10.0 && !m.hasDuplicates)
  {
    if records != [] {
      AnswerLengthSumNone(records);
      QuestionSetSize(records);
    }
  }

}
