/**
 * The Python `str` operations the text pipeline is built from, on `seq<char>`
 * (a Dafny `char` is a Unicode scalar value, so `|s|` is Python's `len(s)`).
 */
module Strings {

  import opened Options

  /** Python's `str.isspace()`; it is also the set `\s` matches in a `str` regular expression. */
  predicate IsSpace(c: char) {
    ('\t' <= c <= '\r') || ('\U{1C}' <= c <= '\U{1F}') || c == ' ' || c == '\U{85}' || c == '\U{A0}'
    || c == '\U{1680}' || ('\U{2000}' <= c <= '\U{200A}') || c == '\U{2028}' || c == '\U{2029}'
    || c == '\U{202F}' || c == '\U{205F}' || c == '\U{3000}'
  }

  predicate AllSpace(s: string) {
    forall i :: 0 <= i < |s| ==> IsSpace(s[i])
  }

  /** No whitespace at either end: what `strip()` leaves. */
  predicate IsStripped(s: string) {
    s == [] || (!IsSpace(s[0]) && !IsSpace(s[|s| - 1]))
  }

  /** `s.lstrip()` */
  function TrimStart(s: string): (r: string)
    ensures |r| <= |s| && r == s[|s| - |r|..]
    ensures AllSpace(s[..|s| - |r|])
    ensures r == [] || !IsSpace(r[0])
  {
    s[SpaceRun(s)..]
  }

  /** `s.rstrip()` */
  function TrimEnd(s: string): (r: string)
    ensures |r| <= |s| && r == s[..|r|]
    ensures AllSpace(s[|r|..])
    ensures r == [] || !IsSpace(r[|r| - 1])
  {
    if s != [] && IsSpace(s[|s| - 1]) then
      var t := s[..|s| - 1];
      var r := TrimEnd(t);
      assert s[|r|..] == t[|r|..] + [s[|s| - 1]];
      AllSpaceSnoc(t[|r|..], s[|s| - 1]);
      r
    else s
  }

  lemma AllSpaceSnoc(x: string, c: char)
    requires AllSpace(x) && IsSpace(c)
    ensures AllSpace(x + [c])
  {
  }

  /**
   * `s.strip()`: the longest run of `s` that neither starts nor ends with
   * whitespace, once all leading and trailing whitespace is cut away.
   */
  function Strip(s: string): (r: string)
    ensures IsStripped(r)
    ensures |r| <= |s|
  {
    TrimEnd(TrimStart(s))
  }

  /** What `strip()` keeps is one contiguous run of `s` with only whitespace around it. */
  lemma StripIsSlice(s: string)
    ensures var a, r := |s| - |TrimStart(s)|, Strip(s);
      a + |r| <= |s| && r == s[a..a + |r|] && AllSpace(s[..a]) && AllSpace(s[a + |r|..])
  {
    var t := TrimStart(s);
    var r := TrimEnd(t);
    var a := |s| - |t|;
    SliceOfSuffix(s, a, |r|);
    AllSpaceSame(t[|r|..], s[a + |r|..]);
  }

  /** Slicing a suffix `s[a..]` is slicing `s` at shifted bounds. */
  lemma SliceOfSuffix(s: string, a: nat, n: nat)
    requires a + n <= |s|
    ensures s[a..][..n] == s[a..a + n] && s[a..][n..] == s[a + n..]
  {
  }

  lemma AllSpaceSame(x: string, y: string)
    requires AllSpace(x) && x == y
    ensures AllSpace(y)
  {
  }

  /** Stripping finds nothing to keep exactly when the string is all whitespace. */
  lemma StripEmptyIff(s: string)
    ensures Strip(s) == [] <==> AllSpace(s)
  {
    var t := TrimStart(s);
    if Strip(s) == [] {
      assert AllSpace(t[0..]);
      assert s == s[..|s| - |t|] + t;
    }
  }

  /** Stripping an already stripped string changes nothing; in particular `strip()` is idempotent. */
  lemma StripStripped(s: string)
    requires IsStripped(s)
    ensures Strip(s) == s
  {
  }

  /** Sum of the lengths of the parts (what a running `current_len += len(part)` adds up). */
  function SumLen(parts: seq<string>): nat
  {
    if parts == [] then 0 else SumLen(parts[..|parts| - 1]) + |parts[|parts| - 1]|
  }

  lemma {:induction false} SumLenAppend(parts: seq<string>, more: seq<string>)
    ensures SumLen(parts + more) == SumLen(parts) + SumLen(more)
    decreases |more|
  {
    if more == [] {
      assert parts + more == parts;
    } else {
      var last := |more| - 1;
      assert (parts + more)[..|parts + more| - 1] == parts + more[..last];
      SumLenAppend(parts, more[..last]);
    }
  }

  lemma SumLenPush(parts: seq<string>, x: string)
    ensures SumLen(parts + [x]) == SumLen(parts) + |x|
  {
    assert (parts + [x])[..|parts|] == parts;
  }

  /** `sep.join(parts)` */
  function JoinWith(parts: seq<string>, sep: string): string
  {
    if parts == [] then "" else if |parts| == 1 then parts[0] else parts[0] + sep + JoinWith(parts[1..], sep)
  }

  /** The joined string is the parts plus one separator between each neighbouring pair. */
  lemma {:induction false} JoinWithLength(parts: seq<string>, sep: string)
    requires parts != []
    ensures |JoinWith(parts, sep)| == SumLen(parts) + |sep| * (|parts| - 1)
    decreases |parts|
  {
    if |parts| == 1 {
      assert SumLen(parts) == SumLen([]) + |parts[0]| by { assert parts[..0] == []; }
    } else {
      JoinWithLength(parts[1..], sep);
      SumLenAppend([parts[0]], parts[1..]);
      assert [parts[0]] + parts[1..] == parts;
      assert SumLen([parts[0]]) == |parts[0]| by { assert [parts[0]][..0] == []; }
    }
  }

  /** Joining when the first part is itself a concatenation `x + y`. */
  lemma JoinWithFirstSplit(x: string, y: string, rest: seq<string>, sep: string)
    ensures JoinWith([x + y] + rest, sep) == x + JoinWith([y] + rest, sep)
  {
    if rest != [] {
      assert ([x + y] + rest)[1..] == rest;
      assert ([y] + rest)[1..] == rest;
    }
  }

  /**
   * `s.split("\n\n")`: the separator occurrences are taken left to right,
   * without overlap, and the pieces between them are returned (possibly empty).
   */
  function SplitParagraphs(s: string): (pieces: seq<string>)
    ensures |pieces| >= 1
    decreases |s|
  {
    if |s| >= 2 && s[0] == '\n' && s[1] == '\n' then [""] + SplitParagraphs(s[2..])
    else if s == [] then [""]
    else
      var rest := SplitParagraphs(s[1..]);
      [[s[0]] + rest[0]] + rest[1..]
  }

  /** Splitting on `"\n\n"` and joining back with `"\n\n"` gives the original string. */
  lemma {:induction false} SplitJoinRoundTrip(s: string)
    ensures JoinWith(SplitParagraphs(s), "\n\n") == s
    decreases |s|
  {
    if |s| >= 2 && s[0] == '\n' && s[1] == '\n' {
      SplitJoinRoundTrip(s[2..]);
      JoinAfterSeparator(s, SplitParagraphs(s[2..]));
    } else if s != [] {
      SplitJoinRoundTrip(s[1..]);
      JoinAfterChar(s, SplitParagraphs(s[1..]));
    }
  }

  /** A separator before the pieces of the rest joins back in front of them. */
  lemma JoinAfterSeparator(s: string, rest: seq<string>)
    requires |s| >= 2 && s[0] == '\n' && s[1] == '\n'
    requires rest != [] && JoinWith(rest, "\n\n") == s[2..]
    ensures JoinWith([""] + rest, "\n\n") == s
  {
    var pieces := [""] + rest;
    assert pieces[0] == "" && pieces[1..] == rest && |pieces| > 1;
    assert s[..2] == "\n\n" && s == s[..2] + s[2..];
  }

  /** A character put in front of the first piece joins back in front of the rest. */
  lemma JoinAfterChar(s: string, rest: seq<string>)
    requires s != [] && rest != [] && JoinWith(rest, "\n\n") == s[1..]
    ensures JoinWith([[s[0]] + rest[0]] + rest[1..], "\n\n") == s
  {
    JoinWithFirstSplit([s[0]], rest[0], rest[1..], "\n\n");
    assert [rest[0]] + rest[1..] == rest;
    assert s == [s[0]] + s[1..];
  }

  /** No two neighbouring characters of `w` are both line breaks. */
  predicate NoBlankLine(w: string) {
    forall i :: 0 <= i < |w| - 1 ==> !(w[i] == '\n' && w[i + 1] == '\n')
  }

  /** `w` is empty or does not end with a line break. */
  predicate NoTrailingBreak(w: string) {
    w == [] || w[|w| - 1] != '\n'
  }

  /**
   * The shape of a split of `s`: the first piece starts `s` and, when more
   * pieces follow, is followed by `"\n\n"`; no piece holds two line breaks
   * in a row; no piece but the last ends with a line break.
   */
  predicate SplitShape(s: string, p: seq<string>) {
    |p| >= 1 && StartsWith(s, p[0])
    && (|p| > 1 ==> |p[0]| + 2 <= |s| && s[|p[0]|] == '\n' && s[|p[0]| + 1] == '\n')
    && (forall k :: 0 <= k < |p| ==> NoBlankLine(p[k]))
    && (forall k :: 0 <= k < |p| - 1 ==> NoTrailingBreak(p[k]))
  }

  /** `split("\n\n")` has that shape: it takes each separator as early as it can. */
  lemma {:induction false} SplitParagraphsShape(s: string)
    ensures SplitShape(s, SplitParagraphs(s))
    decreases |s|
  {
    if |s| >= 2 && s[0] == '\n' && s[1] == '\n' {
      SplitParagraphsShape(s[2..]);
      SplitShapeSeparator(s, SplitParagraphs(s[2..]));
    } else if s != [] {
      SplitParagraphsShape(s[1..]);
      SplitShapeJoin(s, SplitParagraphs(s[1..]));
    }
  }

  /** A leading separator adds an empty first piece. */
  lemma SplitShapeSeparator(s: string, rest: seq<string>)
    requires |s| >= 2 && s[0] == '\n' && s[1] == '\n'
    requires SplitShape(s[2..], rest)
    ensures SplitShape(s, [""] + rest)
  {
    var p := [""] + rest;
    forall k | 0 < k < |p| ensures p[k] == rest[k - 1] {
    }
  }

  /** A first character that does not start a separator joins the first piece. */
  lemma SplitShapeJoin(s: string, rest: seq<string>)
    requires s != [] && !(|s| >= 2 && s[0] == '\n' && s[1] == '\n')
    requires SplitShape(s[1..], rest)
    ensures SplitShape(s, [[s[0]] + rest[0]] + rest[1..])
  {
    var w := [s[0]] + rest[0];
    var p := [w] + rest[1..];
    assert s[..|w|] == [s[0]] + s[1..][..|rest[0]|];
    FirstPieceNoBlankLine(s, rest[0]);
    if |p| > 1 {
      if rest[0] == [] {
        assert s[1] == '\n';
      } else {
        assert w[|w| - 1] == rest[0][|rest[0]| - 1];
      }
    }
    forall k | 0 < k < |p| ensures p[k] == rest[k] {
    }
  }

  lemma FirstPieceNoBlankLine(s: string, x: string)
    requires s != [] && !(|s| >= 2 && s[0] == '\n' && s[1] == '\n')
    requires StartsWith(s[1..], x) && NoBlankLine(x)
    ensures NoBlankLine([s[0]] + x)
  {
    var w := [s[0]] + x;
    forall i | 0 <= i < |w| - 1 ensures !(w[i] == '\n' && w[i + 1] == '\n') {
      if i == 0 {
        assert w[1] == x[0] == s[1];
      } else {
        assert w[i] == x[i - 1] && w[i + 1] == x[i];
      }
    }
  }

  /**
   * So no piece of `s.split("\n\n")` contains `"\n\n"`, and every piece but
   * the last is empty or ends with a character other than a line break.
   */
  lemma SplitParagraphsPieces(s: string)
    ensures var p := SplitParagraphs(s);
      (forall k :: 0 <= k < |p| ==> !Contains(p[k], "\n\n"))
      && (forall k :: 0 <= k < |p| - 1 ==> p[k] == [] || p[k][|p[k]| - 1] != '\n')
  {
    var p := SplitParagraphs(s);
    SplitParagraphsShape(s);
    forall k | 0 <= k < |p| ensures !Contains(p[k], "\n\n") {
      NoBlankLineContains(p[k]);
    }
  }

  /** Of three line breaks in a row, the first two are the separator and the third starts the next piece. */
  lemma SplitParagraphsExample()
    ensures SplitParagraphs("a\n\n\nb") == ["a", "\nb"]
  {
    var r0 := SplitParagraphs("");
    assert r0 == [""];
    assert ['b'] + r0[0] == "b" && r0[1..] == [];
    assert "b"[1..] == "";
    assert SplitParagraphs("b") == [['b'] + r0[0]] + r0[1..] == ["b"];
    var r1 := SplitParagraphs("b");
    assert ['\n'] + r1[0] == "\nb" && r1[1..] == [];
    assert "\nb"[1..] == "b";
    assert SplitParagraphs("\nb") == [['\n'] + r1[0]] + r1[1..] == ["\nb"];
    var r2 := SplitParagraphs("\nb");
    assert "\n\n\nb"[2..] == "\nb";
    assert SplitParagraphs("\n\n\nb") == [""] + r2 == ["", "\nb"];
    var r3 := SplitParagraphs("\n\n\nb");
    assert ['a'] + r3[0] == "a" && r3[1..] == ["\nb"];
    assert "a\n\n\nb"[1..] == "\n\n\nb";
    assert SplitParagraphs("a\n\n\nb") == [['a'] + r3[0]] + r3[1..];
  }

  /** Two line breaks in a row are exactly an occurrence of `"\n\n"`. */
  lemma NoBlankLineContains(w: string)
    requires NoBlankLine(w)
    ensures !Contains(w, "\n\n")
  {
    forall i ensures !OccursAt(w, "\n\n", i) {
      if 0 <= i && i + 2 <= |w| {
        assert w[i..i + 2][0] == w[i] && w[i..i + 2][1] == w[i + 1];
      }
    }
    ContainsIff(w, "\n\n");
  }

  /** `p` starts `s` */
  predicate StartsWith(s: string, p: string) {
    |p| <= |s| && s[..|p|] == p
  }

  /** `p` occurs in `s` at index `i` */
  predicate OccursAt(s: string, p: string, i: int) {
    0 <= i && i + |p| <= |s| && s[i..i + |p|] == p
  }

  /** `p in s`, which is also `re.search` for a pattern that is a plain literal. */
  predicate Contains(s: string, p: string)
    decreases |s|
  {
    StartsWith(s, p) || (s != [] && Contains(s[1..], p))
  }

  /** The left-to-right search finds `p` exactly when it occurs somewhere. */
  lemma {:induction false} ContainsIff(s: string, p: string)
    ensures Contains(s, p) <==> exists i :: OccursAt(s, p, i)
    decreases |s|
  {
    if StartsWith(s, p) {
      assert OccursAt(s, p, 0);
    } else if s == [] {
      assert forall i :: !OccursAt(s, p, i);
    } else {
      ContainsIff(s[1..], p);
      if Contains(s[1..], p) {
        var i :| OccursAt(s[1..], p, i);
        assert s[1..][i..i + |p|] == s[i + 1..i + 1 + |p|];
        assert OccursAt(s, p, i + 1);
      } else {
        forall i ensures !OccursAt(s, p, i) {
          if i > 0 {
            OccursShift(s, p, i);
          }
        }
      }
    }
  }

  /** What is found in a string is found in any string around it. */
  lemma ContainsWithin(a: string, s: string, b: string, p: string)
    requires Contains(s, p)
    ensures Contains(a + s + b, p)
  {
    ContainsIff(s, p);
    var i :| OccursAt(s, p, i);
    assert (a + s + b)[|a| + i..|a| + i + |p|] == s[i..i + |p|];
    assert OccursAt(a + s + b, p, |a| + i);
    ContainsIff(a + s + b, p);
  }

  /** Dropping the first character shifts every occurrence one place left. */
  lemma OccursShift(s: string, p: string, j: int)
    requires s != [] && j > 0
    ensures OccursAt(s, p, j) <==> OccursAt(s[1..], p, j - 1)
  {
    if j + |p| <= |s| {
      assert s[1..][j - 1..j - 1 + |p|] == s[j..j + |p|];
    }
  }

  /** `s.find(p)` as an option: the first index at which `p` occurs. */
  function Find(s: string, p: string): (r: Option<nat>)
    ensures r.Some? ==> OccursAt(s, p, r.value) && forall j :: 0 <= j < r.value ==> !OccursAt(s, p, j)
    ensures r.None? ==> forall j :: !OccursAt(s, p, j)
    decreases |s|
  {
    if StartsWith(s, p) then Some(0)
    else if s == [] then None
    else
      var r := Find(s[1..], p);
      assert forall j :: j > 0 ==> (OccursAt(s, p, j) <==> OccursAt(s[1..], p, j - 1)) by {
        forall j | j > 0 {
          OccursShift(s, p, j);
        }
      }
      if r.None? then None else Some(r.value + 1)
  }

  /** Length of the longest all-whitespace prefix (what a greedy `\s*` consumes). */
  function SpaceRun(s: string): (n: nat)
    ensures n <= |s| && AllSpace(s[..n]) && (n == |s| || !IsSpace(s[n]))
    decreases |s|
  {
    if s != [] && IsSpace(s[0]) then
      var n := 1 + SpaceRun(s[1..]);
      assert s[..n] == [s[0]] + s[1..][..n - 1];
      n
    else 0
  }

  /** Whitespace known to lead `s` is part of its whitespace run. */
  lemma {:induction false} SpaceRunSkip(s: string, n: nat)
    requires n <= |s| && AllSpace(s[..n])
    ensures SpaceRun(s) == n + SpaceRun(s[n..])
    decreases n
  {
    if n > 0 {
      var t := s[1..];
      assert IsSpace(s[..n][0]);
      var u := t[..n - 1];
      forall i | 0 <= i < |u| ensures IsSpace(u[i]) {
        assert u[i] == s[..n][i + 1];
      }
      SpaceRunSkip(t, n - 1);
      assert t[n - 1..] == s[n..];
    }
  }

  /** Leading whitespace makes no difference to `lstrip()`, hence none to `strip()`. */
  lemma TrimStartSkipSpace(s: string, n: nat)
    requires n <= |s| && AllSpace(s[..n])
    ensures TrimStart(s[n..]) == TrimStart(s)
    ensures Strip(s[n..]) == Strip(s)
  {
    SpaceRunSkip(s, n);
    assert s[n..][SpaceRun(s[n..])..] == s[SpaceRun(s)..];
  }
}
