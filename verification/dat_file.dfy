/**
 * The line-oriented operations of `FileInteraction` on a SOFiSTiK CADINP .dat
 * document. The document is the list that `readlines()` returns: a sequence of
 * lines, each keeping its "\n" terminator. Reading and writing the file is
 * left to the caller; every operation takes the lines and gives back the lines
 * that would be written.
 */
module DatFile {
  import opened Wrappers
  import opened Text
  import opened CadinpBlocks

  // ---------------------------------------------------------------------------
  // check

  /** `check(s)`: does some line contain `s`? */
  function Check(lines: seq<string>, s: string): (r: bool)
    ensures r <==> exists i :: 0 <= i < |lines| && Contains(lines[i], s)
  {
    if |lines| == 0 then false
    else if Contains(lines[0], s) then true
    else
      var r := Check(lines[1..], s);
      assert forall i :: 1 <= i < |lines| ==> lines[i] == lines[1..][i - 1];
      r
  }

  // ---------------------------------------------------------------------------
  // extract_value

  /** `\s+([-+]?\d*\.?\d+)` matches at the start of `u`: some whitespace, then a number. */
  predicate GapNumberMatches(u: string) {
    exists k, e :: 0 < k <= e <= |u| && AllSpaces(u[..k]) && IsNumber(u[k..e])
  }

  /**
   * `u` opens with whitespace up to position `k`, and `v` is the longest number
   * that starts there.
   */
  predicate NumberAfterGap(u: string, k: nat, v: string) {
    && 0 < k < |u| && AllSpaces(u[..k]) && !IsSpace(u[k])
    && k + |v| <= |u| && u[k..k + |v|] == v && IsNumber(v)
    && forall e :: k + |v| < e <= |u| ==> !IsNumber(u[k..e])
  }

  /** The `\s+([-+]?\d*\.?\d+)` part of the pattern at the start of `u`: the captured number, or None. */
  function GapNumber(u: string): (r: Option<string>)
    ensures r.Some? ==> IsNumber(r.value)
  {
    var k := Span(u, IsSpace);
    if k == 0 then None
    else
      match NumberLength(u[k..])
      case None => None
      case Some(n) =>
        NumberLengthIsNumber(u[k..]);
        Some(u[k..][..n])
  }

  /**
   * The capture is found exactly when the pattern matches, and it is the longest
   * number after all the leading whitespace.
   */
  lemma GapNumberIsMatch(u: string)
    ensures GapNumber(u).Some? <==> GapNumberMatches(u)
    ensures GapNumber(u).Some? ==> NumberAfterGap(u, Span(u, IsSpace), GapNumber(u).value)
  {
    var k := Span(u, IsSpace);
    if GapNumber(u).Some? {
      GapNumberFound(u);
    } else if GapNumberMatches(u) {
      var k', e :| 0 < k' <= e <= |u| && AllSpaces(u[..k']) && IsNumber(u[k'..e]);
      GapNumberStart(u, k', e);
      assert u[k..][..e - k] == u[k..e];
      NumberPrefixBound(u[k..], e - k);
      assert false;
    }
  }

  /** A found capture is the longest number after the whole leading whitespace run. */
  lemma GapNumberFound(u: string)
    requires GapNumber(u).Some?
    ensures GapNumberMatches(u) && NumberAfterGap(u, Span(u, IsSpace), GapNumber(u).value)
  {
    var k := Span(u, IsSpace);
    var v := GapNumber(u).value;
    var n := NumberLength(u[k..]).value;
    assert v == u[k..][..n] == u[k..k + n];
    SpacesOfSpan(u);
    LongestInside(u, k);
    assert NumberAfterGap(u, k, v);
  }

  /** A number that follows leading whitespace starts where the whitespace run ends. */
  lemma GapNumberStart(u: string, k: nat, e: nat)
    requires 0 < k <= e <= |u| && AllSpaces(u[..k]) && IsNumber(u[k..e])
    ensures Span(u, IsSpace) == k
  {
    NumberIsToken(u[k..e]);
    assert u[k] == u[k..e][0];
    assert forall i :: 0 <= i < k ==> u[i] == u[..k][i];
    SpanIs(u, IsSpace, k);
  }

  /**
   * The match of `<s>\s+([-+]?\d*\.?\d+)` starting at position `p` of `line`:
   * the captured number, or None.
   */
  function ValueAt(line: string, s: string, p: nat): (r: Option<string>)
    ensures r.Some? ==> OccursAt(line, s, p) && IsNumber(r.value)
  {
    if OccursAt(line, s, p) then GapNumber(line[p + |s|..]) else None
  }

  /**
   * The pattern matches at `p` exactly when `s` occurs there and whitespace and a
   * number follow; the capture is the longest number after all that whitespace.
   */
  lemma ValueAtIsMatch(line: string, s: string, p: nat)
    ensures ValueAt(line, s, p).Some? <==> OccursAt(line, s, p) && GapNumberMatches(line[p + |s|..])
    ensures ValueAt(line, s, p).Some? ==>
              var u := line[p + |s|..];
              NumberAfterGap(u, Span(u, IsSpace), ValueAt(line, s, p).value)
  {
    if OccursAt(line, s, p) {
      GapNumberIsMatch(line[p + |s|..]);
    }
  }

  /** `re.search` of that pattern from position `p` on: the match at the first position where there is one. */
  function SearchValue(line: string, s: string, p: nat): (r: Option<string>)
    ensures r.Some? ==> IsNumber(r.value)
    ensures r.None? <==> forall q :: p <= q <= |line| ==> ValueAt(line, s, q).None?
    ensures r.Some? ==>
              exists q :: p <= q <= |line| && r == ValueAt(line, s, q)
                          && forall q' :: p <= q' < q ==> ValueAt(line, s, q').None?
    decreases |line| + 1 - p
  {
    if p > |line| then None
    else
      match ValueAt(line, s, p)
      case Some(v) => Some(v)
      case None => SearchValue(line, s, p + 1)
  }

  /**
   * `extract_value(s)`: the number after `s` on the first line that contains `s`,
   * or None when that line has none or no line contains `s`.
   */
  function ExtractValue(lines: seq<string>, s: string): (r: Option<string>)
    ensures r.Some? ==> IsNumber(r.value)
  {
    if |lines| == 0 then None
    else if Contains(lines[0], s) then SearchValue(lines[0], s, 0)
    else ExtractValue(lines[1..], s)
  }

  /**
   * Only the first line that contains `s` is inspected: its value is the result
   * even when it is None and a later line would have one.
   */
  lemma {:induction false} ExtractValueReadsFirstLine(lines: seq<string>, s: string, i: nat)
    requires i < |lines| && Contains(lines[i], s)
    requires forall j :: 0 <= j < i ==> !Contains(lines[j], s)
    ensures ExtractValue(lines, s) == SearchValue(lines[i], s, 0)
  {
    if i > 0 {
      var rest := lines[1..];
      assert !Contains(lines[0], s);
      forall j | 0 <= j < i - 1
        ensures !Contains(rest[j], s)
      {
        assert rest[j] == lines[j + 1];
      }
      assert rest[i - 1] == lines[i];
      ExtractValueReadsFirstLine(rest, s, i - 1);
      assert ExtractValue(lines, s) == ExtractValue(rest, s);
    }
  }

  /** A value comes from the search on the first line that contains `s`. */
  lemma ExtractValueFromFirstLine(lines: seq<string>, s: string)
    ensures ExtractValue(lines, s).Some? ==>
              exists i :: 0 <= i < |lines| && Contains(lines[i], s)
                          && (forall j :: 0 <= j < i ==> !Contains(lines[j], s))
                          && ExtractValue(lines, s) == SearchValue(lines[i], s, 0)
  {
    if ExtractValue(lines, s).Some? {
      if !Check(lines, s) {
        ExtractValueAbsent(lines, s);
      }
      var i := FirstFrom(lines, line => Contains(line, s), 0);
      if i == |lines| {
        var k :| 0 <= k < |lines| && Contains(lines[k], s);
        FirstFromIsFirst(lines, line => Contains(line, s), 0, k);
      }
      forall j | 0 <= j < i
        ensures !Contains(lines[j], s)
      {
        FirstFromIsFirst(lines, line => Contains(line, s), 0, j);
      }
      ExtractValueReadsFirstLine(lines, s, i);
    }
  }

  /** With no line containing `s` there is no value. */
  lemma {:induction false} ExtractValueAbsent(lines: seq<string>, s: string)
    requires !Check(lines, s)
    ensures ExtractValue(lines, s) == None
  {
    if |lines| > 0 {
      ExtractValueAbsent(lines[1..], s);
    }
  }

  // ---------------------------------------------------------------------------
  // modify

  /**
   * The match of `^(<s>\s*)([-+]?\d*\.?\d+)(.*)$` on a stripped line `t`:
   * where group 1 ends and where the number ends.
   */
  function MarkerNumber(t: string, s: string): (r: Option<(nat, nat)>)
    ensures r.Some? ==> |s| <= r.value.0 < r.value.1 <= |t| && StartsWith(t, s)
  {
    if !StartsWith(t, s) then None
    else
      var a := |s| + Span(t[|s|..], IsSpace);
      match NumberLength(t[a..])
      case None => None
      case Some(n) => Some((a, a + n))
  }

  /** After a marker, the number scanned past its whitespace decides the match. */
  lemma MarkerNumberOfGap(t: string, s: string, a: nat)
    requires StartsWith(t, s) && a == |s| + Span(t[|s|..], IsSpace)
    ensures MarkerNumber(t, s) == match NumberLength(t[a..]) case None => None case Some(n) => Some((a, a + n))
  {
  }

  /**
   * Group 1 is the marker and all the whitespace after it, and group 2 is the
   * longest number that starts there.
   */
  lemma MarkerNumberShape(t: string, s: string)
    requires MarkerNumber(t, s).Some?
    ensures var m := MarkerNumber(t, s).value;
            && AllSpaces(t[|s|..m.0]) && !IsSpace(t[m.0])
            && IsNumber(t[m.0..m.1])
            && forall e :: m.1 < e <= |t| ==> !IsNumber(t[m.0..e])
  {
    var a := |s| + Span(t[|s|..], IsSpace);
    MarkerNumberOfGap(t, s, a);
    GapSpaces(t, |s|, a);
    NumberInside(t, a);
    LongestInside(t, a);
  }

  /** No number starting at `a` is longer than the scanned one. */
  lemma LongestInside(t: string, a: nat)
    requires a <= |t| && NumberLength(t[a..]).Some?
    ensures forall e :: a + NumberLength(t[a..]).value < e <= |t| ==> !IsNumber(t[a..e])
  {
    NumberLengthIsLongestMatch(t[a..]);
    forall e | a + NumberLength(t[a..]).value < e <= |t|
      ensures !IsNumber(t[a..e])
    {
      assert t[a..e] == t[a..][..e - a];
    }
  }

  /**
   * Conversely, a stripped line made of the marker, whitespace and a number,
   * followed by anything, matches; group 1 ends where that whitespace ends and
   * group 2 takes at least that number.
   */
  lemma MarkerNumberMatches(t: string, s: string, a: nat, b: nat)
    requires StartsWith(t, s) && |s| <= a <= b <= |t|
    requires AllSpaces(t[|s|..a]) && IsNumber(t[a..b])
    ensures MarkerNumber(t, s).Some?
    ensures MarkerNumber(t, s).value.0 == a && b <= MarkerNumber(t, s).value.1
  {
    var u := t[|s|..];
    NumberIsToken(t[a..b]);
    assert t[a] == t[a..b][0];
    forall i | 0 <= i < a - |s|
      ensures IsSpace(u[i])
    {
      assert u[i] == t[|s|..a][i];
    }
    assert u[a - |s|] == t[a];
    SpanIs(u, IsSpace, a - |s|);
    assert t[a..][..b - a] == t[a..b];
    NumberPrefixBound(t[a..], b - a);
    MarkerNumberOfGap(t, s, a);
  }

  /** The whitespace run after position `k` is all whitespace. */
  lemma GapSpaces(t: string, k: nat, a: nat)
    requires k <= |t| && a == k + Span(t[k..], IsSpace)
    ensures AllSpaces(t[k..a])
  {
    SpacesOfSpan(t[k..]);
    assert t[k..a] == t[k..][..a - k];
  }

  /** The number scanned from position `a` is a number. */
  lemma NumberInside(t: string, a: nat)
    requires a <= |t| && NumberLength(t[a..]).Some?
    ensures a + NumberLength(t[a..]).value <= |t|
    ensures IsNumber(t[a..a + NumberLength(t[a..]).value])
  {
    var n := NumberLength(t[a..]).value;
    NumberLengthIsNumber(t[a..]);
    assert t[a..a + n] == t[a..][..n];
  }

  /** A line that `modify(s, v)` rewrites when it reaches it. */
  predicate IsModifyTarget(line: string, s: string) {
    Contains(line, s) && MarkerNumber(Strip(line), s).Some?
  }

  /** The rewritten line: group 1, the new value, group 3 and a line break. */
  function RewriteLine(line: string, s: string, v: string): string
    requires MarkerNumber(Strip(line), s).Some?
  {
    var t := Strip(line);
    var m := MarkerNumber(t, s).value;
    t[..m.0] + v + t[m.1..] + "\n"
  }

  /**
   * `r` is `t` with `t[a..b]` replaced by `v` and a line break appended: it keeps
   * `t[..a]`, then holds `v`, then the rest of `t` after `b` and "\n".
   */
  predicate SplicedAt(r: string, t: string, a: nat, b: nat, v: string) {
    && a <= b <= |t| && |r| == |t| - (b - a) + |v| + 1
    && r[..a] == t[..a]
    && r[a..a + |v|] == v
    && r[a + |v|..] == t[b..] + "\n"
  }

  /**
   * The rewritten line is the stripped line with exactly its number replaced by
   * `v`: the marker and whitespace before it and the rest after it are kept, and
   * a line break ends it.
   */
  lemma RewriteLineSplice(line: string, s: string, v: string)
    requires MarkerNumber(Strip(line), s).Some?
    ensures var t := Strip(line);
            var m := MarkerNumber(t, s).value;
            SplicedAt(RewriteLine(line, s, v), t, m.0, m.1, v) && StartsWith(RewriteLine(line, s, v), s)
  {
    var t := Strip(line);
    var m := MarkerNumber(t, s).value;
    SpliceParts(t, s, m.0, m.1, v);
  }

  /** The parts of `t[..a] + v + t[b..] + "\n"` when `t` starts with `s` and `|s| <= a`. */
  lemma SpliceParts(t: string, s: string, a: nat, b: nat, v: string)
    requires StartsWith(t, s) && |s| <= a <= b <= |t|
    ensures SplicedAt(t[..a] + v + t[b..] + "\n", t, a, b, v)
    ensures StartsWith(t[..a] + v + t[b..] + "\n", s)
  {
    var r := t[..a] + v + t[b..] + "\n";
    assert r == t[..a] + v + (t[b..] + "\n");
    assert r[..|s|] == t[..a][..|s|] == t[..|s|];
  }

  /** Writing back the number that is already there only strips the line. */
  lemma RewriteLineSameValue(line: string, s: string)
    requires MarkerNumber(Strip(line), s).Some?
    ensures var t := Strip(line);
            var m := MarkerNumber(t, s).value;
            RewriteLine(line, s, t[m.0..m.1]) == t + "\n"
  {
    var t := Strip(line);
    var m := MarkerNumber(t, s).value;
    SpliceSame(t, m.0, m.1);
  }

  /** Splicing a slice back in its own place gives the whole. */
  lemma SpliceSame(t: string, a: nat, b: nat)
    requires a <= b <= |t|
    ensures t[..a] + t[a..b] + t[b..] + "\n" == t + "\n"
  {
    assert t[..a] + t[a..b] + t[b..] == t;
  }

  /** The index of the first line at or after `k` satisfying `p`, or `|lines|` when there is none. */
  function FirstFrom(lines: seq<string>, p: string -> bool, k: nat): (r: nat)
    requires k <= |lines|
    ensures k <= r <= |lines|
    ensures r < |lines| ==> p(lines[r])
    decreases |lines| - k
  {
    if k == |lines| || p(lines[k]) then k else FirstFrom(lines, p, k + 1)
  }

  /** No line between `k` and the one `FirstFrom` finds satisfies `p`. */
  lemma {:induction false} FirstFromIsFirst(lines: seq<string>, p: string -> bool, k: nat, j: nat)
    requires k <= |lines| && k <= j < FirstFrom(lines, p, k)
    ensures !p(lines[j])
    decreases j - k
  {
    if k < j {
      FirstFromIsFirst(lines, p, k + 1, j);
    }
  }

  /**
   * When every line satisfying `p` satisfies `q`, the search for `p` may first skip
   * to the first line satisfying `q`.
   */
  lemma {:induction false} FirstFromSkip(lines: seq<string>, p: string -> bool, q: string -> bool, k: nat)
    requires k <= |lines|
    requires forall line :: p(line) ==> q(line)
    ensures FirstFrom(lines, p, k) == FirstFrom(lines, p, FirstFrom(lines, q, k))
    decreases |lines| - k
  {
    if k < |lines| && !q(lines[k]) {
      FirstFromSkip(lines, p, q, k + 1);
    }
  }

  /** `FirstFrom` is the one index with its two properties: `p` holds there (or it is the end) and nowhere before. */
  lemma {:induction false} FirstFromIs(lines: seq<string>, p: string -> bool, k: nat, r: nat)
    requires k <= r <= |lines|
    requires r < |lines| ==> p(lines[r])
    requires forall j :: k <= j < r ==> !p(lines[j])
    ensures FirstFrom(lines, p, k) == r
    decreases r - k
  {
    if k < r {
      FirstFromIs(lines, p, k + 1, r);
    }
  }

  /** The index of the first target line of `modify(s, ...)`, or `|lines|`. */
  function FirstTarget(lines: seq<string>, s: string): (r: nat)
    ensures r <= |lines|
    ensures r < |lines| ==> IsModifyTarget(lines[r], s)
    ensures forall j :: 0 <= j < r ==> !IsModifyTarget(lines[j], s)
  {
    var p := line => IsModifyTarget(line, s);
    var r := FirstFrom(lines, p, 0);
    forall j | 0 <= j < r
      ensures !IsModifyTarget(lines[j], s)
    {
      FirstFromIsFirst(lines, p, 0, j);
    }
    r
  }

  /** The lines `modify(s, v)` leaves: the first target rewritten, or all lines as they were. */
  function Modified(lines: seq<string>, s: string, v: string): seq<string> {
    var i := FirstTarget(lines, s);
    if i < |lines| then lines[i := RewriteLine(lines[i], s, v)] else lines
  }

  /** `modify(s, v)`: scan for the first target line, rewrite it, stop. */
  method Modify(lines: seq<string>, s: string, v: string) returns (out: seq<string>, modified: bool)
    ensures modified <==> exists i :: 0 <= i < |lines| && IsModifyTarget(lines[i], s)
    ensures out == Modified(lines, s, v)
  {
    out := lines;
    modified := false;
    var i := 0;
    while i < |out|
      invariant 0 <= i <= |lines| && out == lines && !modified
      invariant FirstTarget(lines, s) == FirstFrom(lines, line => IsModifyTarget(line, s), i)
    {
      if Contains(out[i], s) {
        var m := MarkerNumber(Strip(out[i]), s);
        if m.Some? {
          out := out[i := RewriteLine(out[i], s, v)];
          modified := true;
          break;
        }
      }
      i := i + 1;
    }
  }

  /** A marker whose number is set off by whitespace on both sides. */
  predicate SpacedValue(t: string, s: string)
    requires MarkerNumber(t, s).Some?
  {
    var m := MarkerNumber(t, s).value;
    m.0 > |s| && (m.1 == |t| || IsSpace(t[m.1]))
  }

  /** The whitespace run at the start of `gap + tail` is `gap` when `tail` starts otherwise. */
  lemma SpanOfGap(gap: string, tail: string)
    requires AllSpaces(gap)
    requires tail != [] && !IsSpace(tail[0])
    ensures Span(gap + tail, IsSpace) == |gap|
  {
    SpanIs(gap + tail, IsSpace, |gap|);
  }

  /** Whitespace, a number and a tail that starts with whitespace read back as that number. */
  lemma GapNumberOf(gap: string, v: string, rest: string)
    requires |gap| > 0 && AllSpaces(gap) && IsNumber(v)
    requires rest == [] || IsSpace(rest[0])
    ensures GapNumber(gap + (v + rest)) == Some(v)
  {
    NumberIsToken(v);
    SpanOfGap(gap, v + rest);
    assert (gap + (v + rest))[|gap|..] == v + rest;
    NumberLengthOfDelimited(v, rest);
    assert (v + rest)[..|v|] == v;
  }

  /** A marker, whitespace, a number and a tail that starts with whitespace read back as that number. */
  lemma ValueAfterMarker(s: string, gap: string, v: string, rest: string)
    requires |gap| > 0 && AllSpaces(gap) && IsNumber(v)
    requires rest == [] || IsSpace(rest[0])
    ensures ValueAt(s + gap + v + rest, s, 0) == Some(v)
  {
    var line := s + gap + v + rest;
    assert line[..|s|] == s;
    assert line[|s|..] == gap + (v + rest);
    GapNumberOf(gap, v, rest);
  }

  /** Splicing a number between a spaced marker and a spaced tail makes it the marker's value. */
  lemma SplicedValue(t: string, s: string, a: nat, b: nat, v: string)
    requires |s| < a <= b <= |t| && StartsWith(t, s) && AllSpaces(t[|s|..a])
    requires b == |t| || IsSpace(t[b])
    requires IsNumber(v)
    ensures ValueAt(t[..a] + v + t[b..] + "\n", s, 0) == Some(v)
  {
    var rest := t[b..] + "\n";
    assert t[..a] == s + t[|s|..a];
    assert t[..a] + v + t[b..] + "\n" == s + t[|s|..a] + v + rest;
    ValueAfterMarker(s, t[|s|..a], v, rest);
  }

  /** The rewritten line reads back the value written into it. */
  lemma RewriteLineValue(line: string, s: string, v: string)
    requires MarkerNumber(Strip(line), s).Some? && SpacedValue(Strip(line), s)
    requires IsNumber(v)
    ensures ValueAt(RewriteLine(line, s, v), s, 0) == Some(v)
  {
    var t := Strip(line);
    var m := MarkerNumber(t, s).value;
    MarkerNumberShape(t, s);
    SplicedValue(t, s, m.0, m.1, v);
  }

  /**
   * Round trip: when the rewritten line is the first that contains the marker and
   * the number is set off by whitespace, `extract_value` reads back what `modify` wrote.
   */
  lemma ModifyThenExtract(lines: seq<string>, s: string, v: string, i: nat)
    requires i < |lines| && IsModifyTarget(lines[i], s)
    requires forall j :: 0 <= j < i ==> !Contains(lines[j], s)
    requires SpacedValue(Strip(lines[i]), s)
    requires IsNumber(v)
    ensures ExtractValue(Modified(lines, s, v), s) == Some(v)
  {
    var w := RewriteLine(lines[i], s, v);
    ModifiedAt(lines, s, v, i);
    var out := lines[i := w];
    RewriteLineValue(lines[i], s, v);
    assert Contains(w, s) by {
      assert OccursAt(w, s, 0);
    }
    forall j | 0 <= j < i
      ensures !Contains(out[j], s)
    {
      assert out[j] == lines[j];
    }
    ExtractValueReadsFirstLine(out, s, i);
    assert SearchValue(w, s, 0) == Some(v);
  }

  // ---------------------------------------------------------------------------
  // modify_coord

  /**
   * A line `NODE <id> X <x> Y <y> Z <z><rest>` cut into the pieces of the pattern
   * `^(NODE\s+<id>\s+X\s+)([^\s]+)(\s+Y\s+)([^\s]+)(\s+Z\s+)([^\s]+)(.*)$`:
   * keywords, whitespace gaps, tokens and the rest of the line.
   */
  datatype NodeLine = NodeLine(
    keyword: string, gap1: string, id: string, gap2: string,
    xKey: string, gap3: string, x: string, gap4: string,
    yKey: string, gap5: string, y: string, gap6: string,
    zKey: string, gap7: string, z: string, rest: string)

  /** The text of a node line. */
  function NodeText(f: NodeLine): string {
    f.keyword + (f.gap1 + (f.id + (f.gap2 + (f.xKey + (f.gap3 + (f.x + (f.gap4 +
    (f.yKey + (f.gap5 + (f.y + (f.gap6 + (f.zKey + (f.gap7 + (f.z + f.rest))))))))))))))
  }

  predicate IsGap(g: string) {
    |g| > 0 && AllSpaces(g)
  }

  /** The pieces as the pattern matches them: every `\s+` and `[^\s]+` as long as it can be. */
  predicate WellShaped(f: NodeLine) {
    && WordCi(f.keyword, "NODE") && WordCi(f.xKey, "X") && WordCi(f.yKey, "Y") && WordCi(f.zKey, "Z")
    && IsGap(f.gap1) && IsGap(f.gap2) && IsGap(f.gap3) && IsGap(f.gap4)
    && IsGap(f.gap5) && IsGap(f.gap6) && IsGap(f.gap7)
    && IsToken(f.id) && IsToken(f.x) && IsToken(f.y) && IsToken(f.z)
    && (f.rest == [] || IsSpace(f.rest[0]))
  }

  /** A keyword, in either case, at the start of `u`; the keyword as written and what follows. */
  function Keyword(u: string, kw: string): (r: Option<(string, string)>)
    ensures r.Some? ==> r.value.0 + r.value.1 == u && WordCi(r.value.0, kw)
  {
    if |kw| <= |u| && WordCi(u[..|kw|], kw) then Some((u[..|kw|], u[|kw|..])) else None
  }

  /** `\s+` at the start of `u`. */
  function Gap(u: string): (r: Option<(string, string)>)
    ensures r.Some? ==> r.value.0 + r.value.1 == u && IsGap(r.value.0)
  {
    var k := Span(u, IsSpace);
    if k == 0 then None else Some((u[..k], u[k..]))
  }

  predicate NotSpace(c: char) {
    !IsSpace(c)
  }

  /** `[^\s]+` at the start of `u`. */
  function Token(u: string): (r: Option<(string, string)>)
    ensures r.Some? ==> r.value.0 + r.value.1 == u && IsToken(r.value.0)
    ensures r.Some? ==> r.value.1 == [] || IsSpace(r.value.1[0])
  {
    var k := Span(u, NotSpace);
    if k == 0 then None else Some((u[..k], u[k..]))
  }

  /** The match of the node pattern on the text of one line, cut into its pieces. */
  function ParseNodeLine(b: string): (r: Option<NodeLine>)
    ensures r.Some? ==> WellShaped(r.value) && NodeText(r.value) == b
  {
    var kw :- Keyword(b, "NODE");
    var g1 :- Gap(kw.1);
    var id :- Token(g1.1);
    var g2 :- Gap(id.1);
    var xk :- Keyword(g2.1, "X");
    var g3 :- Gap(xk.1);
    var x :- Token(g3.1);
    var g4 :- Gap(x.1);
    var yk :- Keyword(g4.1, "Y");
    var g5 :- Gap(yk.1);
    var y :- Token(g5.1);
    var g6 :- Gap(y.1);
    var zk :- Keyword(g6.1, "Z");
    var g7 :- Gap(zk.1);
    var z :- Token(g7.1);
    Some(NodeLine(kw.0, g1.0, id.0, g2.0, xk.0, g3.0, x.0, g4.0, yk.0, g5.0, y.0, g6.0, zk.0, g7.0, z.0, z.1))
  }

  lemma KeywordOf(w: string, tail: string, kw: string)
    requires WordCi(w, kw)
    ensures Keyword(w + tail, kw) == Some((w, tail))
  {
    assert (w + tail)[..|kw|] == w;
    assert (w + tail)[|kw|..] == tail;
  }

  lemma GapOf(g: string, tail: string)
    requires IsGap(g) && tail != [] && !IsSpace(tail[0])
    ensures Gap(g + tail) == Some((g, tail))
  {
    SpanIs(g + tail, IsSpace, |g|);
    assert (g + tail)[..|g|] == g;
    assert (g + tail)[|g|..] == tail;
  }

  lemma TokenOf(t: string, tail: string)
    requires IsToken(t) && (tail == [] || IsSpace(tail[0]))
    ensures Token(t + tail) == Some((t, tail))
  {
    SpanIs(t + tail, NotSpace, |t|);
    assert (t + tail)[..|t|] == t;
    assert (t + tail)[|t|..] == tail;
  }

  /** A keyword in either case starts with a letter, never with whitespace. */
  lemma KeywordStart(w: string, kw: string)
    requires WordCi(w, kw) && kw in {"X", "Y", "Z"}
    ensures w != [] && !IsSpace(w[0])
  {
    assert LetterCi(w[0], kw[0]);
  }

  /** Printing a well-shaped node line and matching the pattern on it gives back its pieces. */
  lemma ParseNodeText(f: NodeLine)
    requires WellShaped(f)
    ensures ParseNodeLine(NodeText(f)) == Some(f)
  {
    var t15 := f.z + f.rest;
    var t14 := f.gap7 + t15;
    var t13 := f.zKey + t14;
    var t12 := f.gap6 + t13;
    var t11 := f.y + t12;
    var t10 := f.gap5 + t11;
    var t9 := f.yKey + t10;
    var t8 := f.gap4 + t9;
    var t7 := f.x + t8;
    var t6 := f.gap3 + t7;
    var t5 := f.xKey + t6;
    var t4 := f.gap2 + t5;
    var t3 := f.id + t4;
    var t2 := f.gap1 + t3;
    KeywordStart(f.xKey, "X");
    KeywordStart(f.yKey, "Y");
    KeywordStart(f.zKey, "Z");
    KeywordOf(f.keyword, t2, "NODE");
    GapOf(f.gap1, t3);
    TokenOf(f.id, t4);
    GapOf(f.gap2, t5);
    KeywordOf(f.xKey, t6, "X");
    GapOf(f.gap3, t7);
    TokenOf(f.x, t8);
    GapOf(f.gap4, t9);
    KeywordOf(f.yKey, t10, "Y");
    GapOf(f.gap5, t11);
    TokenOf(f.y, t12);
    GapOf(f.gap6, t13);
    KeywordOf(f.zKey, t14, "Z");
    GapOf(f.gap7, t15);
    TokenOf(f.z, f.rest);
  }

  /** The text of a line without its line break. */
  function Body(line: string): (b: string)
    ensures line == b + Ending(line)
  {
    if |line| > 0 && line[|line| - 1] == '\n' then line[..|line| - 1] else line
  }

  /** The line break that ends a line: "\n", or nothing on a last line without one. */
  function Ending(line: string): string {
    if |line| > 0 && line[|line| - 1] == '\n' then "\n" else ""
  }

  /** The line is the node line of node `node`: the pattern with `node` written in decimal matches it. */
  predicate IsNodeLineFor(line: string, node: int) {
    var p := ParseNodeLine(Body(line));
    p.Some? && p.value.id == IntText(node)
  }

  /** One line after `modify_coord`: the three coordinate tokens of the node's line replaced. */
  function ModifyCoordLine(line: string, node: int, x: string, y: string, z: string): (r: string)
    ensures IsNodeLineFor(line, node) || r == line
  {
    if IsNodeLineFor(line, node) then
      NodeText(ParseNodeLine(Body(line)).value.(x := x, y := y, z := z)) + Ending(line)
    else line
  }

  /**
   * `modify_coord(node, x, y, z)`: every line of node `node` gets the new
   * coordinates; every other line is left as it was.
   */
  function ModifyCoord(lines: seq<string>, node: int, x: string, y: string, z: string): (r: seq<string>)
    ensures |r| == |lines|
    ensures forall i :: 0 <= i < |lines| && !IsNodeLineFor(lines[i], node) ==> r[i] == lines[i]
  {
    seq(|lines|, i requires 0 <= i < |lines| => ModifyCoordLine(lines[i], node, x, y, z))
  }

  /** The pieces of a node line once its coordinates are replaced by tokens are still well shaped. */
  lemma SetCoordinatesShaped(f: NodeLine, x: string, y: string, z: string)
    requires WellShaped(f) && IsToken(x) && IsToken(y) && IsToken(z)
    ensures WellShaped(f.(x := x, y := y, z := z))
  {
  }

  /** A node line ends with its rest, or with its last token when the rest is empty. */
  lemma NodeTextEnd(f: NodeLine)
    requires WellShaped(f)
    ensures var t := NodeText(f);
            t != [] && t[|t| - 1] == (if f.rest == [] then f.z[|f.z| - 1] else f.rest[|f.rest| - 1])
  {
    var t := NodeText(f);
    var u := f.z + f.rest;
    assert t == (f.keyword + f.gap1 + f.id + f.gap2 + f.xKey + f.gap3 + f.x + f.gap4
                 + f.yKey + f.gap5 + f.y + f.gap6 + f.zKey + f.gap7) + u;
  }

  /** Splitting off the line break of a text followed by an ending of its own. */
  lemma BodyOf(t: string, e: string)
    requires e == "\n" || (e == "" && (t == [] || t[|t| - 1] != '\n'))
    ensures Body(t + e) == t && Ending(t + e) == e
  {
    if e == "\n" {
      assert (t + e)[..|t + e| - 1] == t;
    }
  }

  /**
   * The rewritten line of node `node` is still its node line, reads back the new
   * coordinates, and keeps every other piece (keywords, gaps, identifier, rest, line break).
   */
  lemma ModifyCoordLineReadsBack(line: string, node: int, x: string, y: string, z: string)
    requires IsNodeLineFor(line, node)
    requires IsToken(x) && IsToken(y) && IsToken(z)
    ensures var r := ModifyCoordLine(line, node, x, y, z);
            && IsNodeLineFor(r, node)
            && ParseNodeLine(Body(r)) == Some(ParseNodeLine(Body(line)).value.(x := x, y := y, z := z))
            && Ending(r) == Ending(line)
  {
    var f := ParseNodeLine(Body(line)).value;
    var g := f.(x := x, y := y, z := z);
    SetCoordinatesShaped(f, x, y, z);
    ParseNodeText(g);
    NodeTextEnd(f);
    NodeTextEnd(g);
    BodyOf(NodeText(g), Ending(line));
  }

  /** Setting the coordinates of a node line twice leaves the second values. */
  lemma ModifyCoordLineTwice(line: string, node: int, x1: string, y1: string, z1: string,
                             x2: string, y2: string, z2: string)
    requires IsToken(x1) && IsToken(y1) && IsToken(z1)
    ensures ModifyCoordLine(ModifyCoordLine(line, node, x1, y1, z1), node, x2, y2, z2)
         == ModifyCoordLine(line, node, x2, y2, z2)
  {
    if IsNodeLineFor(line, node) {
      ModifyCoordLineReadsBack(line, node, x1, y1, z1);
    }
  }

  /** A line is the node line of at most one node. */
  lemma NodeLineOwner(line: string, a: int, b: int)
    requires IsNodeLineFor(line, a) && IsNodeLineFor(line, b)
    ensures a == b
  {
    IntTextInjective(a, b);
  }

  /** Setting a node's coordinates twice leaves the second values. */
  lemma ModifyCoordTwice(lines: seq<string>, node: int, x1: string, y1: string, z1: string,
                         x2: string, y2: string, z2: string)
    requires IsToken(x1) && IsToken(y1) && IsToken(z1)
    ensures ModifyCoord(ModifyCoord(lines, node, x1, y1, z1), node, x2, y2, z2)
         == ModifyCoord(lines, node, x2, y2, z2)
  {
    var once := ModifyCoord(lines, node, x1, y1, z1);
    forall i | 0 <= i < |lines|
      ensures ModifyCoordLine(once[i], node, x2, y2, z2) == ModifyCoordLine(lines[i], node, x2, y2, z2)
    {
      ModifyCoordLineTwice(lines[i], node, x1, y1, z1, x2, y2, z2);
    }
  }

  /** Updating two different nodes gives the same document in either order. */
  lemma ModifyCoordCommute(lines: seq<string>, a: int, xa: string, ya: string, za: string,
                           b: int, xb: string, yb: string, zb: string)
    requires a != b
    requires IsToken(xa) && IsToken(ya) && IsToken(za) && IsToken(xb) && IsToken(yb) && IsToken(zb)
    ensures ModifyCoord(ModifyCoord(lines, a, xa, ya, za), b, xb, yb, zb)
         == ModifyCoord(ModifyCoord(lines, b, xb, yb, zb), a, xa, ya, za)
  {
    forall i | 0 <= i < |lines|
      ensures ModifyCoordLine(ModifyCoordLine(lines[i], a, xa, ya, za), b, xb, yb, zb)
           == ModifyCoordLine(ModifyCoordLine(lines[i], b, xb, yb, zb), a, xa, ya, za)
    {
      if IsNodeLineFor(lines[i], a) {
        ModifyCoordLineReadsBack(lines[i], a, xa, ya, za);
        if IsNodeLineFor(lines[i], b) {
          NodeLineOwner(lines[i], a, b);
        }
        if IsNodeLineFor(ModifyCoordLine(lines[i], a, xa, ya, za), b) {
          NodeLineOwner(ModifyCoordLine(lines[i], a, xa, ya, za), a, b);
        }
      } else if IsNodeLineFor(lines[i], b) {
        ModifyCoordLineReadsBack(lines[i], b, xb, yb, zb);
        if IsNodeLineFor(ModifyCoordLine(lines[i], b, xb, yb, zb), a) {
          NodeLineOwner(ModifyCoordLine(lines[i], b, xb, yb, zb), a, b);
        }
      }
    }
  }

  // ---------------------------------------------------------------------------
  // add_code

  /** The text of a document: its lines one after the other. */
  function Join(lines: seq<string>): string {
    if |lines| == 0 then "" else lines[0] + Join(lines[1..])
  }

  lemma {:induction false} JoinAppend(a: seq<string>, b: seq<string>)
    ensures Join(a + b) == Join(a) + Join(b)
  {
    if |a| > 0 {
      assert (a + b)[1..] == a[1..] + b;
      JoinAppend(a[1..], b);
    } else {
      assert a + b == b;
    }
  }

  lemma ContainsAseMarker()
    ensures Contains(AnalysisBlock[1], AseMarker)
  {
    assert AnalysisBlock[1] == "+PROG ASE urs:9 $ Linear Analysis\n";
    assert OccursAt(AnalysisBlock[1], AseMarker, 0);
  }

  /** Does the text end with a line break (or is it empty)? */
  predicate EndsLine(lines: seq<string>) {
    |lines| == 0 || (|lines[|lines| - 1]| > 0 && lines[|lines| - 1][|lines[|lines| - 1]| - 1] == '\n')
  }

  /** The lines of the text of `lines` followed by "\n" and the text of `block`. */
  function AppendLines(lines: seq<string>, block: seq<string>): seq<string> {
    var n := |lines|;
    if EndsLine(lines) then lines + ["\n"] + block
    else lines[..n - 1] + [lines[n - 1] + "\n"] + block
  }

  lemma AppendLinesText(lines: seq<string>, block: seq<string>)
    ensures Join(AppendLines(lines, block)) == Join(lines) + "\n" + Join(block)
  {
    if EndsLine(lines) {
      AppendAfterBreak(lines, block);
    } else {
      AppendCompletingLast(lines, block);
    }
  }

  lemma JoinSingle(s: string)
    ensures Join([s]) == s
  {
    assert [s][1..] == [];
  }

  /** After a final line break the "\n" is a line of its own. */
  lemma AppendAfterBreak(lines: seq<string>, block: seq<string>)
    ensures Join(lines + ["\n"] + block) == Join(lines) + "\n" + Join(block)
  {
    JoinAppend(lines, ["\n"]);
    JoinAppend(lines + ["\n"], block);
    JoinSingle("\n");
  }

  /** Without a final line break the "\n" completes the last line. */
  lemma AppendCompletingLast(lines: seq<string>, block: seq<string>)
    requires |lines| > 0
    ensures var n := |lines|;
            Join(lines[..n - 1] + [lines[n - 1] + "\n"] + block) == Join(lines) + "\n" + Join(block)
  {
    var n := |lines|;
    var init := lines[..n - 1];
    var last := lines[n - 1];
    assert lines == init + [last];
    JoinAppend(init, [last]);
    JoinSingle(last);
    JoinAppend(init, [last + "\n"]);
    JoinSingle(last + "\n");
    JoinAppend(init + [last + "\n"], block);
    assert Join(init + [last + "\n"] + block) == Join(init) + (last + "\n") + Join(block);
    assert Join(lines) == Join(init) + last;
  }

  /**
   * `add_code()`: the document once "\n" and the analysis block are appended to its
   * text, as its lines read back: a last line without a break is completed by the
   * "\n", otherwise the "\n" is an empty line of its own.
   */
  function AddCode(lines: seq<string>): (r: seq<string>)
    ensures Join(r) == Join(lines) + "\n" + Join(AnalysisBlock)
    ensures Check(r, AseMarker)
    ensures |r| > |lines| && (|lines| > 0 ==> r[..|lines| - 1] == lines[..|lines| - 1])
    ensures EndsLine(lines) ==> r[..|lines|] == lines
  {
    var r := AppendLines(lines, AnalysisBlock);
    AppendLinesText(lines, AnalysisBlock);
    ContainsAseMarker();
    var k := |r| - |AnalysisBlock| + 1;
    assert r[k] == AnalysisBlock[1];
    assert Contains(r[k], AseMarker);
    r
  }

  // ---------------------------------------------------------------------------
  // replace_sofiload

  predicate IsSofiloadHeader(line: string) {
    StartsWith(Strip(line), "PROG SOFILOAD")
  }

  predicate IsProgLine(line: string) {
    StartsWith(Strip(line), "PROG ")
  }

  /** A line that passes `prog` but not `header`: a line that starts another module. */
  function Resume(header: string -> bool, prog: string -> bool): string -> bool {
    line => prog(line) && !header(line)
  }

  /**
   * What the scan of `replace_sofiload()` leaves, for a section header test `header`
   * and a module start test `prog`: the lines before the first header, `block` in
   * place of that section and of the header sections directly after it, then
   * everything from the next line that starts another module on.
   */
  function Replaced(lines: seq<string>, block: seq<string>, header: string -> bool, prog: string -> bool)
    : seq<string>
  {
    var h := FirstFrom(lines, header, 0);
    if h == |lines| then lines
    else lines[..h] + block + lines[FirstFrom(lines, Resume(header, prog), h + 1)..]
  }

  /** Index of the first SOFILOAD header, or `|lines|` when there is none. */
  function HeaderIndex(lines: seq<string>): nat {
    FirstFrom(lines, IsSofiloadHeader, 0)
  }

  /**
   * The document `replace_sofiload()` writes: the SOFILOAD sections at the first
   * SOFILOAD header replaced by the new load block.
   */
  function ReplacedSofiload(lines: seq<string>): seq<string> {
    Replaced(lines, NewLoadBlock, IsSofiloadHeader, IsProgLine)
  }

  lemma SliceCons(s: seq<string>, i: nat)
    requires i < |s|
    ensures s[i..] == [s[i]] + s[i + 1..]
  {
  }

  /** The inner loop of `replace_sofiload()`: skip forward from `i` to the next `prog` line or the end. */
  method SkipToProg(lines: seq<string>, prog: string -> bool, i: nat) returns (j: nat)
    requires i <= |lines|
    ensures j == FirstFrom(lines, prog, i)
  {
    j := i;
    while j < |lines| && !prog(lines[j])
      invariant i <= j <= |lines|
      invariant FirstFrom(lines, prog, i) == FirstFrom(lines, prog, j)
    {
      j := j + 1;
    }
  }

  /**
   * The first loop of `replace_sofiload()`: copy the lines before the first header,
   * put `block` in place of the header sections, and stop after the line that
   * starts the next other module. What is left to copy completes the result.
   */
  method ScanSections(lines: seq<string>, block: seq<string>, header: string -> bool, prog: string -> bool)
    returns (output: seq<string>, i: nat)
    ensures i <= |lines| && output + lines[i..] == Replaced(lines, block, header, prog)
  {
    var n := |lines|;
    ghost var resume := Resume(header, prog);
    ghost var h := FirstFrom(lines, header, 0);
    ghost var r := if h < n then FirstFrom(lines, resume, h + 1) else n;
    ghost var broke := false;
    output := [];
    i := 0;
    var started := false;
    while i < n
      invariant i <= n
      invariant !started ==> i <= h && output == lines[..i] && FirstFrom(lines, header, i) == h
      invariant started ==> h < i && output == lines[..h] + block && FirstFrom(lines, resume, i) == r
      invariant started ==> i < n ==> prog(lines[i])
    {
      var line := lines[i];
      if header(line) {
        if !started {
          started := true;
          output := output + block;
        }
        ResumeSkip(lines, header, prog, i + 1);
        i := SkipToProg(lines, prog, i + 1);
      } else {
        if !started {
          output := output + [line];
        } else {
          i := SkipToProg(lines, prog, i);
          if i < n {
            output := output + [lines[i]];
          }
          i := i + 1;
          broke := true;
          break;
        }
        i := i + 1;
      }
    }
    if !started {
      assert output == lines;
    } else {
      ScanExit(lines, block, header, prog, h, r, broke, i);
    }
  }

  /** Skipping to the next `prog` line passes no line that starts another module. */
  lemma ResumeSkip(lines: seq<string>, header: string -> bool, prog: string -> bool, k: nat)
    requires k <= |lines|
    ensures FirstFrom(lines, Resume(header, prog), k)
            == FirstFrom(lines, Resume(header, prog), FirstFrom(lines, prog, k))
  {
    FirstFromSkip(lines, Resume(header, prog), prog, k);
  }

  /**
   * How the first loop of `replace_sofiload()` ends once it has met the header at
   * `h`: at the end of the lines, or just after the line `r` that starts the next
   * other module.
   */
  lemma ScanExit(lines: seq<string>, block: seq<string>, header: string -> bool, prog: string -> bool,
                 h: nat, r: nat, broke: bool, i: nat)
    requires h == FirstFrom(lines, header, 0) < |lines|
    requires r == FirstFrom(lines, Resume(header, prog), h + 1)
    requires if broke then r < |lines| && i == r + 1 else i == |lines| && r == |lines|
    ensures (if broke then lines[..h] + block + [lines[r]] else lines[..h] + block) + lines[i..]
            == Replaced(lines, block, header, prog)
  {
    var front := lines[..h] + block;
    assert Replaced(lines, block, header, prog) == front + lines[r..];
    if broke {
      SliceCons(lines, r);
      AppendAssoc(front, [lines[r]], lines[r + 1..]);
    }
  }

  /** The loops of `replace_sofiload()`, with its two line tests as parameters. */
  method ReplaceSections(lines: seq<string>, block: seq<string>, header: string -> bool, prog: string -> bool)
    returns (output: seq<string>)
    ensures output == Replaced(lines, block, header, prog)
  {
    var n := |lines|;
    var i;
    output, i := ScanSections(lines, block, header, prog);
    while i < n
      invariant i <= n
      invariant output + lines[i..] == Replaced(lines, block, header, prog)
    {
      SliceCons(lines, i);
      output := output + [lines[i]];
      i := i + 1;
    }
  }

  /** `replace_sofiload()`. */
  method ReplaceSofiload(lines: seq<string>) returns (output: seq<string>)
    ensures output == ReplacedSofiload(lines)
  {
    output := ReplaceSections(lines, NewLoadBlock, IsSofiloadHeader, IsProgLine);
  }

  /** Without a SOFILOAD header the document is written back unchanged. */
  lemma ReplacedSofiloadWithoutHeader(lines: seq<string>)
    requires forall j :: 0 <= j < |lines| ==> !IsSofiloadHeader(lines[j])
    ensures ReplacedSofiload(lines) == lines
  {
    FirstFromIs(lines, IsSofiloadHeader, 0, |lines|);
  }

  /**
   * With the first header at `h` and the first line after it that starts another
   * module at `q` (or the end), the lines before `h` are kept, `block` takes the
   * place of lines `h` to `q`, and the lines from `q` on are kept.
   */
  lemma ReplacedAt(lines: seq<string>, block: seq<string>, header: string -> bool, prog: string -> bool,
                   h: nat, q: nat)
    requires h < q <= |lines|
    requires header(lines[h]) && forall j :: 0 <= j < h ==> !header(lines[j])
    requires q < |lines| ==> prog(lines[q]) && !header(lines[q])
    requires forall j :: h < j < q ==> !prog(lines[j]) || header(lines[j])
    ensures Replaced(lines, block, header, prog) == lines[..h] + block + lines[q..]
  {
    FirstFromIs(lines, header, 0, h);
    FirstFromIs(lines, Resume(header, prog), h + 1, q);
  }

  /** `ReplacedAt` for `replace_sofiload()` itself. */
  lemma ReplacedSofiloadAt(lines: seq<string>, h: nat, q: nat)
    requires h < q <= |lines|
    requires IsSofiloadHeader(lines[h]) && forall j :: 0 <= j < h ==> !IsSofiloadHeader(lines[j])
    requires q < |lines| ==> IsProgLine(lines[q]) && !IsSofiloadHeader(lines[q])
    requires forall j :: h < j < q ==> !IsProgLine(lines[j]) || IsSofiloadHeader(lines[j])
    ensures ReplacedSofiload(lines) == lines[..h] + NewLoadBlock + lines[q..]
  {
    ReplacedAt(lines, NewLoadBlock, IsSofiloadHeader, IsProgLine, h, q);
  }

  lemma SplitThree(a: seq<string>, b: seq<string>, c: seq<string>)
    requires |b| > 0
    ensures (a + b + c)[..|a|] == a
    ensures (a + b + c)[..|a| + 1] == a + [b[0]]
    ensures (a + b + c)[|a|..] == b + c
    ensures forall j :: 0 <= j < |a| ==> (a + b + c)[j] == a[j]
    ensures forall j :: |a| <= j < |a| + |b| ==> (a + b + c)[j] == b[j - |a|]
    ensures (a + b + c)[|a| + |b|..] == c
  {
  }

  lemma AppendAssoc(a: seq<string>, b: seq<string>, c: seq<string>)
    ensures a + b + c == a + (b + c)
  {
  }

  /**
   * When `block` opens with a line that is no header followed by a header, and no
   * later line of it starts another module, replacing a second time inserts the
   * opening line once more in front of the block and changes nothing else.
   */
  lemma ReplacedTwice(lines: seq<string>, block: seq<string>, header: string -> bool, prog: string -> bool)
    requires FirstFrom(lines, header, 0) < |lines|
    requires |block| > 1 && !header(block[0]) && header(block[1])
    requires forall j :: 1 < j < |block| ==> !prog(block[j]) || header(block[j])
    ensures var once := Replaced(lines, block, header, prog);
            var h := FirstFrom(lines, header, 0);
            Replaced(once, block, header, prog) == once[..h] + [block[0]] + once[h..]
  {
    var h := FirstFrom(lines, header, 0);
    var r := FirstFrom(lines, Resume(header, prog), h + 1);
    var once := lines[..h] + block + lines[r..];
    assert once == Replaced(lines, block, header, prog);
    assert forall j :: 0 <= j < h ==> !header(lines[..h][j]) by {
      forall j | 0 <= j < h
        ensures !header(lines[..h][j])
      {
        FirstFromIsFirst(lines, header, 0, j);
      }
    }
    assert r < |lines| ==> prog(lines[r..][0]) && !header(lines[r..][0]) by {
      if r < |lines| {
        assert Resume(header, prog)(lines[r]);
      }
    }
    ReplacedAgain(lines[..h], block, lines[r..], header, prog);
    SplitThree(lines[..h], block, lines[r..]);
    AppendAssoc(lines[..h], [block[0]], block + lines[r..]);
  }

  /** Replacing a second time: the opening line of the block stays in front of a fresh copy of the block. */
  lemma ReplacedAgain(head: seq<string>, block: seq<string>, tail: seq<string>, header: string -> bool,
                      prog: string -> bool)
    requires forall j :: 0 <= j < |head| ==> !header(head[j])
    requires |block| > 1 && !header(block[0]) && header(block[1])
    requires forall j :: 1 < j < |block| ==> !prog(block[j]) || header(block[j])
    requires |tail| > 0 ==> prog(tail[0]) && !header(tail[0])
    ensures Replaced(head + block + tail, block, header, prog) == head + [block[0]] + (block + tail)
  {
    var once := head + block + tail;
    var a := |head|;
    var b := |block|;
    SplitThree(head, block, tail);
    assert header(once[a + 1]);
    forall j | 0 <= j < a + 1
      ensures !header(once[j])
    {
      if j < a {
        assert once[j] == head[j];
      } else {
        assert once[j] == block[0];
      }
    }
    if a + b < |once| {
      assert once[a + b] == tail[0];
    }
    forall j | a + 1 < j < a + b
      ensures !prog(once[j]) || header(once[j])
    {
      assert once[j] == block[j - a];
    }
    ReplacedAt(once, block, header, prog, a + 1, a + b);
    AppendAssoc(head + [block[0]], block, tail);
  }

  /** A line that starts, after no whitespace, with a character other than 'P' starts no module. */
  lemma PlainLine(line: string)
    requires |line| > 0 && !IsSpace(line[0]) && line[0] != 'P'
    ensures !IsProgLine(line) && !IsSofiloadHeader(line)
  {
    SpanIs(line, IsSpace, 0);
  }

  /** A SOFILOAD header line as written in the new load block. */
  lemma HeaderLine(s: string)
    requires |s| > 0 && !IsSpace(s[0]) && !IsSpace(s[|s| - 1]) && StartsWith(s, "PROG SOFILOAD")
    ensures IsSofiloadHeader(s + "\n") && IsProgLine(s + "\n")
  {
    StripLine(s);
  }

  /** No line of the first load module after its header starts a module. */
  lemma ActionsModuleLines()
    ensures forall j :: 1 < j < |ActionsModule| ==> !IsProgLine(ActionsModule[j])
  {
    forall j | 1 < j < |ActionsModule|
      ensures !IsProgLine(ActionsModule[j])
    {
      if j == 2 {
        PlainLine(ActionsModule[2]);
      } else if j == 3 {
        PlainLine(ActionsModule[3]);
      } else if j == 4 {
        PlainLine(ActionsModule[4]);
      } else if j == 5 {
        PlainLine(ActionsModule[5]);
      } else if j == 6 {
        PlainLine(ActionsModule[6]);
      } else {
        PlainLine(ActionsModule[7]);
      }
    }
  }

  /** The second load module starts with a SOFILOAD header and no later line of it starts a module. */
  lemma LoadCasesModuleLines()
    ensures IsSofiloadHeader(LoadCasesModule[0])
    ensures forall j :: 0 < j < |LoadCasesModule| ==> !IsProgLine(LoadCasesModule[j])
  {
    HeaderLine("PROG SOFILOAD urs:4");
    assert LoadCasesModule[0] == "PROG SOFILOAD urs:4" + "\n";
    PlainLines(LoadCasesModule[1..]);
    forall j | 0 < j < |LoadCasesModule|
      ensures !IsProgLine(LoadCasesModule[j])
    {
      assert LoadCasesModule[j] == LoadCasesModule[1..][j - 1];
    }
  }

  /** Lines that each start with a capital letter other than 'P' start no module. */
  lemma PlainLines(m: seq<string>)
    requires forall j :: 0 <= j < |m| ==> |m[j]| > 0 && 'A' <= m[j][0] <= 'Z' && m[j][0] != 'P'
    ensures forall j :: 0 <= j < |m| ==> !IsProgLine(m[j])
  {
    forall j | 0 <= j < |m|
      ensures !IsProgLine(m[j])
    {
      PlainLine(m[j]);
    }
  }

  /** The new load block opens with an empty line and then a SOFILOAD header. */
  lemma NewLoadBlockOpening()
    ensures !IsSofiloadHeader(NewLoadBlock[0]) && IsSofiloadHeader(NewLoadBlock[1])
  {
    assert NewLoadBlock[0] == ActionsModule[0] == "\n";
    assert NewLoadBlock[1] == ActionsModule[1];
    EmptyLineNoHeader();
    ActionsHeader();
  }

  lemma EmptyLineNoHeader()
    ensures !IsSofiloadHeader("\n")
  {
    StripLine("");
  }

  lemma ActionsHeader()
    ensures IsSofiloadHeader(ActionsModule[1])
  {
    HeaderLine("PROG SOFILOAD urs:3");
    assert ActionsModule[1] == "PROG SOFILOAD urs:3" + "\n";
  }

  /** After its opening header no line of the new load block starts another module. */
  lemma NewLoadBlockNoResume()
    ensures forall j :: 1 < j < |NewLoadBlock| ==> !IsProgLine(NewLoadBlock[j]) || IsSofiloadHeader(NewLoadBlock[j])
  {
    ActionsModuleLines();
    LoadCasesModuleLines();
    forall j | 1 < j < |NewLoadBlock|
      ensures !IsProgLine(NewLoadBlock[j]) || IsSofiloadHeader(NewLoadBlock[j])
    {
      if j < |ActionsModule| {
        assert NewLoadBlock[j] == ActionsModule[j];
      } else {
        assert NewLoadBlock[j] == LoadCasesModule[j - |ActionsModule|];
      }
    }
  }

  /** Running `replace_sofiload()` a second time only inserts one more empty line before the load block. */
  lemma ReplacedSofiloadTwice(lines: seq<string>)
    requires HeaderIndex(lines) < |lines|
    ensures var once := ReplacedSofiload(lines);
            var h := HeaderIndex(lines);
            ReplacedSofiload(once) == once[..h] + ["\n"] + once[h..]
  {
    NewLoadBlockOpening();
    NewLoadBlockNoResume();
    ReplacedTwice(lines, NewLoadBlock, IsSofiloadHeader, IsProgLine);
    assert NewLoadBlock[0] == "\n";
  }

  // ---------------------------------------------------------------------------
  // The V and H load lines of the new load block

  /** A line that starts without whitespace keeps its first character when stripped. */
  lemma StripFirst(line: string)
    requires |line| > 0 && !IsSpace(line[0])
    ensures Strip(line) != [] && Strip(line)[0] == line[0]
  {
    SpanIs(line, IsSpace, 0);
  }

  /** A line that starts, after no whitespace, with a character other than 'N' is no load line. */
  lemma NoLoadLine(line: string)
    requires |line| > 0 && !IsSpace(line[0]) && line[0] != 'N'
    ensures !IsModifyTarget(line, VMarker) && !IsModifyTarget(line, HMarker)
  {
    StripFirst(line);
    assert !StartsWith(Strip(line), VMarker);
    assert !StartsWith(Strip(line), HMarker);
  }

  lemma EmptyLineNoLoad()
    ensures !IsModifyTarget("\n", VMarker) && !IsModifyTarget("\n", HMarker)
  {
    StripLine("");
  }

  /** In `<marker> <value>` the marker is followed by one space and the number `value`. */
  lemma MarkerNumberOfLoad(marker: string, value: string)
    requires IsNumber(value)
    ensures MarkerNumber(marker + " " + value, marker) == Some((|marker| + 1, |marker| + 1 + |value|))
  {
    var x := marker + " " + value;
    assert x[..|marker|] == marker;
    assert x[|marker|..|marker| + 1] == " ";
    assert x[|marker| + 1..|x|] == value;
    MarkerNumberToEnd(x, marker, |marker| + 1);
  }

  /** A stripped line that is the marker, whitespace and a number matches with group 2 running to its end. */
  lemma MarkerNumberToEnd(x: string, marker: string, a: nat)
    requires StartsWith(x, marker) && |marker| <= a <= |x|
    requires AllSpaces(x[|marker|..a]) && IsNumber(x[a..|x|])
    ensures MarkerNumber(x, marker) == Some((a, |x|))
  {
    MarkerNumberMatches(x, marker, a, |x|);
    var r := MarkerNumber(x, marker).value;
    assert r.0 == a && r.1 == |x|;
  }

  /** A load line `<marker> <value>` is a target of `modify` for its marker. */
  lemma LoadLineTarget(marker: string, value: string)
    requires |marker| > 0 && !IsSpace(marker[0]) && IsNumber(value)
    ensures Strip(marker + " " + value + "\n") == marker + " " + value
    ensures IsModifyTarget(marker + " " + value + "\n", marker)
  {
    var x := marker + " " + value;
    NumberIsToken(value);
    StripLine(x);
    MarkerNumberOfLoad(marker, value);
    LoadLineContains(marker, value);
  }

  /** A load line contains its marker. */
  lemma LoadLineContains(marker: string, value: string)
    ensures Contains(marker + " " + value + "\n", marker)
  {
    var line := marker + " " + value + "\n";
    assert line[..|marker|] == marker;
    assert OccursAt(line, marker, 0);
  }

  /** A load line `<marker> <value>` is rewritten to `<marker> <v>`. */
  lemma LoadLineRewrite(marker: string, value: string, v: string)
    requires |marker| > 0 && !IsSpace(marker[0]) && IsNumber(value)
    ensures IsModifyTarget(marker + " " + value + "\n", marker)
    ensures RewriteLine(marker + " " + value + "\n", marker, v) == marker + " " + v + "\n"
  {
    LoadLineTarget(marker, value);
    MarkerNumberOfLoad(marker, value);
    StrippedLoadRewrite(marker + " " + value + "\n", marker, value, v);
  }

  /** A line that strips to `<marker> <value>`, with `value` the number `modify` finds, is rewritten to `<marker> <v>`. */
  lemma StrippedLoadRewrite(line: string, marker: string, value: string, v: string)
    requires Strip(line) == marker + " " + value
    requires MarkerNumber(marker + " " + value, marker) == Some((|marker| + 1, |marker| + 1 + |value|))
    ensures RewriteLine(line, marker, v) == marker + " " + v + "\n"
  {
    LoadSplice(marker, value, v);
  }

  /** Putting `v` in place of the value of `<marker> <value>`. */
  lemma LoadSplice(marker: string, value: string, v: string)
    ensures var x := marker + " " + value;
            x[..|marker| + 1] + v + x[|marker| + 1 + |value|..] + "\n" == marker + " " + v + "\n"
  {
    var x := marker + " " + value;
    assert x[..|marker| + 1] == marker + " ";
    assert x[|marker| + 1 + |value|..] == [];
  }

  /** A block whose every line starts with a character other than whitespace and 'N' holds no load line. */
  lemma NoLoadLines(block: seq<string>)
    requires forall j :: 0 <= j < |block| ==> |block[j]| > 0 && !IsSpace(block[j][0]) && block[j][0] != 'N'
    ensures forall j :: 0 <= j < |block| ==>
              !IsModifyTarget(block[j], VMarker) && !IsModifyTarget(block[j], HMarker)
  {
    forall j | 0 <= j < |block|
      ensures !IsModifyTarget(block[j], VMarker) && !IsModifyTarget(block[j], HMarker)
    {
      NoLoadLine(block[j]);
    }
  }

  /** No line of the first load module is a load line. */
  lemma ActionsModuleNoLoad()
    ensures forall j :: 0 <= j < |ActionsModule| ==>
              !IsModifyTarget(ActionsModule[j], VMarker) && !IsModifyTarget(ActionsModule[j], HMarker)
  {
    EmptyLineNoLoad();
    assert ActionsModule[0] == "\n";
    NoLoadLines(ActionsModule[1..]);
    forall j | 1 <= j < |ActionsModule|
      ensures !IsModifyTarget(ActionsModule[j], VMarker) && !IsModifyTarget(ActionsModule[j], HMarker)
    {
      assert ActionsModule[j] == ActionsModule[1..][j - 1];
    }
  }

  /** The first seven lines of the second load module are no load lines. */
  lemma LoadCasesModuleHead()
    ensures forall j :: 0 <= j < 7 ==>
              !IsModifyTarget(LoadCasesModule[j], VMarker) && !IsModifyTarget(LoadCasesModule[j], HMarker)
  {
    NoLoadLines(LoadCasesModule[..7]);
    forall j | 0 <= j < 7
      ensures !IsModifyTarget(LoadCasesModule[j], VMarker) && !IsModifyTarget(LoadCasesModule[j], HMarker)
    {
      assert LoadCasesModule[j] == LoadCasesModule[..7][j];
    }
  }

  /** Of the second load module, the V load line is line 7 and the H load line is line 10. */
  lemma LoadCasesModuleLoads()
    ensures LoadCasesModule[7] == VMarker + " " + "0" + "\n"
    ensures LoadCasesModule[10] == HMarker + " " + "0" + "\n"
    ensures !IsModifyTarget(LoadCasesModule[8], HMarker) && !IsModifyTarget(LoadCasesModule[9], HMarker)
  {
    NoLoadLine(LoadCasesModule[8]);
    NoLoadLine(LoadCasesModule[9]);
  }

  /** A V load line is no H load line: the two markers differ in their twentieth character. */
  lemma VLineNotH(v: string)
    requires IsToken(v)
    ensures !IsModifyTarget(VMarker + " " + v + "\n", HMarker)
  {
    var x := VMarker + " " + v;
    assert x[|x| - 1] == v[|v| - 1];
    StripLine(x);
    assert x[19] == 'G' && HMarker[19] == 'X';
  }

  /** `modify` rewrites the line `t` when it is the first target line. */
  lemma ModifiedAt(lines: seq<string>, s: string, v: string, t: nat)
    requires t < |lines| && IsModifyTarget(lines[t], s)
    requires forall j :: 0 <= j < t ==> !IsModifyTarget(lines[j], s)
    ensures Modified(lines, s, v) == lines[t := RewriteLine(lines[t], s, v)]
  {
    FirstFromIs(lines, line => IsModifyTarget(line, s), 0, t);
  }

  /** The load lines of the new load block: V at line 15 and H at line 18, each set to 0, and none before them. */
  lemma NewLoadBlockLoads()
    ensures |NewLoadBlock| == 20
    ensures forall j :: 0 <= j < 15 ==>
              !IsModifyTarget(NewLoadBlock[j], VMarker) && !IsModifyTarget(NewLoadBlock[j], HMarker)
    ensures NewLoadBlock[15] == VMarker + " " + "0" + "\n"
    ensures !IsModifyTarget(NewLoadBlock[16], HMarker) && !IsModifyTarget(NewLoadBlock[17], HMarker)
    ensures NewLoadBlock[18] == HMarker + " " + "0" + "\n"
  {
    ActionsModuleNoLoad();
    LoadCasesModuleHead();
    LoadCasesModuleLoads();
    forall j | 8 <= j < 19
      ensures NewLoadBlock[j] == LoadCasesModule[j - 8]
    {
    }
  }

  /** Where there is a SOFILOAD header, the new load block stands in its place after the lines before it. */
  lemma ReplacedSofiloadBlock(lines: seq<string>)
    requires HeaderIndex(lines) < |lines|
    ensures var r := ReplacedSofiload(lines);
            var k := HeaderIndex(lines);
            && |r| >= k + |NewLoadBlock|
            && r[..k] == lines[..k]
            && forall j :: 0 <= j < |NewLoadBlock| ==> r[k + j] == NewLoadBlock[j]
  {
    ReplacedBlock(lines, NewLoadBlock, IsSofiloadHeader, IsProgLine);
  }

  /** Where there is a header, `block` stands in its place after the lines before it. */
  lemma ReplacedBlock(lines: seq<string>, block: seq<string>, header: string -> bool, prog: string -> bool)
    requires FirstFrom(lines, header, 0) < |lines|
    ensures var r := Replaced(lines, block, header, prog);
            var k := FirstFrom(lines, header, 0);
            && |r| >= k + |block|
            && r[..k] == lines[..k]
            && forall j :: 0 <= j < |block| ==> r[k + j] == block[j]
  {
    var k := FirstFrom(lines, header, 0);
    var q := FirstFrom(lines, Resume(header, prog), k + 1);
    var r := lines[..k] + block + lines[q..];
    assert Replaced(lines, block, header, prog) == r;
    forall j | 0 <= j < |block|
      ensures r[k + j] == block[j]
    {
      assert (lines[..k] + block)[k + j] == block[j];
    }
    assert r[..k] == lines[..k];
  }

  /**
   * The load lines of a document that holds the new load block at line `k`: no
   * load line before the V load line at `k + 15`, and no H load line between it
   * and the H load line at `k + 18`; both hold the value 0.
   */
  predicate LoadsAt(a: seq<string>, k: nat) {
    && k + 19 <= |a|
    && (forall j :: 0 <= j < k + 15 ==> !IsModifyTarget(a[j], VMarker) && !IsModifyTarget(a[j], HMarker))
    && a[k + 15] == VMarker + " " + "0" + "\n"
    && !IsModifyTarget(a[k + 16], HMarker) && !IsModifyTarget(a[k + 17], HMarker)
    && a[k + 18] == HMarker + " " + "0" + "\n"
  }

  /** The new load block at line `k`, after lines that are no load lines, has its load lines where `LoadsAt` says. */
  lemma BlockLoadsAt(a: seq<string>, k: nat)
    requires k + 20 <= |a|
    requires forall i :: 0 <= i < 20 ==> a[k + i] == NewLoadBlock[i]
    requires forall j :: 0 <= j < k ==> !IsModifyTarget(a[j], VMarker) && !IsModifyTarget(a[j], HMarker)
    ensures LoadsAt(a, k)
  {
    NewLoadBlockLoads();
    forall j | k <= j < k + 15
      ensures !IsModifyTarget(a[j], VMarker) && !IsModifyTarget(a[j], HMarker)
    {
      assert a[j] == NewLoadBlock[j - k];
    }
    assert a[k + 15] == NewLoadBlock[15];
    assert a[k + 16] == NewLoadBlock[16];
    assert a[k + 17] == NewLoadBlock[17];
    assert a[k + 18] == NewLoadBlock[18];
  }

  /** The load lines of a document stay where `LoadsAt` says while the lines up to the H load line stay. */
  lemma LoadsAtKept(a: seq<string>, b: seq<string>, k: nat)
    requires LoadsAt(a, k) && |b| >= k + 19
    requires forall j :: 0 <= j < k + 19 ==> b[j] == a[j]
    ensures LoadsAt(b, k)
  {
    assert b[k + 15] == a[k + 15] && b[k + 16] == a[k + 16];
    assert b[k + 17] == a[k + 17] && b[k + 18] == a[k + 18];
  }

  /**
   * When no line before the first SOFILOAD header is a load line, replacing the
   * SOFILOAD sections leaves the load lines of the new block where `LoadsAt` says.
   */
  lemma ReplacedLoadsAt(lines: seq<string>)
    requires HeaderIndex(lines) < |lines|
    requires forall j :: 0 <= j < HeaderIndex(lines) ==>
               !IsModifyTarget(lines[j], VMarker) && !IsModifyTarget(lines[j], HMarker)
    ensures var r := ReplacedSofiload(lines);
            var k := HeaderIndex(lines);
            && |r| >= k + 20 && r[..k] == lines[..k] && LoadsAt(r, k)
  {
    var k := HeaderIndex(lines);
    var r := ReplacedSofiload(lines);
    ReplacedSofiloadBlock(lines);
    assert |NewLoadBlock| == 20 by {
      NewLoadBlockLoads();
    }
    forall j | 0 <= j < k
      ensures !IsModifyTarget(r[j], VMarker) && !IsModifyTarget(r[j], HMarker)
    {
      assert r[j] == r[..k][j];
    }
    BlockLoadsAt(r, k);
  }
}
