/** The post excerpt: the first line of the original issue body that is not
    blank, cut to 200 characters. `generate-and-push.js` yields `''` when there
    is no such line; `fetch-issues.js` calls `.slice` on `undefined` there and
    throws. */
module Excerpt {
  import opened Wrappers
  import opened Text

  /** The `200` of `slice(0, 200)`. */
  const ExcerptLength: nat := 200

  /** `s.slice(0, n)`. */
  function Prefix(s: string, n: nat): (r: string)
    ensures |r| <= n && |r| <= |s| && r == s[..|r|]
    ensures |r| == n || r == s
  {
    if |s| <= n then s else s[..n]
  }

  /** `lines.find(l => l.trim())`, as an index: `l.trim()` is truthy exactly
      when `l` is not blank (see `Trim`). */
  function FirstNonBlank(lines: seq<string>): (r: Option<nat>)
    ensures r.Some? ==> r.value < |lines| && !IsBlank(lines[r.value])
    ensures r.Some? ==> forall j | 0 <= j < r.value :: IsBlank(lines[j])
    ensures r.None? ==> forall j | 0 <= j < |lines| :: IsBlank(lines[j])
    decreases |lines|
  {
    if lines == [] then None
    else if !IsBlank(lines[0]) then Some(0)
    else
      var r := FirstNonBlank(lines[1..]);
      assert forall j | 1 <= j < |lines| :: lines[j] == lines[1..][j - 1];
      match r
      case None => None
      case Some(i) => Some(i + 1)
  }

  /** The excerpt of a present, non-empty body, or `None` when no line of it
      is non-blank. */
  function FirstLineExcerpt(body: string): (r: Option<string>)
    ensures r.Some? ==> r.value != [] && |r.value| <= ExcerptLength
    ensures r.None? <==> IsBlank(body)
  {
    var lines := Split(body, '\n');
    BlankLines(body);
    match FirstNonBlank(lines)
    case None => None
    case Some(i) =>
      var e := Prefix(lines[i], ExcerptLength);
      assert lines[i] != [];
      assert e != [];
      assert i < |Split(body, '\n')|;
      assert !IsBlank(Split(body, '\n')[i]);
      assert !IsBlank(body);
      Some(e)
  }

  /** `(issue.body && issue.body.split('\n').find(l => l.trim())?.slice(0, 200)) || ''`:
      empty exactly when the body is absent or blank, and never longer than 200. */
  function ExcerptGenerate(body: Option<string>): (r: string)
    ensures |r| <= ExcerptLength
    ensures r == [] <==> body.None? || IsBlank(body.value)
  {
    if body.None? || body.value == [] then ""
    else
      match FirstLineExcerpt(body.value)
      case None => ""
      case Some(e) => e
  }

  /** `(issue.body && issue.body.split('\n').find(l => l.trim()).slice(0, 200)) || ''`:
      `None` stands for the `TypeError` thrown when a non-empty body has no
      line that is not blank. Otherwise it agrees with `ExcerptGenerate`. */
  function ExcerptFetch(body: Option<string>): (r: Option<string>)
    ensures r.None? <==> body.Some? && body.value != [] && IsBlank(body.value)
    ensures r.Some? ==> r.value == ExcerptGenerate(body)
  {
    if body.None? || body.value == [] then Some("")
    else
      FirstLineExcerpt(body.value)
  }

  /** A body consisting of one line break makes the excerpt of
      `fetch-issues.js` throw, while the other script yields `''`. */
  lemma {:induction false} BlankBodyThrows(body: string)
    requires body == "\n"
    ensures ExcerptFetch(Some(body)).None?
    ensures ExcerptGenerate(Some(body)) == ""
  {
    assert IsWhitespace(body[0]);
  }

  /** A string is blank exactly when every line of it is. */
  lemma {:induction false} BlankLines(s: string)
    ensures IsBlank(s) <==> AllBlank(Split(s, '\n'))
    decreases |s|
  {
    var k := CharIndex(s, '\n');
    if k == |s| {
      assert Split(s, '\n') == [s];
      AllBlankCons(s, []);
    } else {
      var rest := Split(s[k + 1..], '\n');
      BlankLines(s[k + 1..]);
      assert Split(s, '\n') == [s[..k]] + rest;
      AllBlankCons(s[..k], rest);
      assert s == s[..k] + [s[k]] + s[k + 1..];
      assert s[k] == '\n';
      BlankAround(s[..k], s[k], s[k + 1..]);
      assert IsBlank(s) <==> IsBlank(s[..k]) && IsBlank(s[k + 1..]);
    }
  }

  /** Every line in the list is blank. */
  predicate AllBlank(lines: seq<string>) {
    forall j | 0 <= j < |lines| :: IsBlank(lines[j])
  }

  lemma {:induction false} AllBlankCons(x: string, rest: seq<string>)
    ensures AllBlank([x] + rest) <==> IsBlank(x) && AllBlank(rest)
  {
    var lines := [x] + rest;
    assert lines[0] == x;
    assert forall j | 0 <= j < |rest| :: rest[j] == lines[j + 1];
  }

  lemma {:induction false} BlankAround(a: string, c: char, b: string)
    requires IsWhitespace(c)
    ensures IsBlank(a + [c] + b) <==> IsBlank(a) && IsBlank(b)
  {
    var s := a + [c] + b;
    assert forall i | 0 <= i < |a| :: s[i] == a[i];
    assert forall i | 0 <= i < |b| :: s[|a| + 1 + i] == b[i];
    if IsBlank(a) && IsBlank(b) {
      forall i | 0 <= i < |s|
        ensures IsWhitespace(s[i])
      {
        if i < |a| {
          assert s[i] == a[i];
        } else if i > |a| {
          assert s[i] == b[i - |a| - 1];
        }
      }
    }
  }

  lemma {:induction false} BlankSlice(s: string, a: nat, b: nat)
    requires a <= b <= |s| && IsBlank(s)
    ensures IsBlank(s[a..b])
  {
    var t := s[a..b];
    forall i | 0 <= i < |t|
      ensures IsWhitespace(t[i])
    {
      assert t[i] == s[a + i];
    }
  }

  // A reference definition by positions in the body.

  /** The index of the first character at or after `i` that is not
      whitespace, or `|s|`. */
  function VisibleFrom(s: string, i: nat): (p: nat)
    requires i <= |s|
    ensures i <= p <= |s|
    ensures p < |s| ==> !IsWhitespace(s[p])
    decreases |s| - i
  {
    if i == |s| || !IsWhitespace(s[i]) then i else VisibleFrom(s, i + 1)
  }

  /** The index of the first character that is not whitespace, or `|s|`. */
  function FirstVisible(s: string): (p: nat)
    ensures p <= |s|
    ensures p < |s| ==> !IsWhitespace(s[p])
  {
    VisibleFrom(s, 0)
  }

  lemma {:induction false} BlankBeforeVisible(s: string, i: nat)
    requires i <= |s|
    ensures forall j | i <= j < VisibleFrom(s, i) :: IsWhitespace(s[j])
    decreases |s| - i
  {
    if i < |s| && IsWhitespace(s[i]) {
      BlankBeforeVisible(s, i + 1);
    }
  }

  /** Everything before `FirstVisible(s)` is whitespace. */
  lemma {:induction false} BlankBeforeFirstVisible(s: string)
    ensures forall i | 0 <= i < FirstVisible(s) :: IsWhitespace(s[i])
  {
    BlankBeforeVisible(s, 0);
  }

  /** The start of the line holding position `p`. */
  function LineStart(s: string, p: nat): (j: nat)
    requires p <= |s|
    ensures j <= p
    ensures j == 0 || s[j - 1] == '\n'
    decreases p
  {
    if p == 0 || s[p - 1] == '\n' then p else LineStart(s, p - 1)
  }

  /** The end of the line holding position `p`: the next line break, or `|s|`. */
  function LineEnd(s: string, p: nat): (e: nat)
    requires p <= |s|
    ensures p <= e <= |s|
    ensures e == |s| || s[e] == '\n'
    decreases |s| - p
  {
    if p == |s| || s[p] == '\n' then p else LineEnd(s, p + 1)
  }

  lemma {:induction false} NoBreakBeforeLineEnd(s: string, p: nat)
    requires p <= |s|
    ensures forall i | p <= i < LineEnd(s, p) :: s[i] != '\n'
    decreases |s| - p
  {
    if p < |s| && s[p] != '\n' {
      NoBreakBeforeLineEnd(s, p + 1);
    }
  }

  /** The excerpt as positions: the line holding the first visible character,
      cut to 200 characters; empty when every character is whitespace. */
  function ExcerptAt(s: string): string {
    var p := FirstVisible(s);
    if p == |s| then ""
    else
      Prefix(s[LineStart(s, p)..LineEnd(s, p)], ExcerptLength)
  }

  /** The line-by-line excerpt is the positional one. */
  lemma {:induction false} ExcerptIsAtFirstVisibleLine(body: string)
    ensures ExcerptGenerate(Some(body)) == ExcerptAt(body)
  {
    if body != [] {
      BlankLines(body);
      FirstLineExcerptAt(body);
    } else {
      assert FirstVisible(body) == 0;
    }
  }

  lemma {:induction false} FirstLineExcerptAt(s: string)
    ensures FirstLineExcerpt(s).None? <==> FirstVisible(s) == |s|
    ensures FirstLineExcerpt(s).Some? ==> FirstLineExcerpt(s).value == ExcerptAt(s)
    decreases |s|
  {
    var k := CharIndex(s, '\n');
    var p := FirstVisible(s);
    BlankBeforeFirstVisible(s);
    assert IsBlank(s) <==> p == |s|;
    if k == |s| {
      if p < |s| {
        SingleLineExcerpt(s);
      }
    } else if !IsBlank(s[..k]) {
      VisibleFirstLineExcerpt(s, k);
    } else {
      var rest := s[k + 1..];
      FirstLineExcerptAt(rest);
      BlankFirstLineExcerpt(s, k);
    }
  }

  /** The positional excerpt is the first 200 characters of the line found. */
  lemma {:induction false} ExcerptAtLine(s: string, j: nat, e: nat)
    requires FirstVisible(s) < |s|
    requires LineStart(s, FirstVisible(s)) == j && LineEnd(s, FirstVisible(s)) == e
    ensures ExcerptAt(s) == Prefix(s[j..e], ExcerptLength)
  {
  }

  lemma {:induction false} SingleLineExcerpt(s: string)
    requires CharIndex(s, '\n') == |s| && FirstVisible(s) < |s|
    ensures FirstLineExcerpt(s) == Some(ExcerptAt(s))
  {
    var p := FirstVisible(s);
    assert Split(s, '\n') == [s];
    assert !IsBlank(s);
    assert FirstNonBlank([s]) == Some(0);
    assert LineStart(s, p) == 0;
    LineEndUnique(s, p, |s|);
    ExcerptAtLine(s, 0, |s|);
    assert s[0..|s|] == s;
  }

  lemma {:induction false} VisibleFirstLineExcerpt(s: string, k: nat)
    requires k == CharIndex(s, '\n') && k < |s| && !IsBlank(s[..k])
    ensures FirstLineExcerpt(s) == Some(ExcerptAt(s))
  {
    var line := s[..k];
    var lines := Split(s, '\n');
    assert lines == [line] + Split(s[k + 1..], '\n');
    assert FirstNonBlank(lines) == Some(0);
    var q :| 0 <= q < k && !IsWhitespace(line[q]);
    assert s[q] == line[q];
    var p := FirstVisible(s);
    BlankBeforeFirstVisible(s);
    assert p <= q < k;
    assert LineStart(s, p) == 0;
    LineEndUnique(s, p, k);
    ExcerptAtLine(s, 0, k);
    assert s[0..k] == line;
  }

  lemma {:induction false} BlankFirstLineExcerpt(s: string, k: nat)
    requires k == CharIndex(s, '\n') && k < |s| && IsBlank(s[..k])
    requires FirstLineExcerpt(s[k + 1..]).None? <==> FirstVisible(s[k + 1..]) == |s[k + 1..]|
    requires FirstLineExcerpt(s[k + 1..]).Some? ==> FirstLineExcerpt(s[k + 1..]).value == ExcerptAt(s[k + 1..])
    ensures FirstLineExcerpt(s).None? <==> FirstVisible(s) == |s|
    ensures FirstLineExcerpt(s).Some? ==> FirstLineExcerpt(s).value == ExcerptAt(s)
  {
    SkipBlankLine(s, k);
    FirstVisibleSkip(s, k);
    if FirstVisible(s[k + 1..]) < |s[k + 1..]| {
      ExcerptAtSkip(s, k, s[k + 1..]);
    }
  }

  /** A blank first line does not contribute to the excerpt. */
  lemma {:induction false} SkipBlankLine(s: string, k: nat)
    requires k == CharIndex(s, '\n') && k < |s| && IsBlank(s[..k])
    ensures FirstLineExcerpt(s) == FirstLineExcerpt(s[k + 1..])
  {
    var rest := s[k + 1..];
    var lines := Split(s, '\n');
    var tail := Split(rest, '\n');
    assert lines == [s[..k]] + tail;
    assert lines[1..] == tail;
    assert IsBlank(lines[0]);
    match FirstNonBlank(tail)
    case None =>
    case Some(i) =>
      assert lines[i + 1] == tail[i];
  }

  lemma {:induction false} FirstVisibleSkip(s: string, k: nat)
    requires k == CharIndex(s, '\n') && k < |s| && IsBlank(s[..k])
    ensures FirstVisible(s) == k + 1 + FirstVisible(s[k + 1..])
  {
    var rest := s[k + 1..];
    var p' := FirstVisible(rest);
    BlankBeforeFirstVisible(rest);
    forall i | 0 <= i < k + 1 + p'
      ensures IsWhitespace(s[i])
    {
      if i < k {
        assert s[i] == s[..k][i];
      } else if i > k {
        assert s[i] == rest[i - k - 1];
      }
    }
    if p' < |rest| {
      assert s[k + 1 + p'] == rest[p'];
    }
    FirstVisibleUnique(s, k + 1 + p');
  }

  lemma {:induction false} ExcerptAtSkip(s: string, k: nat, rest: string)
    requires k < |s| && s[k] == '\n' && rest == s[k + 1..]
    requires FirstVisible(s) == k + 1 + FirstVisible(rest)
    requires FirstVisible(rest) < |rest|
    ensures ExcerptAt(s) == ExcerptAt(rest)
  {
    var p' := FirstVisible(rest);
    LineStartShift(s, k, p');
    LineEndShift(s, k, p');
    var j' := LineStart(rest, p');
    var e' := LineEnd(rest, p');
    SliceOfDrop(s, k + 1, j', e', rest);
    SameLineExcerpt(s, rest, FirstVisible(s), p', k + 1 + j', k + 1 + e', j', e');
  }

  /** Two texts whose first visible characters sit on the same line content
      have the same excerpt. */
  lemma {:induction false} SameLineExcerpt(s: string, t: string, p: nat, q: nat, j: nat, e: nat, j': nat, e': nat)
    requires FirstVisible(s) == p && p < |s| && FirstVisible(t) == q && q < |t|
    requires LineStart(s, p) == j && LineEnd(s, p) == e
    requires LineStart(t, q) == j' && LineEnd(t, q) == e'
    requires s[j..e] == t[j'..e']
    ensures ExcerptAt(s) == ExcerptAt(t)
  {
  }

  lemma {:induction false} SliceOfDrop(s: string, d: nat, a: nat, b: nat, rest: string)
    requires a <= b && d + b <= |s| && rest == s[d..]
    ensures s[d + a..d + b] == rest[a..b]
  {
  }

  /** `FirstVisible` is the only position with whitespace before it and a
      visible character (or the end) at it. */
  lemma {:induction false} FirstVisibleUnique(s: string, q: nat)
    requires q <= |s|
    requires forall i | 0 <= i < q :: IsWhitespace(s[i])
    requires q < |s| ==> !IsWhitespace(s[q])
    ensures FirstVisible(s) == q
  {
    BlankBeforeFirstVisible(s);
  }

  /** `LineEnd` is the only position at or after `p` with no line break
      between and a line break (or the end) at it. */
  lemma {:induction false} LineEndUnique(s: string, p: nat, e: nat)
    requires p <= e <= |s|
    requires forall i | p <= i < e :: s[i] != '\n'
    requires e == |s| || s[e] == '\n'
    ensures LineEnd(s, p) == e
    decreases e - p
  {
    if p < e {
      LineEndUnique(s, p + 1, e);
    }
  }

  /** After a line break, the start of a line is found the same way in the
      text that follows the break. */
  lemma {:induction false} LineStartShift(s: string, k: nat, p': nat)
    requires k < |s| && s[k] == '\n'
    requires p' <= |s| - k - 1
    ensures LineStart(s, k + 1 + p') == k + 1 + LineStart(s[k + 1..], p')
    decreases p'
  {
    var rest := s[k + 1..];
    if p' > 0 {
      assert s[k + p'] == rest[p' - 1];
      if rest[p' - 1] != '\n' {
        LineStartShift(s, k, p' - 1);
      }
    }
  }

  /** After a line break, the end of a line is found the same way in the
      text that follows the break. */
  lemma {:induction false} LineEndShift(s: string, k: nat, p': nat)
    requires k < |s| && s[k] == '\n'
    requires p' <= |s| - k - 1
    ensures LineEnd(s, k + 1 + p') == k + 1 + LineEnd(s[k + 1..], p')
  {
    var rest := s[k + 1..];
    var e' := LineEnd(rest, p');
    NoBreakBeforeLineEnd(rest, p');
    forall i | k + 1 + p' <= i < k + 1 + e'
      ensures s[i] != '\n'
    {
      assert s[i] == rest[i - k - 1];
    }
    if e' < |rest| {
      assert s[k + 1 + e'] == rest[e'];
    }
    LineEndUnique(s, k + 1 + p', k + 1 + e');
  }
}
