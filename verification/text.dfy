/** The string operations of the JavaScript runtime that the scripts rely on:
    `trim`, `split` on one character, `indexOf`, `endsWith`, and
    `String.prototype.replace` with a string pattern. Strings are sequences of
    characters; JavaScript counts UTF-16 code units instead, which differs only
    for characters outside the Basic Multilingual Plane. */
module Text {
  import opened Wrappers

  /** The code points ECMAScript classifies as WhiteSpace or LineTerminator,
      which `String.prototype.trim` removes from both ends. */
  predicate IsWhitespace(c: char) {
    || c == '\t' || c == '\n' || c == '\U{000B}' || c == '\U{000C}' || c == '\r'
    || c == ' ' || c == '\U{00A0}' || c == '\U{1680}'
    || ('\U{2000}' <= c <= '\U{200A}')
    || c == '\U{2028}' || c == '\U{2029}' || c == '\U{202F}' || c == '\U{205F}'
    || c == '\U{3000}' || c == '\U{FEFF}'
  }

  /** `s.trim()` is the empty string. */
  predicate IsBlank(s: string) {
    forall i | 0 <= i < |s| :: IsWhitespace(s[i])
  }

  /** `s.trim() === s`. */
  predicate IsTrimmed(s: string) {
    s == [] || (!IsWhitespace(s[0]) && !IsWhitespace(s[|s| - 1]))
  }

  function TrimStart(s: string): (r: string)
    ensures |r| <= |s| && r == s[|s| - |r|..]
    ensures IsBlank(s[..|s| - |r|])
    ensures r == [] || !IsWhitespace(r[0])
    decreases |s|
  {
    if s != [] && IsWhitespace(s[0]) then TrimStart(s[1..]) else s
  }

  function TrimEnd(s: string): (r: string)
    ensures |r| <= |s| && r == s[..|r|]
    ensures IsBlank(s[|r|..])
    ensures r == [] || !IsWhitespace(r[|r| - 1])
    decreases |s|
  {
    if s != [] && IsWhitespace(s[|s| - 1]) then
      var r := TrimEnd(s[..|s| - 1]);
      assert s[|r|..] == s[..|s| - 1][|r|..] + [s[|s| - 1]];
      r
    else s
  }

  /** `s.trim()`: the result is a piece of `s` whose cut-off ends are blank;
      it has no whitespace at either end, is empty exactly when `s` is blank,
      and leaves an already trimmed string alone. */
  function Trim(s: string): (r: string)
    ensures BlankCut(s, r)
    ensures IsTrimmed(r)
    ensures r == [] <==> IsBlank(s)
    ensures forall c :: c in r ==> c in s
    ensures IsTrimmed(s) ==> r == s
  {
    var t := TrimStart(s);
    var r := TrimEnd(t);
    TrimmedMiddle(s, t, r);
    BlankEnds(s, t, r);
    r
  }

  /** `r` is `s` with a blank run cut from each end. */
  predicate BlankCut(s: string, r: string) {
    exists a, b | 0 <= a <= b <= |s| :: r == s[a..b] && IsBlank(s[..a]) && IsBlank(s[b..])
  }

  /** The two cuts of `Trim` as one piece of `s`. */
  lemma {:induction false} BlankEnds(s: string, t: string, r: string)
    requires |t| <= |s| && t == s[|s| - |t|..] && IsBlank(s[..|s| - |t|])
    requires |r| <= |t| && r == t[..|r|] && IsBlank(t[|r|..])
    ensures BlankCut(s, r)
  {
    var a := |s| - |t|;
    var b := a + |r|;
    assert r == s[a..b];
    assert s[b..] == t[|r|..];
  }

  /** What is left after cutting a blank run from the front of `s` and then a
      blank run from the back: the facts `Trim` states. */
  lemma {:induction false} TrimmedMiddle(s: string, t: string, r: string)
    requires |t| <= |s| && t == s[|s| - |t|..] && IsBlank(s[..|s| - |t|])
    requires t == [] || !IsWhitespace(t[0])
    requires |r| <= |t| && r == t[..|r|] && IsBlank(t[|r|..])
    requires r == [] || !IsWhitespace(r[|r| - 1])
    ensures IsTrimmed(r)
    ensures r == [] <==> IsBlank(s)
    ensures forall c :: c in r ==> c in s
    ensures IsTrimmed(s) ==> r == s
  {
    assert t == r + t[|r|..];
    Ends(r, t[|r|..]);
    TrimmedBlank(s, t, r);
    TrimmedChars(s, t, r);
    TrimmedFixed(s, t, r);
  }

  lemma {:induction false} TrimmedBlank(s: string, t: string, r: string)
    requires |t| <= |s| && t == s[|s| - |t|..] && IsBlank(s[..|s| - |t|])
    requires t == [] || !IsWhitespace(t[0])
    requires |r| <= |t| && r == t[..|r|] && IsBlank(t[|r|..])
    requires r == [] || !IsWhitespace(r[|r| - 1])
    ensures r == [] <==> IsBlank(s)
  {
    var front := s[..|s| - |t|];
    assert s == front + t;
    Ends(front, t);
    if r == [] {
      assert t == t[|r|..];
      assert s == front;
    }
  }

  lemma {:induction false} TrimmedChars(s: string, t: string, r: string)
    requires |t| <= |s| && t == s[|s| - |t|..] && IsBlank(s[..|s| - |t|])
    requires t == [] || !IsWhitespace(t[0])
    requires |r| <= |t| && r == t[..|r|] && IsBlank(t[|r|..])
    requires r == [] || !IsWhitespace(r[|r| - 1])
    ensures forall c :: c in r ==> c in s
  {
    forall c | c in r
      ensures c in s
    {
      var i :| 0 <= i < |r| && r[i] == c;
      assert s[|s| - |t| + i] == t[i] == c;
    }
  }

  lemma {:induction false} TrimmedFixed(s: string, t: string, r: string)
    requires |t| <= |s| && t == s[|s| - |t|..] && IsBlank(s[..|s| - |t|])
    requires t == [] || !IsWhitespace(t[0])
    requires |r| <= |t| && r == t[..|r|] && IsBlank(t[|r|..])
    requires r == [] || !IsWhitespace(r[|r| - 1])
    ensures IsTrimmed(s) ==> r == s
  {
    var front := s[..|s| - |t|];
    var back := t[|r|..];
    assert s == front + t;
    assert t == r + back;
    Ends(front, t);
    Ends(r, back);
  }

  /** Where the characters at the ends and at the seam of `a + b` come from. */
  lemma {:induction false} Ends(a: string, b: string)
    ensures a != [] ==> (a + b)[0] == a[0]
    ensures b != [] ==> (a + b)[|a|] == b[0] && (a + b)[|a + b| - 1] == b[|b| - 1]
    ensures b == [] && a != [] ==> (a + b)[|a + b| - 1] == a[|a| - 1]
  {
  }

  /** The index of the first `c` in `s`, or `|s|` when there is none. */
  function CharIndex(s: string, c: char): (k: nat)
    ensures k <= |s|
    ensures k < |s| ==> s[k] == c
    ensures forall i | 0 <= i < k :: s[i] != c
    decreases |s|
  {
    if s == [] then 0 else if s[0] == c then 0 else 1 + CharIndex(s[1..], c)
  }

  /** `s.split(sep)` for a one-character separator. */
  function Split(s: string, sep: char): (r: seq<string>)
    ensures |r| >= 1
    ensures forall i | 0 <= i < |r| :: sep !in r[i]
    decreases |s|
  {
    var k := CharIndex(s, sep);
    if k == |s| then [s] else [s[..k]] + Split(s[k + 1..], sep)
  }

  /** `parts.join(sep)`. */
  function Join(parts: seq<string>, sep: char): string
    decreases |parts|
  {
    if |parts| == 0 then []
    else if |parts| == 1 then parts[0]
    else parts[0] + [sep] + Join(parts[1..], sep)
  }

  /** Joining the pieces of a split restores the string. */
  lemma {:induction false} JoinSplit(s: string, sep: char)
    ensures Join(Split(s, sep), sep) == s
    decreases |s|
  {
    var k := CharIndex(s, sep);
    if k < |s| {
      var rest := Split(s[k + 1..], sep);
      JoinSplit(s[k + 1..], sep);
      assert Split(s, sep) == [s[..k]] + rest;
      assert ([s[..k]] + rest)[1..] == rest;
      assert Join([s[..k]] + rest, sep) == s[..k] + [sep] + Join(rest, sep);
      assert s == s[..k] + [sep] + s[k + 1..];
    }
  }

  /** Splitting a join of separator-free pieces gives the pieces back. */
  lemma {:induction false} SplitJoin(parts: seq<string>, sep: char)
    requires |parts| >= 1
    requires forall i | 0 <= i < |parts| :: sep !in parts[i]
    ensures Split(Join(parts, sep), sep) == parts
    decreases |parts|
  {
    var s := Join(parts, sep);
    if |parts| == 1 {
      assert CharIndex(s, sep) == |s|;
    } else {
      var rest := Join(parts[1..], sep);
      assert s == parts[0] + [sep] + rest;
      assert s[|parts[0]|] == sep;
      assert forall i | 0 <= i < |parts[0]| :: s[i] == parts[0][i];
      assert CharIndex(s, sep) == |parts[0]|;
      assert s[..|parts[0]|] == parts[0];
      assert s[|parts[0]| + 1..] == rest;
      SplitJoin(parts[1..], sep);
    }
  }

  /** `pat` occurs in `s` at index `k`. */
  predicate OccursAt(s: string, pat: string, k: nat) {
    k + |pat| <= |s| && s[k..k + |pat|] == pat
  }

  /** `k` is the index `s.indexOf(pat)` reports. */
  predicate IsFirstOccurrence(s: string, pat: string, k: nat) {
    OccursAt(s, pat, k) && forall j | 0 <= j < k :: !OccursAt(s, pat, j)
  }

  function IndexOfFrom(s: string, pat: string, from: nat): (r: Option<nat>)
    ensures r.Some? ==> from <= r.value && OccursAt(s, pat, r.value)
    ensures r.Some? ==> forall j | from <= j < r.value :: !OccursAt(s, pat, j)
    ensures r.None? ==> forall j | from <= j :: !OccursAt(s, pat, j)
    decreases |s| - from
  {
    if from + |pat| > |s| then None
    else if s[from..from + |pat|] == pat then Some(from)
    else IndexOfFrom(s, pat, from + 1)
  }

  /** `s.indexOf(pat)`, with `None` for -1. */
  function IndexOf(s: string, pat: string): (r: Option<nat>)
    ensures r.Some? ==> IsFirstOccurrence(s, pat, r.value)
    ensures r.None? ==> forall j: nat :: !OccursAt(s, pat, j)
  {
    IndexOfFrom(s, pat, 0)
  }

  /** Replacing the first occurrence of `pat` by `repl` literally. */
  function ReplaceFirst(s: string, pat: string, repl: string): (r: string)
    ensures IndexOf(s, pat).None? ==> r == s
  {
    match IndexOf(s, pat)
    case None => s
    case Some(k) => s[..k] + repl + s[k + |pat|..]
  }

  /** `indexOf` has only one answer. */
  lemma {:induction false} FirstOccurrenceUnique(s: string, pat: string, k: nat)
    requires IsFirstOccurrence(s, pat, k)
    ensures IndexOf(s, pat) == Some(k)
  {
    var r := IndexOf(s, pat);
    if r.Some? {
      assert !(r.value < k) && !(k < r.value);
    }
  }

  /** Only the first occurrence changes. */
  lemma {:induction false} ReplaceFirstAt(s: string, pat: string, repl: string, k: nat)
    requires IsFirstOccurrence(s, pat, k)
    ensures ReplaceFirst(s, pat, repl) == s[..k] + repl + s[k + |pat|..]
  {
    FirstOccurrenceUnique(s, pat, k);
  }

  /** A string without `pat` is left alone. */
  lemma {:induction false} ReplaceFirstAbsent(s: string, pat: string, repl: string)
    requires forall j: nat :: !OccursAt(s, pat, j)
    ensures ReplaceFirst(s, pat, repl) == s
    ensures ReplaceFirstJs(s, pat, repl) == s
  {
  }

  /** The replacement template of `String.prototype.replace` with a string
      pattern (GetSubstitution of ECMAScript with no capture groups): `$$`
      stands for `$`, `$&` for the matched text, `` $` `` for the text before
      the match and `$'` for the text after it; every other `$` is literal. */
  function Expand(t: string, matched: string, before: string, after: string): (r: string)
    ensures '$' !in t ==> r == t
    decreases |t|
  {
    if t == [] then []
    else if t[0] == '$' && |t| >= 2 && t[1] == '$' then "$" + Expand(t[2..], matched, before, after)
    else if t[0] == '$' && |t| >= 2 && t[1] == '&' then matched + Expand(t[2..], matched, before, after)
    else if t[0] == '$' && |t| >= 2 && t[1] == '`' then before + Expand(t[2..], matched, before, after)
    else if t[0] == '$' && |t| >= 2 && t[1] == '\'' then after + Expand(t[2..], matched, before, after)
    else [t[0]] + Expand(t[1..], matched, before, after)
  }

  /** `s.replace(pat, repl)` as JavaScript evaluates it: the first occurrence of
      `pat` is replaced by the expansion of the template `repl`. */
  function ReplaceFirstJs(s: string, pat: string, repl: string): (r: string)
    ensures IndexOf(s, pat).None? ==> r == s
  {
    match IndexOf(s, pat)
    case None => s
    case Some(k) => s[..k] + Expand(repl, s[k..k + |pat|], s[..k], s[k + |pat|..]) + s[k + |pat|..]
  }

  /** The first occurrence is replaced by the expanded template, in which `$&`
      stands for `pat` itself. */
  lemma {:induction false} ReplaceFirstJsAt(s: string, pat: string, repl: string, k: nat)
    requires IsFirstOccurrence(s, pat, k)
    ensures ReplaceFirstJs(s, pat, repl) == s[..k] + Expand(repl, pat, s[..k], s[k + |pat|..]) + s[k + |pat|..]
  {
    FirstOccurrenceUnique(s, pat, k);
  }

  /** Without `$` in the template, the JavaScript replacement is the literal one. */
  lemma {:induction false} ReplaceFirstJsPlain(s: string, pat: string, repl: string)
    requires '$' !in repl
    ensures ReplaceFirstJs(s, pat, repl) == ReplaceFirst(s, pat, repl)
  {
    match IndexOf(s, pat)
    case None =>
    case Some(k) =>
      assert Expand(repl, s[k..k + |pat|], s[..k], s[k + |pat|..]) == repl;
  }

  /** `s.endsWith(suffix)`. */
  predicate EndsWith(s: string, suffix: string) {
    |suffix| <= |s| && s[|s| - |suffix|..] == suffix
  }

  /** `s` without its leading run of `c`. */
  function DropLeading(s: string, c: char): (r: string)
    ensures |r| <= |s| && r == s[|s| - |r|..]
    ensures r == [] || r[0] != c
    ensures forall i | 0 <= i < |s| - |r| :: s[i] == c
    decreases |s|
  {
    if s != [] && s[0] == c then DropLeading(s[1..], c) else s
  }

  /** `s` without its trailing run of `c`. */
  function DropTrailing(s: string, c: char): (r: string)
    ensures |r| <= |s| && r == s[..|r|]
    ensures r == [] || r[|r| - 1] != c
    ensures forall i | |r| <= i < |s| :: s[i] == c
    decreases |s|
  {
    if s != [] && s[|s| - 1] == c then DropTrailing(s[..|s| - 1], c) else s
  }

  /** The part of `s` after its last `c` (all of `s` when it has none). */
  function AfterLast(s: string, c: char): (r: string)
    ensures |r| <= |s| && r == s[|s| - |r|..]
    ensures c !in r
    ensures |r| < |s| ==> s[|s| - |r| - 1] == c
    decreases |s|
  {
    if s == [] then []
    else if s[|s| - 1] == c then []
    else
      var init := s[..|s| - 1];
      var t := AfterLast(init, c);
      AfterLastStep(s, init, t);
      t + [s[|s| - 1]]
  }

  lemma {:induction false} AfterLastStep<T>(s: seq<T>, init: seq<T>, t: seq<T>)
    requires s != [] && init == s[..|s| - 1]
    requires |t| <= |init| && t == init[|init| - |t|..]
    ensures |t| + 1 <= |s| && t + [s[|s| - 1]] == s[|s| - |t| - 1..]
    ensures |t| < |init| ==> s[|s| - |t| - 2] == init[|init| - |t| - 1]
  {
    assert s == init + [s[|s| - 1]];
  }

  /** Whatever precedes it, the part after the last `c` of `prefix + [c] + tail`
      is `tail` when `tail` has no `c`. */
  lemma {:induction false} AfterLastAppend(prefix: string, c: char, tail: string)
    requires c !in tail
    ensures AfterLast(prefix + [c] + tail, c) == tail
    decreases |tail|
  {
    var s := prefix + [c] + tail;
    if tail != [] {
      assert s[..|s| - 1] == prefix + [c] + tail[..|tail| - 1];
      AfterLastAppend(prefix, c, tail[..|tail| - 1]);
      assert tail == tail[..|tail| - 1] + [tail[|tail| - 1]];
    }
  }
}
