/** The slug generator of both scripts: `slugify` and the per-post slug
    `slugify(title || "post-<id>") + "-<id>"`. Lower-casing is modelled for
    ASCII letters only. */
module Slug {
  import opened Wrappers
  import opened Text
  import opened Decimal

  /** The characters the pattern `[a-z0-9]` accepts. */
  predicate IsSlugChar(c: char) {
    ('a' <= c <= 'z') || ('0' <= c <= '9')
  }

  /** ASCII letters and digits, in either case. */
  predicate IsAsciiAlnum(c: char) {
    ('a' <= c <= 'z') || ('A' <= c <= 'Z') || ('0' <= c <= '9')
  }

  function LowerChar(c: char): char {
    if 'A' <= c <= 'Z' then (c as int + 32) as char else c
  }

  /** `toLowerCase` on ASCII letters. */
  function Lower(s: string): string {
    seq(|s|, i requires 0 <= i < |s| => LowerChar(s[i]))
  }

  /** Only `[a-z0-9]` and single hyphens between them: the shape
      `replace(/[^a-z0-9]+/g, '-')` produces. */
  predicate HyphenatedWords(s: string) {
    && (forall i | 0 <= i < |s| :: IsSlugChar(s[i]) || s[i] == '-')
    && (forall i, j | 0 <= i < |s| && 0 <= j < |s| && j == i + 1 :: !(s[i] == '-' && s[j] == '-'))
  }

  /** A non-empty string over `[a-z0-9-]` with no leading, trailing or doubled hyphen. */
  predicate IsSlug(s: string) {
    s != [] && HyphenatedWords(s) && s[0] != '-' && s[|s| - 1] != '-'
  }

  /** The characters of `s` that `[a-z0-9]` accepts, in order. */
  function Keep(s: string): string
    decreases |s|
  {
    if s == [] then [] else (if IsSlugChar(s[0]) then [s[0]] else []) + Keep(s[1..])
  }

  lemma {:induction false} KeepAppend(a: string, b: string)
    ensures Keep(a + b) == Keep(a) + Keep(b)
    decreases |a|
  {
    if a == [] {
      assert a + b == b;
    } else {
      var head := if IsSlugChar(a[0]) then [a[0]] else [];
      assert (a + b)[0] == a[0];
      assert (a + b)[1..] == a[1..] + b;
      KeepAppend(a[1..], b);
      assert Keep(a + b) == head + (Keep(a[1..]) + Keep(b));
      assert Keep(a) == head + Keep(a[1..]);
    }
  }

  lemma {:induction false} KeepNone(s: string)
    requires forall i | 0 <= i < |s| :: !IsSlugChar(s[i])
    ensures Keep(s) == []
    decreases |s|
  {
    if s != [] {
      KeepNone(s[1..]);
    }
  }

  /** The suffix of `s` after its leading run of characters outside `[a-z0-9]`. */
  function SkipRun(s: string): (r: string)
    ensures |r| <= |s| && r == s[|s| - |r|..]
    ensures r == [] || IsSlugChar(r[0])
    ensures forall i | 0 <= i < |s| - |r| :: !IsSlugChar(s[i])
    ensures s != [] && !IsSlugChar(s[0]) ==> |r| < |s|
    decreases |s|
  {
    if s != [] && !IsSlugChar(s[0]) then SkipRun(s[1..]) else s
  }

  /** `s.replace(/[^a-z0-9]+/g, '-')`: each maximal run of characters outside
      `[a-z0-9]` becomes one hyphen. */
  function Collapse(s: string): string
    decreases |s|
  {
    if s == [] then []
    else if IsSlugChar(s[0]) then [s[0]] + Collapse(s[1..])
    else "-" + Collapse(SkipRun(s))
  }

  /** What `Collapse` produces: hyphenated words carrying exactly the letters
      and digits of the input, in order, starting with the input's first
      character when that is a letter or digit. */
  lemma {:induction false} CollapseSpec(s: string)
    ensures HyphenatedWords(Collapse(s))
    ensures Keep(Collapse(s)) == Keep(s)
    ensures Collapse(s) == [] <==> s == []
    ensures s != [] && IsSlugChar(s[0]) ==> Collapse(s)[0] == s[0]
    decreases |s|
  {
    if s == [] {
    } else if IsSlugChar(s[0]) {
      CollapseSpec(s[1..]);
      CollapseWordStep(s, Collapse(s[1..]), Collapse(s));
    } else {
      var t := SkipRun(s);
      CollapseSpec(t);
      CollapseRunStep(s, t, Collapse(t), Collapse(s));
    }
  }

  lemma {:induction false} CollapseWordStep(s: string, rest: string, out: string)
    requires s != [] && IsSlugChar(s[0]) && out == [s[0]] + rest
    requires HyphenatedWords(rest) && Keep(rest) == Keep(s[1..])
    ensures HyphenatedWords(out) && Keep(out) == Keep(s) && out != [] && out[0] == s[0]
  {
    ConsWord(s[0], rest);
  }

  lemma {:induction false} CollapseRunStep(s: string, t: string, rest: string, out: string)
    requires |t| < |s| && t == s[|s| - |t|..] && (t == [] || IsSlugChar(t[0]))
    requires forall i | 0 <= i < |s| - |t| :: !IsSlugChar(s[i])
    requires out == "-" + rest
    requires HyphenatedWords(rest) && Keep(rest) == Keep(t) && (rest == [] <==> t == [])
    requires t != [] ==> rest[0] == t[0]
    ensures HyphenatedWords(out) && Keep(out) == Keep(s) && out != []
  {
    assert s == s[..|s| - |t|] + t;
    KeepAppend(s[..|s| - |t|], t);
    KeepNone(s[..|s| - |t|]);
    ConsHyphen(rest);
  }

  lemma {:induction false} ConsWord(c: char, rest: string)
    requires IsSlugChar(c) && HyphenatedWords(rest)
    ensures HyphenatedWords([c] + rest)
    ensures Keep([c] + rest) == [c] + Keep(rest)
  {
    var r := [c] + rest;
    assert r[1..] == rest;
    forall i, j | 0 <= i < |r| && 0 <= j < |r| && j == i + 1
      ensures !(r[i] == '-' && r[j] == '-')
    {
      if i > 0 {
        assert r[i] == rest[i - 1] && r[j] == rest[j - 1];
      }
    }
  }

  lemma {:induction false} ConsHyphen(rest: string)
    requires HyphenatedWords(rest) && (rest == [] || IsSlugChar(rest[0]))
    ensures HyphenatedWords("-" + rest)
    ensures Keep("-" + rest) == Keep(rest)
  {
    var r := "-" + rest;
    assert r[1..] == rest;
    forall i, j | 0 <= i < |r| && 0 <= j < |r| && j == i + 1
      ensures !(r[i] == '-' && r[j] == '-')
    {
      if i > 0 {
        assert r[i] == rest[i - 1] && r[j] == rest[j - 1];
      } else {
        assert r[j] == rest[0];
      }
    }
  }

  /** The substring `s[a..b]` of hyphenated words is hyphenated words. */
  lemma {:induction false} HyphenatedSlice(s: string, a: nat, b: nat)
    requires a <= b <= |s|
    requires HyphenatedWords(s)
    ensures HyphenatedWords(s[a..b])
  {
    var t := s[a..b];
    forall i, j | 0 <= i < j < |t| && j == i + 1
      ensures !(t[i] == '-' && t[j] == '-')
    {
      assert t[i] == s[a + i] && t[j] == s[a + j];
    }
  }

  /** Dropping characters outside `[a-z0-9]` does not change `Keep`. */
  lemma {:induction false} KeepSliceOfNone(s: string, a: nat, b: nat)
    requires a <= b <= |s|
    requires forall i | 0 <= i < a :: !IsSlugChar(s[i])
    requires forall i | b <= i < |s| :: !IsSlugChar(s[i])
    ensures Keep(s[a..b]) == Keep(s)
  {
    assert s == s[..a] + s[a..b] + s[b..];
    KeepAppend(s[..a] + s[a..b], s[b..]);
    KeepAppend(s[..a], s[a..b]);
    KeepNone(s[..a]);
    KeepNone(s[b..]);
  }

  /** `s.replace(/^-+|-+$/g, '')`: drops the hyphens at both ends. */
  function StripHyphens(s: string): (r: string)
    requires HyphenatedWords(s)
    ensures HyphenatedWords(r)
    ensures r == [] || (r[0] != '-' && r[|r| - 1] != '-')
    ensures Keep(r) == Keep(s)
  {
    var t := DropLeading(s, '-');
    var r := DropTrailing(t, '-');
    StripSlice(s, t, r);
    r
  }

  lemma {:induction false} StripSlice(s: string, t: string, r: string)
    requires HyphenatedWords(s)
    requires |t| <= |s| && t == s[|s| - |t|..] && (t == [] || t[0] != '-')
    requires forall i | 0 <= i < |s| - |t| :: s[i] == '-'
    requires |r| <= |t| && r == t[..|r|] && (r == [] || r[|r| - 1] != '-')
    requires forall i | |r| <= i < |t| :: t[i] == '-'
    ensures HyphenatedWords(r)
    ensures r == [] || (r[0] != '-' && r[|r| - 1] != '-')
    ensures Keep(r) == Keep(s)
  {
    var a := |s| - |t|;
    assert r == s[a..a + |r|];
    HyphenatedSlice(s, a, a + |r|);
    KeepSliceOfNone(s, a, a + |r|);
    if r != [] {
      assert r[0] == t[0];
    }
  }

  /** `slugify(s)`: never empty, only `[a-z0-9-]`, no hyphen at either end and
      no doubled hyphen. */
  function Slugify(s: string): (r: string)
    ensures IsSlug(r)
  {
    var c := Collapse(Trim(Lower(s)));
    CollapseSpec(Trim(Lower(s)));
    var t := StripHyphens(c);
    if t == [] then PostIsSlug(); "post" else t
  }

  lemma {:induction false} PostIsSlug()
    ensures IsSlug("post")
  {
    var p := "post";
    assert forall i | 0 <= i < |p| :: IsSlugChar(p[i]);
  }

  lemma {:induction false} KeepBlank(s: string)
    requires IsBlank(s)
    ensures Keep(s) == []
  {
    forall i | 0 <= i < |s|
      ensures !IsSlugChar(s[i])
    {
      assert IsWhitespace(s[i]);
    }
    KeepNone(s);
  }

  /** Whitespace is outside `[a-z0-9]`, so trimming keeps the same letters and digits. */
  lemma {:induction false} KeepTrim(s: string)
    ensures Keep(Trim(s)) == Keep(s)
  {
    var t := TrimStart(s);
    var r := TrimEnd(t);
    KeepTrimmed(s, t, r);
    assert Trim(s) == r;
  }

  lemma {:induction false} KeepTrimmed(s: string, t: string, r: string)
    requires |t| <= |s| && t == s[|s| - |t|..] && IsBlank(s[..|s| - |t|])
    requires |r| <= |t| && r == t[..|r|] && IsBlank(t[|r|..])
    ensures Keep(r) == Keep(s)
  {
    KeepBlankHead(s, |s| - |t|);
    KeepBlankTail(t, |r|);
  }

  lemma {:induction false} KeepBlankHead(s: string, n: nat)
    requires n <= |s| && IsBlank(s[..n])
    ensures Keep(s[n..]) == Keep(s)
  {
    assert s == s[..n] + s[n..];
    KeepBlank(s[..n]);
    KeepAppend(s[..n], s[n..]);
  }

  lemma {:induction false} KeepBlankTail(s: string, n: nat)
    requires n <= |s| && IsBlank(s[n..])
    ensures Keep(s[..n]) == Keep(s)
  {
    assert s == s[..n] + s[n..];
    KeepBlank(s[n..]);
    KeepAppend(s[..n], s[n..]);
  }

  /** A string with a letter or digit somewhere keeps at least that one. */
  lemma {:induction false} KeepHas(s: string, i: nat)
    requires i < |s| && IsSlugChar(s[i])
    ensures Keep(s) != []
    decreases i
  {
    if i > 0 && !IsSlugChar(s[0]) {
      KeepHas(s[1..], i - 1);
    }
  }

  /** Hyphenated words without any letter or digit are at most one hyphen. */
  lemma {:induction false} HyphensOnly(s: string)
    requires HyphenatedWords(s)
    ensures Keep(s) == [] ==> |s| <= 1
  {
    if |s| >= 2 {
      if s[0] != '-' {
        KeepHas(s, 0);
      } else {
        KeepHas(s, 1);
      }
    }
  }

  lemma {:induction false} KeepNonEmpty(s: string)
    requires Keep(s) != []
    ensures exists i :: 0 <= i < |s| && IsSlugChar(s[i])
    decreases |s|
  {
    if !IsSlugChar(s[0]) {
      KeepNonEmpty(s[1..]);
      var i :| 0 <= i < |s[1..]| && IsSlugChar(s[1..][i]);
      assert IsSlugChar(s[i + 1]);
    }
  }

  /** The letters and digits of the lower-cased input survive in order; an
      input with none of them gives `"post"`. */
  lemma {:induction false} SlugifyKeepsAlnum(s: string)
    ensures Keep(Lower(s)) == [] ==> Slugify(s) == "post"
    ensures Keep(Lower(s)) != [] ==> Keep(Slugify(s)) == Keep(Lower(s))
  {
    var c := Collapse(Trim(Lower(s)));
    CollapseSpec(Trim(Lower(s)));
    var t := StripHyphens(c);
    KeepTrim(Lower(s));
    if Keep(Lower(s)) == [] {
      HyphensOnly(t);
      assert t != "-";
    } else {
      KeepNonEmpty(t);
    }
  }

  /** A title without any ASCII letter or digit gives the slug `"post"`. */
  lemma {:induction false} SlugifyWithoutAlnum(s: string)
    requires forall i | 0 <= i < |s| :: !IsAsciiAlnum(s[i])
    ensures Slugify(s) == "post"
  {
    KeepNone(Lower(s));
    SlugifyKeepsAlnum(s);
  }

  /** Every step of `slugify` leaves a slug unchanged. */
  lemma {:induction false} CollapseFixesHyphenated(s: string)
    requires HyphenatedWords(s)
    ensures Collapse(s) == s
    decreases |s|
  {
    if s != [] {
      HyphenatedSlice(s, 1, |s|);
      CollapseFixesHyphenated(s[1..]);
      if !IsSlugChar(s[0]) {
        assert SkipRun(s) == s[1..];
      }
    }
  }

  lemma {:induction false} SlugifyFixesSlugs(s: string)
    requires IsSlug(s)
    ensures Slugify(s) == s
  {
    assert Lower(s) == s by {
      forall i | 0 <= i < |s|
        ensures Lower(s)[i] == s[i]
      {
        assert IsSlugChar(s[i]) || s[i] == '-';
      }
    }
    var first, last := s[0], s[|s| - 1];
    assert IsSlugChar(first) || first == '-';
    assert IsSlugChar(last) || last == '-';
    assert IsTrimmed(s);
    assert Trim(s) == s;
    CollapseFixesHyphenated(s);
    CollapseSpec(s);
    StripSlug(s);
  }

  /** `slugify` is idempotent. */
  lemma {:induction false} SlugifyIdempotent(s: string)
    ensures Slugify(Slugify(s)) == Slugify(s)
  {
    SlugifyFixesSlugs(Slugify(s));
  }

  /** `issue.title || "post-<id>"`: what the slug is computed from. */
  function SlugSource(title: Option<string>, id: nat): string {
    if title.Some? && title.value != "" then title.value else "post-" + NatToString(id)
  }

  /** `issue.title || "Post <id>"`: the post's displayed title, never empty. */
  function DisplayTitle(title: Option<string>, id: nat): (r: string)
    ensures r != []
    ensures title.Some? && title.value != "" ==> r == title.value
  {
    if title.Some? && title.value != "" then title.value else "Post " + NatToString(id)
  }

  /** Two slugs joined by one hyphen form a slug. */
  lemma {:induction false} JoinSlugs(a: string, b: string)
    requires IsSlug(a) && IsSlug(b)
    ensures IsSlug(a + "-" + b)
  {
    var r := a + "-" + b;
    forall i | 0 <= i < |r|
      ensures IsSlugChar(r[i]) || r[i] == '-'
    {
      if i < |a| {
        assert r[i] == a[i];
      } else if i > |a| {
        assert r[i] == b[i - |a| - 1];
      }
    }
    forall i, j | 0 <= i < j < |r| && j == i + 1
      ensures !(r[i] == '-' && r[j] == '-')
    {
      if j < |a| {
        assert r[i] == a[i] && r[j] == a[j];
      } else if i == |a| - 1 {
        assert r[i] == a[i];
      } else if i == |a| {
        assert r[j] == b[0];
      } else {
        assert r[i] == b[i - |a| - 1] && r[j] == b[j - |a| - 1];
      }
    }
  }

  /** A decimal numeral is a slug. */
  lemma {:induction false} DigitsAreSlug(d: string)
    requires d != [] && AllDigits(d)
    ensures IsSlug(d)
  {
  }

  /** `base + "-" + id`: ends in the id, and is a slug when `base` is. */
  function AppendId(base: string, id: nat): (r: string)
    ensures EndsWith(r, "-" + NatToString(id))
    ensures IsSlug(base) ==> IsSlug(r)
  {
    var digits := NatToString(id);
    var tail := "-" + digits;
    assert base + "-" + digits == base + tail;
    assert IsSlug(base) ==> IsSlug(base + tail) by {
      if IsSlug(base) {
        DigitsAreSlug(digits);
        JoinSlugs(base, digits);
      }
    }
    assert (base + tail)[|base|..] == tail;
    base + tail
  }

  /** The slug of a post, `slugify(title || "post-<id>") + "-<id>"`: itself a
      slug, ending in `-<id>`. */
  function SlugFor(title: Option<string>, id: nat): (r: string)
    ensures IsSlug(r)
    ensures EndsWith(r, "-" + NatToString(id))
  {
    var base := Slugify(SlugSource(title, id));
    var r := AppendId(base, id);
    assert IsSlug(r) && EndsWith(r, "-" + NatToString(id));
    r
  }

  /** The number a slug ends with: the digits after its last hyphen. */
  function IdOfSlug(slug: string): Option<nat> {
    var d := AfterLast(slug, '-');
    if d != [] && AllDigits(d) then Some(ParseDigits(d)) else None
  }

  /** The id can be read back from the slug. */
  lemma {:induction false} SlugForRecoversId(title: Option<string>, id: nat)
    ensures IdOfSlug(SlugFor(title, id)) == Some(id)
  {
    var base := Slugify(SlugSource(title, id));
    SlugForIs(title, id, base);
    IdAfterHyphen(base, id);
  }

  lemma {:induction false} IdAfterHyphen(base: string, id: nat)
    ensures IdOfSlug(base + "-" + NatToString(id)) == Some(id)
  {
    var digits := NatToString(id);
    assert forall i | 0 <= i < |digits| :: digits[i] != '-';
    AfterLastAppend(base, '-', digits);
    ParseNatToString(id);
  }

  /** Posts with different ids get different slugs, whatever their titles. */
  lemma {:induction false} SlugForDistinguishesIds(t1: Option<string>, id1: nat, t2: Option<string>, id2: nat)
    requires id1 != id2
    ensures SlugFor(t1, id1) != SlugFor(t2, id2)
  {
    SlugForRecoversId(t1, id1);
    SlugForRecoversId(t2, id2);
  }

  /** A run of letters and digits passes through `Collapse` unchanged. */
  lemma {:induction false} CollapseWord(w: string, rest: string)
    requires forall i | 0 <= i < |w| :: IsSlugChar(w[i])
    ensures Collapse(w + rest) == w + Collapse(rest)
    decreases |w|
  {
    if w == [] {
      assert w + rest == rest;
    } else {
      ConsSplit(w, rest);
      CollapseWord(w[1..], rest);
      ConsSplit(w, Collapse(rest));
    }
  }

  lemma {:induction false} ConsSplit<T>(w: seq<T>, x: seq<T>)
    requires w != []
    ensures w + x == [w[0]] + (w[1..] + x)
    ensures (w + x)[0] == w[0] && (w + x)[1..] == w[1..] + x
  {
    assert w == [w[0]] + w[1..];
  }

  lemma {:induction false} SkipRunGap(g: string, rest: string)
    requires forall i | 0 <= i < |g| :: !IsSlugChar(g[i])
    requires rest == [] || IsSlugChar(rest[0])
    ensures SkipRun(g + rest) == rest
    decreases |g|
  {
    if g == [] {
      assert g + rest == rest;
    } else {
      assert (g + rest)[0] == g[0];
      assert (g + rest)[1..] == g[1..] + rest;
      SkipRunGap(g[1..], rest);
    }
  }

  /** A non-empty run of other characters becomes a single hyphen. */
  lemma {:induction false} CollapseGap(g: string, rest: string)
    requires g != [] && forall i | 0 <= i < |g| :: !IsSlugChar(g[i])
    requires rest == [] || IsSlugChar(rest[0])
    ensures Collapse(g + rest) == "-" + Collapse(rest)
  {
    assert (g + rest)[0] == g[0];
    SkipRunGap(g, rest);
  }

  /** Two lower-case words separated by a run of punctuation and spaces become
      the two words joined by one hyphen, as `"hello, world"` becomes
      `"hello-world"`. */
  lemma {:induction false} SlugifyTwoWords(w1: string, g: string, w2: string)
    requires w1 != [] && forall i | 0 <= i < |w1| :: IsSlugChar(w1[i])
    requires w2 != [] && forall i | 0 <= i < |w2| :: IsSlugChar(w2[i])
    requires g != [] && forall i | 0 <= i < |g| :: !IsAsciiAlnum(g[i])
    ensures Slugify(w1 + g + w2) == w1 + "-" + w2
  {
    TwoWordsPrepared(w1, g, w2);
    TwoWordsCollapse(w1, g, w2);
    JoinSlugs(w1, w2);
    SlugifyOfSlug(w1 + g + w2, w1 + "-" + w2);
  }

  lemma {:induction false} TwoWordsPrepared(w1: string, g: string, w2: string)
    requires w1 != [] && forall i | 0 <= i < |w1| :: IsSlugChar(w1[i])
    requires w2 != [] && forall i | 0 <= i < |w2| :: IsSlugChar(w2[i])
    requires forall i | 0 <= i < |g| :: !IsAsciiAlnum(g[i])
    ensures Trim(Lower(w1 + g + w2)) == w1 + g + w2
  {
    var s := w1 + g + w2;
    LowerFixes(s);
    assert s[0] == w1[0] && s[|s| - 1] == w2[|w2| - 1];
    assert IsTrimmed(s);
  }

  lemma {:induction false} TwoWordsCollapse(w1: string, g: string, w2: string)
    requires forall i | 0 <= i < |w1| :: IsSlugChar(w1[i])
    requires w2 != [] && forall i | 0 <= i < |w2| :: IsSlugChar(w2[i])
    requires g != [] && forall i | 0 <= i < |g| :: !IsAsciiAlnum(g[i])
    ensures Collapse(w1 + g + w2) == w1 + "-" + w2
  {
    assert w1 + g + w2 == w1 + (g + w2);
    CollapseWord(w2, []);
    assert w2 + [] == w2;
    CollapseGap(g, w2);
    CollapseWord(w1, g + w2);
  }

  /** When the prepared string collapses to a slug, that slug is the result. */
  lemma {:induction false} SlugifyOfSlug(s: string, c: string)
    requires Collapse(Trim(Lower(s))) == c && IsSlug(c)
    ensures Slugify(s) == c
  {
    StripSlug(c);
  }

  /** `toLowerCase` leaves a string without upper-case ASCII letters alone. */
  lemma {:induction false} LowerFixes(s: string)
    requires forall i | 0 <= i < |s| :: !('A' <= s[i] <= 'Z')
    ensures Lower(s) == s
  {
  }

  /** A slug has no hyphens at either end to strip. */
  lemma {:induction false} StripSlug(s: string)
    requires IsSlug(s)
    ensures StripHyphens(s) == s
  {
    assert DropLeading(s, '-') == s;
    assert DropTrailing(s, '-') == s;
  }

  /** A post slug is the slugified source, a hyphen and the id. */
  lemma {:induction false} SlugForIs(title: Option<string>, id: nat, base: string)
    requires Slugify(SlugSource(title, id)) == base
    ensures SlugFor(title, id) == base + "-" + NatToString(id)
  {
    AppendIdIs(base, id);
  }

  lemma {:induction false} AppendIdIs(base: string, id: nat)
    ensures AppendId(base, id) == base + "-" + NatToString(id)
  {
  }

  /** A title that already is a slug is used as it is, followed by the id. */
  lemma {:induction false} SlugForSlugTitle(title: string, id: nat)
    requires IsSlug(title)
    ensures SlugFor(Some(title), id) == title + "-" + NatToString(id)
  {
    SlugifyFixesSlugs(title);
    SlugForIs(Some(title), id, title);
  }

  /** Without a title (absent or empty) the slug is computed from `post-<id>`,
      so the id appears twice: `post-<id>-<id>`. */
  lemma {:induction false} SlugForUntitled(title: Option<string>, id: nat)
    requires title.None? || title.value == ""
    ensures SlugFor(title, id) == "post-" + NatToString(id) + "-" + NatToString(id)
  {
    var digits := NatToString(id);
    PostIsSlug();
    DigitsAreSlug(digits);
    JoinSlugs("post", digits);
    assert SlugSource(title, id) == "post" + "-" + digits;
    SlugifyFixesSlugs("post" + "-" + digits);
    SlugForIs(title, id, "post" + "-" + digits);
  }
  /** `"Hello, World!"` with number 42 gives the slug `hello-world-42`: the
      letters are lower-cased, the comma and space become one hyphen, and the
      hyphen left by the final `!` is stripped. */
  lemma {:induction false} SlugForHelloWorld(title: string, id: nat)
    requires title == "Hello, World!" && id == 42
    ensures SlugFor(Some(title), id) == "hello-world-42"
  {
    var w1, w2 := "hello", "world";
    SlugifyHello(title, w1, w2);
    FortyTwo(id);
    SlugForIs(Some(title), id, w1 + "-" + w2);
    HelloText(w1, w2, NatToString(id));
  }

  /** The title part of the slug: `"Hello, World!"` becomes `hello-world`. */
  lemma {:induction false} SlugifyHello(title: string, w1: string, w2: string)
    requires title == "Hello, World!" && w1 == "hello" && w2 == "world"
    ensures Slugify(title) == w1 + "-" + w2
  {
    var g, bang := ", ", "!";
    HelloLower(title, w1, g, w2, bang);
    HelloWords(w1, w2);
    HelloPunct(g, bang);
    SlugifyWordsPunct(title, w1, g, w2, bang);
  }

  /** A title that lower-cases to two words, a run of punctuation between
      them and a run after them, with no whitespace at either end, has slug
      `word1-word2`. */
  lemma {:induction false} SlugifyWordsPunct(title: string, w1: string, g: string, w2: string, bang: string)
    requires Lower(title) == w1 + (g + (w2 + bang)) && IsTrimmed(w1 + (g + (w2 + bang)))
    requires IsSlug(w1) && IsSlug(w2)
    requires forall i | 0 <= i < |w1| :: IsSlugChar(w1[i])
    requires forall i | 0 <= i < |w2| :: IsSlugChar(w2[i])
    requires g != [] && forall i | 0 <= i < |g| :: !IsSlugChar(g[i])
    requires bang != [] && forall i | 0 <= i < |bang| :: !IsSlugChar(bang[i])
    ensures Slugify(title) == w1 + "-" + w2
  {
    var prepared := w1 + (g + (w2 + bang));
    assert Trim(Lower(title)) == prepared;
    var t := w1 + "-" + w2;
    CollapseWordsPunct(w1, g, w2, bang);
    JoinSlugs(w1, w2);
    HyphenAfter(w1, w2, t);
    StripTrailingHyphen(t);
    SlugifySteps(title, prepared, t + "-", t);
  }

  lemma {:induction false} HyphenAfter(w1: string, w2: string, t: string)
    requires t == w1 + "-" + w2
    ensures w1 + ("-" + (w2 + "-")) == t + "-"
  {
  }

  lemma {:induction false} HelloPunct(g: string, bang: string)
    requires g == ", " && bang == "!"
    ensures g != [] && forall i | 0 <= i < |g| :: !IsSlugChar(g[i])
    ensures bang != [] && forall i | 0 <= i < |bang| :: !IsSlugChar(bang[i])
  {
  }

  /** `slugify` read off its three stages. */
  lemma {:induction false} SlugifySteps(s: string, prepared: string, collapsed: string, t: string)
    requires Trim(Lower(s)) == prepared && Collapse(prepared) == collapsed
    requires HyphenatedWords(collapsed) && StripHyphens(collapsed) == t && t != []
    ensures Slugify(s) == t
  {
  }

  /** The hyphen a trailing run of punctuation leaves after a slug is stripped. */
  lemma {:induction false} StripTrailingHyphen(t: string)
    requires IsSlug(t)
    ensures HyphenatedWords(t + "-") && StripHyphens(t + "-") == t
  {
    var c := t + "-";
    assert c[0] == t[0] && c[..|t|] == t;
    assert DropLeading(c, '-') == c;
    assert DropTrailing(c, '-') == DropTrailing(t, '-');
    assert DropTrailing(t, '-') == t;
  }

  lemma {:induction false} HelloLower(title: string, w1: string, g: string, w2: string, bang: string)
    requires title == "Hello, World!" && w1 == "hello" && g == ", " && w2 == "world" && bang == "!"
    ensures Lower(title) == w1 + (g + (w2 + bang)) && IsTrimmed(w1 + (g + (w2 + bang)))
  {
    assert Lower(title) == w1 + (g + (w2 + bang));
  }

  /** A word, a run of punctuation, a word and a final run of punctuation
      collapse to `word-word-`. */
  lemma {:induction false} CollapseWordsPunct(w1: string, g: string, w2: string, tail: string)
    requires forall i | 0 <= i < |w1| :: IsSlugChar(w1[i])
    requires w2 != [] && forall i | 0 <= i < |w2| :: IsSlugChar(w2[i])
    requires g != [] && forall i | 0 <= i < |g| :: !IsSlugChar(g[i])
    requires tail != [] && forall i | 0 <= i < |tail| :: !IsSlugChar(tail[i])
    ensures Collapse(w1 + (g + (w2 + tail))) == w1 + ("-" + (w2 + "-"))
  {
    assert Collapse(tail) == "-" by {
      assert tail == tail + [];
      CollapseGap(tail, []);
    }
    CollapseWord(w2, tail);
    CollapseGap(g, w2 + tail);
    CollapseWord(w1, g + (w2 + tail));
  }

  lemma {:induction false} HelloWords(w1: string, w2: string)
    requires w1 == "hello" && w2 == "world"
    ensures IsSlug(w1) && IsSlug(w2)
    ensures forall i | 0 <= i < |w1| :: IsSlugChar(w1[i])
    ensures forall i | 0 <= i < |w2| :: IsSlugChar(w2[i])
  {
  }

  lemma {:induction false} HelloText(w1: string, w2: string, d: string)
    requires w1 == "hello" && w2 == "world" && d == "42"
    ensures w1 + "-" + w2 + "-" + d == "hello-world-42"
  {
  }

  lemma {:induction false} FortyTwo(n: nat)
    requires n == 42
    ensures NatToString(n) == "42"
  {
    assert NatToString(n / 10) == "4";
  }
}
