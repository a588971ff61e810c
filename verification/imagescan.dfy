/** The image loop of `processIssue`: every markdown image
    `![alt](http:...)` or `![alt](https:...)` found by the global regular
    expression `/!\[[^\]]*\]\((https?:[^)"']+)\)/g` is downloaded into the
    post's asset folder, recorded, and its URL in the body is rewritten with
    `body.replace(url, destRel)`. The expression resumes at its `lastIndex`
    in the body as rewritten so far.

    The URL parser, the download and the clock are parameters (`Env`). */
module ImageScan {
  import opened Wrappers
  import opened Text
  import opened Decimal

  // The regular expression, declaratively.

  /** A match: the image markup starts at `start`; capture group 1 (the URL)
      is `s[urlStart..urlEnd]`; the closing parenthesis is at `urlEnd`. */
  datatype ImageMatch = ImageMatch(start: nat, urlStart: nat, urlEnd: nat)

  /** A character the URL part `[^)"']` accepts. */
  predicate UrlChar(c: char) {
    c != ')' && c != '"' && c != '\''
  }

  /** `https?:` followed by at least one more character. */
  predicate HasScheme(url: string) {
    (|url| > 5 && url[..5] == "http:") || (|url| > 6 && url[..6] == "https:")
  }

  /** `m` is a match of the image expression in `s` starting at `m.start`:
      `![`, an alt text without `]`, `](`, a URL that starts with `http:` or
      `https:` and holds no `)`, `"` or `'`, and `)`. */
  predicate IsImageAt(s: string, m: ImageMatch) {
    && m.start + 4 <= m.urlStart < m.urlEnd < |s|
    && s[m.start] == '!' && s[m.start + 1] == '['
    && (forall j | m.start + 2 <= j < m.urlStart - 2 :: s[j] != ']')
    && s[m.urlStart - 2] == ']' && s[m.urlStart - 1] == '('
    && HasScheme(s[m.urlStart..m.urlEnd])
    && (forall j | m.urlStart <= j < m.urlEnd :: UrlChar(s[j]))
    && s[m.urlEnd] == ')'
  }

  // The regular expression, as the matcher runs it.

  /** The first index at or after `i` holding `c`, or `|s|`. */
  function NextOf(s: string, i: nat, c: char): (k: nat)
    requires i <= |s|
    ensures i <= k <= |s|
    ensures k < |s| ==> s[k] == c
    decreases |s| - i
  {
    if i == |s| || s[i] == c then i else NextOf(s, i + 1, c)
  }

  /** `NextOf` is the only index with no `c` before it and `c` (or the end) at it. */
  lemma {:induction false} NextOfUnique(s: string, i: nat, c: char, k: nat)
    requires i <= k <= |s|
    requires forall j | i <= j < k :: s[j] != c
    requires k == |s| || s[k] == c
    ensures NextOf(s, i, c) == k
    decreases k - i
  {
    if i < k {
      NextOfUnique(s, i + 1, c, k);
    }
  }

  /** The end of the longest run of URL characters from `i`. */
  function UrlRunEnd(s: string, i: nat): (k: nat)
    requires i <= |s|
    ensures i <= k <= |s|
    ensures k < |s| ==> !UrlChar(s[k])
    decreases |s| - i
  {
    if i == |s| || !UrlChar(s[i]) then i else UrlRunEnd(s, i + 1)
  }

  lemma {:induction false} UrlRun(s: string, i: nat)
    requires i <= |s|
    ensures forall j | i <= j < UrlRunEnd(s, i) :: UrlChar(s[j])
    decreases |s| - i
  {
    if i < |s| && UrlChar(s[i]) {
      UrlRun(s, i + 1);
    }
  }

  lemma {:induction false} UrlRunUnique(s: string, i: nat, k: nat)
    requires i <= k <= |s|
    requires forall j | i <= j < k :: UrlChar(s[j])
    requires k == |s| || !UrlChar(s[k])
    ensures UrlRunEnd(s, i) == k
    decreases k - i
  {
    if i < k {
      UrlRunUnique(s, i + 1, k);
    }
  }

  /** The end of `https?:` at `p`; `http:` is tried first, as the optional
      `s` only matters when `http:` does not follow. */
  function SchemeEnd(s: string, p: nat): (r: Option<nat>)
    requires p <= |s|
    ensures r.Some? ==> p + 5 <= r.value <= p + 6 && r.value <= |s|
  {
    if p + 5 <= |s| && s[p..p + 5] == "http:" then Some(p + 5)
    else if p + 6 <= |s| && s[p..p + 6] == "https:" then Some(p + 6)
    else None
  }

  /** The match starting at `i`, if any. Every part of the expression is
      followed by a character the part cannot contain, so no backtracking
      can find a different match. */
  function MatchAt(s: string, i: nat): (r: Option<ImageMatch>)
    requires i <= |s|
    ensures r.Some? ==> r.value.start == i && i + 4 <= r.value.urlStart < r.value.urlEnd < |s|
  {
    if i + 2 > |s| || s[i] != '!' || s[i + 1] != '[' then None
    else
      var c := NextOf(s, i + 2, ']');
      if c + 2 > |s| || s[c + 1] != '(' then None
      else
        match SchemeEnd(s, c + 2)
        case None => None
        case Some(p) =>
          var u := UrlRunEnd(s, p);
          if u == p || u == |s| || s[u] != ')' then None
          else Some(ImageMatch(i, c + 2, u))
  }

  /** What the matcher finds is a match. */
  lemma {:induction false} MatchAtSound(s: string, i: nat)
    requires i <= |s| && MatchAt(s, i).Some?
    ensures IsImageAt(s, MatchAt(s, i).value)
  {
    var m := MatchAt(s, i).value;
    var c := NextOf(s, i + 2, ']');
    NextOfBefore(s, i + 2, ']');
    var p := SchemeEnd(s, c + 2).value;
    UrlRun(s, p);
    SchemeSound(s, c + 2, p, m.urlEnd);
  }

  /** A scheme followed by URL characters is a URL with a scheme. */
  lemma {:induction false} SchemeSound(s: string, a: nat, p: nat, u: nat)
    requires a <= |s| && SchemeEnd(s, a) == Some(p) && p < u <= |s|
    requires forall j | p <= j < u :: UrlChar(s[j])
    ensures HasScheme(s[a..u])
    ensures forall j | a <= j < u :: UrlChar(s[j])
  {
    var url := s[a..u];
    forall j | a <= j < p
      ensures UrlChar(s[j])
    {
      assert s[j] == s[a..p][j - a];
    }
    if p == a + 5 {
      assert url[..5] == s[a..a + 5];
    } else {
      assert url[..6] == s[a..a + 6];
    }
  }

  lemma {:induction false} NextOfBefore(s: string, i: nat, c: char)
    requires i <= |s|
    ensures forall j | i <= j < NextOf(s, i, c) :: s[j] != c
    decreases |s| - i
  {
    if i < |s| && s[i] != c {
      NextOfBefore(s, i + 1, c);
    }
  }

  /** Every match is the one the matcher finds at its start. */
  lemma {:induction false} MatchAtComplete(s: string, m: ImageMatch)
    requires IsImageAt(s, m)
    ensures MatchAt(s, m.start) == Some(m)
  {
    NextOfUnique(s, m.start + 2, ']', m.urlStart - 2);
    var q := SchemeComplete(s, m.urlStart, m.urlEnd);
    UrlRunUnique(s, q, m.urlEnd);
  }

  /** The scheme the matcher finds in a URL that has one, and where it ends. */
  lemma {:induction false} SchemeComplete(s: string, a: nat, b: nat) returns (q: nat)
    requires a <= b <= |s| && HasScheme(s[a..b])
    ensures a < q < b && SchemeEnd(s, a) == Some(q)
  {
    var url := s[a..b];
    SliceOfSlice(s, a, b, 5);
    if url[..5] == "http:" {
      q := a + 5;
    } else {
      SliceOfSlice(s, a, b, 6);
      q := a + 6;
    }
  }

  lemma {:induction false} SliceOfSlice(s: string, a: nat, b: nat, n: nat)
    requires a + n <= b <= |s|
    ensures s[a..b][..n] == s[a..a + n]
  {
  }

  /** `imgRegex.exec(body)` with the search resuming at `i`: the first match
      starting at or after `i`. */
  function Search(s: string, i: nat): (r: Option<ImageMatch>)
    requires i <= |s|
    ensures r.Some? ==> i <= r.value.start <= |s| && MatchAt(s, r.value.start) == r
    ensures r.Some? ==> forall j | i <= j < r.value.start :: MatchAt(s, j).None?
    ensures r.None? ==> forall j | i <= j <= |s| :: MatchAt(s, j).None?
    decreases |s| - i
  {
    if MatchAt(s, i).Some? then MatchAt(s, i)
    else if i == |s| then None
    else Search(s, i + 1)
  }

  /** `imgRegex.exec(body)` with `lastIndex` equal to `from`: no match when
      `from` is past the end, otherwise the first match at or after `from`. */
  function Exec(s: string, from: nat): (r: Option<ImageMatch>)
    ensures r.Some? ==> from <= r.value.start && r.value.start + 4 <= r.value.urlStart < r.value.urlEnd < |s|
  {
    if from > |s| then None else Search(s, from)
  }

  /** `exec` finds the leftmost match at or after `lastIndex`. */
  lemma {:induction false} ExecLeftmost(s: string, from: nat)
    ensures Exec(s, from).Some? ==> IsImageAt(s, Exec(s, from).value)
    ensures Exec(s, from).Some? ==>
      forall m | IsImageAt(s, m) && from <= m.start :: Exec(s, from).value.start <= m.start
    ensures Exec(s, from).None? ==> forall m | IsImageAt(s, m) :: m.start < from
  {
    match Exec(s, from)
    case Some(r) =>
      MatchAtSound(s, r.start);
      forall m | IsImageAt(s, m) && from <= m.start
        ensures r.start <= m.start
      {
        MatchAtComplete(s, m);
      }
    case None =>
      forall m | IsImageAt(s, m)
        ensures m.start < from
      {
        MatchAtComplete(s, m);
      }
  }

  // One turn of the loop.

  /** What the loop cannot compute itself: `new URL(url).pathname` (`None`
      when the constructor throws), whether `downloadFile` succeeds for a URL,
      the value of `Date.now()`, and the asset directory. */
  datatype Env = Env(pathname: string -> Option<string>, downloads: string -> bool, stamp: nat, assetsRoot: string)

  /** `path.basename` of a URL path: trailing slashes are ignored and the part
      after the last slash is kept. */
  function Basename(p: string): (r: string)
    ensures '/' !in r
  {
    AfterLast(DropTrailing(p, '/'), '/')
  }

  /** The name `image-${Date.now()}.png` used when the URL path has no base name. */
  function FallbackName(stamp: nat): (r: string)
    ensures r != [] && '/' !in r
  {
    var d := NatToString(stamp);
    NoSlashAround(d);
    "image-" + d + ".png"
  }

  lemma {:induction false} NoSlashAround(d: string)
    requires AllDigits(d)
    ensures '/' !in "image-" + d + ".png"
  {
    var r := "image-" + d + ".png";
    forall i | 0 <= i < |r|
      ensures r[i] != '/'
    {
      if i < 6 {
        assert r[i] == "image-"[i];
      } else if i < 6 + |d| {
        assert r[i] == d[i - 6];
        assert IsDigit(d[i - 6]);
      } else {
        assert r[i] == ".png"[i - 6 - |d|];
      }
    }
  }

  /** `path.basename(pathname) || \`image-${Date.now()}.png\``. */
  function FileName(env: Env, pathname: string): (r: string)
    ensures r != [] && '/' !in r
    ensures Basename(pathname) != [] ==> r == Basename(pathname)
  {
    var b := Basename(pathname);
    if b == [] then FallbackName(env.stamp) else b
  }

  /** `path.posix.join('/assets/posts', slug, filename)`. */
  function PublicUrl(slug: string, filename: string): string {
    "/assets/posts/" + slug + "/" + filename
  }

  /** `path.join(assetsRoot, slug, filename)`. */
  function LocalPath(root: string, slug: string, filename: string): string {
    root + "/" + slug + "/" + filename
  }

  /** An element of `assetFiles`. */
  datatype Asset = Asset(filename: string, path: string, url: string)

  /** An asset as the loop records it for the post `slug`. */
  predicate IsAssetOf(env: Env, slug: string, a: Asset) {
    a.filename != [] && '/' !in a.filename
    && a.url == PublicUrl(slug, a.filename)
    && a.path == LocalPath(env.assetsRoot, slug, a.filename)
  }

  /** The loop's variables: the body as rewritten so far, the expression's
      `lastIndex`, and `assetFiles`. */
  datatype ScanState = ScanState(body: string, next: nat, assets: seq<Asset>)

  /** The URL a match captured. */
  function UrlOf(s: string, m: ImageMatch): string
    requires m.urlStart <= m.urlEnd <= |s|
  {
    s[m.urlStart..m.urlEnd]
  }

  /** Whether the `try` block completes for the URL: it parses and downloads. */
  predicate Fetched(env: Env, url: string) {
    env.pathname(url).Some? && env.downloads(url)
  }

  /** The body of the loop for the match `m`: `lastIndex` moves past the match;
      when the URL parses and the download succeeds, the asset is recorded
      and the first occurrence of the URL in the body is replaced. */
  function Step(env: Env, slug: string, st: ScanState, m: ImageMatch): (r: ScanState)
    requires m.urlStart <= m.urlEnd < |st.body|
    ensures r.next == m.urlEnd + 1
  {
    var url := UrlOf(st.body, m);
    if !Fetched(env, url) then st.(next := m.urlEnd + 1)
    else
      var f := FileName(env, env.pathname(url).value);
      var dest := PublicUrl(slug, f);
      ScanState(ReplaceFirstJs(st.body, url, dest), m.urlEnd + 1,
                st.assets + [Asset(f, LocalPath(env.assetsRoot, slug, f), dest)])
  }

  /** A turn whose URL does not parse or does not download changes nothing
      but `lastIndex`. */
  lemma {:induction false} StepSkips(env: Env, slug: string, st: ScanState, m: ImageMatch)
    requires m.urlStart <= m.urlEnd < |st.body|
    requires !Fetched(env, UrlOf(st.body, m))
    ensures Step(env, slug, st, m) == ScanState(st.body, m.urlEnd + 1, st.assets)
  {
  }

  /** A turn that succeeds records exactly one asset, named after the URL's
      path. */
  lemma {:induction false} StepRecords(env: Env, slug: string, st: ScanState, m: ImageMatch)
    requires m.urlStart <= m.urlEnd < |st.body|
    requires Fetched(env, UrlOf(st.body, m))
    ensures var r := Step(env, slug, st, m);
      && |r.assets| == |st.assets| + 1 && r.assets[..|st.assets|] == st.assets
      && IsAssetOf(env, slug, r.assets[|st.assets|])
      && r.assets[|st.assets|].filename == FileName(env, env.pathname(UrlOf(st.body, m)).value)
  {
    var r := Step(env, slug, st, m);
    assert r.assets[..|st.assets|] == st.assets;
  }

  /** A turn that succeeds for the captured `url` rewrites the first
      occurrence of `url` in the body, which is at or before the image it was
      taken from; the replacement is the asset's public path `dest` read as a
      `replace` template. */
  lemma {:induction false} StepRewrites(env: Env, slug: string, st: ScanState, m: ImageMatch, url: string, dest: string, k: nat)
    requires m.urlStart <= m.urlEnd < |st.body| && url == UrlOf(st.body, m)
    requires Fetched(env, url) && dest == PublicUrl(slug, FileName(env, env.pathname(url).value))
    requires IsFirstOccurrence(st.body, url, k)
    ensures k <= m.urlStart
    ensures Step(env, slug, st, m).body == st.body[..k] + Expand(dest, url, st.body[..k], st.body[k + |url|..]) + st.body[k + |url|..]
  {
    UrlOccurs(st.body, m);
    FirstOccurrenceBefore(st.body, url, m.urlStart, k);
    StepBody(env, slug, st, m, url, dest);
    ReplaceFirstJsAt(st.body, url, dest, k);
  }

  lemma {:induction false} StepBody(env: Env, slug: string, st: ScanState, m: ImageMatch, url: string, dest: string)
    requires m.urlStart <= m.urlEnd < |st.body| && url == UrlOf(st.body, m)
    requires Fetched(env, url) && dest == PublicUrl(slug, FileName(env, env.pathname(url).value))
    ensures Step(env, slug, st, m).body == ReplaceFirstJs(st.body, url, dest)
  {
  }

  lemma {:induction false} UrlOccurs(s: string, m: ImageMatch)
    requires m.urlStart <= m.urlEnd <= |s|
    ensures OccursAt(s, UrlOf(s, m), m.urlStart)
  {
  }

  /** A pattern that occurs at `p` has its first occurrence at or before `p`. */
  lemma {:induction false} FirstOccurrenceBefore(s: string, pat: string, p: nat, k: nat)
    requires OccursAt(s, pat, p) && IsFirstOccurrence(s, pat, k)
    ensures k <= p
  {
  }

  // The whole loop.

  /** `while ((m = imgRegex.exec(body)) !== null) { ... }` from the state `st`,
      for at most `budget` turns; `None` when the budget runs out (the loop
      need not end: a file name may bring new image markup into the body). */
  function Scan(env: Env, slug: string, st: ScanState, budget: nat): (r: Option<ScanState>)
    ensures r.Some? ==> Exec(r.value.body, r.value.next).None?
    decreases budget
  {
    if budget == 0 then None
    else
      match Exec(st.body, st.next)
      case None => Some(st)
      case Some(m) => Scan(env, slug, Step(env, slug, st, m), Pred(budget))
  }

  /** One turn less of the budget. */
  function Pred(n: nat): (r: nat)
    requires n > 0
    ensures r < n
  {
    n - 1
  }

  /** The loop keeps the assets recorded before it and adds only assets of
      the post. */
  lemma {:induction false} ScanAssets(env: Env, slug: string, st: ScanState, budget: nat)
    requires Scan(env, slug, st, budget).Some?
    ensures var r := Scan(env, slug, st, budget).value;
      |st.assets| <= |r.assets| && r.assets[..|st.assets|] == st.assets
      && forall i | |st.assets| <= i < |r.assets| :: IsAssetOf(env, slug, r.assets[i])
    decreases budget
  {
    match Exec(st.body, st.next)
    case None =>
    case Some(m) =>
      var st' := Step(env, slug, st, m);
      StepAssets(env, slug, st, m);
      ScanAssets(env, slug, st', Pred(budget));
      var r := Scan(env, slug, st', Pred(budget)).value;
      assert r.assets[..|st.assets|] == r.assets[..|st'.assets|][..|st.assets|];
      forall i | |st.assets| <= i < |r.assets|
        ensures IsAssetOf(env, slug, r.assets[i])
      {
        if i < |st'.assets| {
          assert r.assets[i] == r.assets[..|st'.assets|][i];
        }
      }
  }

  /** A turn keeps the assets recorded so far and adds only assets of the post. */
  lemma {:induction false} StepAssets(env: Env, slug: string, st: ScanState, m: ImageMatch)
    requires m.urlStart <= m.urlEnd < |st.body|
    ensures var r := Step(env, slug, st, m);
      |st.assets| <= |r.assets| && r.assets[..|st.assets|] == st.assets
      && forall i | |st.assets| <= i < |r.assets| :: IsAssetOf(env, slug, r.assets[i])
  {
    if Fetched(env, UrlOf(st.body, m)) {
      StepRecords(env, slug, st, m);
    } else {
      StepSkips(env, slug, st, m);
    }
  }

  /** The loop over a whole body, starting with `lastIndex` 0 and no assets. */
  function ScanBody(env: Env, slug: string, body: string, budget: nat): Option<ScanState> {
    Scan(env, slug, ScanState(body, 0, []), budget)
  }

  // The asset folder.

  /** Two loop states that differ at most in where the files are stored. */
  predicate SameButPaths(a: ScanState, b: ScanState) {
    && a.body == b.body && a.next == b.next && |a.assets| == |b.assets|
    && forall i | 0 <= i < |a.assets| :: a.assets[i].filename == b.assets[i].filename && a.assets[i].url == b.assets[i].url
  }

  /** A turn run with another asset folder `root` rewrites the body the same
      way and records the same file names and public paths. */
  lemma {:induction false} StepOtherRoot(env: Env, root: string, slug: string, a: ScanState, b: ScanState, m: ImageMatch)
    requires SameButPaths(a, b) && m.urlStart <= m.urlEnd < |a.body|
    ensures SameButPaths(Step(env, slug, a, m), Step(env.(assetsRoot := root), slug, b, m))
  {
    var env' := env.(assetsRoot := root);
    var url := UrlOf(a.body, m);
    assert UrlOf(b.body, m) == url;
    if Fetched(env, url) {
      var f := FileName(env, env.pathname(url).value);
      assert FileName(env', env'.pathname(url).value) == f;
      var dest := PublicUrl(slug, f);
      var body := ReplaceFirstJs(a.body, url, dest);
      assert Step(env, slug, a, m) == ScanState(body, m.urlEnd + 1, a.assets + [Asset(f, LocalPath(env.assetsRoot, slug, f), dest)]);
      assert Step(env', slug, b, m) == ScanState(body, m.urlEnd + 1, b.assets + [Asset(f, LocalPath(root, slug, f), dest)]);
      AppendSameButPaths(a, b, body, m.urlEnd + 1, Asset(f, LocalPath(env.assetsRoot, slug, f), dest), Asset(f, LocalPath(root, slug, f), dest));
    }
  }

  lemma {:induction false} AppendSameButPaths(a: ScanState, b: ScanState, body: string, next: nat, x: Asset, y: Asset)
    requires SameButPaths(a, b) && x.filename == y.filename && x.url == y.url
    ensures SameButPaths(ScanState(body, next, a.assets + [x]), ScanState(body, next, b.assets + [y]))
  {
    var xs, ys := a.assets + [x], b.assets + [y];
    forall i | 0 <= i < |xs|
      ensures xs[i].filename == ys[i].filename && xs[i].url == ys[i].url
    {
      if i < |a.assets| {
        assert xs[i] == a.assets[i] && ys[i] == b.assets[i];
      }
    }
  }

  /** The asset folder decides only where the files are stored: the loop run
      with another folder `root` ends exactly when it ends with `env`'s, with
      the same body and the same file names and public paths. */
  lemma {:induction false} ScanOtherRoot(env: Env, root: string, slug: string, a: ScanState, b: ScanState, budget: nat)
    requires SameButPaths(a, b)
    ensures Scan(env, slug, a, budget).Some? <==> Scan(env.(assetsRoot := root), slug, b, budget).Some?
    ensures Scan(env, slug, a, budget).Some? ==>
      SameButPaths(Scan(env, slug, a, budget).value, Scan(env.(assetsRoot := root), slug, b, budget).value)
    decreases budget
  {
    if budget > 0 {
      match Exec(a.body, a.next)
      case None =>
      case Some(m) =>
        StepOtherRoot(env, root, slug, a, b, m);
        ScanOtherRoot(env, root, slug, Step(env, slug, a, m), Step(env.(assetsRoot := root), slug, b, m), Pred(budget));
    }
  }

  /** Every asset the loop records belongs to the post. */
  lemma {:induction false} ScanBodyAssets(env: Env, slug: string, body: string, budget: nat)
    requires ScanBody(env, slug, body, budget).Some?
    ensures forall a | a in ScanBody(env, slug, body, budget).value.assets :: IsAssetOf(env, slug, a)
  {
    ScanAssets(env, slug, ScanState(body, 0, []), budget);
  }

  /** `imgRegex.exec(body)` as a scan over the positions from `lastIndex`. */
  method FindImage(s: string, from: nat) returns (r: Option<ImageMatch>)
    ensures r == Exec(s, from)
  {
    if from > |s| {
      return None;
    }
    var i := from;
    while i < |s| && MatchAt(s, i).None?
      invariant from <= i <= |s|
      invariant Search(s, i) == Search(s, from)
      decreases |s| - i
    {
      i := i + 1;
    }
    r := MatchAt(s, i);
  }

  /** The loop as the script writes it: `exec` from `lastIndex`, then the
      turn, until no match is left. It computes `ScanBody`; `ok` is false
      only when the budget runs out. */
  method ScanImages(env: Env, slug: string, body: string, budget: nat) returns (ok: bool, newBody: string, assets: seq<Asset>)
    ensures ok <==> ScanBody(env, slug, body, budget).Some?
    ensures ok ==> newBody == ScanBody(env, slug, body, budget).value.body
    ensures ok ==> assets == ScanBody(env, slug, body, budget).value.assets
  {
    ghost var goal := ScanBody(env, slug, body, budget);
    var st := ScanState(body, 0, []);
    var fuel := budget;
    while fuel > 0
      invariant Scan(env, slug, st, fuel) == goal
      decreases fuel
    {
      var found := FindImage(st.body, st.next);
      if found.None? {
        ScanDone(env, slug, st, fuel);
        return true, st.body, st.assets;
      }
      ScanTurn(env, slug, st, fuel, found.value);
      st, fuel := Step(env, slug, st, found.value), Pred(fuel);
    }
    return false, body, [];
  }

  lemma {:induction false} ScanDone(env: Env, slug: string, st: ScanState, fuel: nat)
    requires fuel > 0 && Exec(st.body, st.next).None?
    ensures Scan(env, slug, st, fuel) == Some(st)
  {
  }

  lemma {:induction false} ScanTurn(env: Env, slug: string, st: ScanState, fuel: nat, m: ImageMatch)
    requires fuel > 0 && Exec(st.body, st.next) == Some(m)
    ensures Scan(env, slug, st, fuel) == Scan(env, slug, Step(env, slug, st, m), Pred(fuel))
  {
  }

  /** Every turn moves `lastIndex` strictly forward. */
  lemma {:induction false} StepAdvances(env: Env, slug: string, st: ScanState, m: ImageMatch)
    requires Exec(st.body, st.next) == Some(m)
    ensures Step(env, slug, st, m).next > st.next
  {
  }

  /** When no download succeeds, the body and the assets stay as they are, and
      one turn per character of the body (plus two) is enough for the loop to
      end. */
  lemma {:induction false} NothingFetched(env: Env, slug: string, st: ScanState, budget: nat)
    requires forall url :: !Fetched(env, url)
    ensures Scan(env, slug, st, budget).Some? ==>
      Scan(env, slug, st, budget).value.body == st.body && Scan(env, slug, st, budget).value.assets == st.assets
    ensures budget > 0 && st.next + budget > |st.body| + 1 ==> Scan(env, slug, st, budget).Some?
    decreases budget
  {
    if budget > 0 {
      match Exec(st.body, st.next)
      case None =>
      case Some(m) =>
        StepSkips(env, slug, st, m);
        var st' := Step(env, slug, st, m);
        NothingFetched(env, slug, st', Pred(budget));
    }
  }

  /** A body without image markup comes out unchanged and without assets. */
  lemma {:induction false} NoImages(env: Env, slug: string, body: string, budget: nat)
    requires forall m :: !IsImageAt(body, m)
    requires budget > 0
    ensures ScanBody(env, slug, body, budget) == Some(ScanState(body, 0, []))
  {
    ExecLeftmost(body, 0);
  }

  /** `replace` with a string pattern reads `$&` in the replacement as the
      matched text: a file name holding `$&` puts the remote URL back into
      the rewritten body. */
  lemma {:induction false} DollarAmpersand(pre: string, post: string, url: string, before: string, after: string)
    requires '$' !in pre && '$' !in post
    ensures Expand(pre + "$&" + post, url, before, after) == pre + url + post
  {
    var t := ['$', '&'] + post;
    assert pre + "$&" + post == pre + t;
    ExpandPlain(pre, t, url, before, after);
    assert t[2..] == post;
  }

  /** A template part without `$` is copied as it is. */
  lemma {:induction false} ExpandPlain(pre: string, t: string, url: string, before: string, after: string)
    requires '$' !in pre
    ensures Expand(pre + t, url, before, after) == pre + Expand(t, url, before, after)
    decreases |pre|
  {
    if pre != [] {
      assert (pre + t)[0] == pre[0];
      assert (pre + t)[1..] == pre[1..] + t;
      ExpandPlain(pre[1..], t, url, before, after);
      assert pre == [pre[0]] + pre[1..];
    } else {
      assert pre + t == t;
    }
  }

  /** When the URL already occurs earlier in the body (say as plain text),
      `replace` rewrites that earlier occurrence and the image at `p` keeps
      its remote URL, shifted by the change in length. */
  lemma {:induction false} EarlierMentionRewritten(s: string, url: string, k: nat, p: nat, dest: string)
    requires IsFirstOccurrence(s, url, k) && OccursAt(s, url, p) && k + |url| <= p
    requires '$' !in dest
    ensures OccursAt(ReplaceFirstJs(s, url, dest), url, p + |dest| - |url|)
  {
    ReplaceFirstJsAt(s, url, dest, k);
    SpliceKeepsLater(s, k, |url|, dest, p);
  }

  /** Replacing `s[k..k + n]` by `dest` moves what follows by `|dest| - n`. */
  lemma {:induction false} SpliceKeepsLater(s: string, k: nat, n: nat, dest: string, p: nat)
    requires k + n <= p && p + n <= |s|
    ensures (s[..k] + dest + s[k + n..])[p + |dest| - n..p + |dest|] == s[p..p + n]
  {
    var r := s[..k] + dest + s[k + n..];
    assert r[k + |dest|..] == s[k + n..];
  }
  /** `lastIndex` keeps the end of the match in the old body while `replace`
      shortens the body before it. A turn that fetches the image `m` sets the
      body to `ReplaceFirstJs(s, url, dest)` (`StepBody`) and `lastIndex` to
      `m.urlEnd + 1` (`Step`). When the asset path `dest` is shorter than the
      URL and another image `m2` follows right after `m`, that image moves to
      before the new `lastIndex`: it is still in the body, with its remote
      URL, and `exec`, which only moves forward, never returns it. */
  lemma {:induction false} NextImageSkipped(s: string, m: ImageMatch, m2: ImageMatch, dest: string, t: string)
    requires IsImageAt(s, m) && IsFirstOccurrence(s, UrlOf(s, m), m.urlStart)
    requires IsImageAt(s, m2) && m2.start == m.urlEnd + 1
    requires '$' !in dest && |dest| < m.urlEnd - m.urlStart
    requires t == ReplaceFirstJs(s, UrlOf(s, m), dest)
    ensures IsImageAt(t, Shifted(m2, m.urlEnd - m.urlStart - |dest|))
    ensures UrlOf(t, Shifted(m2, m.urlEnd - m.urlStart - |dest|)) == UrlOf(s, m2)
    ensures Shifted(m2, m.urlEnd - m.urlStart - |dest|).start < m.urlEnd + 1
  {
    SpliceShiftsImage(s, UrlOf(s, m), dest, t, m.urlStart, m.urlEnd, m.urlEnd - m.urlStart - |dest|, m2);
  }

  /** An image after the occurrence that `replace` rewrites moves by the
      change in length. */
  lemma {:induction false} SpliceShiftsImage(s: string, url: string, dest: string, t: string, k: nat, e: nat, d: nat, m2: ImageMatch)
    requires IsFirstOccurrence(s, url, k) && '$' !in dest && t == ReplaceFirstJs(s, url, dest)
    requires e == k + |url| && |dest| + d == |url|
    requires IsImageAt(s, m2) && e <= m2.start
    ensures IsImageAt(t, Shifted(m2, d)) && UrlOf(t, Shifted(m2, d)) == UrlOf(s, m2)
  {
    ReplaceKeepsTail(s, url, dest, k, e, d);
    ShiftedImage(s, t, e, d, m2);
  }

  /** The match `m` moved `d` places to the left. */
  function Shifted(m: ImageMatch, d: nat): (r: ImageMatch)
    requires d <= m.start && m.start <= m.urlStart <= m.urlEnd
    ensures r.start + d == m.start && r.urlStart + d == m.urlStart && r.urlEnd + d == m.urlEnd
  {
    ImageMatch(m.start - d, m.urlStart - d, m.urlEnd - d)
  }

  /** After `replace` of the first occurrence at `k` by a plain `dest`, the
      text after the occurrence follows `dest`. */
  lemma {:induction false} ReplaceKeepsTail(s: string, url: string, dest: string, k: nat, e: nat, d: nat)
    requires IsFirstOccurrence(s, url, k) && '$' !in dest
    requires e == k + |url| && |dest| + d == |url|
    ensures d <= e <= |s| && e - d <= |ReplaceFirstJs(s, url, dest)|
    ensures ReplaceFirstJs(s, url, dest)[e - d..] == s[e..]
  {
    ReplaceFirstJsAt(s, url, dest, k);
    var t := ReplaceFirstJs(s, url, dest);
    assert t == s[..k] + dest + s[k + |url|..];
    assert t[k + |dest|..] == s[k + |url|..];
  }

  /** An image after `off` in `s` is an image `d` places earlier in a text
      `t` that ends with the same characters. */
  lemma {:induction false} ShiftedImage(s: string, t: string, off: nat, d: nat, m: ImageMatch)
    requires d <= off <= |s| && off - d <= |t| && t[off - d..] == s[off..]
    requires IsImageAt(s, m) && off <= m.start
    ensures IsImageAt(t, Shifted(m, d)) && UrlOf(t, Shifted(m, d)) == UrlOf(s, m)
  {
    var moved := Shifted(m, d);
    forall j | off <= j < |s|
      ensures t[j - d] == s[j]
    {
      assert t[off - d..][j - off] == s[off..][j - off];
    }
    assert t[moved.urlStart..moved.urlEnd] == s[m.urlStart..m.urlEnd];
    forall j | moved.start + 2 <= j < moved.urlStart - 2
      ensures t[j] != ']'
    {
      assert t[j] == s[j + d];
    }
    forall j | moved.urlStart <= j < moved.urlEnd
      ensures UrlChar(t[j])
    {
      assert t[j] == s[j + d];
    }
  }
}
