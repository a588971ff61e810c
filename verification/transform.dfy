/** `processIssue` and the loop of `main` in both scripts: one issue becomes one
    post record (the object written as `<slug>.json`), pull requests are
    skipped, and an issue whose processing throws is left out of the run.

    The two scripts differ in three places, selected by `Script`: the marker
    labels removed from the tags, the `main_category` filter, and the excerpt,
    which `fetch-issues.js` computes in a way that throws on a body made only
    of whitespace. The GitHub API is a parameter: the comments of an issue, or
    `None` when that request fails. */
module Transform {
  import opened Wrappers
  import Text
  import Seqs
  import Decimal
  import Slug
  import Labels
  import Excerpt
  import ImageScan
  import Config

  /** The `user` object of an issue or comment; each field may be missing. */
  datatype User = User(login: Option<string>, id: Option<int>, htmlUrl: Option<string>)

  /** A comment as the API returns it. */
  datatype RawComment = RawComment(user: Option<User>, body: Option<string>, createdAt: Option<string>)

  /** A comment as the post records it. */
  datatype Comment = Comment(author: Option<string>, body: string, createdAt: Option<string>)

  /** The fields of an API issue that `processIssue` reads; `isPullRequest`
      stands for a present `pull_request` field. */
  datatype Issue = Issue(
    number: nat,
    title: Option<string>,
    labels: Option<seq<Labels.Label>>,
    body: Option<string>,
    user: Option<User>,
    createdAt: Option<string>,
    updatedAt: Option<string>,
    isPullRequest: bool)

  datatype Author = Author(login: Option<string>, id: Option<int>, url: Option<string>)

  /** An element of `media`; `kind` is the JSON field `type`. */
  datatype Media = Media(kind: string, filename: string, url: string)

  /** An element of `assets`. */
  datatype AssetRef = AssetRef(path: string, url: string)

  /** The post record. The always-empty `custom` object is not represented. */
  datatype Post = Post(
    id: nat,
    title: string,
    slug: string,
    author: Author,
    createdAt: Option<string>,
    updatedAt: Option<string>,
    body: string,
    comments: seq<Comment>,
    labels: seq<string>,
    tags: seq<string>,
    mainCategory: Option<string>,
    postType: string,
    media: seq<Media>,
    assets: seq<AssetRef>,
    excerpt: string,
    draft: bool)

  /** Which script runs: `generate-and-push.js` with the parsed `POST_LABELS`
      markers, or `fetch-issues.js`. The lemmas below hold for any marker
      list; the one `generate-and-push.js` runs with is
      `Config.ParseLabels(env)` (`ConfiguredScriptsAgree`). */
  datatype Script = Generate(markers: seq<string>) | Fetch

  /** What the run depends on outside the issue: the URL parser, downloads,
      clock and asset folder of the image loop, the bound on its turns, and
      the comments request. */
  datatype Context = Context(env: ImageScan.Env, budget: nat, comments: nat -> Option<seq<RawComment>>)

  /** Why `processIssue` did not write a post: the image loop did not end
      within the bound, the comments request failed, or the excerpt threw. */
  datatype Failure = ImagesUnfinished | CommentsUnavailable | ExcerptThrows

  /** `x || null` for a string: missing and empty are both `null`. */
  function OrNull(s: Option<string>): Option<string> {
    if s.Some? && s.value != [] then s else None
  }

  /** `x || null` for a number: missing and `0` are both `null`. */
  function IdOrNull(n: Option<int>): Option<int> {
    if n.Some? && n.value != 0 then n else None
  }

  /** `user?.login || null`. */
  function LoginOf(u: Option<User>): Option<string> {
    if u.None? then None else OrNull(u.value.login)
  }

  /** The `author` object of a post. */
  function AuthorOf(u: Option<User>): Author {
    if u.None? then Author(None, None, None)
    else Author(OrNull(u.value.login), IdOrNull(u.value.id), OrNull(u.value.htmlUrl))
  }

  /** `c => ({ author: c.user?.login || null, body: c.body || '', created_at: c.created_at })`. */
  function ToComment(c: RawComment): Comment {
    Comment(LoginOf(c.user), if c.body.Some? then c.body.value else "", c.createdAt)
  }

  /** `fetchComments` once the request has answered: `data.map(...)`. */
  function Comments(raw: seq<RawComment>): seq<Comment> {
    seq(|raw|, i requires 0 <= i < |raw| => ToComment(raw[i]))
  }

  /** `issue.updated_at || issue.created_at`. */
  function UpdatedOf(updated: Option<string>, created: Option<string>): Option<string> {
    if updated.Some? && updated.value != "" then updated else created
  }

  /** The labels removed from the tags. */
  function MarkersOf(script: Script): seq<string> {
    match script
    case Generate(markers) => markers
    case Fetch => Labels.HardCodedMarkers
  }

  /** `main_category`. */
  function MainCategoryOf(script: Script, labels: seq<string>): Option<string> {
    match script
    case Generate(markers) => Labels.MainCategory(labels, markers)
    case Fetch => Labels.FixedMainCategory(labels)
  }

  /** `excerpt`, or `None` when computing it throws. */
  function ExcerptOf(script: Script, body: Option<string>): Option<string> {
    match script
    case Generate(_) => Some(Excerpt.ExcerptGenerate(body))
    case Fetch => Excerpt.ExcerptFetch(body)
  }

  /** `assetFiles.map(a => ({ type: 'image', filename: a.filename, url: a.url }))`. */
  function MediaOf(assets: seq<ImageScan.Asset>): seq<Media> {
    seq(|assets|, i requires 0 <= i < |assets| => Media("image", assets[i].filename, assets[i].url))
  }

  /** `assetFiles.map(a => ({ path: a.path, url: a.url }))`. */
  function AssetRefsOf(assets: seq<ImageScan.Asset>): seq<AssetRef> {
    seq(|assets|, i requires 0 <= i < |assets| => AssetRef(assets[i].path, assets[i].url))
  }

  /** The post record once the image loop, the comments request and the
      excerpt have all succeeded. */
  function Assemble(script: Script, issue: Issue, st: ImageScan.ScanState, raw: seq<RawComment>, excerpt: string): Post {
    var labels := Labels.IssueLabels(issue.labels);
    Post(
      issue.number, Slug.DisplayTitle(issue.title, issue.number), Slug.SlugFor(issue.title, issue.number), AuthorOf(issue.user),
      issue.createdAt, UpdatedOf(issue.updatedAt, issue.createdAt),
      st.body, Comments(raw), labels, Labels.Tags(labels, MarkersOf(script)),
      MainCategoryOf(script, labels), "article",
      MediaOf(st.assets), AssetRefsOf(st.assets), excerpt, Labels.IsDraft(labels))
  }

  /** The image loop over the issue's body (`issue.body || ''`). */
  function ScanOf(ctx: Context, issue: Issue): Option<ImageScan.ScanState> {
    ImageScan.ScanBody(ctx.env, Slug.SlugFor(issue.title, issue.number),
      if issue.body.Some? then issue.body.value else "", ctx.budget)
  }

  /** `processIssue`: the post written for `issue`, or why none is written.
      The steps that can fail run in the script's order: the image loop, the
      comments request, then the excerpt. */
  function ProcessIssue(script: Script, ctx: Context, issue: Issue): (r: Result<Post, Failure>)
    ensures r.Success? ==> r.value.id == issue.number && Slug.IsSlug(r.value.slug)
    ensures r.Success? ==> Text.EndsWith(r.value.slug, "-" + Decimal.NatToString(issue.number))
    ensures r.Success? ==> |r.value.media| == |r.value.assets|
  {
    var scan := ScanOf(ctx, issue);
    var raw := ctx.comments(issue.number);
    var excerpt := ExcerptOf(script, issue.body);
    if scan.None? then Failure(ImagesUnfinished)
    else if raw.None? then Failure(CommentsUnavailable)
    else if excerpt.None? then Failure(ExcerptThrows)
    else Success(Assemble(script, issue, scan.value, raw.value, excerpt.value))
  }

  /** The loop of `main` for a given `processIssue`: pull requests are
      skipped, and an issue whose processing throws is reported and left out.
      The posts come in the order of the issues. */
  function Collect(process: Issue -> Result<Post, Failure>, issues: seq<Issue>): (r: seq<Post>)
    ensures |r| <= |issues|
    decreases |issues|
  {
    if issues == [] then []
    else
      var rest := Collect(process, issues[1..]);
      if issues[0].isPullRequest then rest
      else
        match process(issues[0])
        case Success(p) => [p] + rest
        case Failure(_) => rest
  }

  /** `processIssue` of `script` as a function of the issue. */
  function Process(script: Script, ctx: Context): Issue -> Result<Post, Failure> {
    issue => ProcessIssue(script, ctx, issue)
  }

  /** The posts a run of `script` writes. */
  function Run(script: Script, ctx: Context, issues: seq<Issue>): seq<Post> {
    Collect(Process(script, ctx), issues)
  }

  // One post.

  /** `processIssue` succeeds when its three steps do, with the assembled post. */
  lemma {:induction false} ProcessIssueSteps(script: Script, ctx: Context, issue: Issue)
    ensures ProcessIssue(script, ctx, issue).Success? <==>
      ScanOf(ctx, issue).Some? && ctx.comments(issue.number).Some? && ExcerptOf(script, issue.body).Some?
    ensures ProcessIssue(script, ctx, issue).Success? ==>
      ProcessIssue(script, ctx, issue).value
        == Assemble(script, issue, ScanOf(ctx, issue).value, ctx.comments(issue.number).value, ExcerptOf(script, issue.body).value)
  {
  }

  /** Which step stops `processIssue`: the first of the image loop, the
      comments request and the excerpt that fails. */
  lemma {:induction false} ProcessIssueFailure(script: Script, ctx: Context, issue: Issue)
    ensures ScanOf(ctx, issue).None? ==> ProcessIssue(script, ctx, issue) == Failure(ImagesUnfinished)
    ensures ScanOf(ctx, issue).Some? && ctx.comments(issue.number).None? ==>
      ProcessIssue(script, ctx, issue) == Failure(CommentsUnavailable)
    ensures ScanOf(ctx, issue).Some? && ctx.comments(issue.number).Some? && ExcerptOf(script, issue.body).None? ==>
      ProcessIssue(script, ctx, issue) == Failure(ExcerptThrows)
  {
  }

  /** The title falls back to `Post <id>` and the slug to `post-<id>-<id>`
      when the issue has no title; `updated_at` falls back to `created_at`. */
  lemma {:induction false} PostFallbacks(script: Script, ctx: Context, issue: Issue, p: Post)
    requires ProcessIssue(script, ctx, issue) == Success(p)
    ensures
      && p.title != []
      && (issue.title.Some? && issue.title.value != [] ==> p.title == issue.title.value)
      && (issue.title.None? || issue.title.value == [] ==>
            p.title == "Post " + Decimal.NatToString(issue.number)
            && p.slug == "post-" + Decimal.NatToString(issue.number) + "-" + Decimal.NatToString(issue.number))
      && (issue.updatedAt.Some? && issue.updatedAt.value != [] ==> p.updatedAt == issue.updatedAt)
      && (issue.updatedAt.None? || issue.updatedAt.value == [] ==> p.updatedAt == issue.createdAt)
      && p.postType == "article"
  {
    ProcessIssueSteps(script, ctx, issue);
    if issue.title.None? || issue.title.value == [] {
      Slug.SlugForUntitled(issue.title, issue.number);
    }
  }

  /** The slug is built from the issue's title and number, and the number
      can be read back from it. */
  lemma {:induction false} PostSlug(script: Script, ctx: Context, issue: Issue, p: Post)
    requires ProcessIssue(script, ctx, issue) == Success(p)
    ensures p.slug == Slug.SlugFor(issue.title, issue.number)
    ensures Slug.IdOfSlug(p.slug) == Some(p.id)
  {
    ProcessIssueSteps(script, ctx, issue);
    Slug.SlugForRecoversId(issue.title, issue.number);
  }

  /** `media` and `assets` describe the same downloaded files in the same
      order: each is an image stored under the post's slug, with a plain file
      name, served from `/assets/posts/<slug>/<filename>`. */
  lemma {:induction false} PostMedia(script: Script, ctx: Context, issue: Issue, p: Post, i: nat)
    requires ProcessIssue(script, ctx, issue) == Success(p)
    requires i < |p.media|
    ensures
      && p.media[i].kind == "image"
      && p.media[i].url == p.assets[i].url
      && p.media[i].filename != [] && '/' !in p.media[i].filename
      && p.media[i].url == ImageScan.PublicUrl(p.slug, p.media[i].filename)
      && p.assets[i].path == ImageScan.LocalPath(ctx.env.assetsRoot, p.slug, p.media[i].filename)
  {
    ProcessIssueSteps(script, ctx, issue);
    ScanOfAssets(ctx, issue);
    var st := ScanOf(ctx, issue).value;
    AssembledMedia(script, issue, st, ctx.comments(issue.number).value, ExcerptOf(script, issue.body).value, ctx.env, i);
  }

  /** Every file the image loop records for an issue belongs under its slug. */
  lemma {:induction false} ScanOfAssets(ctx: Context, issue: Issue)
    requires ScanOf(ctx, issue).Some?
    ensures forall a | a in ScanOf(ctx, issue).value.assets ::
      ImageScan.IsAssetOf(ctx.env, Slug.SlugFor(issue.title, issue.number), a)
  {
    ImageScan.ScanBodyAssets(ctx.env, Slug.SlugFor(issue.title, issue.number),
      if issue.body.Some? then issue.body.value else "", ctx.budget);
  }

  /** The `media` and `assets` entries of an assembled post come from the same
      recorded file. */
  lemma {:induction false} AssembledMedia(script: Script, issue: Issue, st: ImageScan.ScanState, raw: seq<RawComment>,
                                          excerpt: string, env: ImageScan.Env, i: nat)
    requires forall a | a in st.assets :: ImageScan.IsAssetOf(env, Slug.SlugFor(issue.title, issue.number), a)
    requires i < |st.assets|
    ensures var p := Assemble(script, issue, st, raw, excerpt);
      && i < |p.media| && i < |p.assets|
      && p.media[i].kind == "image"
      && p.media[i].url == p.assets[i].url
      && p.media[i].filename != [] && '/' !in p.media[i].filename
      && p.media[i].url == ImageScan.PublicUrl(p.slug, p.media[i].filename)
      && p.assets[i].path == ImageScan.LocalPath(env.assetsRoot, p.slug, p.media[i].filename)
  {
    assert st.assets[i] in st.assets;
  }

  /** The tags are the labels other than the markers, in order;
      `main_category` is the first tag; `draft` says whether `draft` is a label. */
  lemma {:induction false} PostLabels(script: Script, ctx: Context, issue: Issue, p: Post)
    requires ProcessIssue(script, ctx, issue) == Success(p)
    ensures
      && Seqs.IsSubsequence(p.tags, p.labels)
      && (forall x :: x in p.tags <==> x in p.labels && x !in MarkersOf(script))
      && p.mainCategory == (if p.tags == [] then None else Some(p.tags[0]))
      && (p.draft <==> "draft" in p.labels)
  {
    ProcessIssueSteps(script, ctx, issue);
    MainCategoryIsFirstTag(script, Labels.IssueLabels(issue.labels));
  }

  /** `main_category` is the first tag for both scripts. */
  lemma {:induction false} MainCategoryIsFirstTag(script: Script, labels: seq<string>)
    requires forall i | 0 <= i < |labels| :: labels[i] != []
    ensures var tags := Labels.Tags(labels, MarkersOf(script));
      MainCategoryOf(script, labels) == if tags == [] then None else Some(tags[0])
  {
    Labels.MainCategoryIsFirstTag(labels, MarkersOf(script));
    if script.Fetch? {
      Labels.FixedMainCategoryAgrees(labels);
    }
  }

  /** The excerpt is taken from the issue's original body, not the body the
      image loop rewrote: at most 200 characters of the line holding its first
      visible character, and empty exactly when the body is missing or blank. */
  lemma {:induction false} PostExcerpt(script: Script, ctx: Context, issue: Issue, p: Post)
    requires ProcessIssue(script, ctx, issue) == Success(p)
    ensures |p.excerpt| <= Excerpt.ExcerptLength
    ensures p.excerpt == [] <==> issue.body.None? || Text.IsBlank(issue.body.value)
    ensures issue.body.Some? ==> p.excerpt == Excerpt.ExcerptAt(issue.body.value)
  {
    ProcessIssueSteps(script, ctx, issue);
    ExcerptOfGenerated(script, issue.body);
    if issue.body.Some? {
      Excerpt.ExcerptIsAtFirstVisibleLine(issue.body.value);
    }
  }

  /** Whenever the excerpt does not throw, it is the one `generate-and-push.js` computes. */
  lemma {:induction false} ExcerptOfGenerated(script: Script, body: Option<string>)
    ensures ExcerptOf(script, body).Some? ==> ExcerptOf(script, body).value == Excerpt.ExcerptGenerate(body)
  {
  }

  /** A comment keeps its date; a missing body becomes empty; the author is
      the user's login, or `null` when the user or login is missing or empty. */
  lemma {:induction false} CommentFields(raw: seq<RawComment>, i: nat)
    requires i < |raw|
    ensures |Comments(raw)| == |raw|
    ensures Comments(raw)[i].createdAt == raw[i].createdAt
    ensures Comments(raw)[i].body == if raw[i].body.Some? then raw[i].body.value else []
    ensures Comments(raw)[i].author.None? <==>
      raw[i].user.None? || raw[i].user.value.login.None? || raw[i].user.value.login.value == []
    ensures Comments(raw)[i].author.Some? ==>
      raw[i].user.Some? && Comments(raw)[i].author == raw[i].user.value.login
  {
  }

  // The two scripts.

  /** The two scripts write the same post for an issue when the configured
      markers are `POST` and `isPost` (in any order or repetition) and the
      body is not made only of whitespace. Both scripts see the one context,
      and so the same download outcomes, although only `fetch-issues.js`
      sends its token with image downloads. */
  lemma {:induction false} ScriptsAgree(markers: seq<string>, ctx: Context, issue: Issue)
    requires forall x :: x in markers <==> x in Labels.HardCodedMarkers
    requires issue.body.None? || issue.body.value == [] || !Text.IsBlank(issue.body.value)
    ensures ProcessIssue(Generate(markers), ctx, issue) == ProcessIssue(Fetch, ctx, issue)
  {
    var g := Generate(markers);
    ExcerptsAgree(markers, issue.body);
    ProcessIssueFailure(g, ctx, issue);
    ProcessIssueFailure(Fetch, ctx, issue);
    ProcessIssueSteps(g, ctx, issue);
    ProcessIssueSteps(Fetch, ctx, issue);
    var scan, raw, excerpt := ScanOf(ctx, issue), ctx.comments(issue.number), ExcerptOf(Fetch, issue.body);
    if scan.Some? && raw.Some? && excerpt.Some? {
      AssembleAgrees(markers, issue, scan.value, raw.value, excerpt.value);
    }
  }

  /** Without `POST_LABELS`, `generate-and-push.js` runs with the markers
      `POST` and `isPost` and so writes the same post as `fetch-issues.js`
      for any body that is not whitespace only. */
  lemma {:induction false} ConfiguredScriptsAgree(env: Option<string>, ctx: Context, issue: Issue)
    requires env.None? || env.value == ""
    requires issue.body.None? || issue.body.value == [] || !Text.IsBlank(issue.body.value)
    ensures ProcessIssue(Generate(Config.ParseLabels(env)), ctx, issue) == ProcessIssue(Fetch, ctx, issue)
  {
    Config.DefaultLabels(env);
    assert Config.DefaultMarkers == Labels.HardCodedMarkers;
    ScriptsAgree(Config.ParseLabels(env), ctx, issue);
  }

  /** The scripts store images under different folders:
      `<cwd>/src/assets/posts` for `fetch-issues.js` and
      `<cwd>/tmp_generated_posts/src/assets/posts` for `generate-and-push.js`.
      For two contexts that differ only in that folder (and so give the same
      download outcomes), the scripts succeed
      and fail together, fail in the same way, and write posts that differ
      only in the local `path` of their assets. */
  lemma {:induction false} ScriptsAgreeAcrossRoots(markers: seq<string>, ctx: Context, ctx': Context, issue: Issue)
    requires forall x :: x in markers <==> x in Labels.HardCodedMarkers
    requires issue.body.None? || issue.body.value == [] || !Text.IsBlank(issue.body.value)
    requires ctx' == ctx.(env := ctx.env.(assetsRoot := ctx'.env.assetsRoot))
    ensures ProcessIssue(Generate(markers), ctx, issue).Success? <==> ProcessIssue(Fetch, ctx', issue).Success?
    ensures ProcessIssue(Generate(markers), ctx, issue).Failure? ==>
      ProcessIssue(Generate(markers), ctx, issue) == ProcessIssue(Fetch, ctx', issue)
    ensures ProcessIssue(Generate(markers), ctx, issue).Success? ==>
      SameButAssetPaths(ProcessIssue(Generate(markers), ctx, issue).value, ProcessIssue(Fetch, ctx', issue).value)
  {
    var g := Generate(markers);
    ExcerptsAgree(markers, issue.body);
    ProcessIssueFailure(g, ctx, issue);
    ProcessIssueFailure(Fetch, ctx', issue);
    ProcessIssueSteps(g, ctx, issue);
    ProcessIssueSteps(Fetch, ctx', issue);
    ScanOfOtherRoot(ctx, ctx', issue);
    assert ctx'.comments == ctx.comments;
    var scan, scan', raw, excerpt := ScanOf(ctx, issue), ScanOf(ctx', issue), ctx.comments(issue.number), ExcerptOf(Fetch, issue.body);
    if scan.Some? && raw.Some? && excerpt.Some? {
      AssembleAgrees(markers, issue, scan.value, raw.value, excerpt.value);
      AssembleOtherRoot(Fetch, issue, scan.value, scan'.value, raw.value, excerpt.value);
    }
  }

  /** Two posts that differ at most in the local `path` of their assets. */
  predicate SameButAssetPaths(p: Post, q: Post) {
    && q == p.(assets := q.assets)
    && |q.assets| == |p.assets|
    && forall i | 0 <= i < |p.assets| :: q.assets[i].url == p.assets[i].url
  }

  /** The image loop with another asset folder ends in the same way, with the
      same body, file names and public paths. */
  lemma {:induction false} ScanOfOtherRoot(ctx: Context, ctx': Context, issue: Issue)
    requires ctx' == ctx.(env := ctx.env.(assetsRoot := ctx'.env.assetsRoot))
    ensures ScanOf(ctx, issue).Some? <==> ScanOf(ctx', issue).Some?
    ensures ScanOf(ctx, issue).Some? ==> ImageScan.SameButPaths(ScanOf(ctx, issue).value, ScanOf(ctx', issue).value)
  {
    var st := ImageScan.ScanState(if issue.body.Some? then issue.body.value else "", 0, []);
    ImageScan.ScanOtherRoot(ctx.env, ctx'.env.assetsRoot, Slug.SlugFor(issue.title, issue.number), st, st, ctx.budget);
  }

  /** Loop states that differ only in where the files are stored give posts
      that differ only in the local paths of their assets. */
  lemma {:induction false} AssembleOtherRoot(script: Script, issue: Issue, st: ImageScan.ScanState, st': ImageScan.ScanState,
                                             raw: seq<RawComment>, excerpt: string)
    requires ImageScan.SameButPaths(st, st')
    ensures SameButAssetPaths(Assemble(script, issue, st, raw, excerpt), Assemble(script, issue, st', raw, excerpt))
  {
    MediaOfSameButPaths(st.assets, st'.assets);
    AssetRefsSameButPaths(st.assets, st'.assets);
    var p, q := Assemble(script, issue, st, raw, excerpt), Assemble(script, issue, st', raw, excerpt);
    assert q == p.(assets := q.assets);
  }

  lemma {:induction false} MediaOfSameButPaths(xs: seq<ImageScan.Asset>, ys: seq<ImageScan.Asset>)
    requires |xs| == |ys|
    requires forall i | 0 <= i < |xs| :: xs[i].filename == ys[i].filename && xs[i].url == ys[i].url
    ensures MediaOf(xs) == MediaOf(ys)
  {
    assert forall i | 0 <= i < |xs| :: MediaOf(xs)[i] == MediaOf(ys)[i];
  }

  lemma {:induction false} AssetRefsSameButPaths(xs: seq<ImageScan.Asset>, ys: seq<ImageScan.Asset>)
    requires |xs| == |ys|
    requires forall i | 0 <= i < |xs| :: xs[i].url == ys[i].url
    ensures |AssetRefsOf(ys)| == |AssetRefsOf(xs)|
    ensures forall i | 0 <= i < |xs| :: AssetRefsOf(ys)[i].url == AssetRefsOf(xs)[i].url
  {
  }

  /** Apart from a blank body, both scripts compute the same excerpt. */
  lemma {:induction false} ExcerptsAgree(markers: seq<string>, body: Option<string>)
    requires body.None? || body.value == [] || !Text.IsBlank(body.value)
    ensures ExcerptOf(Generate(markers), body) == ExcerptOf(Fetch, body)
  {
  }

  /** With the same marker set, both scripts assemble the same post. */
  lemma {:induction false} AssembleAgrees(markers: seq<string>, issue: Issue, st: ImageScan.ScanState, raw: seq<RawComment>, excerpt: string)
    requires forall x :: x in markers <==> x in Labels.HardCodedMarkers
    ensures Assemble(Generate(markers), issue, st, raw, excerpt) == Assemble(Fetch, issue, st, raw, excerpt)
  {
    var labels := Labels.IssueLabels(issue.labels);
    Labels.TagsSameMarkers(labels, markers, Labels.HardCodedMarkers);
    Labels.MainCategorySameMarkers(labels, markers, Labels.HardCodedMarkers);
    Labels.FixedMainCategoryAgrees(labels);
  }

  /** An issue whose body is non-empty but only whitespace gets a post with an
      empty excerpt from `generate-and-push.js`, while `fetch-issues.js`
      throws on it and writes nothing. */
  lemma {:induction false} BlankBodyScriptsDiffer(markers: seq<string>, ctx: Context, issue: Issue)
    requires issue.body.Some? && issue.body.value != [] && Text.IsBlank(issue.body.value)
    requires ctx.comments(issue.number).Some? && ctx.budget > 0
    ensures ProcessIssue(Generate(markers), ctx, issue).Success?
    ensures ProcessIssue(Generate(markers), ctx, issue).value.excerpt == ""
    ensures ProcessIssue(Fetch, ctx, issue) == Failure(ExcerptThrows)
  {
    BlankBodyScan(ctx, issue);
    BlankExcerpts(markers, issue.body);
    ProcessIssueSteps(Generate(markers), ctx, issue);
    ProcessIssueFailure(Fetch, ctx, issue);
  }

  /** On a non-empty blank body one script's excerpt is empty and the other's throws. */
  lemma {:induction false} BlankExcerpts(markers: seq<string>, body: Option<string>)
    requires body.Some? && body.value != [] && Text.IsBlank(body.value)
    ensures ExcerptOf(Generate(markers), body) == Some("")
    ensures ExcerptOf(Fetch, body).None?
  {
  }

  /** The image loop leaves a blank body as it is. */
  lemma {:induction false} BlankBodyScan(ctx: Context, issue: Issue)
    requires issue.body.Some? && Text.IsBlank(issue.body.value) && ctx.budget > 0
    ensures ScanOf(ctx, issue) == Some(ImageScan.ScanState(issue.body.value, 0, []))
  {
    BlankHasNoImages(issue.body.value);
    ImageScan.NoImages(ctx.env, Slug.SlugFor(issue.title, issue.number), issue.body.value, ctx.budget);
  }

  /** Image markup starts with `!`, so a blank text has none. */
  lemma {:induction false} BlankHasNoImages(s: string)
    requires Text.IsBlank(s)
    ensures forall m :: !ImageScan.IsImageAt(s, m)
  {
  }

  // The run.

  /** Processing a list is processing its parts one after the other. */
  lemma {:induction false} CollectAppend(process: Issue -> Result<Post, Failure>, a: seq<Issue>, b: seq<Issue>)
    ensures Collect(process, a + b) == Collect(process, a) + Collect(process, b)
    decreases |a|
  {
    if a == [] {
      assert a + b == b;
    } else {
      assert (a + b)[0] == a[0];
      assert (a + b)[1..] == a[1..] + b;
      CollectAppend(process, a[1..], b);
    }
  }

  /** A pull request contributes nothing, wherever it stands. */
  lemma {:induction false} CollectSkipsPullRequest(process: Issue -> Result<Post, Failure>, a: seq<Issue>, pr: Issue, b: seq<Issue>)
    requires pr.isPullRequest
    ensures Collect(process, a + [pr] + b) == Collect(process, a + b)
  {
    CollectAppend(process, a + [pr], b);
    CollectAppend(process, a, [pr]);
    CollectAppend(process, a, b);
    assert [pr][1..] == [];
  }

  /** Every post of the run is the post of one of its issues, which is not a
      pull request. */
  lemma {:induction false} CollectFromIssues(process: Issue -> Result<Post, Failure>, issues: seq<Issue>, p: Post)
    requires p in Collect(process, issues)
    ensures exists i | 0 <= i < |issues| :: !issues[i].isPullRequest && process(issues[i]) == Success(p)
    decreases |issues|
  {
    var rest := Collect(process, issues[1..]);
    if p in rest {
      CollectFromIssues(process, issues[1..], p);
      var i :| 0 <= i < |issues[1..]| && !issues[1..][i].isPullRequest && process(issues[1..][i]) == Success(p);
      assert issues[i + 1] == issues[1..][i];
    } else {
      assert !issues[0].isPullRequest && process(issues[0]) == Success(p);
    }
  }

  /** Every issue that is not a pull request and is processed without error
      has its post in the run. */
  lemma {:induction false} CollectKeepsProcessed(process: Issue -> Result<Post, Failure>, issues: seq<Issue>, i: nat)
    requires i < |issues| && !issues[i].isPullRequest && process(issues[i]).Success?
    ensures process(issues[i]).value in Collect(process, issues)
    decreases i
  {
    if i > 0 {
      assert issues[1..][i - 1] == issues[i];
      CollectKeepsProcessed(process, issues[1..], i - 1);
    }
  }

  /** No two issues share a number. */
  predicate DistinctNumbers(issues: seq<Issue>) {
    forall i, j | 0 <= i < j < |issues| :: issues[i].number != issues[j].number
  }

  /** No two posts share an id. */
  predicate DistinctIds(posts: seq<Post>) {
    forall i, j | 0 <= i < j < |posts| :: posts[i].id != posts[j].id
  }

  /** No two posts share a slug, so none overwrites another's file. */
  predicate DistinctSlugs(posts: seq<Post>) {
    forall i, j | 0 <= i < j < |posts| :: posts[i].slug != posts[j].slug
  }

  /** When processing numbers each post after its issue, a run over issues
      with distinct numbers yields posts with distinct ids. */
  lemma {:induction false} CollectDistinctIds(process: Issue -> Result<Post, Failure>, issues: seq<Issue>)
    requires DistinctNumbers(issues)
    requires forall x | process(x).Success? :: process(x).value.id == x.number
    ensures DistinctIds(Collect(process, issues))
    decreases |issues|
  {
    if issues != [] {
      var tail := issues[1..];
      forall i, j | 0 <= i < j < |tail|
        ensures tail[i].number != tail[j].number
      {
        assert tail[i] == issues[i + 1] && tail[j] == issues[j + 1];
      }
      CollectDistinctIds(process, tail);
      var rest := Collect(process, tail);
      var r := Collect(process, issues);
      if !issues[0].isPullRequest && process(issues[0]).Success? {
        var p := process(issues[0]).value;
        assert r == [p] + rest;
        forall j | 0 <= j < |rest|
          ensures p.id != rest[j].id
        {
          CollectFromIssues(process, tail, rest[j]);
          var k :| 0 <= k < |tail| && !tail[k].isPullRequest && process(tail[k]) == Success(rest[j]);
          assert tail[k] == issues[k + 1];
        }
        forall i, j | 0 <= i < j < |r|
          ensures r[i].id != r[j].id
        {
          assert r[j] == rest[j - 1];
          if i > 0 {
            assert r[i] == rest[i - 1];
          }
        }
      } else {
        assert r == rest;
      }
    }
  }

  /** Every post of a run is the post of one of its issues, which is not a
      pull request. */
  lemma {:induction false} RunPostsFromIssues(script: Script, ctx: Context, issues: seq<Issue>, p: Post)
    requires p in Run(script, ctx, issues)
    ensures exists i | 0 <= i < |issues| ::
      !issues[i].isPullRequest && ProcessIssue(script, ctx, issues[i]) == Success(p)
  {
    CollectFromIssues(Process(script, ctx), issues, p);
  }

  /** Every post of a run carries its id at the end of its slug. */
  lemma {:induction false} RunSlugNamesId(script: Script, ctx: Context, issues: seq<Issue>, p: Post)
    requires p in Run(script, ctx, issues)
    ensures Slug.IdOfSlug(p.slug) == Some(p.id)
  {
    RunPostsFromIssues(script, ctx, issues, p);
    var i :| 0 <= i < |issues| && !issues[i].isPullRequest && ProcessIssue(script, ctx, issues[i]) == Success(p);
    PostSlug(script, ctx, issues[i], p);
  }

  /** Issues with different numbers give posts with different ids. */
  lemma {:induction false} RunDistinctIds(script: Script, ctx: Context, issues: seq<Issue>)
    requires DistinctNumbers(issues)
    ensures DistinctIds(Run(script, ctx, issues))
  {
    assert Run(script, ctx, issues) == Collect(Process(script, ctx), issues);
    ProcessNumbersPosts(script, ctx);
    CollectDistinctIds(Process(script, ctx), issues);
  }

  /** Each post carries its issue's number as its id. */
  lemma {:induction false} ProcessNumbersPosts(script: Script, ctx: Context)
    ensures forall x | Process(script, ctx)(x).Success? :: Process(script, ctx)(x).value.id == x.number
  {
  }

  /** Issues with different numbers give posts with different slugs, so no
      post file of a run overwrites another. */
  lemma {:induction false} RunDistinctSlugs(script: Script, ctx: Context, issues: seq<Issue>)
    requires DistinctNumbers(issues)
    ensures DistinctSlugs(Run(script, ctx, issues))
  {
    var r := Run(script, ctx, issues);
    RunDistinctIds(script, ctx, issues);
    forall i, j | 0 <= i < j < |r|
      ensures r[i].slug != r[j].slug
    {
      assert r[i] in r && r[j] in r;
      RunSlugNamesId(script, ctx, issues, r[i]);
      RunSlugNamesId(script, ctx, issues, r[j]);
    }
  }
}
