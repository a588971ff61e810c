# Issue-to-post transformation of scribal.bible

This project models how the blog's GitHub issues become post records. It also
models how the site reads those records back.

- `content-repo-template/generate-and-push.js` and `scripts/fetch-issues.js`
  read the open issues of a content repository. Each issue that is not a pull
  request becomes one post object, written as `<slug>.json`:
  - the image markup in its body is downloaded and rewritten to local asset
    paths;
  - its comments are fetched;
  - its labels become tags, a main category and a draft flag;
  - an excerpt is taken from the first non-blank line.

  An issue whose processing throws is reported and skipped.
- `src/data/posts.js` loads every `.json` file of the posts folder and sorts
  the posts by id, newest first.

The model is functional Dafny. The JavaScript idioms that matter are written
out explicitly:

- `||` fallbacks, where `""` and `0` are falsy;
- `String.prototype.trim`, `split` and `join`;
- `replace` with a string pattern, which replaces only the first occurrence
  and expands `$` templates in the replacement;
- the global regular expression driven by `exec` and `lastIndex`;
- the stable `Array.prototype.sort`.

Modules:

| module | what it models |
|---|---|
| `Wrappers` | `Option` and `Result` |
| `Decimal` | number-to-decimal-string conversion (`${id}`) and its inverse |
| `Seqs` | subsequences |
| `Text` | whitespace, `trim`, `split`/`join`, `indexOf`, `replace` (first occurrence, `$` patterns), `endsWith`, last-segment extraction |
| `Config` | the `POST_LABELS` marker list |
| `Labels` | label normalisation, `tags`, `main_category`, `draft` |
| `Slug` | `slugify`, the display title and the `<slug>-<id>` post slug |
| `Excerpt` | the excerpt of both scripts |
| `ImageScan` | the image regular expression and the download-and-rewrite loop |
| `Transform` | `processIssue` and the loop of `main` for both scripts |
| `PostStore` | the loader `src/data/posts.js` |

Effects become parameters:

- The GitHub comments request is a function from issue number to
  `Option<seq<RawComment>>`. `None` stands for a request that throws.
- Inside the image loop, the `new URL(...).pathname` parser and the download
  are functions of the URL; the parser returns `None` when it throws. The
  `Date.now()` stamp and the asset root are values.
- The posts folder is the list of its entries in `readdirSync` order. Each
  entry holds a post, or `None` when `JSON.parse` throws.

The image loop carries a bound on its number of turns. When the bound runs
out, the model reports `ImagesUnfinished` (see Left out).

## Model

Source paths are relative to the repository root.

| member | source | states |
|---|---|---|
| Config.LabelsSource | content-repo-template/generate-and-push.js:29 | an unset or empty `POST_LABELS` selects `POST,isPost`; any other value is used as given |
| Config.CleanLabels | content-repo-template/generate-and-push.js:29 | the cleaned list is no longer than the pieces, and each element is non-empty and trimmed |
| Config.CleanLabelsMembers | content-repo-template/generate-and-push.js:29 | a string is in the cleaned list exactly when it is non-empty and some piece trims to it |
| Config.ParseLabels | content-repo-template/generate-and-push.js:29 | every marker is non-empty, trimmed and free of commas |
| Config.CleanLabelsOfClean | content-repo-template/generate-and-push.js:29 | already clean pieces pass through `map(trim).filter(Boolean)` unchanged |
| Config.ParseLabelsOfJoin | content-repo-template/generate-and-push.js:29 | a non-empty list of clean, comma-free markers, written with commas, is parsed back to the same list |
| Config.DefaultLabels | content-repo-template/generate-and-push.js:29 | without `POST_LABELS` the markers are exactly `POST`, `isPost` |
| Decimal.DigitChar | content-repo-template/generate-and-push.js:77 | the digit character for d < 10 is a digit whose value is d |
| Decimal.NatToString | content-repo-template/generate-and-push.js:77 | `${id}` is a non-empty digit string with no leading zero unless the number is 0 |
| Decimal.ParseNatToString | content-repo-template/generate-and-push.js:77 | reading the digits of `${id}` back gives the id |
| Decimal.NatToStringInjective | content-repo-template/generate-and-push.js:77 | distinct ids print as distinct strings |
| Text.TrimStart | content-repo-template/generate-and-push.js:29 | removes exactly a whitespace prefix, leaving a result that does not start with whitespace |
| Text.TrimEnd | content-repo-template/generate-and-push.js:29 | removes exactly a whitespace suffix, leaving a result that does not end with whitespace |
| Text.Trim | content-repo-template/generate-and-push.js:29 | `trim` returns a piece of the input whose cut-off ends are blank, with no whitespace at either end; it is empty exactly when the input is blank, and a trimmed string is kept |
| Text.CharIndex | content-repo-template/generate-and-push.js:29 | the position of the first separator, or the length when there is none |
| Text.Split | content-repo-template/generate-and-push.js:29 | at least one piece, none holding the separator |
| Text.JoinSplit | content-repo-template/generate-and-push.js:29 | joining the pieces of `split` with the separator gives back the string |
| Text.SplitJoin | content-repo-template/generate-and-push.js:29 | splitting separator-free pieces joined with the separator gives back the pieces |
| Text.IndexOfFrom | content-repo-template/generate-and-push.js:96 | the first occurrence at or after a position, or none from there on |
| Text.IndexOf | content-repo-template/generate-and-push.js:96 | the first occurrence of the pattern, or no occurrence anywhere |
| Text.FirstOccurrenceUnique | content-repo-template/generate-and-push.js:96 | a position that is an occurrence with none before it is what `indexOf` returns |
| Text.ReplaceFirstAt | content-repo-template/generate-and-push.js:96 | literal replacement splices the replacement in at the first occurrence only |
| Text.Expand | content-repo-template/generate-and-push.js:96 | a replacement without `$` is inserted as it is |
| Text.ReplaceFirstJs | content-repo-template/generate-and-push.js:96 | `replace` leaves a string with no occurrence of the pattern unchanged |
| Text.ReplaceFirstJsAt | content-repo-template/generate-and-push.js:96 | `replace` splices in the `$`-expanded replacement at the first occurrence, keeping the text on both sides |
| Text.ReplaceFirstJsPlain | content-repo-template/generate-and-push.js:96 | without `$` in the replacement, `replace` is literal first-occurrence replacement |
| Text.DropLeading | content-repo-template/generate-and-push.js:46 | removes exactly the leading run of a character |
| Text.DropTrailing | content-repo-template/generate-and-push.js:90 | removes exactly the trailing run of a character |
| Text.AfterLast | content-repo-template/generate-and-push.js:90 | the longest suffix without the character, preceded by that character when it is not the whole string |
| Text.AfterLastAppend | content-repo-template/generate-and-push.js:90 | the part after the last separator of `prefix + c + tail`, where tail has no c, is tail |
| Slug.Slugify | content-repo-template/generate-and-push.js:40-47 | `slugify` yields a non-empty run of `a-z0-9` words joined by single hyphens |
| Slug.CollapseSpec | content-repo-template/generate-and-push.js:45 | `replace(/[^a-z0-9]+/g, '-')` keeps the letters and digits in order, leaves no two hyphens in a row, is empty only for empty input, and keeps a leading letter or digit |
| Slug.CollapseWord | content-repo-template/generate-and-push.js:45 | a run of letters and digits passes through `replace(/[^a-z0-9]+/g, '-')` unchanged, whatever follows it |
| Slug.CollapseGap | content-repo-template/generate-and-push.js:45 | each non-empty run of other characters followed by a letter, a digit or the end becomes one `-` |
| Slug.StripHyphens | content-repo-template/generate-and-push.js:46 | removing leading and trailing hyphens keeps the letters and digits and leaves no hyphen at either end |
| Slug.KeepTrim | content-repo-template/generate-and-push.js:44 | `trim` never removes a letter or digit |
| Slug.SlugifyKeepsAlnum | content-repo-template/generate-and-push.js:40-47 | the slug holds exactly the lower-cased ASCII letters and digits of the input, in order, or is `post` when there are none |
| Slug.SlugifyWithoutAlnum | content-repo-template/generate-and-push.js:46 | a text with no ASCII letter or digit after lower-casing becomes `post` |
| Slug.SlugifyFixesSlugs | content-repo-template/generate-and-push.js:40-47 | a string that already has slug form is its own slug |
| Slug.SlugifyIdempotent | content-repo-template/generate-and-push.js:40-47 | slugifying twice is slugifying once |
| Slug.SlugifyTwoWords | content-repo-template/generate-and-push.js:45 | two lower-case words separated by any run of other characters become `word1-word2` |
| Slug.CollapseWordsPunct | content-repo-template/generate-and-push.js:45 | two words, a run of punctuation between them and a run after them become `word1-word2-` |
| Slug.StripTrailingHyphen | content-repo-template/generate-and-push.js:46 | removing hyphens at the ends of a slug followed by one hyphen gives the slug back |
| Slug.DisplayTitle | content-repo-template/generate-and-push.js:76 | the title is never empty and is the issue's title whenever that is present and non-empty |
| Slug.AppendId | content-repo-template/generate-and-push.js:77 | appending `-${id}` ends the result with that suffix and keeps slug form |
| Slug.SlugFor | content-repo-template/generate-and-push.js:77 | the post slug has slug form and ends with `-<id>` |
| Slug.SlugForRecoversId | content-repo-template/generate-and-push.js:77 | the id can be read back from the post slug |
| Slug.SlugForDistinguishesIds | content-repo-template/generate-and-push.js:77 | issues with different numbers get different slugs, whatever their titles |
| Slug.SlugForSlugTitle | content-repo-template/generate-and-push.js:77 | a title already in slug form gives `<title>-<id>` |
| Slug.SlugForUntitled | content-repo-template/generate-and-push.js:77 | a missing or empty title gives `post-<id>-<id>` |
| Slug.SlugForHelloWorld | content-repo-template/generate-and-push.js:76-77 | issue 42 titled `Hello, World!` gets the slug `hello-world-42` |
| Slug.JoinSlugs | content-repo-template/generate-and-push.js:77 | two slugs joined by a hyphen form a slug |
| Labels.Normalize | content-repo-template/generate-and-push.js:78 | the label names are non-empty, and a name is present exactly when some label has it, as a string or as an object's `name` |
| Labels.IssueLabels | content-repo-template/generate-and-push.js:78 | missing labels give an empty list, and each name is non-empty |
| Labels.NormalizeAppend | content-repo-template/generate-and-push.js:78 | normalisation works label by label, keeping the order |
| Labels.NormalizeNamed | content-repo-template/generate-and-push.js:78 | a list of non-empty string labels is kept as it is |
| Labels.NormalizeObject | content-repo-template/generate-and-push.js:78 | an object label contributes its non-empty name, in place |
| Labels.Tags | content-repo-template/generate-and-push.js:79 | the tags are a subsequence of the labels, and a string is a tag exactly when it is a label and not a marker |
| Labels.TagsCount | content-repo-template/generate-and-push.js:79 | every non-marker label keeps its number of repetitions among the tags |
| Labels.TagsSameMarkers | content-repo-template/generate-and-push.js:79 | the tags depend only on the set of markers |
| Labels.MainCategory | content-repo-template/generate-and-push.js:115 | `main_category` is a non-empty, non-marker label, and `null` when every label is a marker |
| Labels.MainCategoryIsFirstTag | content-repo-template/generate-and-push.js:115 | `main_category` is the first tag, or `null` when there are no tags |
| Labels.MainCategorySameMarkers | content-repo-template/generate-and-push.js:115 | `main_category` depends only on the set of markers |
| Labels.DraftIsTag | content-repo-template/generate-and-push.js:120 | when `draft` is not a marker, a post is a draft exactly when `draft` is among its tags |
| Labels.FixedMainCategory | scripts/fetch-issues.js:96 | the category of `fetch-issues.js` is a non-empty label other than `POST` and `isPost` |
| Labels.FixedMainCategoryAgrees | scripts/fetch-issues.js:96 | it equals the configurable category with the default markers |
| Labels.TagsDrift | scripts/fetch-issues.js:58 | a label that is a marker in one script but not in the other is kept as a tag by one script and dropped by the other |
| Labels.TagsDriftExample | scripts/fetch-issues.js:58 | with markers `blog`, the labels `POST, blog` give tags `POST` in one script and `blog` in the other |
| Excerpt.Prefix | content-repo-template/generate-and-push.js:119 | `slice(0, n)` is the longest prefix of length at most n |
| Excerpt.FirstNonBlank | content-repo-template/generate-and-push.js:119 | `find(l => l.trim())` returns the first non-blank line, or none when all lines are blank |
| Excerpt.FirstLineExcerpt | content-repo-template/generate-and-push.js:119 | the excerpt of the first non-blank line is non-empty and at most 200 characters, and is missing exactly for a blank body |
| Excerpt.ExcerptGenerate | content-repo-template/generate-and-push.js:119 | the excerpt is at most 200 characters and is empty exactly when the body is missing or blank |
| Excerpt.ExcerptIsAtFirstVisibleLine | content-repo-template/generate-and-push.js:119 | the excerpt is the first 200 characters of the line that holds the body's first non-whitespace character |
| Excerpt.BlankLines | content-repo-template/generate-and-push.js:119 | a text is blank exactly when every line of it is blank |
| Excerpt.SkipBlankLine | content-repo-template/generate-and-push.js:119 | a leading blank line does not change the excerpt |
| Excerpt.ExcerptFetch | scripts/fetch-issues.js:100 | the excerpt of `fetch-issues.js` throws exactly on a non-empty, all-whitespace body, and otherwise equals the excerpt of `generate-and-push.js` |
| Excerpt.BlankBodyThrows | scripts/fetch-issues.js:100 | a body holding only a newline makes `fetch-issues.js` throw, where `generate-and-push.js` gives an empty excerpt |
| ImageScan.NextOf | content-repo-template/generate-and-push.js:84 | finds the next occurrence of a character, or reports the end |
| ImageScan.UrlRunEnd | content-repo-template/generate-and-push.js:84 | the URL part `[^)"']+` runs to the first `)`, `"` or `'` |
| ImageScan.MatchAt | content-repo-template/generate-and-push.js:84 | the matcher returns a match that starts at the position and has a non-empty URL before the closing parenthesis |
| ImageScan.MatchAtSound | content-repo-template/generate-and-push.js:84 | what the matcher returns is a match of the expression |
| ImageScan.MatchAtComplete | content-repo-template/generate-and-push.js:84 | every match of the expression is what the matcher returns at its start |
| ImageScan.Search | content-repo-template/generate-and-push.js:87 | finds the leftmost position at or after the start where the matcher succeeds |
| ImageScan.ExecLeftmost | content-repo-template/generate-and-push.js:87 | `exec` from `lastIndex` returns the leftmost match starting at or after it, and none only when no match starts there |
| ImageScan.Basename | content-repo-template/generate-and-push.js:90 | `path.basename` has no slash |
| ImageScan.FallbackName | content-repo-template/generate-and-push.js:90 | `image-<stamp>.png` is a non-empty name without slash |
| ImageScan.FileName | content-repo-template/generate-and-push.js:90 | the file name is non-empty and slash-free, and is the base name of the URL path whenever that is non-empty |
| ImageScan.Step | content-repo-template/generate-and-push.js:87-99 | a turn moves `lastIndex` just past the match |
| ImageScan.StepSkips | content-repo-template/generate-and-push.js:97-99 | a URL that does not parse or does not download changes nothing but `lastIndex` |
| ImageScan.StepRecords | content-repo-template/generate-and-push.js:89-95 | a successful download appends exactly one asset of the post, named after the URL path |
| ImageScan.StepRewrites | content-repo-template/generate-and-push.js:96 | the rewrite splices the asset's public path in at the first occurrence of the URL, which is at or before the image it came from |
| ImageScan.Scan | content-repo-template/generate-and-push.js:87-100 | the loop ends only when `exec` finds no further match |
| ImageScan.ScanAssets | content-repo-template/generate-and-push.js:95 | the loop keeps the assets already recorded and adds only assets stored under the post's slug |
| ImageScan.ScanBodyAssets | content-repo-template/generate-and-push.js:91-95 | every recorded asset has a plain file name, public path `/assets/posts/<slug>/<file>` and local path `<root>/<slug>/<file>` |
| ImageScan.FindImage | content-repo-template/generate-and-push.js:87 | the scanning method returns exactly the match `exec` defines |
| ImageScan.ScanImages | content-repo-template/generate-and-push.js:84-100 | the imperative loop succeeds exactly when the functional loop does, with the same body and assets |
| ImageScan.ScanDone | content-repo-template/generate-and-push.js:87 | with no match left, the loop stops and changes nothing |
| ImageScan.ScanTurn | content-repo-template/generate-and-push.js:87-99 | with a match, the loop is one turn followed by the rest of the loop |
| ImageScan.StepAdvances | content-repo-template/generate-and-push.js:87 | each turn moves `lastIndex` forward |
| ImageScan.NothingFetched | content-repo-template/generate-and-push.js:94-99 | when no download succeeds, the body and assets stay as they were, and the loop ends within a budget longer than the body |
| ImageScan.NoImages | content-repo-template/generate-and-push.js:84-87 | a body without image markup is kept as it is, with no assets |
| ImageScan.DollarAmpersand | content-repo-template/generate-and-push.js:96 | a file name containing `$&` puts the original URL back into the rewritten body |
| ImageScan.EarlierMentionRewritten | content-repo-template/generate-and-push.js:96 | when the URL also appears as plain text before the image, that earlier mention is rewritten and the image keeps the remote URL |
| ImageScan.NextImageSkipped | content-repo-template/generate-and-push.js:87-96 | when an asset path is shorter than its URL, an image right after the fetched one moves to before the new `lastIndex` and keeps its remote URL in the rewritten body |
| ImageScan.SpliceShiftsImage | content-repo-template/generate-and-push.js:96 | an image after the rewritten URL is still an image in the new body, moved back by the length saved, with the same URL |
| ImageScan.ReplaceKeepsTail | content-repo-template/generate-and-push.js:96 | the body after the first occurrence of the URL is kept by the rewrite, shifted by the length saved |
| ImageScan.ShiftedImage | content-repo-template/generate-and-push.js:84 | an image inside a part of the body that reappears shifted in another body is an image there too, with the same URL |
| ImageScan.StepOtherRoot | content-repo-template/generate-and-push.js:89-96 | a turn run with another asset folder rewrites the body the same way and records the same file names and public paths |
| ImageScan.ScanOtherRoot | content-repo-template/generate-and-push.js:87-100 | the loop run with another asset folder ends exactly when it ends with the first, with the same body, file names and public paths |
| Transform.ProcessIssue | content-repo-template/generate-and-push.js:74-128 | a written post has the issue's number as id, a slug ending in `-<id>`, and one `media` entry per `assets` entry |
| Transform.Collect | content-repo-template/generate-and-push.js:152-159 | the loop of `main` writes at most one post per issue |
| Transform.ProcessIssueSteps | content-repo-template/generate-and-push.js:87-122 | a post is written exactly when the image loop, the comments request and the excerpt all succeed, and it is assembled from their results |
| Transform.ProcessIssueFailure | content-repo-template/generate-and-push.js:87-119 | the error is that of the first failing step, in the order image loop, comments, excerpt |
| Transform.PostFallbacks | content-repo-template/generate-and-push.js:76-116 | the title falls back to `Post <id>` and the slug to `post-<id>-<id>`; `updated_at` falls back to `created_at`; `post_type` is `article` |
| Transform.PostSlug | content-repo-template/generate-and-push.js:77 | the slug comes from the title and number, and the id can be read back from it |
| Transform.PostMedia | content-repo-template/generate-and-push.js:117-118 | each `media` entry is an image whose URL is that of the matching `assets` entry, served from `/assets/posts/<slug>/<file>` and stored at `<root>/<slug>/<file>` |
| Transform.ScanOfAssets | content-repo-template/generate-and-push.js:91-95 | every file recorded for an issue is stored under that issue's slug |
| Transform.AssembledMedia | content-repo-template/generate-and-push.js:117-118 | `media` and `assets` entries of an assembled post come from the same recorded file |
| Transform.PostLabels | content-repo-template/generate-and-push.js:78-120 | the tags are the non-marker labels in order; `main_category` is the first tag; `draft` holds exactly when `draft` is a label |
| Transform.PostExcerpt | content-repo-template/generate-and-push.js:119 | the excerpt is at most 200 characters of the first visible line of the original body, and is empty exactly when the body is missing or blank |
| Transform.MainCategoryIsFirstTag | scripts/fetch-issues.js:58-96 | in both scripts `main_category` is the first tag |
| Transform.CommentFields | content-repo-template/generate-and-push.js:69-72 | each comment keeps its date; a missing body becomes empty; the author is `null` exactly when the user or login is missing or empty, and is otherwise the user's login |
| Transform.ScriptsAgree | scripts/fetch-issues.js:53-109 | given the same asset folder and the same download outcomes, with markers `POST` and `isPost` and a body that is not whitespace only, both scripts give the same result for an issue |
| Transform.ScriptsAgreeAcrossRoots | scripts/fetch-issues.js:12-109 | with the scripts' different asset folders (`fetch-issues.js:12`, `generate-and-push.js:147`) but the same download outcomes, markers `POST` and `isPost` and a body that is not whitespace only, both scripts succeed and fail together, fail with the same error, and write posts that differ only in the local `path` of their assets |
| Transform.ConfiguredScriptsAgree | content-repo-template/generate-and-push.js:29 | without `POST_LABELS`, the markers `generate-and-push.js` parses make it write the same post as `fetch-issues.js`, given the same asset folder and the same download outcomes |
| Transform.ScanOfOtherRoot | content-repo-template/generate-and-push.js:91-96 | the asset folder decides only where files are stored: the image loop ends in the same way, with the same body, file names and public paths |
| Transform.AssembleOtherRoot | content-repo-template/generate-and-push.js:117-118 | loop results that differ only in where files are stored give posts that differ only in the local `path` of their assets |
| Transform.ExcerptsAgree | scripts/fetch-issues.js:100 | apart from a whitespace-only body, both scripts compute the same excerpt |
| Transform.AssembleAgrees | scripts/fetch-issues.js:85-103 | with the same marker set, both scripts build the same post record |
| Transform.BlankBodyScriptsDiffer | scripts/fetch-issues.js:100 | for a non-empty whitespace-only body, `generate-and-push.js` writes a post with an empty excerpt, while `fetch-issues.js` throws and writes nothing |
| Transform.BlankBodyScan | content-repo-template/generate-and-push.js:81-100 | the image loop leaves a blank body unchanged, with no assets |
| Transform.CollectAppend | content-repo-template/generate-and-push.js:152-159 | the posts of a concatenation of issue lists are the concatenation of their posts |
| Transform.CollectSkipsPullRequest | content-repo-template/generate-and-push.js:153 | a pull request contributes nothing |
| Transform.CollectFromIssues | content-repo-template/generate-and-push.js:152-159 | every post written comes from an issue that is not a pull request and whose processing succeeded |
| Transform.CollectKeepsProcessed | content-repo-template/generate-and-push.js:154-158 | every issue that is not a pull request and is processed successfully has its post written |
| Transform.CollectDistinctIds | content-repo-template/generate-and-push.js:152-159 | when issue numbers are distinct and each post carries its issue's number, the posts have distinct ids |
| Transform.RunPostsFromIssues | scripts/fetch-issues.js:120-128 | each post of a run is the successful result of `processIssue` on some issue that is not a pull request |
| Transform.RunSlugNamesId | content-repo-template/generate-and-push.js:77 | the id of each post of a run can be read back from its slug |
| Transform.RunDistinctIds | content-repo-template/generate-and-push.js:152-159 | issues with distinct numbers give posts with distinct ids |
| Transform.ProcessNumbersPosts | content-repo-template/generate-and-push.js:105 | every post `processIssue` writes carries its issue's number |
| Transform.RunDistinctSlugs | content-repo-template/generate-and-push.js:124 | issues with distinct numbers give posts with distinct slugs, so no `<slug>.json` file of a run overwrites another |
| PostStore.JsonEntries | src/data/posts.js:5 | the kept entries are, in order, exactly the directory entries whose names end in `.json` |
| PostStore.ParseAll | src/data/posts.js:6-8 | parsing fails exactly when some file fails to parse; otherwise each file gives its post, in order |
| PostStore.Insert | src/data/posts.js:9 | inserting adds exactly the one post |
| PostStore.Sort | src/data/posts.js:9 | sorting is a permutation |
| PostStore.InsertSorted | src/data/posts.js:9 | inserting into a list sorted newest first keeps it sorted |
| PostStore.SortSorted | src/data/posts.js:9 | the sorted list has non-increasing ids |
| PostStore.WithId | src/data/posts.js:9 | selecting by id keeps only posts with that id |
| PostStore.InsertWithId | src/data/posts.js:9 | insertion puts a post ahead of the posts with the same id that were already present |
| PostStore.SortStable | src/data/posts.js:9 | posts with equal ids keep their directory order (the sort is stable) |
| PostStore.LoadFails | src/data/posts.js:5-8 | loading fails exactly when some `.json` file does not parse |
| PostStore.LoadContents | src/data/posts.js:5-9 | a successful load is sorted newest first, is a permutation of the parsed `.json` files, and keeps the order of equal ids |
| PostStore.Written | content-repo-template/generate-and-push.js:124-126 | one `<slug>.json` file per post, each holding its post |
| PostStore.WrittenNamesDistinct | content-repo-template/generate-and-push.js:124 | posts with distinct slugs are written to distinct file names |
| PostStore.LoadWritten | src/data/posts.js:5-9 | loading a folder that holds only written posts gives those posts, sorted |
| PostStore.JsonOnly | src/data/posts.js:5 | a folder of `.json` files passes the filter unchanged |
| PostStore.RunRoundTrip | src/data/posts.js:5-9 | loading a folder that holds exactly the files of one run with distinct issue numbers succeeds and gives the run's posts, sorted newest first and with distinct ids |
| PostStore.Unreplaced | content-repo-template/generate-and-push.js:173 | the folder's files that stay are exactly those no file of the run has the name of |
| PostStore.CopyInto | content-repo-template/generate-and-push.js:173 | after writing a run's files into a folder, the folder holds the run's files and exactly the earlier files whose names the run did not write |
| PostStore.RetitledIssueRepeatsId | content-repo-template/generate-and-push.js:173 | an issue retitled since an earlier run leaves its earlier file in the folder, which then loads with two posts of the same id |
| PostStore.NamesDiffer | content-repo-template/generate-and-push.js:124 | posts with different slugs are written to different `<slug>.json` names |
| PostStore.SortKeepsDistinctIds | src/data/posts.js:9 | sorting keeps ids distinct |

## Left out

- Network and GitHub API. The issues request, its `labels` query encoding,
  the `Array.isArray` check and the authorisation headers are not modelled.
  The model starts from the list of issues. The comments request is a
  parameter that answers or fails.
- Transform.ScriptsAgree, Transform.ScriptsAgreeAcrossRoots, Transform.ConfiguredScriptsAgree:
  the comparison gives both scripts one `downloads` parameter, so it assumes
  both see the same download outcomes. Only `fetch-issues.js` sends the
  `Authorization` token with image downloads (`scripts/fetch-issues.js:39-41`);
  `generate-and-push.js` sends none (`generate-and-push.js:61`). An image that
  answers only with the token is stored and rewritten by `fetch-issues.js`
  but skipped by `generate-and-push.js`, whose post then keeps the remote URL
  and differs in `body`, `media` and `assets`.
- Downloads and URL parsing. `new URL(url).pathname` and `downloadFile` are
  parameters. A download that fails is the same as one that throws. Files
  are not written.
- Date.now. The clock is one value per run. The source reads the clock anew
  for each unnamed image, so two such images in one post can get distinct
  names in the source. In the model they get the same name.
- Path normalisation. `path.join` and `path.posix.join` are modelled as
  joining with `/`. The `..` and `.` segments they would resolve are not
  modelled. The slug holds only `a-z`, `0-9` and `-`, so it is never such a
  segment. The file name has no slash, but it would be `..` if the
  `pathname` parameter answered `/..`. In the program `new URL(...).pathname`
  has already removed dot segments, so the parameter is taken never to answer
  with one; the model does not enforce this.
- Character set. `toLowerCase` is modelled on ASCII letters only. Strings are
  sequences of characters, not UTF-16 code units.
- Writing files. `JSON.stringify` and the file writes are not modelled, and
  nor is `JSON.parse` beyond parses-or-throws. A written file is an entry
  holding its post, so a write is assumed to read back as the same post.
  Every file that parses is taken to be a post with a natural-number `id`. A
  `.json` file that parses but has no numeric `id` makes `b.id - a.id`
  return `NaN`, and the sort order is then unspecified; the model does not
  cover that case.
- The `custom` field. This always-empty object is not part of the post
  record.
- Process-level code. The `process.exit` checks for missing environment
  variables, the temporary work folder, the git clone/commit/push of
  `generate-and-push.js` and all logging are not modelled.
- Transform.ProcessIssue: the image loop is bounded by a number of turns in
  `Context`. When the bound runs out, the result is `ImagesUnfinished`, a
  failure the source does not have: its loop would run on. Each turn moves
  `lastIndex` forward (`ImageScan.StepAdvances`). A loop whose downloads all
  fail ends within a bound longer than the body (`ImageScan.NothingFetched`).
  A file name can bring new image markup into the body, so no bound holds in
  general.
- Orphan assets. Files downloaded for an issue whose processing later throws
  remain on disk in the source. The model records no files outside a post.
- Posts folder. The loader reads `posts` next to itself (`src/data/posts`),
  while both scripts write `src/_data/posts`.
- PostStore.RunRoundTrip: covers a folder holding exactly the files of one
  run (`Written(posts)`), not the folder the scripts leave behind. Neither
  script empties that folder: `fetch-issues.js` writes into it, and
  `generate-and-push.js` copies its files over the hosting repository's with
  `cp -r`. Stale files from earlier runs (renamed, closed or unlabelled
  issues) stay in the folder and can repeat an id
  (`PostStore.RetitledIssueRepeatsId`).
- Asset folders. Run from the same working directory, `fetch-issues.js`
  stores images under `<cwd>/src/assets/posts` and `generate-and-push.js`
  under `<cwd>/tmp_generated_posts/src/assets/posts`. The folder is part of
  `Context`. `Transform.ScriptsAgree` compares the scripts given the same
  folder; `Transform.ScriptsAgreeAcrossRoots` compares them with different
  folders, where the posts differ in the local `path` of their assets.
- Directory order. The directory listing order is a parameter:
  `readdirSync` order is not specified.

## Findings

| source | as written | input that shows it | evidently intended | confidence | as-written member | corrected member |
|---|---|---|---|---|---|---|
| scripts/fetch-issues.js:100 | `issue.body.split('\n').find(l => l.trim()).slice(0, 200)` calls `slice` on `undefined` when no line is non-blank | an issue whose body is `"\n"` (any non-empty whitespace-only body) | an empty excerpt, as `generate-and-push.js:119` computes with `?.`; instead the issue throws and no post is written | not executed | Excerpt.ExcerptFetch | Excerpt.ExcerptGenerate |

`Excerpt.BlankBodyThrows` and `Transform.BlankBodyScriptsDiffer` exhibit the
discrepancy. The first covers the excerpt alone; the second covers the whole
`processIssue`. `Transform.ExcerptOf` uses the corrected excerpt for
`generate-and-push.js`.

Other behaviours follow from the code as written and are stated in the model
without a correction:

- Slug of an untitled issue. An issue without a title gets the slug
  `post-<id>-<id>` (`Slug.SlugForUntitled`).
- `replace` and `$`. `replace` reads the asset path as a replacement
  pattern, so a file name containing `$&` reinserts the original URL
  (`ImageScan.DollarAmpersand`).
- `replace` and earlier mentions. `replace` rewrites the first occurrence of
  the URL in the body. That occurrence may be an earlier plain-text mention
  rather than the image (`ImageScan.EarlierMentionRewritten`).
- Images right after a fetched one. `lastIndex` keeps its place in the old
  body while the rewrite shortens the body before it. An image that directly
  follows a fetched image whose asset path is shorter than its URL ends up
  before `lastIndex`, so the loop skips it. It keeps its remote URL unless the
  same URL is fetched later, when `replace` rewrites its first occurrence
  (`ImageScan.NextImageSkipped`).
- Tags in `fetch-issues.js`. That script removes the hard-coded `POST` and
  `isPost` from the tags rather than the configured markers
  (`Labels.TagsDrift`).
