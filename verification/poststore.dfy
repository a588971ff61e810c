/** The site's loader `src/data/posts.js`: every `.json` file of the posts
    folder is parsed, and the posts are sorted by id, newest first, with
    `Array.prototype.sort`, which is stable. A directory is given as the list
    of its entries in the order `readdirSync` returns them; a file's content
    is the post it parses to, or `None` when `JSON.parse` throws. */
module PostStore {
  import opened Wrappers
  import Text
  import Seqs
  import Transform

  type Post = Transform.Post

  /** A directory entry: its file name and what its text parses to. */
  datatype Entry = Entry(name: string, content: Option<Post>)

  /** `f => f.endsWith('.json')`. */
  predicate IsJson(e: Entry) {
    Text.EndsWith(e.name, ".json")
  }

  /** `readdirSync(postsDir).filter(f => f.endsWith('.json'))`. */
  function JsonEntries(dir: seq<Entry>): (r: seq<Entry>)
    ensures Seqs.IsSubsequence(r, dir)
    ensures forall e :: e in r <==> e in dir && IsJson(e)
    decreases |dir|
  {
    if dir == [] then []
    else
      var rest := JsonEntries(dir[1..]);
      if IsJson(dir[0]) then
        assert ([dir[0]] + rest)[1..] == rest;
        [dir[0]] + rest
      else
        Seqs.SubsequenceDrop(rest, dir);
        rest
  }

  /** `files.map(f => JSON.parse(...))`: the parsed posts in order, or `None`
      as soon as one file does not parse. */
  function ParseAll(entries: seq<Entry>): (r: Option<seq<Post>>)
    ensures r.None? <==> exists i | 0 <= i < |entries| :: entries[i].content.None?
    ensures r.Some? ==> |r.value| == |entries|
    ensures r.Some? ==> forall i | 0 <= i < |entries| :: entries[i].content == Some(r.value[i])
    decreases |entries|
  {
    if entries == [] then Some([])
    else
      var rest := ParseAll(entries[1..]);
      assert forall i | 1 <= i < |entries| :: entries[i] == entries[1..][i - 1];
      if entries[0].content.None? || rest.None? then None
      else Some([entries[0].content.value] + rest.value)
  }

  /** Posts ordered by id, largest first. */
  predicate Sorted(posts: seq<Post>) {
    forall i, j | 0 <= i < j < |posts| :: posts[i].id >= posts[j].id
  }

  /** Puts `p` in front of the first post whose id is not larger, so that it
      stays ahead of posts with its own id. */
  function Insert(p: Post, xs: seq<Post>): (r: seq<Post>)
    ensures multiset(r) == multiset(xs) + multiset{p}
    decreases |xs|
  {
    if xs == [] || xs[0].id <= p.id then [p] + xs
    else
      assert xs == [xs[0]] + xs[1..];
      [xs[0]] + Insert(p, xs[1..])
  }

  /** `.sort((a, b) => b.id - a.id)`. */
  function Sort(xs: seq<Post>): (r: seq<Post>)
    ensures multiset(r) == multiset(xs)
    decreases |xs|
  {
    if xs == [] then []
    else
      assert xs == [xs[0]] + xs[1..];
      Insert(xs[0], Sort(xs[1..]))
  }

  /** Inserting into a sorted list keeps it sorted. */
  lemma {:induction false} InsertSorted(p: Post, xs: seq<Post>)
    requires Sorted(xs)
    ensures Sorted(Insert(p, xs))
    decreases |xs|
  {
    if xs != [] && xs[0].id > p.id {
      var t := Insert(p, xs[1..]);
      InsertSorted(p, xs[1..]);
      forall x | x in t
        ensures x.id <= xs[0].id
      {
        assert x in multiset(t);
        if x != p {
          assert x in multiset(xs[1..]);
          var k :| 0 <= k < |xs[1..]| && xs[1..][k] == x;
          assert x == xs[k + 1];
        }
      }
      SortedCons(xs[0], t);
    }
  }

  /** A post in front of a sorted list whose ids are all at most its own. */
  lemma {:induction false} SortedCons(x: Post, t: seq<Post>)
    requires Sorted(t)
    requires forall y | y in t :: y.id <= x.id
    ensures Sorted([x] + t)
  {
    var r := [x] + t;
    forall i, j | 0 <= i < j < |r|
      ensures r[i].id >= r[j].id
    {
      assert r[j] == t[j - 1];
      if i > 0 {
        assert r[i] == t[i - 1];
      } else {
        assert t[j - 1] in t;
      }
    }
  }

  /** The loaded list is sorted by id, largest first. */
  lemma {:induction false} SortSorted(xs: seq<Post>)
    ensures Sorted(Sort(xs))
    decreases |xs|
  {
    if xs != [] {
      SortSorted(xs[1..]);
      InsertSorted(xs[0], Sort(xs[1..]));
    }
  }

  /** The posts with id `k`, in order. */
  function WithId(xs: seq<Post>, k: nat): (r: seq<Post>)
    ensures forall i | 0 <= i < |r| :: r[i].id == k
    decreases |xs|
  {
    if xs == [] then []
    else (if xs[0].id == k then [xs[0]] else []) + WithId(xs[1..], k)
  }

  /** Inserting `p` puts it ahead of every post that already has its id. */
  lemma {:induction false} InsertWithId(p: Post, xs: seq<Post>, k: nat)
    ensures WithId(Insert(p, xs), k) == (if p.id == k then [p] else []) + WithId(xs, k)
    decreases |xs|
  {
    if xs == [] || xs[0].id <= p.id {
      assert ([p] + xs)[1..] == xs;
    } else {
      var t := Insert(p, xs[1..]);
      InsertWithId(p, xs[1..], k);
      assert ([xs[0]] + t)[1..] == t;
    }
  }

  /** The sort is stable: posts sharing an id keep the order they had in the
      directory listing. */
  lemma {:induction false} SortStable(xs: seq<Post>, k: nat)
    ensures WithId(Sort(xs), k) == WithId(xs, k)
    decreases |xs|
  {
    if xs != [] {
      SortStable(xs[1..], k);
      InsertWithId(xs[0], Sort(xs[1..]), k);
    }
  }

  /** `posts`: the sorted posts of the JSON files, or `None` when one of them
      does not parse and requiring the module throws. */
  function Load(dir: seq<Entry>): Option<seq<Post>> {
    match ParseAll(JsonEntries(dir))
    case None => None
    case Some(ps) => Some(Sort(ps))
  }

  /** Loading fails exactly when some `.json` file does not parse; other
      files are never read. */
  lemma {:induction false} LoadFails(dir: seq<Entry>)
    ensures Load(dir).None? <==> exists e | e in dir :: IsJson(e) && e.content.None?
  {
    var js := JsonEntries(dir);
    if exists e | e in dir :: IsJson(e) && e.content.None? {
      var e :| e in dir && IsJson(e) && e.content.None?;
      assert e in js;
      var i :| 0 <= i < |js| && js[i] == e;
    }
    if ParseAll(js).None? {
      var i :| 0 <= i < |js| && js[i].content.None?;
      assert js[i] in js;
    }
  }

  /** A loaded list holds each parsed `.json` file once, sorted by id with
      ties in listing order. */
  lemma {:induction false} LoadContents(dir: seq<Entry>)
    requires Load(dir).Some?
    ensures var ps := ParseAll(JsonEntries(dir)).value;
      && Sorted(Load(dir).value)
      && multiset(Load(dir).value) == multiset(ps)
      && forall k: nat :: WithId(Load(dir).value, k) == WithId(ps, k)
  {
    var ps := ParseAll(JsonEntries(dir)).value;
    SortSorted(ps);
    forall k: nat
      ensures WithId(Sort(ps), k) == WithId(ps, k)
    {
      SortStable(ps, k);
    }
  }

  /** The posts of a run, each written to `<slug>.json`. */
  function Written(posts: seq<Post>): (r: seq<Entry>)
    ensures |r| == |posts|
    ensures forall i | 0 <= i < |r| :: IsJson(r[i]) && r[i].content == Some(posts[i])
  {
    seq(|posts|, i requires 0 <= i < |posts| => Entry(posts[i].slug + ".json", Some(posts[i])))
  }

  /** Files written from posts with distinct slugs have distinct names. */
  lemma {:induction false} WrittenNamesDistinct(posts: seq<Post>)
    requires Transform.DistinctSlugs(posts)
    ensures forall i, j | 0 <= i < j < |posts| :: Written(posts)[i].name != Written(posts)[j].name
  {
  }

  /** Loading a folder that holds exactly the written posts gives those posts
      sorted by id. */
  lemma {:induction false} LoadWritten(posts: seq<Post>)
    ensures Load(Written(posts)) == Some(Sort(posts))
  {
    var w := Written(posts);
    JsonOnly(w);
    var ps := ParseAll(w);
    assert ps.Some?;
    assert ps.value == posts;
  }

  /** A listing of `.json` files only is kept as it is. */
  lemma {:induction false} JsonOnly(dir: seq<Entry>)
    requires forall i | 0 <= i < |dir| :: IsJson(dir[i])
    ensures JsonEntries(dir) == dir
    decreases |dir|
  {
    if dir != [] {
      JsonOnly(dir[1..]);
      assert dir == [dir[0]] + dir[1..];
    }
  }

  /** The posts of a run, written and loaded back, are all there, newest
      first, each once. */
  lemma {:induction false} RunRoundTrip(script: Transform.Script, ctx: Transform.Context, issues: seq<Transform.Issue>)
    requires Transform.DistinctNumbers(issues)
    ensures var posts := Transform.Run(script, ctx, issues);
      && Load(Written(posts)).Some?
      && Sorted(Load(Written(posts)).value)
      && multiset(Load(Written(posts)).value) == multiset(posts)
      && Transform.DistinctIds(Load(Written(posts)).value)
  {
    var posts := Transform.Run(script, ctx, issues);
    LoadWritten(posts);
    SortSorted(posts);
    Transform.RunDistinctIds(script, ctx, issues);
    SortKeepsDistinctIds(posts);
  }

  // Earlier runs.

  /** Whether some entry of `files` is named `name`. */
  predicate HasName(files: seq<Entry>, name: string) {
    exists k | 0 <= k < |files| :: files[k].name == name
  }

  /** The entries of `folder` that no entry of `files` replaces, in order. */
  function Unreplaced(folder: seq<Entry>, files: seq<Entry>): (r: seq<Entry>)
    ensures forall e :: e in r <==> e in folder && !HasName(files, e.name)
    decreases |folder|
  {
    if folder == [] then []
    else
      var rest := Unreplaced(folder[1..], files);
      if HasName(files, folder[0].name) then rest else [folder[0]] + rest
  }

  /** Writing a run's files into a folder that already holds files
      (`fetch-issues.js` writes into the posts folder, and
      `generate-and-push.js` runs `cp -r` into the hosting repository's):
      a file of the run replaces the file of the same name, and every other
      file stays. The listing order after the copy is not known; this one
      lists the files that stay first. */
  function CopyInto(folder: seq<Entry>, files: seq<Entry>): (r: seq<Entry>)
    ensures forall e :: e in r <==> e in files || (e in folder && !HasName(files, e.name))
  {
    Unreplaced(folder, files) + files
  }

  /** Neither script empties the posts folder. An issue retitled since an
      earlier run gets a new slug, so the file of the earlier run is not
      replaced, and the folder then loads two posts with the issue's id. */
  lemma {:induction false} RetitledIssueRepeatsId(earlier: seq<Post>, posts: seq<Post>, i: nat, j: nat)
    requires i < |earlier| && j < |posts|
    requires earlier[i].id == posts[j].id && earlier[i].slug != posts[j].slug
    requires forall k | 0 <= k < |posts| :: posts[k].slug != earlier[i].slug
    ensures Load(CopyInto(Written(earlier), Written(posts))).Some?
    ensures !Transform.DistinctIds(Load(CopyInto(Written(earlier), Written(posts))).value)
  {
    var prev, cur := Written(earlier), Written(posts);
    var dir := CopyInto(prev, cur);
    forall k | 0 <= k < |cur|
      ensures cur[k].name != prev[i].name
    {
      NamesDiffer(posts[k].slug, earlier[i].slug);
    }
    assert prev[i] in dir && cur[j] in dir;
    forall e | e in dir
      ensures e.content.Some?
    {
      if e in cur {
        WrittenParses(posts, e);
      } else {
        WrittenParses(earlier, e);
      }
    }
    LoadFails(dir);
    LoadContents(dir);
    var js := JsonEntries(dir);
    var ps := ParseAll(js).value;
    var a := InParsed(js, ps, prev[i], earlier[i]);
    var b := InParsed(js, ps, cur[j], posts[j]);
    DuplicateId(Load(dir).value, ps, earlier[i], posts[j]);
  }

  /** `<slug>.json` names differ when the slugs do. */
  lemma {:induction false} NamesDiffer(s: string, t: string)
    requires s != t
    ensures s + ".json" != t + ".json"
  {
    if |s| == |t| {
      assert s == (s + ".json")[..|s|] && t == (t + ".json")[..|t|];
    }
  }

  lemma {:induction false} WrittenParses(posts: seq<Post>, e: Entry)
    requires e in Written(posts)
    ensures e.content.Some?
  {
    var k :| 0 <= k < |Written(posts)| && Written(posts)[k] == e;
  }

  /** A `.json` entry of a listing that parses gives its post among the parsed ones. */
  lemma {:induction false} InParsed(js: seq<Entry>, ps: seq<Post>, e: Entry, p: Post) returns (k: nat)
    requires ParseAll(js) == Some(ps) && e in js && e.content == Some(p)
    ensures k < |ps| && ps[k] == p
  {
    var n :| 0 <= n < |js| && js[n] == e;
    k := n;
  }

  /** Two distinct posts with the same id in the parsed files repeat that id in the load. */
  lemma {:induction false} DuplicateId(r: seq<Post>, ps: seq<Post>, p: Post, q: Post)
    requires multiset(r) == multiset(ps) && p in ps && q in ps
    requires p != q && p.id == q.id
    ensures !Transform.DistinctIds(r)
  {
    assert p in multiset(r) && q in multiset(r);
    var a :| 0 <= a < |r| && r[a] == p;
    var b :| 0 <= b < |r| && r[b] == q;
    if a < b {
      assert r[a].id == r[b].id;
    } else {
      assert r[b].id == r[a].id;
    }
  }

  /** Sorting does not create duplicate ids. */
  lemma {:induction false} SortKeepsDistinctIds(xs: seq<Post>)
    requires Transform.DistinctIds(xs)
    ensures Transform.DistinctIds(Sort(xs))
  {
    var r := Sort(xs);
    forall i, j | 0 <= i < j < |r|
      ensures r[i].id != r[j].id
    {
      if r[i].id == r[j].id {
        var k := r[i].id;
        SortStable(xs, k);
        WithIdCount(r, k, i, j);
        WithIdAtMostOne(xs, k);
      }
    }
  }

  /** Two posts with id `k` at different places make `WithId` hold two. */
  lemma {:induction false} WithIdCount(xs: seq<Post>, k: nat, i: nat, j: nat)
    requires i < j < |xs| && xs[i].id == k && xs[j].id == k
    ensures |WithId(xs, k)| >= 2
    decreases |xs|
  {
    if i > 0 {
      WithIdCount(xs[1..], k, i - 1, j - 1);
    } else {
      WithIdHas(xs[1..], k, j - 1);
    }
  }

  lemma {:induction false} WithIdHas(xs: seq<Post>, k: nat, j: nat)
    requires j < |xs| && xs[j].id == k
    ensures |WithId(xs, k)| >= 1
    decreases |xs|
  {
    if j > 0 {
      WithIdHas(xs[1..], k, j - 1);
    }
  }

  /** Without duplicate ids, each id is held by at most one post. */
  lemma {:induction false} WithIdAtMostOne(xs: seq<Post>, k: nat)
    requires Transform.DistinctIds(xs)
    ensures |WithId(xs, k)| <= 1
    decreases |xs|
  {
    if xs != [] {
      var t := xs[1..];
      assert Transform.DistinctIds(t) by {
        forall i, j | 0 <= i < j < |t|
          ensures t[i].id != t[j].id
        {
          assert t[i] == xs[i + 1] && t[j] == xs[j + 1];
        }
      }
      WithIdAtMostOne(t, k);
      if xs[0].id == k {
        WithIdNone(xs, k);
      }
    }
  }

  /** When the first post's id occurs nowhere else, the rest holds none with it. */
  lemma {:induction false} WithIdNone(xs: seq<Post>, k: nat)
    requires Transform.DistinctIds(xs) && xs != [] && xs[0].id == k
    ensures WithId(xs[1..], k) == []
  {
    var t := xs[1..];
    if WithId(t, k) != [] {
      var j := WithIdWitness(t, k);
    }
  }

  /** A post with id `k` when `WithId` holds one. */
  lemma {:induction false} WithIdWitness(xs: seq<Post>, k: nat) returns (j: nat)
    requires WithId(xs, k) != []
    ensures j < |xs| && xs[j].id == k
    decreases |xs|
  {
    if xs[0].id == k {
      j := 0;
    } else {
      var t := xs[1..];
      j := WithIdWitness(t, k);
      j := j + 1;
    }
  }
}
