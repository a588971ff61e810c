/** Label handling of `processIssue`: normalising the issue's labels, the tag
    filter, `main_category` and `draft`. The configurable variant filters
    against the parsed `LABELS`; the other one against the fixed pair
    `POST`/`isPost`. */
module Labels {
  import opened Wrappers
  import opened Seqs

  /** An entry of an issue's `labels` array: a plain string, or an object
      whose `name` may be missing. */
  datatype Label = Named(text: string) | LabelObject(name: Option<string>)

  /** `typeof l === 'string' ? l : l.name`, with `None` for a missing name. */
  function LabelName(l: Label): Option<string> {
    match l
    case Named(t) => Some(t)
    case LabelObject(n) => n
  }

  /** The entry survives `.filter(Boolean)`: a name that is present and non-empty. */
  predicate HasName(l: Label) {
    LabelName(l).Some? && LabelName(l).value != []
  }

  /** `labels.map(l => typeof l === 'string' ? l : l.name).filter(Boolean)`. */
  function Normalize(labels: seq<Label>): (r: seq<string>)
    ensures |r| <= |labels|
    ensures forall i | 0 <= i < |r| :: r[i] != []
    ensures forall x :: x in r <==> exists i | 0 <= i < |labels| :: HasName(labels[i]) && LabelName(labels[i]).value == x
    decreases |labels|
  {
    if labels == [] then []
    else
      var rest := Normalize(labels[1..]);
      assert forall i | 1 <= i < |labels| :: labels[i] == labels[1..][i - 1];
      assert forall i | 0 <= i < |labels| - 1 :: labels[1..][i] == labels[i + 1];
      if HasName(labels[0]) then [LabelName(labels[0]).value] + rest else rest
  }

  /** `(issue.labels || [])` followed by the normalisation: a missing array
      counts as empty. */
  function IssueLabels(labels: Option<seq<Label>>): (r: seq<string>)
    ensures labels.None? ==> r == []
    ensures forall i | 0 <= i < |r| :: r[i] != []
  {
    if labels.None? then [] else Normalize(labels.value)
  }

  /** Normalisation works entry by entry, so it keeps the order of the labels. */
  lemma {:induction false} NormalizeAppend(a: seq<Label>, b: seq<Label>)
    ensures Normalize(a + b) == Normalize(a) + Normalize(b)
    decreases |a|
  {
    if a == [] {
      assert a + b == b;
    } else {
      assert (a + b)[0] == a[0];
      assert (a + b)[1..] == a[1..] + b;
      NormalizeAppend(a[1..], b);
    }
  }

  /** Plain non-empty strings are kept exactly as they are. */
  lemma {:induction false} NormalizeNamed(names: seq<string>)
    requires forall i | 0 <= i < |names| :: names[i] != []
    ensures Normalize(seq(|names|, i requires 0 <= i < |names| => Named(names[i]))) == names
    decreases |names|
  {
    var ls := seq(|names|, i requires 0 <= i < |names| => Named(names[i]));
    if names != [] {
      var tail := seq(|names| - 1, i requires 0 <= i < |names| - 1 => Named(names[1..][i]));
      assert ls[1..] == tail;
      NormalizeNamed(names[1..]);
      assert names == [names[0]] + names[1..];
    }
  }

  /** An object label contributes its name, or nothing when the name is
      missing or empty. */
  lemma {:induction false} NormalizeObject(n: Option<string>, rest: seq<Label>)
    ensures Normalize([LabelObject(n)] + rest)
         == (if n.Some? && n.value != [] then [n.value] else []) + Normalize(rest)
  {
    assert ([LabelObject(n)] + rest)[1..] == rest;
  }

  /** `labels.filter(l => !markers.includes(l))`. */
  function Tags(labels: seq<string>, markers: seq<string>): (r: seq<string>)
    ensures IsSubsequence(r, labels)
    ensures forall x :: x in r <==> x in labels && x !in markers
    decreases |labels|
  {
    if labels == [] then []
    else
      var rest := Tags(labels[1..], markers);
      if labels[0] in markers then
        SubsequenceDrop(rest, labels);
        rest
      else
        assert ([labels[0]] + rest)[1..] == rest;
        [labels[0]] + rest
  }

  /** Each label occurs among the tags as often as among the labels, unless it
      is a marker, in which case it does not occur at all. */
  lemma {:induction false} TagsCount(labels: seq<string>, markers: seq<string>, x: string)
    ensures multiset(Tags(labels, markers))[x] == if x in markers then 0 else multiset(labels)[x]
    decreases |labels|
  {
    if labels != [] {
      TagsCount(labels[1..], markers, x);
      assert labels == [labels[0]] + labels[1..];
      assert multiset(labels) == multiset([labels[0]]) + multiset(labels[1..]);
      if labels[0] !in markers {
        var rest := Tags(labels[1..], markers);
        assert multiset([labels[0]] + rest) == multiset([labels[0]]) + multiset(rest);
      }
    }
  }

  /** The tag filter only depends on which strings are markers, not on how the
      marker list is written. */
  lemma {:induction false} TagsSameMarkers(labels: seq<string>, m1: seq<string>, m2: seq<string>)
    requires forall x :: x in m1 <==> x in m2
    ensures Tags(labels, m1) == Tags(labels, m2)
    decreases |labels|
  {
    if labels != [] {
      TagsSameMarkers(labels[1..], m1, m2);
    }
  }

  /** `labels.find(l => !markers.includes(l)) || null`: the first label that is
      not a marker, with an empty one counting as absent. */
  function MainCategory(labels: seq<string>, markers: seq<string>): (r: Option<string>)
    ensures r.Some? ==> r.value != [] && r.value in labels && r.value !in markers
    ensures (forall i | 0 <= i < |labels| :: labels[i] in markers) ==> r.None?
    decreases |labels|
  {
    if labels == [] then None
    else if labels[0] !in markers then (if labels[0] == [] then None else Some(labels[0]))
    else MainCategory(labels[1..], markers)
  }

  /** For labels without empty entries (as `IssueLabels` produces),
      `main_category` is the first tag, or absent when there are no tags. */
  lemma {:induction false} MainCategoryIsFirstTag(labels: seq<string>, markers: seq<string>)
    requires forall i | 0 <= i < |labels| :: labels[i] != []
    ensures MainCategory(labels, markers) == if Tags(labels, markers) == [] then None else Some(Tags(labels, markers)[0])
    decreases |labels|
  {
    if labels != [] && labels[0] in markers {
      MainCategoryIsFirstTag(labels[1..], markers);
    }
  }

  /** Like the tag filter, `main_category` only depends on which strings are markers. */
  lemma {:induction false} MainCategorySameMarkers(labels: seq<string>, m1: seq<string>, m2: seq<string>)
    requires forall x :: x in m1 <==> x in m2
    ensures MainCategory(labels, m1) == MainCategory(labels, m2)
    decreases |labels|
  {
    if labels != [] {
      MainCategorySameMarkers(labels[1..], m1, m2);
    }
  }

  /** `labels.includes('draft') || false`. */
  predicate IsDraft(labels: seq<string>) {
    "draft" in labels
  }

  /** A draft post keeps `draft` among its tags unless `draft` is a marker. */
  lemma {:induction false} DraftIsTag(labels: seq<string>, markers: seq<string>)
    ensures IsDraft(labels) && "draft" !in markers <==> "draft" in Tags(labels, markers)
  {
  }

  /** The markers `fetch-issues.js` filters against, whatever `LABELS` says. */
  const HardCodedMarkers: seq<string> := ["POST", "isPost"]

  /** `labels.find(l => l !== 'POST' && l !== 'isPost') || null`. */
  function FixedMainCategory(labels: seq<string>): (r: Option<string>)
    ensures r.Some? ==> r.value != [] && r.value in labels && r.value != "POST" && r.value != "isPost"
    decreases |labels|
  {
    if labels == [] then None
    else if labels[0] != "POST" && labels[0] != "isPost" then (if labels[0] == [] then None else Some(labels[0]))
    else FixedMainCategory(labels[1..])
  }

  /** The comparison chain is the same as a lookup in the fixed marker list. */
  lemma {:induction false} FixedMainCategoryAgrees(labels: seq<string>)
    ensures FixedMainCategory(labels) == MainCategory(labels, HardCodedMarkers)
    decreases |labels|
  {
    if labels != [] {
      FixedMainCategoryAgrees(labels[1..]);
    }
  }

  /** Any string on which the configured markers and the fixed pair disagree
      is a label that one script keeps as a tag and the other drops. With the
      same marker set the tags agree (`TagsSameMarkers`), so the scripts give
      the same tags for every label list exactly when the markers are the
      fixed pair as a set. */
  lemma {:induction false} TagsDrift(markers: seq<string>, x: string)
    requires (x in markers) != (x in HardCodedMarkers)
    ensures Tags([x], markers) != Tags([x], HardCodedMarkers)
  {
    assert x in Tags([x], markers) <==> x !in markers;
    assert x in Tags([x], HardCodedMarkers) <==> x !in HardCodedMarkers;
  }

  /** With `POST_LABELS=blog`, a post labelled `POST` and `blog` gets the tag
      `POST` from one script and `blog` from the other. */
  lemma {:induction false} TagsDriftExample(labels: seq<string>, markers: seq<string>)
    requires labels == ["POST", "blog"] && markers == ["blog"]
    ensures Tags(labels, markers) == ["POST"]
    ensures Tags(labels, HardCodedMarkers) == ["blog"]
  {
    assert labels[1..] == ["blog"];
    assert Tags(labels[1..], markers) == [];
    assert Tags(labels[1..], HardCodedMarkers) == ["blog"];
  }
}
