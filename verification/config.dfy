/** The post-marker list both scripts read from `POST_LABELS`:
    `(env || 'POST,isPost').split(',').map(s => s.trim()).filter(Boolean)`.
    The environment variable is passed in as an optional string. */
module Config {
  import opened Wrappers
  import opened Text

  /** The markers used when `POST_LABELS` is unset or empty. */
  const DefaultMarkers: seq<string> := ["POST", "isPost"]

  /** The default text `'POST,isPost'`. */
  const DefaultSource: string := Join(DefaultMarkers, ',')

  /** `env || 'POST,isPost'`: an unset or empty variable selects the default. */
  function LabelsSource(env: Option<string>): (r: string)
    ensures env.Some? && env.value != [] ==> r == env.value
    ensures env.None? || env.value == [] ==> r == DefaultSource
  {
    if env.Some? && env.value != "" then env.value else DefaultSource
  }

  /** `.map(s => s.trim()).filter(Boolean)`: trims each piece and drops the
      pieces that become empty, keeping the order of the rest. */
  function CleanLabels(parts: seq<string>): (r: seq<string>)
    ensures |r| <= |parts|
    ensures forall i | 0 <= i < |r| :: r[i] != [] && IsTrimmed(r[i])
    decreases |parts|
  {
    if parts == [] then []
    else
      var t := Trim(parts[0]);
      var rest := CleanLabels(parts[1..]);
      if t == [] then rest else [t] + rest
  }

  /** The cleaned list holds exactly the non-empty trimmed pieces. */
  lemma {:induction false} CleanLabelsMembers(parts: seq<string>, x: string)
    ensures x in CleanLabels(parts) <==> x != [] && TrimsTo(parts, x)
    decreases |parts|
  {
    if parts != [] {
      CleanLabelsMembers(parts[1..], x);
      TrimsToCons(parts, x);
    }
  }

  /** Some piece trims to `x`. */
  predicate TrimsTo(parts: seq<string>, x: string) {
    exists i | 0 <= i < |parts| :: Trim(parts[i]) == x
  }

  lemma {:induction false} TrimsToCons(parts: seq<string>, x: string)
    requires parts != []
    ensures TrimsTo(parts, x) <==> Trim(parts[0]) == x || TrimsTo(parts[1..], x)
  {
    if TrimsTo(parts, x) && Trim(parts[0]) != x {
      var i :| 0 <= i < |parts| && Trim(parts[i]) == x;
      assert parts[1..][i - 1] == parts[i];
    }
    if TrimsTo(parts[1..], x) {
      var i :| 0 <= i < |parts| - 1 && Trim(parts[1..][i]) == x;
      assert parts[i + 1] == parts[1..][i];
    }
  }

  /** The parsed `LABELS` list. */
  function ParseLabels(env: Option<string>): (r: seq<string>)
    ensures forall i | 0 <= i < |r| :: r[i] != [] && IsTrimmed(r[i]) && ',' !in r[i]
  {
    var parts := Split(LabelsSource(env), ',');
    var r := CleanLabels(parts);
    forall i | 0 <= i < |r|
      ensures ',' !in r[i]
    {
      CleanLabelsMembers(parts, r[i]);
      var j :| 0 <= j < |parts| && Trim(parts[j]) == r[i];
      assert ',' !in parts[j];
    }
    r
  }

  /** Pieces that are already non-empty and trimmed pass through unchanged. */
  lemma {:induction false} CleanLabelsOfClean(parts: seq<string>)
    requires forall i | 0 <= i < |parts| :: parts[i] != [] && IsTrimmed(parts[i])
    ensures CleanLabels(parts) == parts
    decreases |parts|
  {
    if parts != [] {
      CleanLabelsOfClean(parts[1..]);
      assert parts == [parts[0]] + parts[1..];
    }
  }

  /** A list of non-empty, trimmed, comma-free markers written out with commas
      is read back as the same list. */
  lemma {:induction false} ParseLabelsOfJoin(markers: seq<string>)
    requires |markers| >= 1
    requires forall i | 0 <= i < |markers| :: markers[i] != [] && IsTrimmed(markers[i]) && ',' !in markers[i]
    ensures ParseLabels(Some(Join(markers, ','))) == markers
  {
    var s := Join(markers, ',');
    JoinNonEmpty(markers, ',');
    assert LabelsSource(Some(s)) == s;
    SplitJoin(markers, ',');
    CleanLabelsOfClean(markers);
  }

  lemma {:induction false} JoinNonEmpty(parts: seq<string>, sep: char)
    requires |parts| >= 1 && parts[0] != []
    ensures Join(parts, sep) != []
  {
    if |parts| > 1 {
      assert Join(parts, sep) == parts[0] + [sep] + Join(parts[1..], sep);
    }
  }

  /** Without `POST_LABELS` (or with it empty) the markers are `POST` and `isPost`. */
  lemma {:induction false} DefaultLabels(env: Option<string>)
    requires env.None? || env.value == ""
    ensures ParseLabels(env) == DefaultMarkers
  {
    assert LabelsSource(env) == LabelsSource(Some(DefaultSource));
    DefaultMarkersClean(DefaultMarkers);
    ParseLabelsOfJoin(DefaultMarkers);
  }

  lemma {:induction false} DefaultMarkersClean(markers: seq<string>)
    requires markers == DefaultMarkers
    ensures forall i | 0 <= i < |markers| :: markers[i] != [] && IsTrimmed(markers[i]) && ',' !in markers[i]
  {
  }
}
