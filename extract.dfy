/** The extraction rules of `scripts/extract_reports.py`: four scanners that
    turn the text of one PDF page into optional record fields, the report year
    taken from the file name, and the loops that turn pages and files into
    records. Each regular expression is modelled by a scanner written for it;
    `re.search` is the match at the leftmost position where one exists. */
module ExtractReports {
  import opened Wrappers
  import opened Strings
  import opened Records

  /** The 21 counties, in the order the header rule tries them. */
  const Counties: seq<string> := [
    "Atlantic", "Bergen", "Burlington", "Camden", "Cape May", "Cumberland",
    "Essex", "Gloucester", "Hudson", "Hunterdon", "Mercer", "Middlesex",
    "Monmouth", "Morris", "Ocean", "Passaic", "Salem", "Somerset", "Sussex",
    "Union", "Warren"]

  const MunicipalityLabel: string := "Municipality:"
  const CountyLabel: string := "County:"
  const AccreditationMarker: string := "A C C R E D I T A T I O N"
  const UpdatedLabel: string := "Updated:"
  const PlanExpiresPhrase: string := "Most Recent Plan Expires"
  const NjucfWord: string := "NJUCF"
  const AccreditedWord: string := "Accredited:"

  predicate NotNewline(c: char)
  {
    c != '\n'
  }

  // ---------------------------------------------------------------------
  // re.search
  // ---------------------------------------------------------------------

  /** The leftmost position in `i..n` at which `at` reports a match. */
  function LeftmostMatch<T>(n: nat, i: nat, at: nat -> Option<T>): (r: Option<nat>)
    ensures r.Some? ==> i <= r.value <= n
    decreases n + 1 - i
  {
    if i > n then None
    else if at(i).Some? then Some(i)
    else LeftmostMatch(n, i + 1, at)
  }

  /** The position found is a match and none before it in `i..n` is; when
      nothing is found, no position in `i..n` is a match. */
  lemma {:induction false} LeftmostMatchSpec<T>(n: nat, i: nat, at: nat -> Option<T>)
    ensures LeftmostMatch(n, i, at).Some? ==> at(LeftmostMatch(n, i, at).value).Some?
    ensures LeftmostMatch(n, i, at).Some? ==>
      forall k: nat :: i <= k < LeftmostMatch(n, i, at).value ==> at(k).None?
    ensures LeftmostMatch(n, i, at).None? ==> forall k: nat :: i <= k <= n ==> at(k).None?
    decreases n + 1 - i
  {
    if i <= n && at(i).None? {
      LeftmostMatchSpec(n, i + 1, at);
    }
  }

  /** `re.search`: the result of the leftmost match in `text`. */
  function Search<T>(text: string, at: nat -> Option<T>): Option<T>
  {
    match LeftmostMatch(|text|, 0, at)
    case Some(k) => at(k)
    case None => None
  }

  /** `re.search` reports the match at the leftmost position that has one,
      and nothing exactly when no position has one. */
  lemma SearchSpec<T>(text: string, at: nat -> Option<T>)
    ensures Search(text, at).Some? ==> exists k: nat ::
      (k <= |text| && at(k) == Search(text, at) && forall k': nat :: k' < k ==> at(k').None?)
    ensures Search(text, at).None? <==> forall k: nat :: k <= |text| ==> at(k).None?
  {
    LeftmostMatchSpec(|text|, 0, at);
    if LeftmostMatch(|text|, 0, at).Some? {
      var k := LeftmostMatch(|text|, 0, at).value;
      assert at(k) == Search(text, at);
    }
  }

  /** A match at `i` with none before it is the one `re.search` reports. */
  lemma SearchFirst<T>(text: string, at: nat -> Option<T>, i: nat)
    requires i <= |text| && at(i).Some? && forall k: nat :: k < i ==> at(k).None?
    ensures Search(text, at) == at(i)
  {
    LeftmostMatchSpec(|text|, 0, at);
  }

  // ---------------------------------------------------------------------
  // Header rule: Municipality:\s*County:\s*(.+?)A C C R E D I T A T I O N
  // ---------------------------------------------------------------------

  /** The first position from `p` on at which the accreditation marker starts,
      looking no further than the end of the line: where the lazy `.+?` stops. */
  function MarkerFrom(text: string, p: nat): (e: Option<nat>)
    requires p <= |text|
    ensures e.Some? ==> p <= e.value <= |text|
    decreases |text| - p
  {
    if At(text, p, AccreditationMarker) then Some(p)
    else if p == |text| || text[p] == '\n' then None
    else MarkerFrom(text, p + 1)
  }

  /** A marker found from `p` on starts on the line of `p`, and no marker
      starts between `p` and it. */
  lemma {:induction false} MarkerFromFound(text: string, p: nat)
    requires p <= |text| && MarkerFrom(text, p).Some?
    ensures MarkerFrom(text, p).value <= RunEnd(text, p, NotNewline)
    ensures At(text, MarkerFrom(text, p).value, AccreditationMarker)
    ensures forall k :: p <= k < MarkerFrom(text, p).value ==> !At(text, k, AccreditationMarker)
    decreases |text| - p
  {
    if !At(text, p, AccreditationMarker) {
      MarkerFromFound(text, p + 1);
    }
  }

  /** When no marker is found from `p` on, none starts on the rest of the
      line. */
  lemma {:induction false} MarkerFromMissing(text: string, p: nat)
    requires p <= |text| && MarkerFrom(text, p).None?
    ensures forall k :: p <= k <= RunEnd(text, p, NotNewline) ==> !At(text, k, AccreditationMarker)
    decreases |text| - p
  {
    if p < |text| && text[p] != '\n' {
      MarkerFromMissing(text, p + 1);
    }
  }

  /** The marker is found at the first position of the line, from `p` on,
      where it starts; it is not found when it starts nowhere on that line. */
  lemma MarkerFromSpec(text: string, p: nat)
    requires p <= |text|
    ensures MarkerFrom(text, p).Some? ==>
      && MarkerFrom(text, p).value <= RunEnd(text, p, NotNewline)
      && At(text, MarkerFrom(text, p).value, AccreditationMarker)
    ensures MarkerFrom(text, p).Some? ==>
      forall k :: p <= k < MarkerFrom(text, p).value ==> !At(text, k, AccreditationMarker)
    ensures MarkerFrom(text, p).None? ==>
      forall k :: p <= k <= RunEnd(text, p, NotNewline) ==> !At(text, k, AccreditationMarker)
  {
    if MarkerFrom(text, p).Some? {
      MarkerFromFound(text, p);
    } else {
      MarkerFromMissing(text, p);
    }
  }

  /** A marker that starts on the line at `e`, from `p` on, is found: at
      `e` or at an earlier position of the line. */
  lemma {:induction false} MarkerFromFinds(text: string, p: nat, e: nat)
    requires p <= e && At(text, e, AccreditationMarker)
    requires All(text, p, e, NotNewline)
    ensures MarkerFrom(text, p).Some? && MarkerFrom(text, p).value <= e
    decreases e - p
  {
    if !At(text, p, AccreditationMarker) {
      assert p < e && text[p] != '\n';
      MarkerFromFinds(text, p + 1, e);
    }
  }

  /** One way the tail of the header pattern can match from `k0` on, with
      the group `text[q..e]`: whitespace, a group of at least one character
      on one line, and the marker right after it. */
  predicate GroupCandidate(text: string, k0: nat, q: nat, e: nat)
  {
    && k0 <= q < e <= |text|
    && All(text, k0, q, IsSpace)
    && All(text, q, e, NotNewline)
    && At(text, e, AccreditationMarker)
  }

  /** The match of the pattern's tail that the `re` engine picks: the greedy
      `\s*` keeps as much whitespace as any match allows, and the lazy group
      then stops at the first marker after its first character. */
  predicate GroupShape(text: string, k0: nat, q: nat, e: nat)
  {
    && GroupCandidate(text, k0, q, e)
    && (forall q': nat, e': nat :: q < q' < e' <= |text| ==> !GroupCandidate(text, k0, q', e'))
    && forall k :: q < k < e ==> !At(text, k, AccreditationMarker)
  }

  /** At most one match of the pattern's tail has that shape. */
  lemma GroupShapeUnique(text: string, k0: nat, q1: nat, e1: nat, q2: nat, e2: nat)
    requires GroupShape(text, k0, q1, e1) && GroupShape(text, k0, q2, e2)
    ensures q1 == q2 && e1 == e2
  {
    assert !(q1 < q2) && !(q2 < q1);
    assert !(q1 < e1 < e2) && !(q1 < e2 < e1);
  }

  /** Where the group part of the header pattern starts when a match
      starts at `i`: after "Municipality:", the greedy whitespace and
      "County:". None when the labels are not there. */
  function LabelsEnd(text: string, i: nat): (k0: Option<nat>)
    ensures k0.Some? ==> At(text, i, MunicipalityLabel) && k0.value <= |text|
  {
    if !At(text, i, MunicipalityLabel) then None
    else
      var j := RunEnd(text, i + |MunicipalityLabel|, IsSpace);
      if At(text, j, CountyLabel) then Some(j + |CountyLabel|) else None
  }

  /** One way the header pattern can match at `i`, with the group
      `text[q..e]`: the two labels, each followed by whitespace, then the
      group and the marker. */
  predicate HeaderCandidate(text: string, i: nat, q: nat, e: nat)
  {
    LabelsEnd(text, i).Some? && GroupCandidate(text, LabelsEnd(text, i).value, q, e)
  }

  /** The header pattern matched at `i` with the group `text[q..e]` that
      the `re` engine picks. */
  predicate HeaderShape(text: string, i: nat, q: nat, e: nat)
  {
    LabelsEnd(text, i).Some? && GroupShape(text, LabelsEnd(text, i).value, q, e)
  }

  /** The group the pattern captures after "County:", which ends at `k0`.
      Backtracking is resolved as the `re` engine resolves it: the greedy
      `\s*` first takes the whole whitespace run and the lazy group then
      grows one character at a time up to the marker, never past a newline.
      When that fails, giving back whitespace can only succeed by a group of
      one whitespace character that the marker directly follows. */
  function GroupFrom(text: string, k0: nat): Option<string>
    requires k0 <= |text|
  {
    var k := RunEnd(text, k0, IsSpace);
    if k < |text| && MarkerFrom(text, k + 1).Some? then
      Some(text[k..MarkerFrom(text, k + 1).value])
    else if k0 < k && text[k - 1] != '\n' && At(text, k, AccreditationMarker) then
      Some(text[k - 1..k])
    else None
  }

  /** No match of the pattern's tail starts its group after the whole
      whitespace run. */
  lemma NoGroupAfterRun(text: string, k0: nat, q: nat, e: nat)
    requires k0 <= |text| && RunEnd(text, k0, IsSpace) < q
    ensures !GroupCandidate(text, k0, q, e)
  {
    var k := RunEnd(text, k0, IsSpace);
    if k0 <= q <= |text| && All(text, k0, q, IsSpace) {
      RunEndBounds(text, k0, IsSpace);
    }
  }

  /** A match of the pattern's tail with its group right after the whole
      whitespace run makes the lazy group find a marker. */
  lemma GroupAtRunFinds(text: string, k0: nat, e: nat)
    requires k0 <= |text| && GroupCandidate(text, k0, RunEnd(text, k0, IsSpace), e)
    ensures RunEnd(text, k0, IsSpace) < |text|
    ensures MarkerFrom(text, RunEnd(text, k0, IsSpace) + 1).Some?
  {
    var k := RunEnd(text, k0, IsSpace);
    MarkerFromFinds(text, k + 1, e);
  }

  /** When the lazy group, started right after the whole whitespace run,
      stops at a marker at `e`, that group and marker are the match the
      engine picks. */
  lemma GroupAtRunShape(text: string, k0: nat, e: nat)
    requires k0 <= |text| && RunEnd(text, k0, IsSpace) < |text|
    requires RunEnd(text, k0, IsSpace) + 1 <= e <= RunEnd(text, RunEnd(text, k0, IsSpace) + 1, NotNewline)
    requires At(text, e, AccreditationMarker)
    requires forall k :: RunEnd(text, k0, IsSpace) + 1 <= k < e ==> !At(text, k, AccreditationMarker)
    ensures GroupShape(text, k0, RunEnd(text, k0, IsSpace), e)
  {
    var k := RunEnd(text, k0, IsSpace);
    assert All(text, k, e, NotNewline) by {
      assert text[k] != '\n' by {
        assert !IsSpace(text[k]);
      }
      assert All(text, k + 1, RunEnd(text, k + 1, NotNewline), NotNewline);
    }
    forall q': nat, e': nat | k < q' ensures !GroupCandidate(text, k0, q', e') {
      NoGroupAfterRun(text, k0, q', e');
    }
  }

  /** When it finds none, a group of the run's last whitespace character
      directly followed by the marker is the match the engine picks. */
  lemma GroupBeforeRunEndShape(text: string, k0: nat)
    requires k0 <= |text|
    requires !(RunEnd(text, k0, IsSpace) < |text| && MarkerFrom(text, RunEnd(text, k0, IsSpace) + 1).Some?)
    requires k0 < RunEnd(text, k0, IsSpace) && text[RunEnd(text, k0, IsSpace) - 1] != '\n'
    requires At(text, RunEnd(text, k0, IsSpace), AccreditationMarker)
    ensures GroupShape(text, k0, RunEnd(text, k0, IsSpace) - 1, RunEnd(text, k0, IsSpace))
  {
    var k := RunEnd(text, k0, IsSpace);
    assert GroupCandidate(text, k0, k - 1, k);
    forall q': nat, e': nat | k - 1 < q' ensures !GroupCandidate(text, k0, q', e') {
      if q' == k {
        if GroupCandidate(text, k0, q', e') {
          GroupAtRunFinds(text, k0, e');
        }
      } else {
        NoGroupAfterRun(text, k0, q', e');
      }
    }
  }

  /** Every group captured from `k0` on is the group of a match of the
      pattern's tail. */
  lemma GroupFromShape(text: string, k0: nat)
    requires k0 <= |text|
    ensures GroupFrom(text, k0).Some? ==>
      exists q: nat, e: nat :: GroupShape(text, k0, q, e) && GroupFrom(text, k0).value == text[q..e]
  {
    var k := RunEnd(text, k0, IsSpace);
    if k < |text| && MarkerFrom(text, k + 1).Some? {
      var e := MarkerFrom(text, k + 1).value;
      MarkerFromFound(text, k + 1);
      GroupAtRunShape(text, k0, e);
      assert GroupFrom(text, k0).value == text[k..e];
    } else if k0 < k && text[k - 1] != '\n' && At(text, k, AccreditationMarker) {
      GroupBeforeRunEndShape(text, k0);
      assert GroupFrom(text, k0).value == text[k - 1..k];
    }
  }

  /** Whenever the pattern's tail can match from `k0` on, a group is
      captured. */
  lemma GroupFromFinds(text: string, k0: nat, q: nat, e: nat)
    requires GroupCandidate(text, k0, q, e)
    ensures GroupFrom(text, k0).Some?
  {
    var k := RunEnd(text, k0, IsSpace);
    RunEndBounds(text, k0, IsSpace);
    assert q <= k;
    assert !IsSpace(text[e]) by {
      assert text[e] == AccreditationMarker[0];
    }
    assert k <= e;
    if q < k && e == k {
      assert text[k - 1] != '\n';
    } else {
      GroupAtRunFinds(text, k0, e);
    }
  }

  /** The group captured from `k0` on is exactly the one of the match the
      `re` engine picks. */
  lemma GroupFromIs(text: string, k0: nat, q: nat, e: nat)
    requires GroupShape(text, k0, q, e)
    ensures GroupFrom(text, k0) == Some(text[q..e])
  {
    GroupFromFinds(text, k0, q, e);
    GroupFromShape(text, k0);
    var q': nat, e': nat :| GroupShape(text, k0, q', e') && GroupFrom(text, k0).value == text[q'..e'];
    GroupShapeUnique(text, k0, q, e, q', e');
  }

  /** The group the header pattern captures when its match starts at `i`. */
  function HeaderGroupAt(text: string, i: nat): Option<string>
  {
    if LabelsEnd(text, i).None? then None else GroupFrom(text, LabelsEnd(text, i).value)
  }

  /** Every group captured at `i` is the group of a match of the pattern
      at `i`. */
  lemma HeaderGroupAtShape(text: string, i: nat)
    ensures HeaderGroupAt(text, i).Some? ==>
      exists q: nat, e: nat :: HeaderShape(text, i, q, e) && HeaderGroupAt(text, i).value == text[q..e]
  {
    if HeaderGroupAt(text, i).Some? {
      GroupFromShape(text, LabelsEnd(text, i).value);
    }
  }

  /** Whenever the pattern can match at `i`, a group is captured there. */
  lemma HeaderGroupAtFinds(text: string, i: nat, q: nat, e: nat)
    requires HeaderCandidate(text, i, q, e)
    ensures HeaderGroupAt(text, i).Some?
  {
    GroupFromFinds(text, LabelsEnd(text, i).value, q, e);
  }

  function HeaderMatcher(text: string): nat -> Option<string>
  {
    (i: nat) => HeaderGroupAt(text, i)
  }

  /** The group captured by `re.search` of the header pattern. */
  function HeaderGroup(text: string): Option<string>
  {
    Search(text, HeaderMatcher(text))
  }

  /** `re.search` of the header pattern reports what the scanner finds at
      the leftmost position where it finds something. */
  lemma HeaderGroupLeftmost(text: string)
    ensures HeaderGroup(text).Some? ==> exists i: nat ::
      && i <= |text| && HeaderGroupAt(text, i) == HeaderGroup(text)
      && forall k: nat :: k < i ==> HeaderGroupAt(text, k).None?
    ensures HeaderGroup(text).None? <==> forall i: nat :: i <= |text| ==> HeaderGroupAt(text, i).None?
  {
    var at := HeaderMatcher(text);
    SearchSpec(text, at);
    assert forall k: nat :: at(k) == HeaderGroupAt(text, k);
  }

  /** The header group is the group of the leftmost match of the pattern;
      there is none exactly when the pattern matches nowhere. */
  lemma HeaderGroupSpec(text: string)
    ensures HeaderGroup(text).Some? ==> exists i: nat, q: nat, e: nat ::
      && i <= |text| && HeaderShape(text, i, q, e) && HeaderGroup(text).value == text[q..e]
      && forall k: nat :: k < i ==> HeaderGroupAt(text, k).None?
    ensures HeaderGroup(text).None? <==> forall i: nat :: i <= |text| ==> HeaderGroupAt(text, i).None?
  {
    HeaderGroupLeftmost(text);
    if HeaderGroup(text).Some? {
      var i: nat :| i <= |text| && HeaderGroupAt(text, i) == HeaderGroup(text)
        && forall k: nat :: k < i ==> HeaderGroupAt(text, k).None?;
      HeaderGroupAtShape(text, i);
      var q: nat, e: nat :| HeaderShape(text, i, q, e) && HeaderGroupAt(text, i).value == text[q..e];
      assert HeaderGroup(text).value == text[q..e];
    }
  }

  /** Whenever the pattern can match somewhere in `text`, `re.search`
      captures a group. */
  lemma HeaderGroupFinds(text: string, i: nat, q: nat, e: nat)
    requires HeaderCandidate(text, i, q, e)
    ensures HeaderGroup(text).Some?
  {
    HeaderGroupAtFinds(text, i, q, e);
    HeaderGroupSpec(text);
  }

  /** A group is captured at `i` only where the pattern can match. */
  lemma HeaderGroupAtCandidate(text: string, i: nat)
    ensures HeaderGroupAt(text, i).Some? ==> exists q: nat, e: nat :: HeaderCandidate(text, i, q, e)
  {
    if HeaderGroupAt(text, i).Some? {
      HeaderGroupAtShape(text, i);
      var q: nat, e: nat :| HeaderShape(text, i, q, e);
      assert HeaderCandidate(text, i, q, e);
    }
  }

  /** At a position where the pattern matches, the scanner captures exactly
      the group of the match the `re` engine picks. */
  lemma HeaderGroupAtIs(text: string, i: nat, q: nat, e: nat)
    requires HeaderShape(text, i, q, e)
    ensures HeaderGroupAt(text, i) == Some(text[q..e])
  {
    GroupFromIs(text, LabelsEnd(text, i).value, q, e);
  }

  /** The header group is exactly the group of the match the `re` engine
      picks at the leftmost position where the pattern can match. */
  lemma HeaderGroupIs(text: string, i: nat, q: nat, e: nat)
    requires HeaderShape(text, i, q, e)
    requires forall k: nat, q': nat, e': nat :: k < i ==> !HeaderCandidate(text, k, q', e')
    ensures HeaderGroup(text) == Some(text[q..e])
  {
    HeaderGroupAtIs(text, i, q, e);
    assert i <= |text|;
    forall k: nat | k < i ensures HeaderGroupAt(text, k).None? {
      HeaderGroupAtCandidate(text, k);
    }
    SearchFirst(text, HeaderMatcher(text), i);
  }

  /** `re.sub(r"\s+", " ", group).strip()`. */
  function Segment(group: string): string
  {
    Trim(CollapseRuns(group, IsSpace, ' '), IsSpace)
  }

  /** The segment is well spaced and keeps every other character of the
      group, in order. */
  lemma SegmentSpec(group: string)
    ensures WellSpaced(Segment(group))
    ensures Without(Segment(group), IsSpace) == Without(group, IsSpace)
  {
    var collapsed := CollapseRuns(group, IsSpace, ' ');
    CollapseRunsKeepsOthers(group, IsSpace, ' ');
    TrimCollapsed(collapsed, IsSpace, IsSpace, ' ');
    WithoutTrim(collapsed, IsSpace, IsSpace);
  }

  /** Each whitespace run between two words of the group becomes exactly
      one space of the segment. */
  lemma SegmentJoin(u: string, w: string, v: string)
    requires u != [] && !IsSpace(u[|u| - 1]) && v != [] && !IsSpace(v[0])
    requires w != [] && All(w, 0, |w|, IsSpace)
    ensures Segment(u + w + v) == Segment(u) + " " + Segment(v)
  {
    CollapseTrimJoin(u, w, v, IsSpace, ' ', IsSpace);
  }

  /** A group without whitespace is its own segment. */
  lemma SegmentOfWord(word: string)
    requires forall k :: 0 <= k < |word| ==> !IsSpace(word[k])
    ensures Segment(word) == word
  {
    CollapseRunsKeepsCollapsed(word, IsSpace, ' ');
    TrimKeepsTrimmed(word, IsSpace);
  }

  /** `segment.lower().endswith(candidate.lower())`. */
  predicate EndsWithIgnoreCase(segment: string, candidate: string)
  {
    EndsWith(Lower(segment), Lower(candidate))
  }

  /** `Counties[c]` is the first county, in list order, that the segment ends with. */
  predicate IsCountyChoice(segment: string, c: nat)
  {
    && c < |Counties|
    && EndsWithIgnoreCase(segment, Counties[c])
    && forall k :: 0 <= k < c ==> !EndsWithIgnoreCase(segment, Counties[k])
  }

  /** The loop over `names` from `from` on that stops at the first name the
      segment ends with. */
  function FirstEndingIndex(segment: string, names: seq<string>, from: nat): (r: Option<nat>)
    requires from <= |names|
    ensures r.Some? ==> from <= r.value < |names|
    decreases |names| - from
  {
    if from == |names| then None
    else if EndsWithIgnoreCase(segment, names[from]) then Some(from)
    else FirstEndingIndex(segment, names, from + 1)
  }

  /** The name found is the first from `from` on that the segment ends
      with; none is found when the segment ends with none of them. */
  lemma {:induction false} FirstEndingIndexSpec(segment: string, names: seq<string>, from: nat)
    requires from <= |names|
    ensures FirstEndingIndex(segment, names, from).Some? ==>
      EndsWithIgnoreCase(segment, names[FirstEndingIndex(segment, names, from).value])
    ensures FirstEndingIndex(segment, names, from).Some? ==>
      forall k :: from <= k < FirstEndingIndex(segment, names, from).value ==> !EndsWithIgnoreCase(segment, names[k])
    ensures FirstEndingIndex(segment, names, from).None? ==>
      forall k :: from <= k < |names| ==> !EndsWithIgnoreCase(segment, names[k])
    decreases |names| - from
  {
    if from < |names| && !EndsWithIgnoreCase(segment, names[from]) {
      FirstEndingIndexSpec(segment, names, from + 1);
    }
  }

  datatype Header = Header(municipality: Option<string>, county: Option<string>)

  /** No whitespace at either end, no whitespace but plain spaces, and never
      two spaces in a row. */
  predicate WellSpaced(m: string)
  {
    && (m == [] || (!IsSpace(m[0]) && !IsSpace(m[|m| - 1])))
    && Collapsed(m, IsSpace, ' ')
  }

  /** `segment[:-len(county)].strip()`: the part of the segment before its
      last `n` characters, stripped. */
  function MunicipalityPart(seg: string, n: nat): (m: string)
    requires n <= |seg|
    ensures Collapsed(seg, IsSpace, ' ') ==> WellSpaced(m)
  {
    var front := seg[..|seg| - n];
    assert Collapsed(seg, IsSpace, ' ') ==> WellSpaced(Trim(front, IsSpace)) by {
      if Collapsed(seg, IsSpace, ' ') {
        CollapsedSlice(seg, 0, |seg| - n, IsSpace, ' ');
        assert seg[0..|seg| - n] == front;
        TrimCollapsed(front, IsSpace, IsSpace, ' ');
      }
    }
    Trim(front, IsSpace)
  }

  /** The split of a collapsed segment into municipality and county: the
      first county the segment ends with, and before it the municipality,
      stripped. */
  function SplitSegment(seg: string): (h: Header)
    ensures h.municipality.Some? <==> h.county.Some?
  {
    match FirstEndingIndex(seg, Counties, 0)
    case None => Header(None, None)
    case Some(c) =>
      FirstEndingIndexSpec(seg, Counties, 0);
      assert |Lower(seg)| == |seg| && |Lower(Counties[c])| == |Counties[c]|;
      Header(Some(MunicipalityPart(seg, |Counties[c]|)), Some(Counties[c]))
  }

  /** A split names the first county the segment ends with and the stripped
      text before it; there is none when the segment ends with no county. */
  lemma SplitSegmentSpec(seg: string)
    ensures SplitSegment(seg).county.Some? ==> exists c: nat ::
      && IsCountyChoice(seg, c)
      && |Counties[c]| <= |seg|
      && SplitSegment(seg).county.value == Counties[c]
      && SplitSegment(seg).municipality.value == MunicipalityPart(seg, |Counties[c]|)
    ensures SplitSegment(seg).county.None? ==>
      forall k :: 0 <= k < |Counties| ==> !EndsWithIgnoreCase(seg, Counties[k])
    ensures SplitSegment(seg).municipality.Some? && Collapsed(seg, IsSpace, ' ') ==>
      WellSpaced(SplitSegment(seg).municipality.value)
  {
    FirstEndingIndexSpec(seg, Counties, 0);
    if FirstEndingIndex(seg, Counties, 0).Some? {
      var c := FirstEndingIndex(seg, Counties, 0).value;
      assert |Lower(seg)| == |seg| && |Lower(Counties[c])| == |Counties[c]|;
      assert IsCountyChoice(seg, c);
    }
  }

  /** `extract_header`: no match of the pattern leaves both fields unset. */
  function ExtractHeader(text: string): (h: Header)
    ensures h.municipality.Some? <==> h.county.Some?
    ensures HeaderGroup(text).None? ==> h.county.None?
  {
    match HeaderGroup(text)
    case None => Header(None, None)
    case Some(group) => SplitSegment(Segment(group))
  }

  /** The header names one of the 21 counties and a well-spaced
      municipality. */
  lemma ExtractHeaderSpec(text: string)
    ensures ExtractHeader(text).county.Some? ==> ExtractHeader(text).county.value in Counties
    ensures ExtractHeader(text).municipality.Some? ==> WellSpaced(ExtractHeader(text).municipality.value)
  {
    if HeaderGroup(text).Some? {
      var seg := Segment(HeaderGroup(text).value);
      SegmentSpec(HeaderGroup(text).value);
      SplitSegmentSpec(seg);
    }
  }

  // ---------------------------------------------------------------------
  // Updated-date rule: Updated:\s*([0-9/]+)
  // ---------------------------------------------------------------------

  predicate IsDateChar(c: char)
  {
    IsDigit(c) || c == '/'
  }

  /** The date token the pattern captures when its match starts at `i`: the
      whole run of digits and slashes after the label and any whitespace. */
  function UpdatedAt(text: string, i: nat): Option<string>
  {
    if !At(text, i, UpdatedLabel) then None
    else
      var j := RunEnd(text, i + |UpdatedLabel|, IsSpace);
      var e := RunEnd(text, j, IsDateChar);
      if j < e then Some(text[j..e]) else None
  }

  function UpdatedMatcher(text: string): nat -> Option<string>
  {
    (i: nat) => UpdatedAt(text, i)
  }

  /** `extract_updated`. */
  function ExtractUpdated(text: string): Option<string>
  {
    Search(text, UpdatedMatcher(text))
  }

  /** A date captured at `i` is a non-empty run of digits and slashes that
      follows the label and optional whitespace and runs as far as it can. */
  lemma UpdatedAtSpec(text: string, i: nat)
    ensures UpdatedAt(text, i).Some? ==>
      && UpdatedAt(text, i).value != []
      && forall k :: 0 <= k < |UpdatedAt(text, i).value| ==> IsDateChar(UpdatedAt(text, i).value[k])
    ensures UpdatedAt(text, i).Some? ==> exists j: nat ::
      && At(text, i, UpdatedLabel)
      && i + |UpdatedLabel| <= j <= |text|
      && All(text, i + |UpdatedLabel|, j, IsSpace)
      && At(text, j, UpdatedAt(text, i).value)
      && (j + |UpdatedAt(text, i).value| == |text| || !IsDateChar(text[j + |UpdatedAt(text, i).value|]))
  {
    if UpdatedAt(text, i).Some? {
      var j := RunEnd(text, i + |UpdatedLabel|, IsSpace);
      var e := RunEnd(text, j, IsDateChar);
      assert UpdatedAt(text, i).value == text[j..e];
      assert At(text, j, text[j..e]);
    }
  }

  /** `extract_updated` reports the date of the leftmost match, and nothing
      exactly when the pattern matches nowhere. */
  lemma ExtractUpdatedSpec(text: string)
    ensures ExtractUpdated(text).Some? ==> exists i: nat ::
      && i <= |text| && UpdatedAt(text, i) == ExtractUpdated(text)
      && forall k: nat :: k < i ==> UpdatedAt(text, k).None?
    ensures ExtractUpdated(text).None? <==> forall i: nat :: i <= |text| ==> UpdatedAt(text, i).None?
  {
    var at := UpdatedMatcher(text);
    SearchSpec(text, at);
    assert forall k: nat :: at(k) == UpdatedAt(text, k);
  }

  /** A match of `Updated:\s*[0-9/]+` at `i`, whose whitespace ends at `j`
      and whose date run ends at `e`, however the engine divides it. */
  predicate UpdatedMatch(text: string, i: nat, j: nat, e: nat)
  {
    && At(text, i, UpdatedLabel)
    && i + |UpdatedLabel| <= j < e <= |text|
    && All(text, i + |UpdatedLabel|, j, IsSpace)
    && All(text, j, e, IsDateChar)
  }

  /** A date is read at `i` only where the pattern matches. */
  lemma UpdatedAtMatch(text: string, i: nat)
    requires UpdatedAt(text, i).Some?
    ensures UpdatedMatch(text, i, RunEnd(text, i + |UpdatedLabel|, IsSpace),
      RunEnd(text, RunEnd(text, i + |UpdatedLabel|, IsSpace), IsDateChar))
  {
  }

  /** Wherever the pattern matches, the date read is the whole run of digits
      and slashes after the whitespace, as the greedy `\s*` and `[0-9/]+`
      leave it. */
  lemma UpdatedAtFinds(text: string, i: nat, j: nat, e: nat)
    requires UpdatedMatch(text, i, j, e)
    ensures UpdatedAt(text, i) == Some(text[j..RunEnd(text, j, IsDateChar)])
  {
    RunEndBounds(text, i + |UpdatedLabel|, IsSpace);
    assert IsDateChar(text[j]) && !IsSpace(text[j]);
    assert RunEnd(text, i + |UpdatedLabel|, IsSpace) == j;
  }

  /** `extract_updated` returns the date of the leftmost match of the
      pattern. */
  lemma ExtractUpdatedIs(text: string, i: nat, j: nat, e: nat)
    requires UpdatedMatch(text, i, j, e)
    requires forall k: nat, j': nat, e': nat :: k < i ==> !UpdatedMatch(text, k, j', e')
    ensures ExtractUpdated(text) == Some(text[j..RunEnd(text, j, IsDateChar)])
  {
    UpdatedAtFinds(text, i, j, e);
    forall k: nat | k < i ensures UpdatedAt(text, k).None? {
      if UpdatedAt(text, k).Some? {
        UpdatedAtMatch(text, k);
      }
    }
    SearchFirst(text, UpdatedMatcher(text), i);
  }

  /** `extract_updated` returns None exactly when the pattern matches
      nowhere. */
  lemma ExtractUpdatedNone(text: string)
    ensures ExtractUpdated(text).None? <==> forall i: nat, j: nat, e: nat :: !UpdatedMatch(text, i, j, e)
  {
    ExtractUpdatedSpec(text);
    forall i: nat, j: nat, e: nat | UpdatedMatch(text, i, j, e)
      ensures i <= |text| && UpdatedAt(text, i).Some?
    {
      UpdatedAtFinds(text, i, j, e);
    }
    forall i: nat | i <= |text| && UpdatedAt(text, i).Some?
      ensures exists j: nat, e: nat :: UpdatedMatch(text, i, j, e)
    {
      UpdatedAtMatch(text, i);
    }
  }

  // ---------------------------------------------------------------------
  // Plan-year rule: (20\d{2})\s+Most Recent Plan Expires
  // and the report year of the file name: (20\d{2})
  // ---------------------------------------------------------------------

  /** A `20dd` token starts at `i`. */
  predicate YearTokenAt(s: string, i: nat)
  {
    At(s, i, "20") && i + 4 <= |s| && IsDigit(s[i + 2]) && IsDigit(s[i + 3])
  }

  /** `int()` of the `20dd` token at `i`. */
  function YearTokenValue(s: string, i: nat): (year: int)
    requires YearTokenAt(s, i)
    ensures 2000 <= year <= 2099
  {
    2000 + 10 * DigitValue(s[i + 2]) + DigitValue(s[i + 3])
  }

  /** The plan year the pattern captures when its match starts at `i`. */
  function PlanYearAt(text: string, i: nat): Option<int>
  {
    if !YearTokenAt(text, i) then None
    else
      var j := RunEnd(text, i + 4, IsSpace);
      if i + 4 < j && At(text, j, PlanExpiresPhrase) then Some(YearTokenValue(text, i)) else None
  }

  function PlanYearMatcher(text: string): nat -> Option<int>
  {
    (i: nat) => PlanYearAt(text, i)
  }

  /** `extract_plan_year`. The `ValueError` branch of the source cannot be
      taken: two digits after "20" always parse. */
  function ExtractPlanYear(text: string): Option<int>
  {
    Search(text, PlanYearMatcher(text))
  }

  /** The plan year is the `20dd` token of the leftmost place where one is
      followed by whitespace and the phrase; there is none exactly when no
      such place exists. */
  lemma ExtractPlanYearSpec(text: string)
    ensures ExtractPlanYear(text).Some? ==> 2000 <= ExtractPlanYear(text).value <= 2099
    ensures ExtractPlanYear(text).Some? ==> exists i: nat ::
      && YearTokenAt(text, i) && ExtractPlanYear(text).value == YearTokenValue(text, i)
      && i + 4 < RunEnd(text, i + 4, IsSpace)
      && At(text, RunEnd(text, i + 4, IsSpace), PlanExpiresPhrase)
      && forall k: nat :: k < i ==> PlanYearAt(text, k).None?
    ensures ExtractPlanYear(text).None? <==> forall i: nat :: i <= |text| ==> PlanYearAt(text, i).None?
  {
    var at := PlanYearMatcher(text);
    SearchSpec(text, at);
    assert forall k: nat :: at(k) == PlanYearAt(text, k);
  }

  /** A match of `(20\d{2})\s+Most Recent Plan Expires` at `i`, whose
      whitespace ends at `j`. */
  predicate PlanYearMatch(text: string, i: nat, j: nat)
  {
    && YearTokenAt(text, i)
    && i + 4 < j <= |text|
    && All(text, i + 4, j, IsSpace)
    && At(text, j, PlanExpiresPhrase)
  }

  /** A plan year is read at `i` only where the pattern matches. */
  lemma PlanYearAtMatch(text: string, i: nat)
    requires PlanYearAt(text, i).Some?
    ensures PlanYearMatch(text, i, RunEnd(text, i + 4, IsSpace))
  {
  }

  /** Wherever the pattern matches, the year of its token is read. */
  lemma PlanYearAtFinds(text: string, i: nat, j: nat)
    requires PlanYearMatch(text, i, j)
    ensures PlanYearAt(text, i) == Some(YearTokenValue(text, i))
  {
    RunEndBounds(text, i + 4, IsSpace);
    assert !IsSpace(text[j]) by {
      assert text[j] == PlanExpiresPhrase[0];
    }
    assert RunEnd(text, i + 4, IsSpace) == j;
  }

  /** `extract_plan_year` returns the year of the leftmost match of the
      pattern. */
  lemma ExtractPlanYearIs(text: string, i: nat, j: nat)
    requires PlanYearMatch(text, i, j)
    requires forall k: nat, j': nat :: k < i ==> !PlanYearMatch(text, k, j')
    ensures ExtractPlanYear(text) == Some(YearTokenValue(text, i))
  {
    PlanYearAtFinds(text, i, j);
    forall k: nat | k < i ensures PlanYearAt(text, k).None? {
      if PlanYearAt(text, k).Some? {
        PlanYearAtMatch(text, k);
      }
    }
    SearchFirst(text, PlanYearMatcher(text), i);
  }

  /** `extract_plan_year` returns None exactly when the pattern matches
      nowhere. */
  lemma ExtractPlanYearNone(text: string)
    ensures ExtractPlanYear(text).None? <==> forall i: nat, j: nat :: !PlanYearMatch(text, i, j)
  {
    ExtractPlanYearSpec(text);
    forall i: nat, j: nat | PlanYearMatch(text, i, j)
      ensures i <= |text| && PlanYearAt(text, i).Some?
    {
      PlanYearAtFinds(text, i, j);
    }
    forall i: nat | i <= |text| && PlanYearAt(text, i).Some?
      ensures exists j: nat :: PlanYearMatch(text, i, j)
    {
      PlanYearAtMatch(text, i);
    }
  }

  function YearTokenMatch(s: string, i: nat): Option<int>
  {
    if YearTokenAt(s, i) then Some(YearTokenValue(s, i)) else None
  }

  function YearTokenMatcher(s: string): nat -> Option<int>
  {
    (i: nat) => YearTokenMatch(s, i)
  }

  /** The report year of a file: the first `20dd` token of its stem. */
  function ReportYear(stem: string): Option<int>
  {
    Search(stem, YearTokenMatcher(stem))
  }

  /** The report year is the value of the first `20dd` token of the stem, and
      there is none exactly when the stem holds no such token. */
  lemma ReportYearSpec(stem: string)
    ensures ReportYear(stem).Some? ==> 2000 <= ReportYear(stem).value <= 2099
    ensures ReportYear(stem).Some? ==> exists i: nat ::
      && YearTokenAt(stem, i) && ReportYear(stem).value == YearTokenValue(stem, i)
      && forall k: nat :: k < i ==> !YearTokenAt(stem, k)
    ensures ReportYear(stem).None? <==> forall i: nat :: !YearTokenAt(stem, i)
  {
    var at := YearTokenMatcher(stem);
    SearchSpec(stem, at);
    assert forall k: nat :: at(k) == YearTokenMatch(stem, k);
    if ReportYear(stem).Some? {
      var i: nat :| i <= |stem| && at(i) == ReportYear(stem) && forall k': nat :: k' < i ==> at(k').None?;
      assert YearTokenAt(stem, i) && ReportYear(stem).value == YearTokenValue(stem, i);
      forall k: nat | k < i ensures !YearTokenAt(stem, k) {
        assert at(k).None?;
      }
    } else {
      forall i: nat ensures !YearTokenAt(stem, i) {
        if i <= |stem| {
          assert at(i).None?;
        }
      }
    }
  }

  // ---------------------------------------------------------------------
  // Accreditation rule: NJUCF\s+Accredited:[\s\S]*?(Yes|No), ignoring case
  // ---------------------------------------------------------------------

  /** The label "NJUCF<whitespace>Accredited:" starts at `i`, in any case. */
  predicate LabelAt(text: string, i: nat)
  {
    && AtIgnoreCase(text, i, NjucfWord)
    && var j := RunEnd(text, i + |NjucfWord|, IsSpace);
    && i + |NjucfWord| < j
    && AtIgnoreCase(text, j, AccreditedWord)
  }

  /** Where the label that starts at `i` ends. */
  function LabelEnd(text: string, i: nat): (e: nat)
    requires LabelAt(text, i)
    ensures i < e <= |text|
  {
    RunEnd(text, i + |NjucfWord|, IsSpace) + |AccreditedWord|
  }

  /** The answer `(Yes|No)` reads at `p`, if any: true for "yes". */
  function AnswerAt(text: string, p: nat): Option<bool>
  {
    if AtIgnoreCase(text, p, "yes") then Some(true)
    else if AtIgnoreCase(text, p, "no") then Some(false)
    else None
  }

  function AnswerMatcher(text: string): nat -> Option<bool>
  {
    (p: nat) => AnswerAt(text, p)
  }

  /** The first "yes" or "no" at or after `from`, inside a longer word or not:
      where the lazy `[\s\S]*?` stops. */
  function FirstAnswer(text: string, from: nat): Option<bool>
  {
    match LeftmostMatch(|text|, from, AnswerMatcher(text))
    case Some(p) => AnswerAt(text, p)
    case None => None
  }

  /** The answer read is the one at the first position from `from` on that
      holds one, and there is none exactly when no such position does. */
  lemma FirstAnswerSpec(text: string, from: nat)
    ensures FirstAnswer(text, from).None? <==> forall p: nat :: from <= p <= |text| ==> AnswerAt(text, p).None?
    ensures FirstAnswer(text, from).Some? ==> exists p: nat ::
      (from <= p <= |text| && AnswerAt(text, p) == FirstAnswer(text, from)
      && forall p': nat :: from <= p' < p ==> AnswerAt(text, p').None?)
  {
    var at := AnswerMatcher(text);
    LeftmostMatchSpec(|text|, from, at);
    assert forall p: nat :: at(p) == AnswerAt(text, p);
  }

  /** What the pattern yields when its match starts at `i`. */
  function AccreditedAt(text: string, i: nat): Option<bool>
  {
    if LabelAt(text, i) then FirstAnswer(text, LabelEnd(text, i)) else None
  }

  function AccreditedMatcher(text: string): nat -> Option<bool>
  {
    (i: nat) => AccreditedAt(text, i)
  }

  /** `extract_accredited`. */
  function ExtractAccredited(text: string): Option<bool>
  {
    Search(text, AccreditedMatcher(text))
  }

  /** No character of a label after its first one reads as "n" in either
      case. */
  lemma LabelTailHasNoN(text: string, i: nat, k: nat)
    requires LabelAt(text, i) && i < k < LabelEnd(text, i)
    ensures LowerChar(text[k]) != 'n'
  {
    var j := RunEnd(text, i + |NjucfWord|, IsSpace);
    if k < i + |NjucfWord| {
      assert LowerChar(text[i + (k - i)]) == LowerChar(NjucfWord[k - i]);
    } else if k >= j {
      assert LowerChar(text[j + (k - j)]) == LowerChar(AccreditedWord[k - j]);
    }
  }

  /** A label starts with an "n" in either case. */
  lemma LabelStartsWithN(text: string, k: nat)
    requires LabelAt(text, k)
    ensures LowerChar(text[k]) == 'n'
  {
    assert LowerChar(text[k + 0]) == LowerChar(NjucfWord[0]);
  }

  /** No label starts inside another. */
  lemma NoLabelInside(text: string, i: nat, k: nat)
    requires LabelAt(text, i) && i < k < LabelEnd(text, i)
    ensures !LabelAt(text, k)
  {
    LabelTailHasNoN(text, i, k);
    if LabelAt(text, k) {
      LabelStartsWithN(text, k);
    }
  }

  /** Without a label anywhere, the rule yields nothing. */
  lemma AccreditedNeedsLabel(text: string)
    requires forall i: nat :: !LabelAt(text, i)
    ensures ExtractAccredited(text).None?
  {
    var at := AccreditedMatcher(text);
    assert forall i: nat :: at(i).None? by {
      forall i: nat ensures at(i).None? {
        assert at(i) == AccreditedAt(text, i);
      }
    }
    SearchSpec(text, at);
  }

  /** The rule reads the first label of the page: after it the first "yes"
      or "no" decides, and a label with no answer after it is not rescued by
      a later one. */
  lemma AccreditedReadsFirstLabel(text: string, i: nat)
    requires LabelAt(text, i) && forall k: nat :: k < i ==> !LabelAt(text, k)
    ensures ExtractAccredited(text) == FirstAnswer(text, LabelEnd(text, i))
  {
    var at := AccreditedMatcher(text);
    var e := LabelEnd(text, i);
    assert at(i) == FirstAnswer(text, e);
    if FirstAnswer(text, e).Some? {
      forall k: nat | k < i ensures at(k).None? {
        assert at(k) == AccreditedAt(text, k);
      }
      SearchFirst(text, at, i);
    } else {
      FirstAnswerSpec(text, e);
      forall k: nat | k <= |text| ensures at(k).None? {
        assert at(k) == AccreditedAt(text, k);
        if LabelAt(text, k) {
          if k < i {
          } else if k == i {
          } else if k < e {
            NoLabelInside(text, i, k);
          } else {
            FirstAnswerSpec(text, LabelEnd(text, k));
          }
        }
      }
      SearchSpec(text, at);
    }
  }

  // ---------------------------------------------------------------------
  // parse_pdf and main
  // ---------------------------------------------------------------------

  /** A report file: its path, the stem of its name, and the text of each of
      its pages as the PDF library extracts it. */
  datatype PdfFile = PdfFile(path: string, stem: string, pages: seq<string>)

  /** The record page `index` of `pdf` yields, or `None` when the page has no
      municipality and is dropped. */
  function PageReport(pdf: PdfFile, index: nat): (r: Option<Report>)
    requires index < |pdf.pages|
    ensures r.Some? <==> ExtractHeader(pdf.pages[index]).municipality.Some? && ExtractHeader(pdf.pages[index]).municipality.value != ""
    ensures r.Some? ==>
      && r.value.municipality != ""
      && r.value.county.Some?
      && r.value.page == index + 1
      && r.value.pdf == pdf.path
      && r.value.reportYear == ReportYear(pdf.stem)
      && r.value.slug.None?
  {
    var text := pdf.pages[index];
    var header := ExtractHeader(text);
    if header.municipality.None? || header.municipality.value == "" then None
    else
      Some(Report(
        municipality := header.municipality.value,
        county := header.county,
        accredited := ExtractAccredited(text),
        updated := ExtractUpdated(text),
        planYear := ExtractPlanYear(text),
        reportYear := ReportYear(pdf.stem),
        pdf := pdf.path,
        page := index + 1,
        slug := None))
  }

  /** A record names one of the 21 counties and a well-spaced municipality. */
  lemma PageReportSpec(pdf: PdfFile, index: nat)
    requires index < |pdf.pages|
    ensures PageReport(pdf, index).Some? ==>
      && PageReport(pdf, index).value.county.Some?
      && PageReport(pdf, index).value.county.value in Counties
      && WellSpaced(PageReport(pdf, index).value.municipality)
  {
    ExtractHeaderSpec(pdf.pages[index]);
  }

  /** `[r for r in candidates if r is not None]`, built from the back as the
      append loop builds it. */
  function KeptReports(candidates: seq<Option<Report>>): seq<Report>
  {
    if candidates == [] then []
    else
      var last := candidates[|candidates| - 1];
      KeptReports(candidates[..|candidates| - 1]) + if last.Some? then [last.value] else []
  }

  /** Appending a candidate keeps what was kept and adds the candidate's
      record when it is present. */
  lemma KeptReportsAppend(candidates: seq<Option<Report>>, last: Option<Report>)
    ensures KeptReports(candidates + [last]) == KeptReports(candidates) + if last.Some? then [last.value] else []
  {
    assert (candidates + [last])[..|candidates|] == candidates;
  }

  /** A candidate numbered `i + 1` at every position `i` that holds one. */
  ghost predicate NumberedByPosition(candidates: seq<Option<Report>>)
  {
    forall i :: 0 <= i < |candidates| && candidates[i].Some? ==> candidates[i].value.page == i + 1
  }

  /** Every kept record is the candidate at the position its page names. */
  lemma {:induction false} KeptReportsFromCandidates(candidates: seq<Option<Report>>)
    requires NumberedByPosition(candidates)
    ensures forall k :: 0 <= k < |KeptReports(candidates)| ==>
      && 1 <= KeptReports(candidates)[k].page <= |candidates|
      && candidates[KeptReports(candidates)[k].page - 1] == Some(KeptReports(candidates)[k])
  {
    if candidates != [] {
      var n := |candidates|;
      var front := candidates[..n - 1];
      assert NumberedByPosition(front) by {
        forall i | 0 <= i < |front| ensures front[i] == candidates[i] { }
      }
      KeptReportsFromCandidates(front);
      var prev := KeptReports(front);
      var rs := KeptReports(candidates);
      assert rs == prev + if candidates[n - 1].Some? then [candidates[n - 1].value] else [];
      forall k | 0 <= k < |rs|
        ensures 1 <= rs[k].page <= n && candidates[rs[k].page - 1] == Some(rs[k])
      {
        if k < |prev| {
          assert rs[k] == prev[k];
          assert candidates[prev[k].page - 1] == front[prev[k].page - 1];
        }
      }
    }
  }

  /** Kept records are in increasing page order. */
  lemma {:induction false} KeptReportsAscending(candidates: seq<Option<Report>>)
    requires NumberedByPosition(candidates)
    ensures forall a, b :: 0 <= a < b < |KeptReports(candidates)| ==>
      KeptReports(candidates)[a].page < KeptReports(candidates)[b].page
  {
    if candidates != [] {
      var n := |candidates|;
      var front := candidates[..n - 1];
      assert NumberedByPosition(front) by {
        forall i | 0 <= i < |front| ensures front[i] == candidates[i] { }
      }
      KeptReportsAscending(front);
      KeptReportsFromCandidates(front);
      var prev := KeptReports(front);
      var rs := KeptReports(candidates);
      assert rs == prev + if candidates[n - 1].Some? then [candidates[n - 1].value] else [];
      forall a, b | 0 <= a < b < |rs| ensures rs[a].page < rs[b].page {
        assert rs[a] == prev[a];
        if b < |prev| {
          assert rs[b] == prev[b];
        } else {
          assert rs[b] == candidates[n - 1].value;
        }
      }
    }
  }

  /** Every present candidate is kept. */
  lemma {:induction false} KeptReportsComplete(candidates: seq<Option<Report>>)
    ensures forall i :: 0 <= i < |candidates| && candidates[i].Some? ==> candidates[i].value in KeptReports(candidates)
  {
    if candidates != [] {
      var n := |candidates|;
      var front := candidates[..n - 1];
      KeptReportsComplete(front);
      forall i | 0 <= i < n && candidates[i].Some?
        ensures candidates[i].value in KeptReports(candidates)
      {
        if i < n - 1 {
          assert front[i] == candidates[i];
        }
      }
    }
  }

  /** What `KeptReports` keeps, for candidates numbered by position. */
  lemma KeptReportsSpec(candidates: seq<Option<Report>>)
    requires NumberedByPosition(candidates)
    ensures forall k :: 0 <= k < |KeptReports(candidates)| ==>
      && 1 <= KeptReports(candidates)[k].page <= |candidates|
      && candidates[KeptReports(candidates)[k].page - 1] == Some(KeptReports(candidates)[k])
    ensures forall a, b :: 0 <= a < b < |KeptReports(candidates)| ==>
      KeptReports(candidates)[a].page < KeptReports(candidates)[b].page
    ensures forall i :: 0 <= i < |candidates| && candidates[i].Some? ==> candidates[i].value in KeptReports(candidates)
  {
    KeptReportsFromCandidates(candidates);
    KeptReportsAscending(candidates);
    KeptReportsComplete(candidates);
  }

  /** The candidates `read(0)`, ..., `read(n - 1)`, in order. */
  function Candidates(n: nat, read: nat -> Option<Report>): (candidates: seq<Option<Report>>)
    ensures |candidates| == n
  {
    if n == 0 then [] else Candidates(n - 1, read) + [read(n - 1)]
  }

  /** Position `i` of the candidates holds `read(i)`. */
  lemma {:induction false} CandidatesAt(n: nat, read: nat -> Option<Report>)
    ensures forall i :: 0 <= i < n ==> Candidates(n, read)[i] == read(i)
  {
    if n > 0 {
      CandidatesAt(n - 1, read);
      var prev := Candidates(n - 1, read);
      forall i | 0 <= i < n - 1 ensures Candidates(n, read)[i] == read(i) {
        assert (prev + [read(n - 1)])[i] == prev[i];
      }
    }
  }

  /** The candidates of a reader that numbers each record by its position
      and stamps it with one path and one report year are numbered by
      position and share that path and year. */
  lemma CandidatesOf(n: nat, read: nat -> Option<Report>, path: string, year: Option<int>)
    requires forall i: nat :: read(i).Some? ==>
      read(i).value.page == i + 1 && read(i).value.pdf == path && read(i).value.reportYear == year
    ensures NumberedByPosition(Candidates(n, read))
    ensures forall i :: 0 <= i < n && Candidates(n, read)[i].Some? ==>
      Candidates(n, read)[i].value.pdf == path && Candidates(n, read)[i].value.reportYear == year
  {
    CandidatesAt(n, read);
  }

  /** The candidate record of each page of `pdf`. */
  function PageReader(pdf: PdfFile): nat -> Option<Report>
  {
    (i: nat) => if i < |pdf.pages| then PageReport(pdf, i) else None
  }

  /** Each page's record is numbered by its page and stamped with the file's
      path and report year. */
  lemma PageReaderStamps(pdf: PdfFile)
    ensures forall i: nat :: PageReader(pdf)(i).Some? ==>
      && PageReader(pdf)(i).value.page == i + 1
      && PageReader(pdf)(i).value.pdf == pdf.path
      && PageReader(pdf)(i).value.reportYear == ReportYear(pdf.stem)
  {
  }

  /** The candidate records of the first `n` pages of `pdf`. */
  function PageReports(pdf: PdfFile, n: nat): (candidates: seq<Option<Report>>)
    requires n <= |pdf.pages|
    ensures |candidates| == n
    ensures NumberedByPosition(candidates)
    ensures forall i :: 0 <= i < n && candidates[i].Some? ==>
      candidates[i].value.pdf == pdf.path && candidates[i].value.reportYear == ReportYear(pdf.stem)
  {
    PageReaderStamps(pdf);
    CandidatesOf(n, PageReader(pdf), pdf.path, ReportYear(pdf.stem));
    Candidates(n, PageReader(pdf))
  }

  /** Position `i` of the candidates of `pdf` holds the record of page `i`. */
  lemma PageReportsAt(pdf: PdfFile)
    ensures forall i :: 0 <= i < |pdf.pages| ==> PageReports(pdf, |pdf.pages|)[i] == PageReport(pdf, i)
  {
    CandidatesAt(|pdf.pages|, PageReader(pdf));
  }

  /** The records `parse_pdf` returns for `pdf`. */
  function PdfReports(pdf: PdfFile): seq<Report>
  {
    KeptReports(PageReports(pdf, |pdf.pages|))
  }

  /** `parse_pdf` emits one record per page whose municipality is non-empty,
      in page order, with the page numbered from 1. */
  lemma PdfReportsSpec(pdf: PdfFile)
    ensures forall k :: 0 <= k < |PdfReports(pdf)| ==>
      && 1 <= PdfReports(pdf)[k].page <= |pdf.pages|
      && PageReports(pdf, |pdf.pages|)[PdfReports(pdf)[k].page - 1] == Some(PdfReports(pdf)[k])
    ensures forall a, b :: 0 <= a < b < |PdfReports(pdf)| ==> PdfReports(pdf)[a].page < PdfReports(pdf)[b].page
    ensures forall i :: 0 <= i < |pdf.pages| && PageReports(pdf, |pdf.pages|)[i].Some? ==>
      PageReports(pdf, |pdf.pages|)[i].value in PdfReports(pdf)
  {
    KeptReportsSpec(PageReports(pdf, |pdf.pages|));
  }

  /** Every record of a file carries the file's path and the report year of
      its name. */
  lemma PdfReportsShareFile(pdf: PdfFile)
    ensures forall r :: r in PdfReports(pdf) ==> r.pdf == pdf.path && r.reportYear == ReportYear(pdf.stem)
  {
    var candidates := PageReports(pdf, |pdf.pages|);
    KeptReportsFromCandidates(candidates);
    forall r | r in PdfReports(pdf) ensures r.pdf == pdf.path && r.reportYear == ReportYear(pdf.stem) {
      var k :| 0 <= k < |PdfReports(pdf)| && PdfReports(pdf)[k] == r;
      assert candidates[r.page - 1] == Some(r);
    }
  }

  /** `parse_pdf`: the report year is read from the file name once, then each
      page is scanned and the pages without a municipality are skipped. */
  method ParsePdf(pdf: PdfFile) returns (entries: seq<Report>)
    ensures entries == PdfReports(pdf)
  {
    var reportYear := ReportYear(pdf.stem);
    entries := [];
    for pageIndex := 0 to |pdf.pages|
      invariant entries == KeptReports(PageReports(pdf, pageIndex))
    {
      var text := pdf.pages[pageIndex];
      var header := ExtractHeader(text);
      var updated := ExtractUpdated(text);
      var planYear := ExtractPlanYear(text);
      var accredited := ExtractAccredited(text);
      ghost var candidate := PageReport(pdf, pageIndex);
      assert PageReports(pdf, pageIndex + 1) == PageReports(pdf, pageIndex) + [candidate];
      KeptReportsAppend(PageReports(pdf, pageIndex), candidate);
      if header.municipality.None? || header.municipality.value == "" {
        assert candidate.None?;
        continue;
      }
      var record := Report(
        municipality := header.municipality.value,
        county := header.county,
        accredited := accredited,
        updated := updated,
        planYear := planYear,
        reportYear := reportYear,
        pdf := pdf.path,
        page := pageIndex + 1,
        slug := None);
      assert candidate == Some(record);
      entries := entries + [record];
    }
  }

  /** The records of all files, file after file. */
  function AllReports(pdfs: seq<PdfFile>): seq<Report>
  {
    if pdfs == [] then []
    else AllReports(pdfs[..|pdfs| - 1]) + PdfReports(pdfs[|pdfs| - 1])
  }

  /** Every record of the dataset comes from one of the files and carries
      that file's path and report year. */
  lemma {:induction false} AllReportsFromFiles(pdfs: seq<PdfFile>)
    ensures forall r :: r in AllReports(pdfs) ==>
      exists k :: 0 <= k < |pdfs| && r in PdfReports(pdfs[k])
        && r.pdf == pdfs[k].path && r.reportYear == ReportYear(pdfs[k].stem)
  {
    if pdfs != [] {
      var front, last := pdfs[..|pdfs| - 1], pdfs[|pdfs| - 1];
      AllReportsFromFiles(front);
      PdfReportsShareFile(last);
      forall r | r in AllReports(pdfs)
        ensures exists k :: (0 <= k < |pdfs| && r in PdfReports(pdfs[k])
          && r.pdf == pdfs[k].path && r.reportYear == ReportYear(pdfs[k].stem))
      {
        if r in AllReports(front) {
          var k :| 0 <= k < |front| && r in PdfReports(front[k])
            && r.pdf == front[k].path && r.reportYear == ReportYear(front[k].stem);
          assert pdfs[k] == front[k];
        } else {
          assert pdfs[|pdfs| - 1] == last;
        }
      }
    }
  }

  /** `main`: the records of the files, taken in the order given. */
  method ExtractAll(pdfs: seq<PdfFile>) returns (allEntries: seq<Report>)
    ensures allEntries == AllReports(pdfs)
  {
    allEntries := [];
    for i := 0 to |pdfs|
      invariant allEntries == AllReports(pdfs[..i])
    {
      var entries := ParsePdf(pdfs[i]);
      assert pdfs[..i + 1][..i] == pdfs[..i];
      allEntries := allEntries + entries;
    }
    assert pdfs[..|pdfs|] == pdfs;
  }
}
