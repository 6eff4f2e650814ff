/** The query service: slugs computed when the dataset is loaded, the facet
    lists, the report filter and the municipality lookup. */
module App {
  import opened Wrappers
  import opened Strings
  import opened Seqs
  import opened Records

  // ---------------------------------------------------------------------
  // Slugs: re.sub(r"[^a-z0-9]+", "-", value.lower()).strip("-")
  // ---------------------------------------------------------------------

  predicate IsSlugChar(c: char)
  {
    'a' <= c <= 'z' || IsDigit(c)
  }

  predicate NotSlugChar(c: char)
  {
    !IsSlugChar(c)
  }

  predicate IsDash(c: char)
  {
    c == '-'
  }

  /** Lower-case letters and digits, separated by single dashes, with no
      dash at either end. */
  predicate IsSlug(s: string)
  {
    && Collapsed(s, NotSlugChar, '-')
    && (s == [] || (s[0] != '-' && s[|s| - 1] != '-'))
  }

  /** `slugify`: the result is a slug, and its letters and digits are those of
      the lower-cased value, in the same order. */
  function Slugify(value: string): (slug: string)
    ensures IsSlug(slug)
    ensures Without(slug, NotSlugChar) == Without(Lower(value), NotSlugChar)
  {
    var dashed := CollapseRuns(Lower(value), NotSlugChar, '-');
    CollapseRunsKeepsOthers(Lower(value), NotSlugChar, '-');
    TrimCollapsed(dashed, IsDash, NotSlugChar, '-');
    WithoutTrim(dashed, IsDash, NotSlugChar);
    Trim(dashed, IsDash)
  }

  /** A slug is its own slug. */
  lemma SlugifyFixesSlugs(s: string)
    requires IsSlug(s)
    ensures Slugify(s) == s
  {
    assert Lower(s) == s by {
      forall k | 0 <= k < |s| ensures LowerChar(s[k]) == s[k] {
        if NotSlugChar(s[k]) {
          assert s[k] == '-';
        }
      }
    }
    CollapseRunsKeepsCollapsed(s, NotSlugChar, '-');
    TrimKeepsTrimmed(s, IsDash);
  }

  /** Slugifying twice gives the same slug as slugifying once. */
  lemma SlugifyIdempotent(value: string)
    ensures Slugify(Slugify(value)) == Slugify(value)
  {
    SlugifyFixesSlugs(Slugify(value));
  }

  /** The slug is empty exactly when the value has no ASCII letter or digit. */
  lemma SlugifyEmpty(value: string)
    ensures Slugify(value) == [] <==> Without(Lower(value), NotSlugChar) == []
  {
    var slug := Slugify(value);
    if slug != [] {
      assert IsSlugChar(slug[0]);
      assert Without(slug, NotSlugChar) == [slug[0]] + Without(slug[1..], NotSlugChar);
    }
  }

  /** Each run of other characters between two letters or digits becomes
      exactly one dash of the slug. */
  lemma SlugifyJoin(u: string, w: string, v: string)
    requires u != [] && IsSlugChar(LowerChar(u[|u| - 1])) && v != [] && IsSlugChar(LowerChar(v[0]))
    requires w != [] && forall k :: 0 <= k < |w| ==> NotSlugChar(LowerChar(w[k]))
    ensures Slugify(u + w + v) == Slugify(u) + "-" + Slugify(v)
  {
    assert Lower(u + w + v) == Lower(u) + Lower(w) + Lower(v);
    assert All(Lower(w), 0, |w|, NotSlugChar);
    CollapseTrimJoin(Lower(u), Lower(w), Lower(v), NotSlugChar, '-', IsDash);
  }

  // ---------------------------------------------------------------------
  // load_reports
  // ---------------------------------------------------------------------

  /** The record carries the slug of its own municipality. */
  predicate HasOwnSlug(r: Report)
  {
    r.slug == Some(Slugify(r.municipality))
  }

  /** `entry["slug"] = slugify(entry["municipality"])`. */
  function WithOwnSlug(r: Report): Report
  {
    r.(slug := Some(Slugify(r.municipality)))
  }

  /** The loop of `load_reports`: every entry, in place, gets the slug that
      `slugOf` computes from its municipality; nothing else changes. */
  method AssignSlugs(data: array<Report>, slugOf: string -> string)
    modifies data
    ensures forall i :: 0 <= i < data.Length ==>
      data[i] == old(data[i]).(slug := Some(slugOf(old(data[i]).municipality)))
  {
    for i := 0 to data.Length
      invariant forall k :: 0 <= k < i ==>
        data[k] == old(data[k]).(slug := Some(slugOf(old(data[k]).municipality)))
      invariant forall k :: i <= k < data.Length ==> data[k] == old(data[k])
    {
      data[i] := data[i].(slug := Some(slugOf(data[i].municipality)));
    }
  }

  /** `load_reports`: the parsed dataset with each entry's slug computed from
      its municipality. */
  method LoadReports(data: array<Report>)
    modifies data
    ensures forall i :: 0 <= i < data.Length ==> data[i] == WithOwnSlug(old(data[i]))
    ensures forall i :: 0 <= i < data.Length ==> HasOwnSlug(data[i])
  {
    AssignSlugs(data, Slugify);
  }

  // ---------------------------------------------------------------------
  // Facets: sorted({r.get(field) for r in reports if r.get(field)})
  // ---------------------------------------------------------------------

  predicate IntLess(a: int, b: int)
  {
    a < b
  }

  lemma StrLessIsStrictTotalOrder()
    ensures StrictTotalOrder(StrLess)
  {
    forall a: string ensures !StrLess(a, a) {
      StrLessIrreflexive(a);
    }
    forall a: string, b: string, c: string | StrLess(a, b) && StrLess(b, c) ensures StrLess(a, c) {
      StrLessTransitive(a, b, c);
    }
    forall a: string, b: string | a != b ensures StrLess(a, b) || StrLess(b, a) {
      StrLessTotal(a, b);
    }
  }

  /** The county of a record, when it is set and not empty. */
  function CountyOf(r: Report): Option<string>
  {
    if r.county.Some? && r.county.value != "" then r.county else None
  }

  /** The report year of a record, when it is set and not zero. */
  function YearOf(r: Report): Option<int>
  {
    if r.reportYear.Some? && r.reportYear.value != 0 then r.reportYear else None
  }

  /** The municipality of a record, when it is not empty. */
  function MunicipalityOf(r: Report): Option<string>
  {
    if r.municipality != "" then Some(r.municipality) else None
  }

  /** The county list: every non-empty county of the dataset, once, ascending. */
  function CountyFacet(reports: seq<Report>): (counties: seq<string>)
    ensures StrictlyAscending(counties, StrLess)
    ensures forall c :: c in counties <==> c != "" && exists k :: 0 <= k < |reports| && reports[k].county == Some(c)
  {
    var values := FilterMap(reports, CountyOf);
    StrLessIsStrictTotalOrder();
    SortedSetSpec(values, StrLess);
    assert forall c :: c in values <==> c != "" && exists k :: 0 <= k < |reports| && reports[k].county == Some(c) by {
      forall c ensures c in values <==> c != "" && exists k :: 0 <= k < |reports| && reports[k].county == Some(c) {
        if c != "" && exists k :: 0 <= k < |reports| && reports[k].county == Some(c) {
          var k :| 0 <= k < |reports| && reports[k].county == Some(c);
          assert CountyOf(reports[k]) == Some(c);
        }
      }
    }
    SortedSet(values, StrLess)
  }

  /** The year list: every non-zero report year of the dataset, once, ascending. */
  function YearFacet(reports: seq<Report>): (years: seq<int>)
    ensures StrictlyAscending(years, IntLess)
    ensures forall y :: y in years <==> y != 0 && exists k :: 0 <= k < |reports| && reports[k].reportYear == Some(y)
  {
    var values := FilterMap(reports, YearOf);
    SortedSetSpec(values, IntLess);
    assert forall y :: y in values <==> y != 0 && exists k :: 0 <= k < |reports| && reports[k].reportYear == Some(y) by {
      forall y ensures y in values <==> y != 0 && exists k :: 0 <= k < |reports| && reports[k].reportYear == Some(y) {
        if y != 0 && exists k :: 0 <= k < |reports| && reports[k].reportYear == Some(y) {
          var k :| 0 <= k < |reports| && reports[k].reportYear == Some(y);
          assert YearOf(reports[k]) == Some(y);
        }
      }
    }
    SortedSet(values, IntLess)
  }

  /** The municipality list of `/api/meta`: every non-empty name, once, ascending. */
  function MunicipalityFacet(reports: seq<Report>): (names: seq<string>)
    ensures StrictlyAscending(names, StrLess)
    ensures forall m :: m in names <==> m != "" && exists k :: 0 <= k < |reports| && reports[k].municipality == m
  {
    var values := FilterMap(reports, MunicipalityOf);
    StrLessIsStrictTotalOrder();
    SortedSetSpec(values, StrLess);
    assert forall m :: m in values <==> m != "" && exists k :: 0 <= k < |reports| && reports[k].municipality == m by {
      forall m ensures m in values <==> m != "" && exists k :: 0 <= k < |reports| && reports[k].municipality == m {
        if m != "" && exists k :: 0 <= k < |reports| && reports[k].municipality == m {
          var k :| 0 <= k < |reports| && reports[k].municipality == m;
          assert MunicipalityOf(reports[k]) == Some(m);
        }
      }
    }
    SortedSet(values, StrLess)
  }

  // ---------------------------------------------------------------------
  // int(): the year argument of the filter
  // ---------------------------------------------------------------------

  predicate IsUnderscore(c: char)
  {
    c == '_'
  }

  /** Decimal digits with single underscores allowed between two digits. */
  predicate IsDigitString(s: string)
  {
    && s != [] && IsDigit(s[0]) && IsDigit(s[|s| - 1])
    && (forall k :: 0 <= k < |s| ==> IsDigit(s[k]) || IsUnderscore(s[k]))
    && NoAdjacent(s, IsUnderscore)
  }

  /** The number the digits of `s` spell, underscores skipped. */
  function DigitsValue(s: string): nat
    requires forall k :: 0 <= k < |s| ==> IsDigit(s[k]) || IsUnderscore(s[k])
  {
    if s == [] then 0
    else if IsUnderscore(s[|s| - 1]) then DigitsValue(s[..|s| - 1])
    else DigitsValue(s[..|s| - 1]) * 10 + DigitValue(s[|s| - 1])
  }

  /** The most digits `int` converts from a string: CPython's default
      `sys.get_int_max_str_digits()`. A longer number is a `ValueError`. */
  const MaxStrDigits: nat := 4300

  /** The number of digits in `s`, underscores not counted. */
  function DigitCount(s: string): nat
  {
    if s == [] then 0
    else DigitCount(s[..|s| - 1]) + (if IsUnderscore(s[|s| - 1]) then 0 else 1)
  }

  /** A string of digits alone has one digit per character. */
  lemma {:induction false} DigitCountOfDigits(s: string)
    requires forall k :: 0 <= k < |s| ==> IsDigit(s[k])
    ensures DigitCount(s) == |s|
    decreases |s|
  {
    if s != [] {
      DigitCountOfDigits(s[..|s| - 1]);
    }
  }

  /** The whitespace `int` ignores around a number: the ASCII characters
      tab, line feed, vertical tab, form feed, carriage return and space, and
      every non-ASCII character that `str.isspace` accepts. The ASCII
      separators U+001C to U+001F, which `str.isspace` also accepts, are not
      ignored. */
  predicate IsIntSpace(c: char)
  {
    ('\t' <= c <= '\r') || c == ' ' || (c as int > 0x7F && IsSpace(c))
  }

  /** `int(s)` for a `str`: surrounding whitespace ignored, an optional sign,
      then at most `MaxStrDigits` decimal digits; anything else is a
      `ValueError`, here `None`. */
  function ParseInt(s: string): Option<int>
  {
    ParseTrimmed(Trim(s, IsIntSpace))
  }

  /** An optional sign, then the digits. */
  function ParseTrimmed(t: string): Option<int>
  {
    if t != [] && (t[0] == '-' || t[0] == '+') then
      match ParseUnsigned(t[1..])
      case Some(magnitude) => Some(if t[0] == '-' then -(magnitude as int) else magnitude)
      case None => None
    else ParseUnsigned(t)
  }

  /** The digits of a number without its sign, at most `MaxStrDigits` of
      them. */
  function ParseUnsigned(t: string): Option<nat>
  {
    if IsDigitString(t) && DigitCount(t) <= MaxStrDigits then Some(DigitsValue(t)) else None
  }

  function DigitChar(d: nat): (c: char)
    requires d <= 9
    ensures IsDigit(c) && DigitValue(c) == d
  {
    ('0' as int + d) as char
  }

  /** `str(n)` for a natural number. */
  function Decimal(n: nat): (s: string)
    decreases n
  {
    if n < 10 then [DigitChar(n)] else Decimal(n / 10) + [DigitChar(n % 10)]
  }

  /** `str(n)`. */
  function IntToString(n: int): string
  {
    if n < 0 then "-" + Decimal(-n) else Decimal(n)
  }

  lemma {:induction false} DecimalDigits(n: nat)
    ensures IsDigitString(Decimal(n))
    ensures forall k :: 0 <= k < |Decimal(n)| ==> IsDigit(Decimal(n)[k])
    ensures DigitsValue(Decimal(n)) == n
    decreases n
  {
    var s := Decimal(n);
    if n >= 10 {
      DecimalDigits(n / 10);
      assert s[..|s| - 1] == Decimal(n / 10);
    }
    assert forall k :: 0 <= k < |s| ==> IsDigit(s[k]) by {
      if n >= 10 {
        forall k | 0 <= k < |s| ensures IsDigit(s[k]) {
          if k < |s| - 1 {
            assert s[k] == Decimal(n / 10)[k];
          }
        }
      }
    }
  }

  /** The unsigned digits of `str(n)` read back as `n`, unless there are
      more of them than `int` converts. */
  lemma ParseUnsignedDecimal(n: nat)
    ensures ParseUnsigned(Decimal(n)) == if |Decimal(n)| <= MaxStrDigits then Some(n) else None
  {
    DecimalDigits(n);
    DigitCountOfDigits(Decimal(n));
  }

  /** `int` reads back a natural number's decimal digits, unless there are
      more of them than it converts. */
  lemma ParseDecimal(n: nat)
    ensures ParseInt(Decimal(n)) == if |Decimal(n)| <= MaxStrDigits then Some(n) else None
  {
    var s := Decimal(n);
    assert Trim(s, IsIntSpace) == s by {
      DecimalDigits(n);
      TrimKeepsTrimmed(s, IsIntSpace);
    }
    assert ParseTrimmed(s) == ParseUnsigned(s) by {
      DecimalDigits(n);
    }
    ParseUnsignedDecimal(n);
  }

  /** `int` reads back a negative number's sign and digits, unless there
      are more digits than it converts. */
  lemma ParseNegativeDecimal(n: nat)
    requires n > 0
    ensures ParseInt("-" + Decimal(n)) == if |Decimal(n)| <= MaxStrDigits then Some(-(n as int)) else None
  {
    var s := "-" + Decimal(n);
    assert Trim(s, IsIntSpace) == s by {
      DecimalDigits(n);
      TrimKeepsTrimmed(s, IsIntSpace);
    }
    assert ParseTrimmed(s) == if |Decimal(n)| <= MaxStrDigits then Some(-(n as int)) else None by {
      assert s[1..] == Decimal(n);
      ParseUnsignedDecimal(n);
    }
  }

  /** A leading ASCII separator (U+001C to U+001F) is not whitespace to
      `int`, so the string is rejected whatever follows. */
  lemma ParseIntRejectsSeparator(sep: char, s: string)
    requires '\U{1C}' <= sep <= '\U{1F}'
    ensures ParseInt([sep] + s).None?
  {
    var t := Trim([sep] + s, IsIntSpace);
    assert TrimFrom([sep] + s, IsIntSpace) == 0;
    assert t != [] && t[0] == sep;
  }

  function Abs(n: int): nat
  {
    if n < 0 then -n else n
  }

  /** `int(str(n)) == n` for every `n` of at most `MaxStrDigits` digits;
      a longer `str(n)` is a `ValueError`. */
  lemma ParseIntRoundTrip(n: int)
    ensures ParseInt(IntToString(n)) == if |Decimal(Abs(n))| <= MaxStrDigits then Some(n) else None
  {
    var s := Decimal(Abs(n));
    if n < 0 {
      assert IntToString(n) == "-" + s;
      ParseNegativeDecimal(-n);
    } else {
      assert IntToString(n) == s;
      ParseDecimal(n);
    }
  }

  function Pow10(d: nat): nat
  {
    if d == 0 then 1 else 10 * Pow10(d - 1)
  }

  /** `str(n)` has at most `d` digits exactly when `n < 10^d` (for `d >= 1`),
      so the round trip covers every `n` with `|n| < 10^4300`. */
  lemma {:induction false} DecimalLength(n: nat, d: nat)
    requires d >= 1
    ensures |Decimal(n)| <= d <==> n < Pow10(d)
    decreases d
  {
    if d > 1 {
      DecimalLength(n / 10, d - 1);
    }
  }

  // ---------------------------------------------------------------------
  // filtered_reports
  // ---------------------------------------------------------------------

  /** `params.get(key)`, with an absent key read as the empty string: the two
      are equally false in the source's tests. */
  function Param(params: map<string, string>, key: string): string
  {
    if key in params then params[key] else ""
  }

  /** The accredited value a query asks for: true for "true" or "yes",
      false for "false" or "no", in any case; nothing otherwise. */
  function AccreditedChoice(query: string): Option<bool>
  {
    var q := Lower(query);
    if q == "true" || q == "yes" then Some(true)
    else if q == "false" || q == "no" then Some(false)
    else None
  }

  predicate CountyMatches(query: string, r: Report)
  {
    r.county.Some? && r.county.value != "" && Lower(r.county.value) == Lower(query)
  }

  predicate MunicipalityMatches(query: string, r: Report)
  {
    r.municipality != "" && Lower(r.municipality) == Lower(query)
  }

  predicate YearMatches(year: Option<int>, r: Report)
  {
    year.Some? && r.reportYear == year
  }

  predicate AccreditedMatches(choice: Option<bool>, r: Report)
  {
    choice.Some? && r.accredited == choice
  }

  function CountyKeep(query: string): Report -> bool
  {
    r => CountyMatches(query, r)
  }

  function MunicipalityKeep(query: string): Report -> bool
  {
    r => MunicipalityMatches(query, r)
  }

  function YearKeep(year: Option<int>): Report -> bool
  {
    r => YearMatches(year, r)
  }

  function AccreditedKeep(choice: Option<bool>): Report -> bool
  {
    r => AccreditedMatches(choice, r)
  }

  /** One `if …: results = [r for r in results if …]` step of the filter. */
  function Narrow(results: seq<Report>, active: bool, keep: Report -> bool): seq<Report>
  {
    if active then Filter(results, keep) else results
  }

  /** `filtered_reports`: the four criteria applied one after the other, each
      only when its argument is given. */
  function FilteredReports(reports: seq<Report>, params: map<string, string>): seq<Report>
  {
    var county := Param(params, "county");
    var municipality := Param(params, "municipality");
    var year := Param(params, "year");
    var accredited := Param(params, "accredited");
    var byCounty := Narrow(reports, county != "", CountyKeep(county));
    var byMunicipality := Narrow(byCounty, municipality != "", MunicipalityKeep(municipality));
    var byYear := Narrow(byMunicipality, year != "" && ParseInt(year).Some?, YearKeep(ParseInt(year)));
    Narrow(byYear, accredited != "" && AccreditedChoice(accredited).Some?, AccreditedKeep(AccreditedChoice(accredited)))
  }

  /** A record passes the filter when it meets every criterion whose argument
      is given and usable. */
  predicate Matches(params: map<string, string>, r: Report)
  {
    var county := Param(params, "county");
    var municipality := Param(params, "municipality");
    var year := Param(params, "year");
    var accredited := Param(params, "accredited");
    && (county != "" ==> CountyMatches(county, r))
    && (municipality != "" ==> MunicipalityMatches(municipality, r))
    && (year != "" && ParseInt(year).Some? ==> YearMatches(ParseInt(year), r))
    && (accredited != "" && AccreditedChoice(accredited).Some? ==> AccreditedMatches(AccreditedChoice(accredited), r))
  }

  function Matcher(params: map<string, string>): Report -> bool
  {
    r => Matches(params, r)
  }

  lemma NarrowConcat(a: seq<Report>, b: seq<Report>, active: bool, keep: Report -> bool)
    ensures Narrow(a + b, active, keep) == Narrow(a, active, keep) + Narrow(b, active, keep)
  {
    if active {
      FilterConcat(a, b, keep);
    }
  }

  lemma FilteredReportsConcat(a: seq<Report>, b: seq<Report>, params: map<string, string>)
    ensures FilteredReports(a + b, params) == FilteredReports(a, params) + FilteredReports(b, params)
  {
    var county := Param(params, "county");
    var municipality := Param(params, "municipality");
    var year := Param(params, "year");
    var accredited := Param(params, "accredited");
    NarrowConcat(a, b, county != "", CountyKeep(county));
    var a1, b1 := Narrow(a, county != "", CountyKeep(county)), Narrow(b, county != "", CountyKeep(county));
    NarrowConcat(a1, b1, municipality != "", MunicipalityKeep(municipality));
    var a2, b2 := Narrow(a1, municipality != "", MunicipalityKeep(municipality)), Narrow(b1, municipality != "", MunicipalityKeep(municipality));
    NarrowConcat(a2, b2, year != "" && ParseInt(year).Some?, YearKeep(ParseInt(year)));
    var a3, b3 := Narrow(a2, year != "" && ParseInt(year).Some?, YearKeep(ParseInt(year))), Narrow(b2, year != "" && ParseInt(year).Some?, YearKeep(ParseInt(year)));
    NarrowConcat(a3, b3, accredited != "" && AccreditedChoice(accredited).Some?, AccreditedKeep(AccreditedChoice(accredited)));
  }

  lemma FilteredReportsSingle(r: Report, params: map<string, string>)
    ensures FilteredReports([r], params) == if Matches(params, r) then [r] else []
  {
  }

  /** The successive filters keep exactly the records that meet every active
      criterion, in dataset order. */
  lemma {:induction false} FilteredReportsMatch(reports: seq<Report>, params: map<string, string>)
    ensures FilteredReports(reports, params) == Filter(reports, Matcher(params))
  {
    if reports != [] {
      assert reports == [reports[0]] + reports[1..];
      FilteredReportsConcat([reports[0]], reports[1..], params);
      FilteredReportsSingle(reports[0], params);
      FilteredReportsMatch(reports[1..], params);
    }
  }

  /** Without any criterion the filter returns the whole dataset. */
  lemma FilteredReportsNoCriteria(reports: seq<Report>, params: map<string, string>)
    requires Param(params, "county") == "" && Param(params, "municipality") == ""
    requires Param(params, "year") == "" && Param(params, "accredited") == ""
    ensures FilteredReports(reports, params) == reports
  {
  }

  /** A year argument that `int` rejects is ignored, as if it were absent. */
  lemma FilteredReportsBadYear(reports: seq<Report>, params: map<string, string>)
    requires ParseInt(Param(params, "year")).None?
    ensures FilteredReports(reports, params) == FilteredReports(reports, params - {"year"})
  {
    var other := params - {"year"};
    assert Param(other, "county") == Param(params, "county");
    assert Param(other, "municipality") == Param(params, "municipality");
    assert Param(other, "accredited") == Param(params, "accredited");
  }

  /** An accredited argument other than true, yes, false or no is ignored. */
  lemma FilteredReportsUnknownAccredited(reports: seq<Report>, params: map<string, string>)
    requires AccreditedChoice(Param(params, "accredited")).None?
    ensures FilteredReports(reports, params) == FilteredReports(reports, params - {"accredited"})
  {
    var other := params - {"accredited"};
    assert Param(other, "county") == Param(params, "county");
    assert Param(other, "municipality") == Param(params, "municipality");
    assert Param(other, "year") == Param(params, "year");
  }

  // ---------------------------------------------------------------------
  // Lookup by slug
  // ---------------------------------------------------------------------

  function SlugKeep(slug: string): Report -> bool
  {
    (r: Report) => r.slug == Some(slug)
  }

  /** `/api/municipalities/<slug>`: the records with that slug in dataset
      order, or not found (404) when there are none. */
  function MunicipalityEntries(reports: seq<Report>, slug: string): (entries: Option<seq<Report>>)
    ensures entries.None? <==> forall r :: r in reports ==> r.slug != Some(slug)
    ensures entries.Some? ==> forall r :: r in entries.value <==> r in reports && r.slug == Some(slug)
    ensures entries.Some? ==> IsSubsequence(entries.value, reports)
  {
    var matching := Filter(reports, SlugKeep(slug));
    FilterIsSubsequence(reports, SlugKeep(slug));
    FilterMembers(reports, SlugKeep(slug));
    if matching == [] then
      assert forall r :: r in reports ==> r.slug != Some(slug) by {
        forall r | r in reports ensures r.slug != Some(slug) {
          assert r !in matching;
        }
      }
      None
    else
      assert matching[0] in matching;
      Some(matching)
  }

  /** Once loaded, every record is found under the slug of its own municipality. */
  lemma LoadedReportIsFound(reports: seq<Report>, r: Report)
    requires forall x :: x in reports ==> HasOwnSlug(x)
    requires r in reports
    ensures MunicipalityEntries(reports, Slugify(r.municipality)).Some?
    ensures r in MunicipalityEntries(reports, Slugify(r.municipality)).value
  {
  }

  // ---------------------------------------------------------------------
  // The municipality page: entries sorted by report year
  // ---------------------------------------------------------------------

  /** The sort key of a record: its report year, 0 when it has none. */
  function YearKey(r: Report): int
  {
    if r.reportYear.Some? then r.reportYear.value else 0
  }

  predicate YearOrdered(s: seq<Report>)
  {
    forall i, j :: 0 <= i < j < |s| ==> YearKey(s[i]) <= YearKey(s[j])
  }

  function YearIs(year: int): Report -> bool
  {
    r => YearKey(r) == year
  }

  /** Inserts `x` after every record whose key is not larger than its own. */
  function InsertByYear(x: Report, s: seq<Report>): seq<Report>
  {
    if s == [] || YearKey(s[|s| - 1]) <= YearKey(x) then s + [x]
    else InsertByYear(x, s[..|s| - 1]) + [s[|s| - 1]]
  }

  /** `sorted(entries, key=...)`: a stable insertion sort on the year key. */
  function SortByYear(entries: seq<Report>): seq<Report>
  {
    if entries == [] then []
    else InsertByYear(entries[|entries| - 1], SortByYear(entries[..|entries| - 1]))
  }

  lemma {:induction false} InsertByYearCount(x: Report, s: seq<Report>)
    ensures multiset(InsertByYear(x, s)) == multiset(s) + multiset{x}
  {
    if !(s == [] || YearKey(s[|s| - 1]) <= YearKey(x)) {
      var front, last := s[..|s| - 1], s[|s| - 1];
      assert s == front + [last];
      InsertByYearCount(x, front);
    }
  }

  /** Every record of `s` has a key of at most `bound`. */
  predicate KeysAtMost(s: seq<Report>, bound: int)
  {
    forall i :: 0 <= i < |s| ==> YearKey(s[i]) <= bound
  }

  lemma {:induction false} InsertByYearAtMost(x: Report, s: seq<Report>, bound: int)
    requires KeysAtMost(s, bound) && YearKey(x) <= bound
    ensures KeysAtMost(InsertByYear(x, s), bound)
  {
    if !(s == [] || YearKey(s[|s| - 1]) <= YearKey(x)) {
      var front := s[..|s| - 1];
      InsertByYearAtMost(x, front, bound);
    }
  }

  lemma {:induction false} InsertByYearOrdered(x: Report, s: seq<Report>)
    requires YearOrdered(s)
    ensures YearOrdered(InsertByYear(x, s))
  {
    if !(s == [] || YearKey(s[|s| - 1]) <= YearKey(x)) {
      var front, last := s[..|s| - 1], s[|s| - 1];
      assert YearOrdered(front);
      InsertByYearOrdered(x, front);
      assert KeysAtMost(front, YearKey(last));
      InsertByYearAtMost(x, front, YearKey(last));
      var inserted := InsertByYear(x, front);
      var r := inserted + [last];
      forall i, j | 0 <= i < j < |r| ensures YearKey(r[i]) <= YearKey(r[j]) {
        assert r[i] == inserted[i];
        if j < |r| - 1 {
          assert r[j] == inserted[j];
        }
      }
    }
  }

  lemma {:induction false} InsertByYearStable(x: Report, s: seq<Report>, year: int)
    ensures Filter(InsertByYear(x, s), YearIs(year)) == Filter(s, YearIs(year)) + Filter([x], YearIs(year))
  {
    var keep := YearIs(year);
    if s == [] || YearKey(s[|s| - 1]) <= YearKey(x) {
      FilterConcat(s, [x], keep);
    } else {
      var front, last := s[..|s| - 1], s[|s| - 1];
      assert s == front + [last];
      var inserted := InsertByYear(x, front);
      assert InsertByYear(x, s) == inserted + [last];
      InsertByYearStable(x, front, year);
      FilterConcat(inserted, [last], keep);
      FilterConcat(front, [last], keep);
      var fx, fl := Filter([x], keep), Filter([last], keep);
      assert fx == [] || fl == [] by {
        if YearKey(x) == year {
          assert !keep(last);
        }
      }
      calc {
        Filter(InsertByYear(x, s), keep);
        Filter(inserted, keep) + fl;
        Filter(front, keep) + fx + fl;
        Filter(front, keep) + fl + fx;
        Filter(s, keep) + fx;
      }
    }
  }

  /** The sort orders by year, keeps every record, and keeps the dataset
      order among records of the same year. */
  lemma {:induction false} SortByYearSpec(entries: seq<Report>)
    ensures YearOrdered(SortByYear(entries))
    ensures multiset(SortByYear(entries)) == multiset(entries)
    ensures forall year :: Filter(SortByYear(entries), YearIs(year)) == Filter(entries, YearIs(year))
  {
    if entries != [] {
      var front, last := entries[..|entries| - 1], entries[|entries| - 1];
      assert entries == front + [last];
      SortByYearSpec(front);
      InsertByYearOrdered(last, SortByYear(front));
      InsertByYearCount(last, SortByYear(front));
      forall year ensures Filter(SortByYear(entries), YearIs(year)) == Filter(entries, YearIs(year)) {
        InsertByYearStable(last, SortByYear(front), year);
        FilterConcat(front, [last], YearIs(year));
      }
    }
  }

  datatype PageView = NotFound | Failed | Page(name: string, entries: seq<Report>)

  /** `/municipality/<slug>` as written: the sort key is the `report_year`
      field, which the dataset holds as null for a file name without a year;
      Python cannot order null against anything, so two or more entries with
      one null year make the request fail. */
  function MunicipalityPageAsWritten(reports: seq<Report>, slug: string): (view: PageView)
    ensures view.Failed? <==>
      && MunicipalityEntries(reports, slug).Some?
      && |MunicipalityEntries(reports, slug).value| >= 2
      && exists r :: r in MunicipalityEntries(reports, slug).value && r.reportYear.None?
  {
    match MunicipalityEntries(reports, slug)
    case None => NotFound
    case Some(entries) =>
      if |entries| >= 2 && exists r :: r in entries && r.reportYear.None? then Failed
      else Page(entries[0].municipality, SortByYear(entries))
  }

  /** `/municipality/<slug>` as the default key of 0 intends: a missing year
      sorts as 0. The name is the first matching record's municipality and
      the entries are all the matching records, ordered by year, stably. */
  function MunicipalityPage(reports: seq<Report>, slug: string): (view: PageView)
    ensures view.Failed? == false
    ensures view.NotFound? <==> forall r :: r in reports ==> r.slug != Some(slug)
    ensures view.Page? ==>
      && var entries := MunicipalityEntries(reports, slug).value;
      && view.name == entries[0].municipality
      && YearOrdered(view.entries)
      && multiset(view.entries) == multiset(entries)
      && forall year :: Filter(view.entries, YearIs(year)) == Filter(entries, YearIs(year))
  {
    match MunicipalityEntries(reports, slug)
    case None => NotFound
    case Some(entries) =>
      SortByYearSpec(entries);
      Page(entries[0].municipality, SortByYear(entries))
  }

  /** Two records of one municipality from files without a year: the page as
      written fails, the intended page lists both. */
  lemma NullYearBreaksPage()
    ensures var r := Report("Hope", Some("Warren"), None, None, None, None, "a.pdf", 1, Some("hope"));
      && MunicipalityPageAsWritten([r, r], "hope") == Failed
      && MunicipalityPage([r, r], "hope") == Page("Hope", [r, r])
  {
    var r := Report("Hope", Some("Warren"), None, None, None, None, "a.pdf", 1, Some("hope"));
    var entries := Filter([r, r], SlugKeep("hope"));
    assert entries == [r, r];
    assert r in entries;
  }
}
