/**
 * Parsing of the search-listing titles (getUsdaResults in crawl_food_data.js).
 *
 * Each result title, such as "45001524 APPLE PIE, UPC: 000111222333", is cut
 * into an id (the leading digits), a description (the trimmed text before the
 * first ", UPC") and a UPC (the trailing digits); the id also fixes the URL of
 * the item's CSV export. A title from which any piece cannot be extracted is
 * skipped. The listing page itself is represented by the texts of its title
 * links, in page order.
 */
module Listing {
  import opened Wrappers
  import opened Text

  /** A search result: what getUsdaResults pushes for one title. */
  datatype ItemStub = ItemStub(id: string, description: string, upc: string, url: string)

  const UpcMarker: string := ", UPC"
  const DetailUrlPrefix: string := "https://ndb.nal.usda.gov/ndb/foods/show/"
  const DetailUrlSuffix: string := "?format=Full&reportfmt=csv&Qv=1"

  /** The full CSV export of the item with this id: the id sits between the fixed prefix and suffix. */
  function DetailUrl(id: string): (r: string)
    ensures |r| == |DetailUrlPrefix| + |id| + |DetailUrlSuffix|
    ensures r[..|DetailUrlPrefix|] == DetailUrlPrefix
    ensures r[|DetailUrlPrefix|..|DetailUrlPrefix| + |id|] == id
    ensures r[|DetailUrlPrefix| + |id|..] == DetailUrlSuffix
  {
    DetailUrlPrefix + id + DetailUrlSuffix
  }

  /** Different ids give different URLs: the id can be read back from the URL. */
  lemma DetailUrlInjective(id1: string, id2: string)
    ensures DetailUrl(id1) == DetailUrl(id2) ==> id1 == id2
  {
    var n := |DetailUrlPrefix|;
    assert DetailUrl(id1)[n..n + |id1|] == id1;
    assert DetailUrl(id2)[n..n + |id2|] == id2;
  }

  predicate NoLineTerminator(s: string, i: nat, j: nat)
    requires i <= j <= |s|
  {
    forall t :: i <= t < j ==> !IsLineTerminator(s[t])
  }

  /**
   * The lazy `(.*?)(?=, UPC)` from index `q`: it stops at the first ", UPC"
   * and fails on reaching a line terminator or the end of input first.
   */
  function LazyToMarker(s: string, q: nat): (r: Option<nat>)
    requires q <= |s|
    ensures r.Some? ==> q <= r.value <= |s|
    decreases |s| - q
  {
    if OccursAt(s, q, UpcMarker) then Some(q)
    else if q < |s| && !IsLineTerminator(s[q]) then LazyToMarker(s, q + 1)
    else None
  }

  /** The lazy scan finds the first ", UPC" at or after `q` exactly when no line terminator comes before it. */
  lemma {:induction false} LazyToMarkerFindsFirst(s: string, q: nat)
    requires q <= |s|
    ensures LazyToMarker(s, q) == match FirstOccurrence(s, UpcMarker, q)
                                  case Some(e) => if NoLineTerminator(s, q, e) then Some(e) else None
                                  case None => None
    decreases |s| - q
  {
    if OccursAt(s, q, UpcMarker) {
    } else if q < |s| {
      LazyToMarkerFindsFirst(s, q + 1);
    }
  }

  /** `(?!(\d+))(.*?)(?=, UPC)` matches at `p`: no digit at `p`, and the lazy scan reaches a marker. */
  predicate DescriptionMatchesAt(s: string, p: nat)
    requires p <= |s|
  {
    (p == |s| || !IsDigit(s[p])) && LazyToMarker(s, p).Some?
  }

  /** The engine's scan for DESCRIPTION_PATTERN from start position `p`: the matched span, start and end. */
  function DescriptionFrom(s: string, p: nat): (r: Option<(nat, nat)>)
    requires p <= |s|
    ensures r.None? <==> forall k :: p <= k <= |s| ==> !DescriptionMatchesAt(s, k)
    ensures r.Some? ==>
      && p <= r.value.0 <= |s| && DescriptionMatchesAt(s, r.value.0)
      && LazyToMarker(s, r.value.0) == Some(r.value.1)
      && forall k :: p <= k < r.value.0 ==> !DescriptionMatchesAt(s, k)
    decreases |s| - p
  {
    if p < |s| && IsDigit(s[p]) then DescriptionFrom(s, p + 1)
    else match LazyToMarker(s, p)
      case Some(e) => assert DescriptionMatchesAt(s, p); Some((p, e))
      case None => if p == |s| then None else DescriptionFrom(s, p + 1)
  }

  /** `s.match(DESCRIPTION_PATTERN)[0]` as a span of `s`, or None where `match` gives null. */
  function DescriptionSpan(s: string): (r: Option<(nat, nat)>)
    ensures r.None? <==> forall k :: 0 <= k <= |s| ==> !DescriptionMatchesAt(s, k)
    ensures r.Some? ==> r.value.0 <= r.value.1 <= |s| && DescriptionMatchesAt(s, r.value.0)
                        && LazyToMarker(s, r.value.0) == Some(r.value.1)
  {
    DescriptionFrom(s, 0)
  }

  /**
   * The description span is the leftmost place where the pattern matches: it
   * starts at a non-digit and runs, without a line break, up to the first
   * ", UPC" after its start; there is none when the pattern matches nowhere.
   */
  lemma DescriptionSpanIsLeftmostMatch(s: string)
    ensures DescriptionSpan(s).None? <==> forall k :: 0 <= k <= |s| ==> !DescriptionMatchesAt(s, k)
    ensures DescriptionSpan(s).Some? ==>
      var (a, e) := DescriptionSpan(s).value;
      && (a < |s| ==> !IsDigit(s[a])) && FirstOccurrence(s, UpcMarker, a) == Some(e)
      && NoLineTerminator(s, a, e)
      && forall k :: 0 <= k < a ==> !DescriptionMatchesAt(s, k)
  {
    if DescriptionSpan(s).Some? {
      LazyToMarkerFindsFirst(s, DescriptionSpan(s).value.0);
    }
  }

  lemma {:induction false} DescriptionSkipsDigits(s: string, p: nat, n: nat)
    requires p <= n <= |s|
    requires forall k :: p <= k < n ==> IsDigit(s[k])
    ensures DescriptionFrom(s, p) == DescriptionFrom(s, n)
    decreases n - p
  {
    if p < n {
      DescriptionSkipsDigits(s, p + 1, n);
    }
  }

  lemma {:induction false} NoMarkerNoDescription(s: string, p: nat)
    requires p <= |s| && FirstOccurrence(s, UpcMarker, p).None?
    ensures DescriptionFrom(s, p).None?
    decreases |s| - p
  {
    LazyToMarkerFindsFirst(s, p);
    if p < |s| {
      FirstOccurrenceSkip(s, UpcMarker, p, p + 1);
      NoMarkerNoDescription(s, p + 1);
    }
  }

  /**
   * For a title whose description holds no line break, the description span
   * runs from the first non-digit character to the first ", UPC"; with no
   * ", UPC" at all there is no description.
   */
  lemma DescriptionOfTitle(s: string)
    ensures DescriptionSpan(s).Some? ==> DigitRunEnd(s, 0) <= DescriptionSpan(s).value.0
    ensures FirstOccurrence(s, UpcMarker, 0).None? ==> DescriptionSpan(s).None?
    ensures FirstOccurrence(s, UpcMarker, 0).Some? ==> DigitRunEnd(s, 0) <= FirstOccurrence(s, UpcMarker, 0).value
    ensures var n, e := DigitRunEnd(s, 0), FirstOccurrence(s, UpcMarker, 0);
      e.Some? && NoLineTerminator(s, n, e.value) ==> DescriptionSpan(s) == Some((n, e.value))
  {
    var n := DigitRunEnd(s, 0);
    forall k | 0 <= k < n ensures !OccursAt(s, k, UpcMarker) {
      FirstCharMismatch(s, k, UpcMarker);
    }
    FirstOccurrenceSkip(s, UpcMarker, 0, n);
    DescriptionSkipsDigits(s, 0, n);
    if FirstOccurrence(s, UpcMarker, 0).None? {
      NoMarkerNoDescription(s, n);
    } else {
      LazyToMarkerFindsFirst(s, n);
    }
  }

  /**
   * getUsdaResults for one title: `text().trim()`, then the id, description
   * and UPC matches; None where any of them throws and the row is skipped.
   */
  function ParseTitle(raw: string): (r: Option<ItemStub>)
    ensures r.Some? ==> r.value.id != [] && AllDigits(r.value.id) && r.value.upc != [] && AllDigits(r.value.upc)
    ensures r.Some? ==> r.value.url == DetailUrl(r.value.id) && |r.value.description| <= |raw|
  {
    var t := Trim(raw);
    var id, span, upc := LeadingDigits(t), DescriptionSpan(t), TrailingDigits(t);
    if id.Some? && span.Some? && upc.Some? then
      var description := Trim(t[span.value.0..span.value.1]);
      Some(ItemStub(id.value, description, upc.value, DetailUrl(id.value)))
    else
      None
  }

  /**
   * A title yields an entry exactly when, once trimmed, it starts and ends with
   * a digit and the description pattern matches; the id is then the maximal
   * leading digit run, the UPC the maximal trailing one, the URL the id's
   * export URL and the description the trimmed matched text.
   */
  lemma ParseTitleSpec(raw: string)
    ensures var t := Trim(raw);
      ParseTitle(raw).Some? <==> t != [] && IsDigit(t[0]) && IsDigit(t[|t| - 1]) && DescriptionSpan(t).Some?
    ensures ParseTitle(raw).Some? ==> var t, x := Trim(raw), ParseTitle(raw).value;
      && x.id != [] && AllDigits(x.id) && x.id == t[..|x.id|] && (|x.id| < |t| ==> !IsDigit(t[|x.id|]))
      && x.upc != [] && AllDigits(x.upc) && x.upc == t[|t| - |x.upc|..]
      && (|x.upc| < |t| ==> !IsDigit(t[|t| - |x.upc| - 1]))
      && x.url == DetailUrl(x.id)
      && x.description == Trim(t[DescriptionSpan(t).value.0..DescriptionSpan(t).value.1])
  {
  }

  /**
   * The entry for a title with no line break inside it: it exists exactly when
   * the trimmed title starts and ends with a digit and contains ", UPC", and
   * its description is then the trimmed text from the end of the id up to the
   * first ", UPC".
   */
  lemma ParseCleanTitle(raw: string)
    requires var t := Trim(raw); NoLineTerminator(t, 0, |t|)
    ensures var t := Trim(raw);
      ParseTitle(raw).Some? <==> t != [] && IsDigit(t[0]) && IsDigit(t[|t| - 1]) && FirstOccurrence(t, UpcMarker, 0).Some?
    ensures ParseTitle(raw).Some? ==> |ParseTitle(raw).value.id| <= FirstOccurrence(Trim(raw), UpcMarker, 0).value
    ensures ParseTitle(raw).Some? ==>
      var t, x := Trim(raw), ParseTitle(raw).value;
      x.description == Trim(t[|x.id|..FirstOccurrence(t, UpcMarker, 0).value])
  {
    var t := Trim(raw);
    ParseTitleSpec(raw);
    DescriptionOfTitle(t);
    var n := DigitRunEnd(t, 0);
    if FirstOccurrence(t, UpcMarker, 0).Some? {
      var e := FirstOccurrence(t, UpcMarker, 0).value;
      assert DescriptionSpan(t) == Some((n, e));
      if ParseTitle(raw).Some? {
        assert LeadingDigits(t) == Some(t[..n]);
      }
    }
  }

  /** The values of the present elements, in order. */
  function Present<T>(xs: seq<Option<T>>): (r: seq<T>)
    ensures |r| <= |xs|
  {
    if xs == [] then []
    else
      var rest := Present(xs[..|xs| - 1]);
      match xs[|xs| - 1]
      case Some(x) => rest + [x]
      case None => rest
  }

  lemma {:induction false} PresentAppend<T>(a: seq<Option<T>>, b: seq<Option<T>>)
    ensures Present(a + b) == Present(a) + Present(b)
    decreases |b|
  {
    if b == [] {
      assert a + b == a;
    } else {
      var b' := b[..|b| - 1];
      assert (a + b)[..|a + b| - 1] == a + b';
      assert (a + b)[|a + b| - 1] == b[|b| - 1];
      PresentAppend(a, b');
    }
  }

  lemma {:induction false} PresentMembers<T>(xs: seq<Option<T>>, x: T)
    ensures x in Present(xs) <==> exists i :: 0 <= i < |xs| && xs[i] == Some(x)
    decreases |xs|
  {
    if xs != [] {
      var init := xs[..|xs| - 1];
      PresentMembers(init, x);
      if x in Present(xs) {
        if x in Present(init) {
          var i :| 0 <= i < |init| && init[i] == Some(x);
          assert xs[i] == init[i];
        } else {
          assert xs[|xs| - 1] == Some(x);
        }
      }
      if exists i :: 0 <= i < |xs| && xs[i] == Some(x) {
        var i :| 0 <= i < |xs| && xs[i] == Some(x);
        if i < |init| {
          assert init[i] == xs[i];
        }
      }
    }
  }

  lemma {:induction false} PresentAllSome<T>(xs: seq<Option<T>>)
    requires forall i :: 0 <= i < |xs| ==> xs[i].Some?
    ensures |Present(xs)| == |xs|
    ensures forall i :: 0 <= i < |xs| ==> Present(xs)[i] == xs[i].value
    decreases |xs|
  {
    if xs != [] {
      PresentAllSome(xs[..|xs| - 1]);
    }
  }

  /** Every title of the page, parsed. */
  function ParsedTitles(titles: seq<string>): (r: seq<Option<ItemStub>>)
    ensures |r| == |titles|
    ensures forall i :: 0 <= i < |titles| ==> r[i] == ParseTitle(titles[i])
  {
    seq(|titles|, i requires 0 <= i < |titles| => ParseTitle(titles[i]))
  }

  /** The listing's entries for the titles, in row order, skipping titles that do not parse. */
  function ParseTitles(titles: seq<string>): (r: seq<ItemStub>)
    ensures |r| <= |titles|
  {
    Present(ParsedTitles(titles))
  }

  /** Entries follow row order: the entries of two consecutive runs of rows are those of the first run, then those of the second. */
  lemma ParseTitlesAppend(a: seq<string>, b: seq<string>)
    ensures ParseTitles(a + b) == ParseTitles(a) + ParseTitles(b)
  {
    var x, y, z := ParsedTitles(a + b), ParsedTitles(a), ParsedTitles(b);
    forall i | 0 <= i < |x| ensures x[i] == (y + z)[i] {
      if i < |a| {
        assert (a + b)[i] == a[i];
      } else {
        assert (a + b)[i] == b[i - |a|];
      }
    }
    assert x == y + z;
    PresentAppend(y, z);
  }

  /** An entry is produced for a row exactly when its title parses. */
  lemma ParseTitlesMembers(titles: seq<string>, x: ItemStub)
    ensures x in ParseTitles(titles) <==> exists i :: 0 <= i < |titles| && ParseTitle(titles[i]) == Some(x)
  {
    PresentMembers(ParsedTitles(titles), x);
  }

  /** When every title parses there is one entry per row, in row order. */
  lemma ParseTitlesAllParse(titles: seq<string>)
    requires forall i :: 0 <= i < |titles| ==> ParseTitle(titles[i]).Some?
    ensures |ParseTitles(titles)| == |titles|
    ensures forall i :: 0 <= i < |titles| ==> ParseTitles(titles)[i] == ParseTitle(titles[i]).value
  {
    PresentAllSome(ParsedTitles(titles));
  }

  lemma PresentSnoc<T>(xs: seq<Option<T>>, i: nat)
    requires i < |xs|
    ensures Present(xs[..i + 1]) == Present(xs[..i]) + (if xs[i].Some? then [xs[i].value] else [])
  {
    assert xs[..i + 1][..i] == xs[..i];
  }

  /**
   * getUsdaResults: walk the title links in page order and push the entry of
   * every title that parses.
   */
  method ListingStubs(titles: seq<string>) returns (results: seq<ItemStub>)
    ensures results == ParseTitles(titles)
  {
    ghost var parsed := ParsedTitles(titles);
    results := [];
    var i := 0;
    while i < |titles|
      invariant 0 <= i <= |titles|
      invariant results == Present(parsed[..i])
    {
      var entry := ParseTitle(titles[i]);
      PresentSnoc(parsed, i);
      if entry.Some? {
        results := results + [entry.value];
      }
      i := i + 1;
    }
    assert parsed[..|titles|] == parsed;
  }
}
