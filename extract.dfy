/**
 * Per-row extraction (`search_notices_for_row`): normalise the row, skip it
 * when the surname is blank, otherwise build its search URL, keep the anchor
 * targets of the fetched page that look like a notice for that surname, make
 * them absolute, drop repeats, and fall back to the "No results" marker.
 *
 * Fetching and parsing the page are not modelled: `page` maps a URL to the
 * `href` values of the page's anchors, in document order. A failed fetch is a
 * page with no anchors.
 */
module Extract {
  import opened Text
  import opened SearchUrl

  datatype Option<T> = None | Some(value: T)

  /** One watchlist record. */
  datatype Row = Row(county: string, town: string, firstname: string, surname: string)

  /** The site origin put in front of each matching `href`. */
  const Origin := "https://rip.ie"
  /** The marker a row yields when it has no notice to show. */
  const NoResults := "No results"
  /** The path every notice link contains. */
  const NoticePath := "/death-notice/"

  predicate AsciiDigits(s: string)
  {
    forall k | 0 <= k < |s| :: '0' <= s[k] <= '9'
  }

  /**
   * The regular expression `/death-notice/.*NAME.*-\d+$`, with NAME a literal,
   * matched in `href` with the notice path at `i`, NAME at `j` and the hyphen
   * at `k`: both `.*` gaps hold no line break (`.` does not match one), and
   * one or more digits run from after the hyphen to the end.
   */
  predicate NoticeMatchAt(href: string, name: string, i: int, j: int, k: int)
  {
    && OccursAt(NoticePath, href, i)
    && i + |NoticePath| <= j
    && OccursAt(name, href, j)
    && j + |name| <= k < |href| - 1
    && '\n' !in href[i + |NoticePath|..j]
    && '\n' !in href[j + |name|..k]
    && href[k] == '-'
    && AsciiDigits(href[k + 1..])
  }

  /** `re.search` of the notice pattern for `name` in `href` succeeds. */
  predicate NoticePattern(href: string, name: string)
  {
    exists i, j, k | 0 <= i < |href| && 0 <= j < |href| && 0 <= k < |href| ::
      NoticeMatchAt(href, name, i, j, k)
  }

  /** The pattern is tested on the lower-cased `href`; `name` is already lower-cased. */
  predicate IsNoticeHref(href: string, name: string)
  {
    NoticePattern(Lower(href), name)
  }

  /**
   * Every link of the site's own shape matches: the notice path, a slug
   * without line breaks, the name, a hyphen and a numeric id.
   */
  lemma NoticeShapeMatches(slug: string, name: string, id: string)
    requires '\n' !in slug && id != [] && AsciiDigits(id)
    ensures NoticePattern(NoticePath + slug + name + "-" + id, name)
  {
    var h := NoticePath + slug + name + "-" + id;
    var j := |NoticePath| + |slug|;
    var k := j + |name|;
    assert h[..|NoticePath|] == NoticePath;
    assert h[|NoticePath|..j] == slug;
    assert h[j..k] == name;
    assert h[k..k] == [];
    assert h[k + 1..] == id;
    assert NoticeMatchAt(h, name, 0, j, k);
  }

  /**
   * What a match implies about the text: it contains the notice path and the
   * name, a hyphen comes after the name, and the text ends in a digit.
   */
  lemma NoticePatternShape(href: string, name: string)
    requires NoticePattern(href, name)
    ensures exists i | 0 <= i < |href| :: OccursAt(NoticePath, href, i)
    ensures exists j | 0 <= j < |href| :: OccursAt(name, href, j)
    ensures |href| >= |NoticePath| + |name| + 2
    ensures '0' <= href[|href| - 1] <= '9'
  {
    var i, j, k :| 0 <= i < |href| && 0 <= j < |href| && 0 <= k < |href|
                   && NoticeMatchAt(href, name, i, j, k);
    assert href[k + 1..][|href| - k - 2] == href[|href| - 1];
  }

  /** The absolute URLs of the matching `href`s, in order, repeats kept. */
  function NoticeUrls(hrefs: seq<string>, name: string): seq<string>
  {
    if hrefs == [] then []
    else
      var h := hrefs[|hrefs| - 1];
      NoticeUrls(hrefs[..|hrefs| - 1], name) + (if IsNoticeHref(h, name) then [Origin + h] else [])
  }

  /** A URL is listed exactly when it is the origin plus a matching `href`. */
  lemma {:induction false} NoticeUrlsMembers(hrefs: seq<string>, name: string)
    ensures forall u :: u in NoticeUrls(hrefs, name) <==>
      exists k | 0 <= k < |hrefs| :: IsNoticeHref(hrefs[k], name) && u == Origin + hrefs[k]
  {
    if hrefs != [] {
      var init := hrefs[..|hrefs| - 1];
      NoticeUrlsMembers(init, name);
      assert forall k | 0 <= k < |init| :: init[k] == hrefs[k];
    }
  }

  /** No URL is listed exactly when no `href` matches. */
  lemma {:induction false} NoticeUrlsEmpty(hrefs: seq<string>, name: string)
    ensures NoticeUrls(hrefs, name) == [] <==> forall k | 0 <= k < |hrefs| :: !IsNoticeHref(hrefs[k], name)
  {
    if hrefs != [] {
      var init := hrefs[..|hrefs| - 1];
      NoticeUrlsEmpty(init, name);
      assert forall k | 0 <= k < |init| :: init[k] == hrefs[k];
    }
  }

  /** No listed URL is the "No results" marker: each starts with the origin. */
  lemma NoticeUrlsNotMarker(hrefs: seq<string>, name: string)
    ensures NoResults !in NoticeUrls(hrefs, name)
  {
    NoticeUrlsMembers(hrefs, name);
    forall h ensures Origin + h != NoResults {
      assert (Origin + h)[0] == 'h';
    }
  }

  predicate NoDuplicates(s: seq<string>)
  {
    forall p, q | 0 <= p < q < |s| :: s[p] != s[q]
  }

  /** Index of the first occurrence of `x` in `s`. */
  function FirstIndex(s: seq<string>, x: string): (i: nat)
    requires x in s
    ensures i < |s| && s[i] == x && x !in s[..i]
  {
    if s[0] == x then 0
    else
      var j := FirstIndex(s[1..], x);
      assert s[..j + 1] == [s[0]] + s[1..][..j];
      1 + j
  }

  lemma FirstIndexAppend(s: seq<string>, t: seq<string>, x: string)
    requires x in s
    ensures FirstIndex(s + t, x) == FirstIndex(s, x)
  {
    var a := FirstIndex(s + t, x);
    var b := FirstIndex(s, x);
    assert (s + t)[..b + 1][b] == x;
    assert a <= b;
    assert forall m | 0 <= m < b :: s[..b][m] == s[m];
    assert (s + t)[a] == s[a];
  }

  /** `s` with every repeat of an earlier element dropped. */
  function Dedup(s: seq<string>): seq<string>
  {
    if s == [] then []
    else
      var d := Dedup(s[..|s| - 1]);
      var x := s[|s| - 1];
      if x in d then d else d + [x]
  }

  /** Deduplication empties only the empty list. */
  lemma DedupEmpty(s: seq<string>)
    ensures Dedup(s) == [] <==> s == []
  {
    if s != [] {
      var d := Dedup(s[..|s| - 1]);
      assert d == [] ==> s[|s| - 1] !in d;
    }
  }

  /**
   * Deduplication keeps each element once, keeps exactly the elements of its
   * input, and orders them by first occurrence.
   */
  lemma {:induction false} DedupSpec(s: seq<string>)
    ensures NoDuplicates(Dedup(s))
    ensures forall x :: x in Dedup(s) <==> x in s
    ensures forall p, q | 0 <= p < q < |Dedup(s)| ::
      Dedup(s)[p] in s && Dedup(s)[q] in s && FirstIndex(s, Dedup(s)[p]) < FirstIndex(s, Dedup(s)[q])
  {
    if s != [] {
      var init := s[..|s| - 1];
      var x := s[|s| - 1];
      var d := Dedup(init);
      DedupSpec(init);
      assert s == init + [x];
      forall y | y in init ensures FirstIndex(s, y) == FirstIndex(init, y) {
        FirstIndexAppend(init, [x], y);
      }
      if x !in d {
        assert x !in init;
        assert FirstIndex(s, x) == |init| by {
          assert s[|init|] == x && x !in s[..|init|];
        }
        var r := d + [x];
        forall p, q | 0 <= p < q < |r| ensures r[p] != r[q] {
          if q == |d| { assert r[p] == d[p] && d[p] in d; }
        }
      }
    }
  }

  /** The row's surname as the pattern uses it: stripped, lower-cased. */
  function SurnamePattern(row: Row): string
  {
    Lower(Strip(row.surname))
  }

  /** The search URL for a row: county and town stripped and lower-cased, the names stripped. */
  function RowUrl(row: Row, startDay: string): string
  {
    BuildUrl(Lower(Strip(row.county)), Lower(Strip(row.town)), Strip(row.firstname),
             Strip(row.surname), startDay)
  }

  /** The notice URLs found for a row: none when the surname is blank. */
  function RowFound(row: Row, startDay: string, page: string -> seq<string>): seq<string>
  {
    if Strip(row.surname) == "" then []
    else Dedup(NoticeUrls(page(RowUrl(row, startDay)), SurnamePattern(row)))
  }

  /** What `search_notices_for_row` returns. */
  function RowNotices(row: Row, startDay: string, page: string -> seq<string>): seq<string>
  {
    var found := RowFound(row, startDay, page);
    if found == [] then [NoResults] else found
  }

  /** The row has a non-blank surname and its page has a matching anchor. */
  predicate RowHasNotice(row: Row, startDay: string, page: string -> seq<string>)
  {
    && Strip(row.surname) != ""
    && var hrefs := page(RowUrl(row, startDay));
       exists k | 0 <= k < |hrefs| :: IsNoticeHref(hrefs[k], SurnamePattern(row))
  }

  /** A row finds nothing exactly when it has no notice. */
  lemma RowFoundEmpty(row: Row, startDay: string, page: string -> seq<string>)
    ensures RowFound(row, startDay, page) == [] <==> !RowHasNotice(row, startDay, page)
  {
    var hrefs := page(RowUrl(row, startDay));
    var name := SurnamePattern(row);
    NoticeUrlsEmpty(hrefs, name);
    DedupEmpty(NoticeUrls(hrefs, name));
  }

  /**
   * The found list has no repeats and no marker; it holds exactly the origin
   * plus each matching `href` (none for a blank surname), in order of first
   * occurrence; and it is empty exactly when the row has no notice.
   */
  lemma RowFoundSpec(row: Row, startDay: string, page: string -> seq<string>)
    ensures var found := RowFound(row, startDay, page);
      && NoDuplicates(found)
      && NoResults !in found
      && (found == [] <==> !RowHasNotice(row, startDay, page))
      && (Strip(row.surname) == "" ==> found == [])
      && (Strip(row.surname) != "" ==>
            var hrefs := page(RowUrl(row, startDay));
            forall u :: u in found <==>
              exists k | 0 <= k < |hrefs| :: IsNoticeHref(hrefs[k], SurnamePattern(row)) && u == Origin + hrefs[k])
    ensures Strip(row.surname) != "" ==>
      var found := RowFound(row, startDay, page);
      var urls := NoticeUrls(page(RowUrl(row, startDay)), SurnamePattern(row));
      forall p, q | 0 <= p < q < |found| ::
        found[p] in urls && found[q] in urls && FirstIndex(urls, found[p]) < FirstIndex(urls, found[q])
  {
    var hrefs := page(RowUrl(row, startDay));
    var urls := NoticeUrls(hrefs, SurnamePattern(row));
    DedupSpec(urls);
    NoticeUrlsMembers(hrefs, SurnamePattern(row));
    NoticeUrlsNotMarker(hrefs, SurnamePattern(row));
    RowFoundEmpty(row, startDay, page);
  }

  /**
   * The row result is never empty. It is exactly the marker when the row has
   * no notice (in particular for a blank surname, whatever the other fields),
   * and otherwise the found list, which does not contain the marker.
   */
  lemma RowNoticesSpec(row: Row, startDay: string, page: string -> seq<string>)
    ensures var result := RowNotices(row, startDay, page);
      && result != []
      && (result == [NoResults] <==> !RowHasNotice(row, startDay, page))
      && (Strip(row.surname) == "" ==> result == [NoResults])
      && (RowHasNotice(row, startDay, page) ==>
            result == RowFound(row, startDay, page) && NoResults !in result)
  {
    RowFoundSpec(row, startDay, page);
    var found := RowFound(row, startDay, page);
    if found != [] {
      assert found[0] in found;
    }
  }

  /**
   * The loop over the page's anchors: lower-case each `href`, test it against
   * the pattern built from the lower-cased surname, and append the absolute
   * URL unless it is already there.
   */
  method ExtractNotices(hrefs: seq<string>, surname: string) returns (found: seq<string>)
    ensures found == Dedup(NoticeUrls(hrefs, Lower(surname)))
    ensures NoDuplicates(found)
    ensures forall u :: u in found <==>
      exists k | 0 <= k < |hrefs| :: IsNoticeHref(hrefs[k], Lower(surname)) && u == Origin + hrefs[k]
  {
    var name := Lower(surname);
    found := [];
    ghost var matched: seq<string> := [];
    for i := 0 to |hrefs|
      invariant matched == NoticeUrls(hrefs[..i], name)
      invariant found == Dedup(matched)
    {
      var href := hrefs[i];
      if NoticePattern(Lower(href), name) {
        var url := Origin + href;
        if url !in found {
          found := found + [url];
        }
        matched := matched + [url];
      }
      assert hrefs[..i + 1][..i] == hrefs[..i];
    }
    assert hrefs[..|hrefs|] == hrefs;
    DedupSpec(matched);
    NoticeUrlsMembers(hrefs, name);
  }

  /**
   * One watchlist row. `fetched` is the URL whose page was fetched, or None
   * when the row was skipped for a blank surname and nothing was fetched.
   */
  method SearchNoticesForRow(row: Row, startDay: string, page: string -> seq<string>)
    returns (result: seq<string>, fetched: Option<string>)
    ensures result == RowNotices(row, startDay, page)
    ensures fetched == if Strip(row.surname) == "" then None else Some(RowUrl(row, startDay))
  {
    var county := Lower(Strip(row.county));
    var town := Lower(Strip(row.town));
    var firstname := Strip(row.firstname);
    var surname := Strip(row.surname);
    if surname == "" {
      return [NoResults], None;
    }
    var url := BuildUrl(county, town, firstname, surname, startDay);
    var found := ExtractNotices(page(url), surname);
    result := if found == [] then [NoResults] else found;
    fetched := Some(url);
  }

  /** A padded, capitalised surname is stripped for the URL and lower-cased for the pattern. */
  lemma MurphyRowPattern()
    ensures Strip(" Murphy ") == "Murphy"
    ensures SurnamePattern(Row("", "", "", " Murphy ")) == "murphy"
  {
    assert SkipSpace(" Murphy ", 0) == 1;
    assert SkipSpaceBack(" Murphy ", 1, 8) == 7;
    assert Lower("Murphy") == "murphy";
  }

  /** An unpadded surname is used as it is for the URL and lower-cased for the pattern. */
  lemma PlainSurnamePattern(row: Row)
    requires row.surname == "Murphy"
    ensures Strip(row.surname) == "Murphy"
    ensures SurnamePattern(row) == "murphy"
  {
    assert SkipSpace("Murphy", 0) == 0;
    assert SkipSpaceBack("Murphy", 0, 6) == 6;
    assert Lower("Murphy") == "murphy";
  }

  /** Lower-casing leaves digits as they are. */
  lemma LowerDigits(id: string)
    requires AsciiDigits(id)
    ensures Lower(id) == id
  {
  }

  /** Lower-casing never produces a line break from anything else. */
  lemma LowerKeepsOutLineBreak(s: string)
    requires '\n' !in s
    ensures '\n' !in Lower(s)
  {
    forall k | 0 <= k < |s| ensures Lower(s)[k] != '\n' {
      assert s[k] != '\n';
    }
  }

  /**
   * A link of the site's shape matches whenever its surname part lower-cases
   * to the pattern's name, whatever the case of its slug: the test runs on
   * the lower-cased `href`.
   */
  lemma CasedShapeMatches(slug: string, written: string, id: string, name: string)
    requires '\n' !in slug && id != [] && AsciiDigits(id) && Lower(written) == name
    ensures IsNoticeHref(NoticePath + slug + written + "-" + id, name)
  {
    var a := NoticePath + slug;
    var b := a + written;
    var c := b + "-";
    LowerAppend(NoticePath, slug);
    assert Lower(NoticePath) == NoticePath;
    LowerAppend(a, written);
    LowerAppend(b, "-");
    assert Lower("-") == "-";
    LowerAppend(c, id);
    LowerDigits(id);
    LowerKeepsOutLineBreak(slug);
    assert Lower(c + id) == NoticePath + Lower(slug) + name + "-" + id;
    NoticeShapeMatches(Lower(slug), name, id);
  }

  /** The site's link for a Murphy notice matches, its surname in lower case. */
  lemma LowerLinkMatches()
    ensures IsNoticeHref("/death-notice/john-murphy-12345", "murphy")
  {
    var h := "/death-notice/john-murphy-12345";
    var a := NoticePath + "john-";
    var b := a + "murphy";
    var c := b + "-";
    assert h == c + "12345";
    LowerAppend(NoticePath, "john-");
    assert Lower(NoticePath) == NoticePath;
    assert Lower("john-") == "john-";
    LowerAppend(a, "murphy");
    assert Lower("murphy") == "murphy";
    LowerAppend(b, "-");
    assert Lower("-") == "-";
    LowerAppend(c, "12345");
    assert Lower("12345") == "12345";
    assert Lower(h) == NoticePath + "john-" + "murphy" + "-" + "12345";
    NoticeShapeMatches("john-", "murphy", "12345");
  }

  /** The site's link for a Murphy notice matches, its surname in capitals: the test runs on the lower-cased `href`. */
  lemma UpperLinkMatches()
    ensures IsNoticeHref("/death-notice/john-MURPHY-12345", "murphy")
  {
    var h := "/death-notice/john-MURPHY-12345";
    var a := NoticePath + "john-";
    var b := a + "MURPHY";
    var c := b + "-";
    assert h == c + "12345";
    LowerAppend(NoticePath, "john-");
    assert Lower(NoticePath) == NoticePath;
    assert Lower("john-") == "john-";
    LowerAppend(a, "MURPHY");
    assert Lower("MURPHY") == "murphy";
    LowerAppend(b, "-");
    assert Lower("-") == "-";
    LowerAppend(c, "12345");
    assert Lower("12345") == "12345";
    assert Lower(h) == NoticePath + "john-" + "murphy" + "-" + "12345";
    NoticeShapeMatches("john-", "murphy", "12345");
  }

  /** A page listing one matching link twice yields that link's URL once. */
  lemma RepeatedLinkOnce(h: string, name: string)
    requires IsNoticeHref(h, name)
    ensures Dedup(NoticeUrls([h, h], name)) == [Origin + h]
  {
    var u := Origin + h;
    assert [h, h][..1] == [h];
    assert [h][..0] == [];
    assert NoticeUrls([h], name) == [u];
    assert NoticeUrls([h, h], name) == [u, u];
    assert [u, u][..1] == [u];
    assert [u][..0] == [];
    assert Dedup([u]) == [u];
  }

  /** A row whose page lists only one matching link, twice, yields that link's URL once. */
  lemma RowRepeatedLink(row: Row, startDay: string, page: string -> seq<string>, h: string)
    requires Strip(row.surname) != "" && IsNoticeHref(h, SurnamePattern(row))
    requires page(RowUrl(row, startDay)) == [h, h]
    ensures RowNotices(row, startDay, page) == [Origin + h]
  {
    RepeatedLinkOnce(h, SurnamePattern(row));
  }

  /** A row whose page lists one matching link yields that link's URL. */
  lemma RowSingleLink(row: Row, startDay: string, page: string -> seq<string>, h: string)
    requires Strip(row.surname) != "" && IsNoticeHref(h, SurnamePattern(row))
    requires page(RowUrl(row, startDay)) == [h]
    ensures RowNotices(row, startDay, page) == [Origin + h]
  {
    var u := Origin + h;
    assert [h][..0] == [];
    assert NoticeUrls([h], SurnamePattern(row)) == [u];
    assert [u][..0] == [];
    assert Dedup([u]) == [u];
  }

  /**
   * A page with the same notice link twice, the surname in another case in
   * the row and in the link: whatever the other fields and the date, the row
   * yields that one absolute URL once.
   */
  lemma RepeatedMixedCaseLink(row: Row, startDay: string, page: string -> seq<string>)
    requires row.surname == " Murphy "
    requires forall url :: page(url) == ["/death-notice/john-MURPHY-12345", "/death-notice/john-MURPHY-12345"]
    ensures RowNotices(row, startDay, page) == [Origin + "/death-notice/john-MURPHY-12345"]
  {
    var h := "/death-notice/john-MURPHY-12345";
    MurphyRowPattern();
    assert SurnamePattern(row) == "murphy";
    UpperLinkMatches();
    assert page(RowUrl(row, startDay)) == [h, h];
    RowRepeatedLink(row, startDay, page, h);
  }
}
