/**
 * The driver (`main`): run every watchlist row in order, gather the row
 * results, turn every result that is not the "No results" marker into one
 * line of HTML, join the lines, and show the window only when there is at
 * least one line.
 *
 * Reading the watchlist file, the clock that gives the start date, and the
 * window itself are not modelled: the rows and the date are parameters, and
 * showing the window is the returned flag.
 */
module Render {
  import opened Text
  import opened Extract

  /** The HTML line for one notice URL. */
  function AnchorLine(u: string): string
  {
    "<p><a href=\"" + u + "\">" + u + "</a><br></p>"
  }

  /** The notices that are real links: everything but the marker, in order. */
  function RealNotices(notices: seq<string>): seq<string>
  {
    if notices == [] then []
    else
      var n := notices[|notices| - 1];
      RealNotices(notices[..|notices| - 1]) + (if n != NoResults then [n] else [])
  }

  /** Filtering distributes over concatenation. */
  lemma {:induction false} RealNoticesAppend(a: seq<string>, b: seq<string>)
    ensures RealNotices(a + b) == RealNotices(a) + RealNotices(b)
  {
    if b != [] {
      var init := b[..|b| - 1];
      RealNoticesAppend(a, init);
      assert (a + b)[..|a + b| - 1] == a + init;
    } else {
      assert a + b == a;
    }
  }

  /** Filtering keeps exactly the elements that are not the marker. */
  lemma {:induction false} RealNoticesMembers(notices: seq<string>)
    ensures forall x :: x in RealNotices(notices) <==> x in notices && x != NoResults
  {
    if notices != [] {
      var init := notices[..|notices| - 1];
      RealNoticesMembers(init);
      assert notices == init + [notices[|notices| - 1]];
    }
  }

  /** A list without the marker is left as it is. */
  lemma {:induction false} RealNoticesWithoutMarker(notices: seq<string>)
    requires NoResults !in notices
    ensures RealNotices(notices) == notices
  {
    if notices != [] {
      var init := notices[..|notices| - 1];
      assert NoResults !in init by {
        assert forall k | 0 <= k < |init| :: init[k] == notices[k];
      }
      RealNoticesWithoutMarker(init);
      assert notices == init + [notices[|notices| - 1]];
    }
  }

  /** The HTML lines for the gathered notices, built as the driver's loop builds them. */
  function HtmlLines(notices: seq<string>): seq<string>
  {
    if notices == [] then []
    else
      var n := notices[|notices| - 1];
      HtmlLines(notices[..|notices| - 1]) + (if n != NoResults then [AnchorLine(n)] else [])
  }

  /** One line per real notice, in the notices' order. */
  lemma {:induction false} HtmlLinesSpec(notices: seq<string>)
    ensures |HtmlLines(notices)| == |RealNotices(notices)|
    ensures forall k | 0 <= k < |HtmlLines(notices)| ::
      HtmlLines(notices)[k] == AnchorLine(RealNotices(notices)[k])
  {
    if notices != [] {
      HtmlLinesSpec(notices[..|notices| - 1]);
    }
  }

  /** No line is empty. */
  lemma HtmlLinesNonEmpty(notices: seq<string>)
    ensures forall k | 0 <= k < |HtmlLines(notices)| :: HtmlLines(notices)[k] != ""
  {
    HtmlLinesSpec(notices);
  }

  /**
   * The rendering loop: one line per notice that is not the marker, joined
   * with line breaks; the window is shown exactly when there is a line.
   */
  method RenderNotices(notices: seq<string>) returns (lines: seq<string>, html: string, show: bool)
    ensures lines == HtmlLines(notices)
    ensures |lines| == |RealNotices(notices)|
    ensures forall k | 0 <= k < |lines| :: lines[k] == AnchorLine(RealNotices(notices)[k])
    ensures html == Join("\n", lines)
    ensures show <==> RealNotices(notices) != []
    ensures show <==> html != ""
  {
    lines := [];
    for i := 0 to |notices|
      invariant lines == HtmlLines(notices[..i])
    {
      var notice := notices[i];
      if notice != NoResults {
        lines := lines + [AnchorLine(notice)];
      }
      assert notices[..i + 1][..i] == notices[..i];
    }
    assert notices[..|notices|] == notices;
    html := Join("\n", lines);
    show := |lines| > 0;
    HtmlLinesSpec(notices);
    HtmlLinesNonEmpty(notices);
    JoinEmpty("\n", lines);
  }

  /** Each row's result under `f`, concatenated in row order. */
  function Gather(rows: seq<Row>, f: Row -> seq<string>): seq<string>
  {
    if rows == [] then []
    else Gather(rows[..|rows| - 1], f) + f(rows[|rows| - 1])
  }

  /** The gathered results are empty exactly when every row's result is. */
  lemma {:induction false} GatherEmpty(rows: seq<Row>, f: Row -> seq<string>)
    ensures Gather(rows, f) == [] <==> forall k | 0 <= k < |rows| :: f(rows[k]) == []
  {
    if rows != [] {
      var init := rows[..|rows| - 1];
      GatherEmpty(init, f);
      assert forall k | 0 <= k < |init| :: init[k] == rows[k];
    }
  }

  function NoticesOf(startDay: string, page: string -> seq<string>): Row -> seq<string>
  {
    row => RowNotices(row, startDay, page)
  }

  function FoundOf(startDay: string, page: string -> seq<string>): Row -> seq<string>
  {
    row => RowFound(row, startDay, page)
  }

  /** The row results of all rows, concatenated in row order. */
  function AllNotices(rows: seq<Row>, startDay: string, page: string -> seq<string>): seq<string>
  {
    Gather(rows, NoticesOf(startDay, page))
  }

  /** The found URLs of all rows, concatenated in row order; repeats across rows are kept. */
  function AllFound(rows: seq<Row>, startDay: string, page: string -> seq<string>): seq<string>
  {
    Gather(rows, FoundOf(startDay, page))
  }

  /** The URLs fetched, in order: one per row whose surname is not blank. */
  function FetchedUrls(rows: seq<Row>, startDay: string): seq<string>
  {
    if rows == [] then []
    else
      var row := rows[|rows| - 1];
      FetchedUrls(rows[..|rows| - 1], startDay)
      + (if Strip(row.surname) != "" then [RowUrl(row, startDay)] else [])
  }

  /** Dropping the markers from the gathered results leaves every row's found URLs. */
  lemma {:induction false} RealAllNotices(rows: seq<Row>, startDay: string, page: string -> seq<string>)
    ensures RealNotices(AllNotices(rows, startDay, page)) == AllFound(rows, startDay, page)
  {
    if rows != [] {
      var init := rows[..|rows| - 1];
      var row := rows[|rows| - 1];
      RealAllNotices(init, startDay, page);
      RealNoticesAppend(AllNotices(init, startDay, page), RowNotices(row, startDay, page));
      RowFoundSpec(row, startDay, page);
      var found := RowFound(row, startDay, page);
      if found == [] {
        assert RealNotices([NoResults]) == [] by {
          assert [NoResults][..0] == [];
        }
      } else {
        RealNoticesWithoutMarker(found);
      }
    }
  }

  /** Some row found a URL exactly when some row has a notice. */
  lemma AllFoundNotice(rows: seq<Row>, startDay: string, page: string -> seq<string>)
    ensures AllFound(rows, startDay, page) != [] <==>
      exists k | 0 <= k < |rows| :: RowHasNotice(rows[k], startDay, page)
  {
    GatherEmpty(rows, FoundOf(startDay, page));
    forall k | 0 <= k < |rows|
      ensures RowFound(rows[k], startDay, page) == [] <==> !RowHasNotice(rows[k], startDay, page)
    {
      RowFoundEmpty(rows[k], startDay, page);
    }
  }

  lemma GatherStep(rows: seq<Row>, i: nat, f: Row -> seq<string>)
    requires i < |rows|
    ensures Gather(rows[..i + 1], f) == Gather(rows[..i], f) + f(rows[i])
  {
    assert rows[..i + 1][..i] == rows[..i];
  }

  lemma FetchedStep(rows: seq<Row>, i: nat, startDay: string)
    requires i < |rows|
    ensures FetchedUrls(rows[..i + 1], startDay) == FetchedUrls(rows[..i], startDay)
      + (if Strip(rows[i].surname) != "" then [RowUrl(rows[i], startDay)] else [])
  {
    assert rows[..i + 1][..i] == rows[..i];
  }

  /** The loop over the rows, gathering each row's result. */
  method CollectNotices(rows: seq<Row>, startDay: string, page: string -> seq<string>)
    returns (notices: seq<string>, fetched: seq<string>)
    ensures notices == AllNotices(rows, startDay, page)
    ensures fetched == FetchedUrls(rows, startDay)
  {
    notices, fetched := [], [];
    for i := 0 to |rows|
      invariant notices == AllNotices(rows[..i], startDay, page)
      invariant fetched == FetchedUrls(rows[..i], startDay)
    {
      var result, url := SearchNoticesForRow(rows[i], startDay, page);
      GatherStep(rows, i, NoticesOf(startDay, page));
      FetchedStep(rows, i, startDay);
      notices := notices + result;
      if url.Some? {
        fetched := fetched + [url.value];
      }
    }
    assert rows[..|rows|] == rows;
  }

  /**
   * The whole run over the watchlist rows: the HTML shown holds one line per
   * URL found, row by row, and the window is shown exactly when some row with
   * a non-blank surname has a matching link on its page.
   */
  method Run(rows: seq<Row>, startDay: string, page: string -> seq<string>)
    returns (html: string, show: bool)
    ensures html == Join("\n", HtmlLines(AllNotices(rows, startDay, page)))
    ensures var found := AllFound(rows, startDay, page);
      |HtmlLines(AllNotices(rows, startDay, page))| == |found|
      && forall k | 0 <= k < |found| :: HtmlLines(AllNotices(rows, startDay, page))[k] == AnchorLine(found[k])
    ensures show <==> exists k | 0 <= k < |rows| :: RowHasNotice(rows[k], startDay, page)
    ensures show <==> html != ""
  {
    var notices, _ := CollectNotices(rows, startDay, page);
    var lines;
    lines, html, show := RenderNotices(notices);
    RealAllNotices(rows, startDay, page);
    AllFoundNotice(rows, startDay, page);
  }

  /** A single row's gathered result is that row's result. */
  lemma GatherOne(row: Row, f: Row -> seq<string>)
    ensures Gather([row], f) == f(row)
  {
    assert [row][..0] == [];
  }

  /** A single notice that is not the marker renders to a single line. */
  lemma SingleNoticeRender(u: string)
    requires u != NoResults
    ensures HtmlLines([u]) == [AnchorLine(u)]
  {
    var notices: seq<string> := [u];
    assert notices[..0] == [];
  }

  /**
   * One row with only a surname, and a page holding one notice link for it:
   * the HTML is a single line linking the absolute notice URL.
   */
  lemma SingleRowSingleLink(row: Row, startDay: string, page: string -> seq<string>)
    requires row.surname == "Murphy"
    requires forall url :: page(url) == ["/death-notice/john-murphy-12345"]
    ensures var lines := HtmlLines(AllNotices([row], startDay, page));
      && lines == [AnchorLine(Origin + "/death-notice/john-murphy-12345")]
      && Join("\n", lines) == AnchorLine(Origin + "/death-notice/john-murphy-12345")
  {
    var h: string := "/death-notice/john-murphy-12345";
    var u: string := Origin + h;
    PlainSurnamePattern(row);
    LowerLinkMatches();
    assert page(RowUrl(row, startDay)) == [h];
    RowSingleLink(row, startDay, page, h);
    assert u != NoResults by {
      assert u[0] == 'h';
    }
    GatherOne(row, NoticesOf(startDay, page));
    SingleNoticeRender(u);
  }
}
