# dust: a verified model of the death-notice watchlist search

`Project/dust.py` reads a watchlist of people (county, town, first name,
surname). For each person it builds a search URL on rip.ie, fetches the
result page, and keeps the anchors that link to a death notice for that
surname. At the end it shows a window listing every notice found, and shows
nothing when there is none.

This project models the deterministic part of that script in Dafny and
proves what it promises:

- `text.dfy` (module `Text`): the Python string built-ins the script relies
  on: `str.strip()` (the full Python whitespace set), `str.lower()` and
  `sep.join(parts)`. It also defines `split` at one character, which the
  script never calls; it serves only to prove that `build_url`'s joins can be
  read back.
- `url.dfy` (module `SearchUrl`): `build_url`. It covers the optional path
  segments, the fixed parameter order, the `page=1` prefix and the fixed tail
  of the query. It also proves a round trip: cutting the URL at `?`, `/` and
  `&` gives back the segments and parameters.
- `extract.dfy` (module `Extract`): `search_notices_for_row`, after the fetch.
  This is normalising the row, skipping a blank surname, matching each
  anchor's `href` against the notice pattern, making it absolute, dropping
  repeats and falling back to the `"No results"` marker. The anchor loop is a
  method (`ExtractNotices`) proved against the specification functions
  `NoticeUrls` and `Dedup`.
- `render.dfy` (module `Render`): the loops of `main`. These gather the row
  results, turn each real notice into one HTML line, join the lines, and
  decide whether the window is shown. `Run` ties the whole pipeline together.

The browser fetch and the HTML parse are modelled together as a parameter
`page: string -> seq<string>`. It maps a URL to the `href` values of that
page's anchors, in document order. A failed fetch (the script then returns
`""`) is a page with no anchors. The regular expression
`/death-notice/.*NAME.*-\d+$` is the predicate `Extract.NoticePattern`:

- the notice path occurs;
- the literal lower-cased surname occurs after it;
- a hyphen occurs after the surname;
- one or more ASCII digits run from the hyphen to the end of the text;
- neither `.*` gap holds a line break, because `.` does not match one.

The row result keeps the `"No results"` string marker that the code uses, so
a marker and a real URL share one list exactly as in `main`.

## Model

| member | source | states |
|---|---|---|
| SearchUrl.BuildUrl | Project/dust.py:23-47 | The URL is the base, `/`, the path text (county and town, with a `/` only when both are present), `?`, then the query text: `page=1`, the present name parameters, and the fixed tail. |
| SearchUrl.UrlPrefix | Project/dust.py:24-34 | Every URL begins with `https://rip.ie/death-notice/s/`, then the path, then `?page=1`. |
| SearchUrl.NoPathPrefix | Project/dust.py:24-30 | With neither county nor town, the URL begins `https://rip.ie/death-notice/s/?page=1`. |
| SearchUrl.QueryOpensWithPage | Project/dust.py:32-34 | The query always opens with `page=1`, whatever the names and date. |
| SearchUrl.NameParamPresence | Project/dust.py:32-46 | `page=1` is first and the five fixed parameters are last. A `firstname` parameter is present iff the first name is non-empty, and a `surname` parameter iff the surname is. Firstname sits at position 1, and surname right after it (or at 1 without a first name). |
| SearchUrl.FixedNotNames | Project/dust.py:32-45 | Neither `page=1` nor any fixed-tail parameter is a name parameter. |
| SearchUrl.QueryJoined | Project/dust.py:32-46 | Joining the parameter list with `&` gives the query text: head, `&`, then `start=<date>+00%3A00%3A00&end=today&sortField=a.createdAtCastToDate&sortDir=DESC&view=list`. |
| SearchUrl.TailJoined | Project/dust.py:39-45 | The fixed parameters, joined with `&`, read exactly as the fixed tail, in that order. |
| SearchUrl.HeadJoined | Project/dust.py:32-38 | `page=1` and the name parameters, joined with `&`, read as `page=1[&firstname=F][&surname=S]`. |
| SearchUrl.PathJoined | Project/dust.py:25-30 | The present segments joined with `/` are the county, the town, or `county/town`. |
| SearchUrl.FrontSplit | Project/dust.py:24-30 | When county and town hold no `/`, the part before `?` splits at `/` into the base's segments, then exactly the non-empty fields (one empty segment when both are empty). |
| SearchUrl.ParamsLack | Project/dust.py:32-45 | No parameter holds `&` or `?` when the names and the date hold neither. |
| SearchUrl.QuerySplit | Project/dust.py:46 | The query splits at `&` back into exactly the parameter list. |
| SearchUrl.UrlFields | Project/dust.py:23-47 | Round trip: the URL splits at `?` into two halves. The front gives back the path segments and the query gives back the parameters, when no field holds a separator. |
| Text.Strip | Project/dust.py:82-85 | The result sits inside the input at the first non-whitespace index, with only whitespace around it. It neither starts nor ends with whitespace, and it is empty iff the input is all whitespace. |
| Text.StripIdempotent | Project/dust.py:82-85 | Stripping twice is stripping once. |
| Text.LowerIdempotent | Project/dust.py:82-83 | Lower-casing twice is lower-casing once. |
| Text.JoinAppend | Project/dust.py:46 | Joining two non-empty lists is joining each and gluing them with the separator. |
| Text.JoinEmpty | Project/dust.py:118-120 | A join of non-empty parts is empty iff there are no parts. |
| Text.SplitJoin | Project/dust.py:30 | Splitting at `c` undoes joining with `c` when no part holds `c`. |
| Extract.NoticeShapeMatches | Project/dust.py:94-97 | Every link of the site's shape (notice path, slug without line breaks, name, `-`, digits) matches the pattern for that name. |
| Extract.NoticePatternShape | Project/dust.py:94-97 | A match implies the text holds the notice path and the name, is long enough for both plus `-` and a digit, and ends in a digit. |
| Extract.NoticeUrlsMembers | Project/dust.py:95-98 | A URL is kept iff it is `https://rip.ie` plus some `href` whose lower-cased form matches. |
| Extract.NoticeUrlsEmpty | Project/dust.py:95-98 | Nothing is kept iff no `href` matches. |
| Extract.NoticeUrlsNotMarker | Project/dust.py:98-101 | No kept URL is the `"No results"` marker. |
| Extract.DedupSpec | Project/dust.py:99-100 | The deduplicated list has no repeats and the same members as its input. It is ordered by first occurrence in the input. |
| Extract.DedupEmpty | Project/dust.py:99-101 | Deduplication empties only the empty list. |
| Extract.ExtractNotices | Project/dust.py:93-100 | The anchor loop returns the deduplicated matching URLs. It has no repeats, and it holds a URL iff that URL is the origin plus a matching `href`. |
| Extract.SearchNoticesForRow | Project/dust.py:81-101 | The row result is the row's notices. A URL is fetched iff the stripped surname is non-empty, and it is the URL built from the stripped, lower-cased county and town and the stripped names. |
| Extract.RowFoundEmpty | Project/dust.py:86-101 | A row finds nothing iff its surname is blank or no anchor on its page matches. |
| Extract.RowFoundSpec | Project/dust.py:86-100 | A row's found list has no repeats and no marker. It is empty for a blank surname. Otherwise it holds exactly the origin plus each matching `href`, ordered by first occurrence among the matches. |
| Extract.RowNoticesSpec | Project/dust.py:86-101 | A row result is never empty. It is exactly `["No results"]` iff the row has no notice, and always so for a blank surname whatever the other fields. Otherwise it is the found list. |
| Extract.MurphyRowPattern | Project/dust.py:85-94 | A surname padded with spaces is stripped for the URL and lower-cased for the pattern. |
| Extract.CasedShapeMatches | Project/dust.py:94-97 | Every link of the site's shape (notice path, slug without line breaks, surname part, `-`, digits) matches the pattern for any name its surname part lower-cases to, whatever the case of the slug and surname part, because the test runs on the lower-cased `href`. |
| Extract.UpperLinkMatches | Project/dust.py:94-97 | The link `/death-notice/john-MURPHY-12345` matches the surname `murphy`. |
| Extract.RepeatedLinkOnce | Project/dust.py:95-100 | A page listing one matching link twice yields its URL once. |
| Extract.RowSingleLink | Project/dust.py:89-101 | A row whose page lists one matching link yields exactly that link's absolute URL. |
| Extract.RepeatedMixedCaseLink | Project/dust.py:81-101 | A padded, capitalised surname and a page with the same capitalised link twice give one URL. That URL keeps the link's original case. |
| Render.RealNoticesAppend | Project/dust.py:115-116 | Dropping markers distributes over concatenation. |
| Render.RealNoticesMembers | Project/dust.py:115-116 | Dropping markers keeps exactly the notices that are not the marker. |
| Render.RealNoticesWithoutMarker | Project/dust.py:115-116 | A list without the marker is left unchanged. |
| Render.HtmlLinesSpec | Project/dust.py:114-117 | There is one line per non-marker notice, in order, and line k is `<p><a href="U">U</a><br></p>` for the k-th such notice U. |
| Render.HtmlLinesNonEmpty | Project/dust.py:117 | No HTML line is empty. |
| Render.RenderNotices | Project/dust.py:113-121 | The rendering loop builds those lines and joins them with line breaks. The window is shown iff some notice is not the marker, iff the joined HTML is non-empty. |
| Render.GatherEmpty | Project/dust.py:110-111 | The gathered results are empty iff every row's result is. |
| Render.CollectNotices | Project/dust.py:110-111 | The row loop concatenates the row results in row order. The fetched URLs are one per row with a non-blank surname, in order. |
| Render.RealAllNotices | Project/dust.py:110-116 | Dropping the markers from the gathered results leaves the concatenation of every row's found URLs. |
| Render.AllFoundNotice | Project/dust.py:110-120 | Some URL is found overall iff some row has a non-blank surname and a matching anchor. |
| Render.Run | Project/dust.py:104-121 | The HTML holds one line per found URL, row by row and repeats across rows kept. The window is shown iff some row has a notice, iff the HTML is non-empty. |
| Render.GatherOne | Project/dust.py:110-111 | A single row's gathered result is that row's result. |
| Render.SingleNoticeRender | Project/dust.py:114-117 | A single notice that is not the marker renders as a single line for it. |
| Render.SingleRowSingleLink | Project/dust.py:81-121 | One row with surname `Murphy` and a page holding `/death-notice/john-murphy-12345` gives exactly one line, linking `https://rip.ie/death-notice/john-murphy-12345`. |

## Left out

- `fetch_html_with_selenium` (Project/dust.py:50-69) drives a headless browser. Its result, together with the HTML parse, is the `page` parameter. A failed fetch, which gives `""`, is a page with no anchors.
- `page` is a function, so two rows that build the same URL see the same anchors. The script fetches once per row, and two fetches of one URL can return different pages; the model does not capture that.
- BeautifulSoup (Project/dust.py:92, 95) is replaced by the sequence of anchor `href` values. The model does not capture anchors without an `href`, or how the parser decodes attribute text.
- The `re` engine (Project/dust.py:94, 97) is replaced by the predicate `Extract.NoticePattern`. Python's `$` also matches just before a trailing line break, and its `\d` matches every Unicode decimal digit. The model accepts only ASCII digits running to the very end of the text.
- `Text.Lower` covers `str.lower()` for ASCII and Latin-1 capitals only. Other scripts, and the characters that lower-case to more than one character, are not modelled.
- `show_alert_window` (Project/dust.py:71-79) is a tkinter window. It is the returned `show` flag, and the HTML it would display is the returned `html`.
- Reading the watchlist CSV (Project/dust.py:107-111) is not modelled. The rows are a sequence of `Extract.Row` values, so a missing column (`KeyError`) and the `FileNotFoundError` path (Project/dust.py:123-125) are not modelled either.
- A short CSV row gets `None` for its missing fields from `csv.DictReader`. `None.strip()` at Project/dust.py:82 then raises `AttributeError`, which the `try` in `main` does not catch, so the whole run stops. Every `Extract.Row` field is a string, so the model does not capture that crash.
- The start date (Project/dust.py:106) comes from the clock and `strftime`. It is an arbitrary string parameter.
- Logging (Project/dust.py:90 and the error logs) has no effect on the results and is left out.
- The row result is the `"No results"` string, not a separate type, and `start=` carries the URL-encoded `+00%3A00%3A00`, as Project/dust.py:40, 87 and 101 write them; the model keeps both as written.
