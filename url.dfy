/**
 * The search-URL builder (`build_url`): a path of optional county and town
 * segments under the notice-search base, then a query string whose
 * `key=value` parameters come in a fixed order.
 */
module SearchUrl {
  import opened Text

  const Base := "https://rip.ie/death-notice/s"
  /** `Base` cut at its slashes. */
  const BaseSegments := ["https:", "", "rip.ie", "death-notice", "s"]
  /** What `start=` carries after the date: midnight, URL-encoded. */
  const Midnight := "+00%3A00%3A00"

  /** The path segments: county then town, each only when non-empty. */
  function PathParts(county: string, town: string): seq<string>
  {
    (if county != "" then [county] else []) + (if town != "" then [town] else [])
  }

  /** One query parameter. */
  function Param(key: string, value: string): string
  {
    key + "=" + value
  }

  /** The parameters that follow the name parameters, in order. */
  function FixedTail(startDate: string): seq<string>
  {
    [Param("start", startDate + Midnight), Param("end", "today"),
     Param("sortField", "a.createdAtCastToDate"), Param("sortDir", "DESC"), Param("view", "list")]
  }

  /** The optional name parameters: firstname before surname. */
  function NameParams(firstname: string, surname: string): seq<string>
  {
    (if firstname != "" then [Param("firstname", firstname)] else [])
    + (if surname != "" then [Param("surname", surname)] else [])
  }

  /** The query parameters in the order the search service is sent them. */
  function QueryParams(firstname: string, surname: string, startDate: string): seq<string>
  {
    [Param("page", "1")] + NameParams(firstname, surname) + FixedTail(startDate)
  }

  /** The path as it reads once its segments are joined. */
  function PathText(county: string, town: string): string
  {
    if county != "" && town != "" then county + "/" + town else county + town
  }

  /** The fixed parameters as they read once joined. */
  function TailText(startDate: string): string
  {
    "start=" + startDate + Midnight + "&" + "end=today" + "&" + "sortField=a.createdAtCastToDate"
    + "&" + "sortDir=DESC" + "&" + "view=list"
  }

  /** The query as it reads once its parameters are joined. */
  function QueryText(firstname: string, surname: string, startDate: string): string
  {
    HeadText(firstname, surname) + "&" + TailText(startDate)
  }

  /**
   * The search URL for one watchlist row, byte for byte: the base, a slash,
   * the path, `?`, then the query.
   */
  function BuildUrl(county: string, town: string, firstname: string, surname: string,
                    startDate: string): (url: string)
    ensures url == Base + "/" + PathText(county, town) + "?" + QueryText(firstname, surname, startDate)
    ensures url[..|Base| + 1] == Base + "/"
  {
    var path := Join("/", PathParts(county, town));
    var query := Join("&", QueryParams(firstname, surname, startDate));
    PathJoined(county, town);
    QueryJoined(firstname, surname, startDate);
    Base + "/" + path + "?" + query
  }

  /** The query always opens with `page=1`. */
  lemma QueryOpensWithPage(firstname: string, surname: string, startDate: string)
    ensures var q := QueryText(firstname, surname, startDate); 6 <= |q| && q[..6] == "page=1"
  {
    var h := HeadText(firstname, surname);
    var t := "&" + TailText(startDate);
    HeadOpensWithPage(firstname, surname);
    assert (h + t)[..6] == h[..6];
  }

  lemma HeadOpensWithPage(firstname: string, surname: string)
    ensures var h := HeadText(firstname, surname); 6 <= |h| && h[..6] == "page=1"
  {
    var names := (if firstname != "" then "&firstname=" + firstname else "")
      + (if surname != "" then "&surname=" + surname else "");
    assert HeadText(firstname, surname) == "page=1" + names;
  }

  /** Every URL begins with the base, a slash, the path and `?page=1`. */
  lemma UrlPrefix(county: string, town: string, firstname: string, surname: string,
                  startDate: string)
    ensures var url := BuildUrl(county, town, firstname, surname, startDate);
      var front := Base + "/" + PathText(county, town) + "?page=1";
      |front| <= |url| && url[..|front|] == front
  {
    var a := Base + "/" + PathText(county, town) + "?";
    var q := QueryText(firstname, surname, startDate);
    QueryOpensWithPage(firstname, surname, startDate);
    assert (a + q)[..|a| + 6] == a + q[..6];
  }

  /** With neither county nor town the URL begins `https://rip.ie/death-notice/s/?page=1`. */
  lemma NoPathPrefix(firstname: string, surname: string, startDate: string)
    ensures var url := BuildUrl("", "", firstname, surname, startDate);
      |Base| + 8 <= |url| && url[..|Base| + 8] == Base + "/?page=1"
  {
    UrlPrefix("", "", firstname, surname, startDate);
    assert Base + "/" + PathText("", "") + "?page=1" == Base + "/?page=1";
  }

  /** Joining the present path segments with `/` gives the path text. */
  lemma PathJoined(county: string, town: string)
    ensures Join("/", PathParts(county, town)) == PathText(county, town)
  {
    if county != "" && town != "" {
      assert PathParts(county, town) == [county] + [town];
      JoinCons("/", county, [town]);
    }
  }

  /** Joining five parts spells them out with the separator between each pair. */
  lemma Join5(sep: string, a: string, b: string, c: string, d: string, e: string)
    ensures Join(sep, [a, b, c, d, e]) == a + sep + b + sep + c + sep + d + sep + e
  {
    JoinCons(sep, d, [e]);
    assert [d, e] == [d] + [e];
    JoinCons(sep, c, [d, e]);
    assert [c, d, e] == [c] + [d, e];
    JoinCons(sep, b, [c, d, e]);
    assert [b, c, d, e] == [b] + [c, d, e];
    JoinCons(sep, a, [b, c, d, e]);
    assert [a, b, c, d, e] == [a] + [b, c, d, e];
  }

  /** Joining the fixed parameters with `&` gives the fixed tail text. */
  lemma TailJoined(startDate: string)
    ensures Join("&", FixedTail(startDate)) == TailText(startDate)
  {
    var tail := FixedTail(startDate);
    assert tail[0] == "start=" + startDate + Midnight;
    assert tail[1] == "end=today";
    assert tail[2] == "sortField=a.createdAtCastToDate";
    assert tail[3] == "sortDir=DESC";
    assert tail[4] == "view=list";
    Join5("&", tail[0], tail[1], tail[2], tail[3], tail[4]);
  }

  /** The text up to the fixed parameters: `page=1` and the name parameters. */
  function HeadText(firstname: string, surname: string): string
  {
    "page=1"
    + (if firstname != "" then "&firstname=" + firstname else "")
    + (if surname != "" then "&surname=" + surname else "")
  }

  /** Joining `page=1` and the name parameters with `&` gives the head text. */
  lemma HeadJoined(firstname: string, surname: string)
    ensures Join("&", [Param("page", "1")] + NameParams(firstname, surname)) == HeadText(firstname, surname)
  {
    var names := NameParams(firstname, surname);
    var page := Param("page", "1");
    var f := "&firstname=" + firstname;
    var g := "&surname=" + surname;
    assert page == "page=1";
    assert "&" + Param("firstname", firstname) == f;
    assert "&" + Param("surname", surname) == g;
    if names == [] {
    } else if |names| == 1 {
      JoinCons("&", page, names);
    } else {
      JoinCons("&", names[0], [names[1]]);
      assert [names[0]] + [names[1]] == names;
      JoinCons("&", page, names);
      assert Join("&", [page] + names) == page + "&" + (names[0] + "&" + names[1]);
      assert page + "&" + (names[0] + "&" + names[1]) == page + ("&" + names[0]) + ("&" + names[1]);
    }
  }

  /** Joining every parameter with `&` gives the query text. */
  lemma QueryJoined(firstname: string, surname: string, startDate: string)
    ensures Join("&", QueryParams(firstname, surname, startDate)) == QueryText(firstname, surname, startDate)
  {
    var head := [Param("page", "1")] + NameParams(firstname, surname);
    var tail := FixedTail(startDate);
    assert QueryParams(firstname, surname, startDate) == head + tail;
    JoinAppend("&", head, tail);
    HeadJoined(firstname, surname);
    TailJoined(startDate);
  }

  /** `p` is a `key=value` parameter. */
  predicate IsParam(p: string, key: string)
  {
    |key| < |p| && p[..|key|] == key && p[|key|] == '='
  }

  /** Some parameter in `params` carries `key`. */
  predicate HasParam(params: seq<string>, key: string)
  {
    exists k | 0 <= k < |params| :: IsParam(params[k], key)
  }

  /** `p` is not a `key` parameter because its `m`th character differs from `key`'s. */
  lemma NotParamAt(p: string, key: string, m: nat)
    requires m < |key| && (m < |p| ==> p[m] != key[m])
    ensures !IsParam(p, key)
  {
    if |key| < |p| {
      assert p[..|key|][m] == p[m];
    }
  }

  /** Neither `page=1` nor any fixed parameter is a name parameter. */
  lemma FixedNotNames(startDate: string)
    ensures !IsParam(Param("page", "1"), "firstname") && !IsParam(Param("page", "1"), "surname")
    ensures var tail := FixedTail(startDate);
      forall k | 0 <= k < |tail| :: !IsParam(tail[k], "firstname") && !IsParam(tail[k], "surname")
  {
    var tail := FixedTail(startDate);
    NotParamAt(Param("page", "1"), "firstname", 0);
    NotParamAt(Param("page", "1"), "surname", 0);
    NotParamAt(tail[0], "firstname", 0);
    NotParamAt(tail[0], "surname", 1);
    NotParamAt(tail[1], "firstname", 0);
    NotParamAt(tail[1], "surname", 0);
    NotParamAt(tail[2], "firstname", 0);
    NotParamAt(tail[2], "surname", 1);
    NotParamAt(tail[3], "firstname", 0);
    NotParamAt(tail[3], "surname", 1);
    NotParamAt(tail[4], "firstname", 0);
    NotParamAt(tail[4], "surname", 0);
  }

  /**
   * `firstname=` is sent exactly when the first name is non-empty and
   * `surname=` exactly when the surname is; `page=1` is always first, the
   * five fixed parameters always last, and firstname precedes surname.
   */
  lemma NameParamPresence(firstname: string, surname: string, startDate: string)
    ensures var params := QueryParams(firstname, surname, startDate);
      && params[0] == "page=1"
      && params[|params| - 5..] == FixedTail(startDate)
      && (HasParam(params, "firstname") <==> firstname != "")
      && (HasParam(params, "surname") <==> surname != "")
      && (forall k | 0 <= k < |params| :: IsParam(params[k], "firstname") ==> k == 1)
      && (forall k | 0 <= k < |params| ::
            IsParam(params[k], "surname") ==> k == if firstname != "" then 2 else 1)
  {
    var params := QueryParams(firstname, surname, startDate);
    var names := NameParams(firstname, surname);
    var tail := FixedTail(startDate);
    assert params == [Param("page", "1")] + names + tail;
    FixedNotNames(startDate);
    // Neither name parameter carries the other's key; each carries its own.
    NotParamAt(Param("firstname", firstname), "surname", 0);
    NotParamAt(Param("surname", surname), "firstname", 0);
    assert IsParam(Param("firstname", firstname), "firstname");
    assert IsParam(Param("surname", surname), "surname");
    assert params[|params| - 5..] == tail;
    forall k | 0 <= k < |params| && k != 1 ensures !IsParam(params[k], "firstname") {
      if k > |names| {
        assert params[k] == tail[k - 1 - |names|];
      } else if k > 0 {
        assert params[k] == names[k - 1];
      }
    }
    forall k | 0 <= k < |params| && k != (if firstname != "" then 2 else 1)
      ensures !IsParam(params[k], "surname")
    {
      if k > |names| {
        assert params[k] == tail[k - 1 - |names|];
      } else if k > 0 {
        assert params[k] == names[k - 1];
      }
    }
    if firstname != "" {
      assert params[1] == Param("firstname", firstname);
    }
    if surname != "" {
      assert params[|names|] == Param("surname", surname);
    }
  }

  /** The base is its segments joined with `/`, and no segment holds a `/`. */
  lemma BaseJoined()
    ensures Join("/", BaseSegments) == Base
    ensures forall k | 0 <= k < |BaseSegments| :: '/' !in BaseSegments[k]
  {
    var segs := BaseSegments;
    Join5("/", segs[0], segs[1], segs[2], segs[3], segs[4]);
  }

  /** The front of the URL, cut at `/`: the base segments, then the path segments. */
  lemma FrontSplit(county: string, town: string)
    requires '/' !in county && '/' !in town
    ensures Split(Base + "/" + PathText(county, town), '/')
            == BaseSegments + (if county == "" && town == "" then [""] else PathParts(county, town))
  {
    var parts := PathParts(county, town);
    PathJoined(county, town);
    var last := if county == "" && town == "" then [""] else parts;
    var segs := BaseSegments;
    BaseJoined();
    JoinAppend("/", segs, last);
    assert forall k | 0 <= k < |last| :: last[k] == "" || last[k] == county || last[k] == town;
    assert forall k | 0 <= k < |segs + last| :: '/' !in (segs + last)[k] by {
      forall k | 0 <= k < |segs + last| ensures '/' !in (segs + last)[k] {
        if k >= |segs| {
          assert (segs + last)[k] == last[k - |segs|];
        }
      }
    }
    SplitJoin(segs + last, '/');
  }

  /** No fixed parameter contains `&` or `?` when the start date does not. */
  lemma TailLacks(startDate: string)
    requires '&' !in startDate && '?' !in startDate
    ensures var tail := FixedTail(startDate);
      forall k | 0 <= k < |tail| :: '&' !in tail[k] && '?' !in tail[k]
  {
    var tail := FixedTail(startDate);
    StartTextLacks();
    SortParamsLack();
    EndViewParamsLack();
    assert tail[0] == "start=" + startDate + Midnight;
  }

  /** The start key and the midnight suffix contain neither `&` nor `?`. */
  lemma StartTextLacks()
    ensures '&' !in Midnight && '?' !in Midnight
    ensures '&' !in "start=" && '?' !in "start="
  {
  }

  /** The sort parameters contain neither `&` nor `?`. */
  lemma SortParamsLack()
    ensures var p := Param("sortField", "a.createdAtCastToDate"); '&' !in p && '?' !in p
    ensures var p := Param("sortDir", "DESC"); '&' !in p && '?' !in p
  {
    ParamLacks("sortField", "a.createdAtCastToDate");
    ParamLacks("sortDir", "DESC");
  }

  /** The end and view parameters contain neither `&` nor `?`. */
  lemma EndViewParamsLack()
    ensures var p := Param("end", "today"); '&' !in p && '?' !in p
    ensures var p := Param("view", "list"); '&' !in p && '?' !in p
  {
    ParamLacks("end", "today");
    ParamLacks("view", "list");
  }

  /** A parameter built from `&`-free and `?`-free text is free of both. */
  lemma ParamLacks(key: string, value: string)
    requires '&' !in key && '?' !in key && '&' !in value && '?' !in value
    ensures '&' !in Param(key, value) && '?' !in Param(key, value)
  {
  }

  /** No parameter contains `&` or `?` when the fields do not. */
  lemma ParamsLack(firstname: string, surname: string, startDate: string)
    requires '&' !in firstname && '&' !in surname && '&' !in startDate
    requires '?' !in firstname && '?' !in surname && '?' !in startDate
    ensures var params := QueryParams(firstname, surname, startDate);
      forall k | 0 <= k < |params| :: '&' !in params[k] && '?' !in params[k]
  {
    var names := NameParams(firstname, surname);
    var tail := FixedTail(startDate);
    var head := [Param("page", "1")] + names;
    TailLacks(startDate);
    assert forall k | 0 <= k < |names| :: names[k] == Param("firstname", firstname)
                                        || names[k] == Param("surname", surname);
    assert forall k | 0 <= k < |head| :: '&' !in head[k] && '?' !in head[k] by {
      forall k | 0 <= k < |head| ensures '&' !in head[k] && '?' !in head[k] {
        if k > 0 {
          assert head[k] == names[k - 1];
        }
      }
    }
    var params := head + tail;
    assert params == QueryParams(firstname, surname, startDate);
    forall k | 0 <= k < |params| ensures '&' !in params[k] && '?' !in params[k] {
      if k < |head| {
        assert params[k] == head[k];
      } else {
        assert params[k] == tail[k - |head|];
      }
    }
  }

  /** The part before the query has no `?` when the county and town have none. */
  lemma FrontLacksQuery(county: string, town: string)
    requires '?' !in county && '?' !in town
    ensures '?' !in Base + "/" + PathText(county, town)
  {
    BaseJoined();
    JoinLacks("/", BaseSegments, '?');
  }

  /** The query splits at `&` into its parameters and has no `?`. */
  lemma QuerySplit(firstname: string, surname: string, startDate: string)
    requires '?' !in firstname && '?' !in surname && '?' !in startDate
    requires '&' !in firstname && '&' !in surname && '&' !in startDate
    ensures '?' !in QueryText(firstname, surname, startDate)
    ensures Split(QueryText(firstname, surname, startDate), '&') == QueryParams(firstname, surname, startDate)
  {
    var params := QueryParams(firstname, surname, startDate);
    QueryJoined(firstname, surname, startDate);
    ParamsLack(firstname, surname, startDate);
    SplitJoin(params, '&');
    JoinLacks("&", params, '?');
  }

  /** Two `?`-free halves glued by `?` split back into those halves. */
  lemma HalvesSplit(front: string, query: string)
    requires '?' !in front && '?' !in query
    ensures Split(front + "?" + query, '?') == [front, query]
  {
    JoinCons("?", front, [query]);
    SplitJoin([front, query], '?');
  }

  /**
   * Reading the URL back: cut at `?`, the front splits at `/` into the base
   * segments followed by the non-empty county and town (one empty segment
   * when both are absent), and the query splits at `&` into exactly the
   * parameter list. This holds when no field contains the separators.
   */
  lemma UrlFields(county: string, town: string, firstname: string,
                  surname: string, startDate: string)
    requires '?' !in county && '?' !in town && '?' !in firstname
    requires '?' !in surname && '?' !in startDate
    requires '/' !in county && '/' !in town
    requires '&' !in firstname && '&' !in surname && '&' !in startDate
    ensures var halves := Split(BuildUrl(county, town, firstname, surname, startDate), '?');
      && |halves| == 2
      && Split(halves[0], '/')
           == BaseSegments + (if county == "" && town == "" then [""] else PathParts(county, town))
      && Split(halves[1], '&') == QueryParams(firstname, surname, startDate)
  {
    var query := QueryText(firstname, surname, startDate);
    var front := Base + "/" + PathText(county, town);
    QuerySplit(firstname, surname, startDate);
    FrontLacksQuery(county, town);
    HalvesSplit(front, query);
    FrontSplit(county, town);
  }
}
