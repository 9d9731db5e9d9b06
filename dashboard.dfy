/** The data logic of the dashboard page: the query for active links, newest
    first; the normalisation of each row for the table; and the three
    statistics shown above it (total clicks, number of links, average clicks). */
module Dashboard {
  import opened Wrappers
  import opened LinkStore
  import opened LinksRoute

  // ---------------------------------------------------------------------------
  // The query: findMany({ where: { deleted: false }, orderBy: { createdAt: "desc" } })

  /** `where: { deleted: false }`, in storage order. */
  function ActiveRows(rows: seq<Link>): (r: seq<Link>)
    ensures |r| <= |rows|
    ensures forall i :: 0 <= i < |r| ==> !r[i].deleted && r[i] in rows
  {
    if rows == [] then []
    else if rows[0].deleted then ActiveRows(rows[1..])
    else [rows[0]] + ActiveRows(rows[1..])
  }

  /** The filter keeps every live row as often as it occurs and drops every
      soft-deleted one. */
  lemma {:induction false} ActiveRowsCounts(rows: seq<Link>)
    ensures forall l :: multiset(ActiveRows(rows))[l] == if l.deleted then 0 else multiset(rows)[l]
  {
    if rows != [] {
      ActiveRowsCounts(rows[1..]);
      assert rows == [rows[0]] + rows[1..];
    }
  }

  /** The links the dashboard shows, for a table whose rows are `rows`. */
  function DashboardLinks(rows: seq<Link>): (r: seq<Link>)
    ensures multiset(r) == multiset(ActiveRows(rows))
    ensures NewestFirst(r)
  {
    SortNewestFirstCorrect(ActiveRows(rows));
    SortNewestFirst(ActiveRows(rows))
  }

  /** The dashboard lists exactly the rows with `deleted = false`, each as
      often as it is stored, newest first. */
  lemma DashboardListsActiveNewestFirst(rows: seq<Link>)
    ensures forall l :: multiset(DashboardLinks(rows))[l] == if l.deleted then 0 else multiset(rows)[l]
    ensures forall i :: 0 <= i < |DashboardLinks(rows)| ==> !DashboardLinks(rows)[i].deleted
    ensures forall i :: 0 <= i < |rows| && !rows[i].deleted ==> rows[i] in DashboardLinks(rows)
    ensures NewestFirst(DashboardLinks(rows))
  {
    ActiveRowsCounts(rows);
    SortNewestFirstCorrect(ActiveRows(rows));
    var shown := DashboardLinks(rows);
    forall i | 0 <= i < |shown|
      ensures !shown[i].deleted
    {
      assert multiset(shown)[shown[i]] > 0;
    }
    forall i | 0 <= i < |rows| && !rows[i].deleted
      ensures rows[i] in shown
    {
      assert multiset(rows)[rows[i]] > 0;
    }
  }

  // ---------------------------------------------------------------------------
  // normalizedLinks

  /** A row as the table receives it: ids and timestamps as strings. */
  datatype LinkRow = LinkRow(
    id: string,
    code: string,
    targetUrl: string,
    clickCount: nat,
    createdAt: string,
    lstClickedAt: Option<string>,
    createdAtFormatted: string,
    lstClickedAtFormatted: Option<string>)

  /** The conversions the page applies and this model does not interpret:
      `String(id)`, `toISOString()` and `formatUTC(d, "MMM dd, yyyy")`. */
  datatype Formats = Formats(idText: nat -> string, iso: Timestamp -> string, day: Timestamp -> string)

  /** One row for the table: code, URL and clicks carried over, the last-click
      fields null exactly when the link has never been clicked. */
  function NormalizeLink(l: Link, f: Formats): (r: LinkRow)
    ensures r.id == f.idText(l.id) && r.code == l.code && r.targetUrl == l.targetUrl
    ensures r.clickCount == l.clickCount && r.createdAt == f.iso(l.createdAt)
    ensures r.lstClickedAt.None? <==> l.lstClickedAt.None?
    ensures r.lstClickedAtFormatted.None? <==> l.lstClickedAt.None?
  {
    LinkRow(
      f.idText(l.id), l.code, l.targetUrl, l.clickCount, f.iso(l.createdAt),
      if l.lstClickedAt.Some? then Some(f.iso(l.lstClickedAt.value)) else None,
      f.day(l.createdAt),
      if l.lstClickedAt.Some? then Some(f.day(l.lstClickedAt.value)) else None)
  }

  /** `links.map(link => ({ ... }))`. */
  function NormalizedLinks(links: seq<Link>, f: Formats): (rs: seq<LinkRow>)
    ensures |rs| == |links|
  {
    if links == [] then [] else [NormalizeLink(links[0], f)] + NormalizedLinks(links[1..], f)
  }

  /** The normalisation keeps the length and the order of the links, and each
      row keeps its link's code, target URL and click count; the last-click
      fields are null exactly when the link has never been clicked. */
  lemma {:induction false} NormalizedLinksPreserve(links: seq<Link>, f: Formats)
    ensures |NormalizedLinks(links, f)| == |links|
    ensures forall i :: 0 <= i < |links| ==>
      var r := NormalizedLinks(links, f)[i];
      && r.id == f.idText(links[i].id)
      && r.code == links[i].code
      && r.targetUrl == links[i].targetUrl
      && r.clickCount == links[i].clickCount
      && r.createdAt == f.iso(links[i].createdAt)
      && (r.lstClickedAt.None? <==> links[i].lstClickedAt.None?)
      && (r.lstClickedAtFormatted.None? <==> links[i].lstClickedAt.None?)
  {
    if links != [] {
      NormalizedLinksPreserve(links[1..], f);
      var n := NormalizedLinks(links, f);
      forall i | 1 <= i < |links|
        ensures n[i] == NormalizedLinks(links[1..], f)[i - 1]
      {
      }
    }
  }

  // ---------------------------------------------------------------------------
  // Statistics

  /** `links.reduce((sum, link) => sum + link.clickCount, 0)`: a fold from the left. */
  function TotalClicks(links: seq<Link>): (total: nat)
    ensures forall i :: 0 <= i < |links| ==> links[i].clickCount <= total
  {
    if links == [] then 0 else TotalClicks(links[..|links| - 1]) + links[|links| - 1].clickCount
  }

  /** The fold taken from the front: the first link's clicks plus the rest. */
  lemma {:induction false} TotalClicksCons(l: Link, links: seq<Link>)
    ensures TotalClicks([l] + links) == l.clickCount + TotalClicks(links)
    decreases |links|
  {
    if links != [] {
      var last := |links| - 1;
      assert ([l] + links)[..|links|] == [l] + links[..last];
      TotalClicksCons(l, links[..last]);
    }
  }

  /** The fold over a concatenation is the sum of the folds. */
  lemma {:induction false} TotalClicksAppend(a: seq<Link>, b: seq<Link>)
    ensures TotalClicks(a + b) == TotalClicks(a) + TotalClicks(b)
    decreases |b|
  {
    if b == [] {
      assert a + b == a;
    } else {
      var last := |b| - 1;
      assert (a + b)[..|a + b| - 1] == a + b[..last];
      assert (a + b)[|a + b| - 1] == b[last];
      TotalClicksAppend(a, b[..last]);
    }
  }

  /** The total does not depend on the order of the links: any two lists
      holding the same links, each as often, have the same total. */
  lemma {:induction false} TotalClicksPermutation(a: seq<Link>, b: seq<Link>)
    requires multiset(a) == multiset(b)
    ensures TotalClicks(a) == TotalClicks(b)
    decreases |a|
  {
    if a != [] {
      assert a[0] in multiset(b);
      var k :| 0 <= k < |b| && b[k] == a[0];
      var rest := b[..k] + b[k + 1..];
      assert b == b[..k] + [b[k]] + b[k + 1..];
      assert a == [a[0]] + a[1..];
      assert multiset(b) == multiset(b[..k]) + multiset{b[k]} + multiset(b[k + 1..]);
      assert multiset(rest) == multiset(b[..k]) + multiset(b[k + 1..]);
      assert multiset(a) == multiset{a[0]} + multiset(a[1..]);
      assert multiset(a[1..]) == multiset(a) - multiset{a[0]};
      assert multiset(rest) == multiset(b) - multiset{b[k]};
      TotalClicksPermutation(a[1..], rest);
      TotalClicksCons(a[0], a[1..]);
      TotalClicksAppend(b[..k] + [b[k]], b[k + 1..]);
      TotalClicksAppend(b[..k], [b[k]]);
      TotalClicksAppend(b[..k], b[k + 1..]);
      TotalClicksCons(b[k], []);
      assert [b[k]] + [] == [b[k]];
    }
  }

  /** The clicks of the live rows of the table, counted row by row. */
  function ClicksOfActive(rows: seq<Link>): nat {
    if rows == [] then 0
    else (if rows[0].deleted then 0 else rows[0].clickCount) + ClicksOfActive(rows[1..])
  }

  lemma {:induction false} TotalClicksActive(rows: seq<Link>)
    ensures TotalClicks(ActiveRows(rows)) == ClicksOfActive(rows)
  {
    if rows != [] {
      TotalClicksActive(rows[1..]);
      if !rows[0].deleted {
        TotalClicksCons(rows[0], ActiveRows(rows[1..]));
      }
    }
  }

  /** `Math.round(totalClicks / totalLinks)` for a positive number of links,
      0 for none. For a non-negative quotient, rounding to nearest with halves
      up is `floor((2 * total + n) / (2 * n))`. */
  function AverageClicks(total: nat, n: nat): (r: nat)
    ensures n == 0 ==> r == 0
    ensures n > 0 ==> 2 * total - n < 2 * n * r <= 2 * total + n
  {
    if n > 0 then (2 * total + n) / (2 * n) else 0
  }

  /** The average is the only integer within a half of `total / n`, halves
      going up: any `r` with `r - 1/2 <= total / n < r + 1/2` is it. */
  lemma AverageIsNearest(total: nat, n: nat, r: int)
    requires n > 0
    requires 2 * total - n < 2 * n * r <= 2 * total + n
    ensures r == AverageClicks(total, n)
  {
    var a := AverageClicks(total, n);
    if r < a {
      ScaleStep(2 * n, r, a);
    } else if a < r {
      ScaleStep(2 * n, a, r);
    }
  }

  /** Scaling by `m` keeps a gap of at least one as a gap of at least `m`. */
  lemma ScaleStep(m: nat, lo: int, hi: int)
    requires lo < hi
    ensures m * lo + m <= m * hi
  {
    var e: nat := hi - lo - 1;
    assert hi == lo + e + 1;
    assert m * hi == m * lo + m * e + m;
    assert m * e >= 0;
  }

  /** Worked cases: 5 clicks over 2 links is 2.5, which rounds up to 3;
      7 over 4 is 1.75, which rounds to 2; 5 over 4 is 1.25, which rounds to 1. */
  lemma AverageExamples()
    ensures AverageClicks(5, 2) == 3 && AverageClicks(7, 4) == 2 && AverageClicks(5, 4) == 1
    ensures AverageClicks(0, 0) == 0 && AverageClicks(9, 0) == 0
  {
  }

  datatype Stats = Stats(totalClicks: nat, totalLinks: nat, averageClicks: nat)

  /** The statistics over the listed links: with no links everything is 0,
      and otherwise the average is the rounded quotient of total by count. */
  function DashboardStats(links: seq<Link>): (s: Stats)
    ensures s.totalLinks == |links|
    ensures links == [] ==> s == Stats(0, 0, 0)
    ensures s.totalLinks > 0 ==>
      2 * s.totalClicks - s.totalLinks < 2 * s.totalLinks * s.averageClicks <= 2 * s.totalClicks + s.totalLinks
  {
    var total := TotalClicks(links);
    Stats(total, |links|, AverageClicks(total, |links|))
  }

  /** For the dashboard's query: the total is the sum of the clicks of the live
      rows, the number of links is the number of live rows, and the average is
      0 when there are none and otherwise their quotient rounded to nearest. */
  lemma DashboardStatsOfTable(rows: seq<Link>)
    ensures var s := DashboardStats(DashboardLinks(rows));
      && s.totalClicks == ClicksOfActive(rows)
      && s.totalLinks == |ActiveRows(rows)|
      && (s.totalLinks == 0 ==> s.averageClicks == 0)
      && (s.totalLinks > 0 ==>
            2 * s.totalClicks - s.totalLinks < 2 * s.totalLinks * s.averageClicks <= 2 * s.totalClicks + s.totalLinks)
  {
    TotalClicksPermutation(DashboardLinks(rows), ActiveRows(rows));
    TotalClicksActive(rows);
    assert |multiset(DashboardLinks(rows))| == |multiset(ActiveRows(rows))|;
  }

  /** Over the rows of a table, the dashboard shows a stored row exactly when
      it is not soft-deleted, and shows nothing else. */
  lemma DashboardListsLiveTableRows(links: map<string, Link>, rows: seq<Link>)
    requires RowsOf(links, rows)
    ensures forall c :: c in links ==> (links[c] in DashboardLinks(rows) <==> !links[c].deleted)
    ensures forall l :: l in DashboardLinks(rows) ==> l in links.Values && !l.deleted
  {
    DashboardListsActiveNewestFirst(rows);
    forall c | c in links
      ensures links[c] in DashboardLinks(rows) <==> !links[c].deleted
    {
      assert links[c] in links.Values;
      assert multiset(rows)[links[c]] > 0;
      if links[c] in DashboardLinks(rows) {
        assert multiset(DashboardLinks(rows))[links[c]] > 0;
      }
    }
    forall l | l in DashboardLinks(rows)
      ensures l in links.Values && !l.deleted
    {
      assert multiset(DashboardLinks(rows))[l] > 0;
    }
  }

  /** A link that `POST` creates is listed by `GET` and shown on the dashboard
      whatever order the table's rows come back in. */
  lemma CreatedLinkIsListed(links: map<string, Link>, nextId: nat, body: Body, isUrl: string -> bool,
                            draws: seq<Draw>, outcome: CreateOutcome, now: Timestamp, rows: seq<Link>)
    requires MaxAttempts <= |draws|
    requires PostReply(links, nextId, body, isUrl, draws, outcome, now).Created?
    requires RowsOf(StoreAfter(links, PostReply(links, nextId, body, isUrl, draws, outcome, now)), rows)
    ensures var l := PostReply(links, nextId, body, isUrl, draws, outcome, now).link;
      l in GetLinks(rows).links && l in DashboardLinks(rows)
  {
    var r := PostReply(links, nextId, body, isUrl, draws, outcome, now);
    var after := StoreAfter(links, r);
    GetListsTheTable(after, rows);
    DashboardListsLiveTableRows(after, rows);
    assert after[r.link.code] == r.link;
  }
}
