/** The `Link` table as the handlers see it through the ORM: one row per short
    code, looked up by `findUnique` (which does not filter soft-deleted rows),
    inserted by `create`, and listed with `orderBy: { createdAt: "desc" }`. */
module LinkStore {
  import opened Wrappers
  import opened CodeFormat

  /** Timestamps are whole milliseconds since the epoch. */
  type Timestamp = nat

  datatype Link = Link(
    id: nat,
    code: string,
    targetUrl: string,
    clickCount: nat,
    lstClickedAt: Option<Timestamp>,
    createdAt: Timestamp,
    deleted: bool)

  /** The row `create({ data: { code, targetUrl } })` stores: the database
      fills in the id, a zero click count, no last click, the creation time and
      `deleted = false`. */
  function NewLink(id: nat, code: string, targetUrl: string, now: Timestamp): (l: Link)
    ensures l.code == code && l.targetUrl == targetUrl && l.createdAt == now
    ensures l.clickCount == 0 && l.lstClickedAt.None? && !l.deleted
  {
    Link(id, code, targetUrl, 0, None, now, false)
  }

  /** The table invariant: every row is stored under its own code (codes are
      unique across live and soft-deleted rows alike), every code has the
      short-code format, and ids are distinct and below the next id. */
  predicate WellFormed(links: map<string, Link>, nextId: nat) {
    && (forall c :: c in links ==> links[c].code == c && MatchesCodeRegex(c) && links[c].id < nextId)
    && (forall c, d :: c in links && d in links && c != d ==> links[c].id != links[d].id)
  }

  /** Inserting a fresh, well-formed code with the next id keeps the table well formed. */
  lemma {:induction false} InsertKeepsWellFormed(links: map<string, Link>, nextId: nat, l: Link)
    requires WellFormed(links, nextId)
    requires l.code !in links && MatchesCodeRegex(l.code) && l.id == nextId
    ensures WellFormed(links[l.code := l], nextId + 1)
  {

  }

  /** What a `create` call does in this model: the database either commits the
      row or throws; a thrown value of `null`/`undefined` is `Abort(None)`. */
  datatype CreateOutcome = Commit | Abort(thrown: Option<string>)

  /** The link table, updated in place by `create`. `lookups` counts the
      `findUnique` queries made against it. */
  class LinkTable {
    var links: map<string, Link>
    var nextId: nat
    ghost var lookups: nat

    predicate Valid()
      reads this
    {
      WellFormed(links, nextId)
    }

    constructor (existing: map<string, Link>, firstFreeId: nat)
      requires WellFormed(existing, firstFreeId)
      ensures Valid()
      ensures links == existing && nextId == firstFreeId && lookups == 0
    {
      links := existing;
      nextId := firstFreeId;
      lookups := 0;
    }

    /** `findUnique({ where: { code } })`: the row with that code, soft-deleted or not. */
    method FindUnique(code: string) returns (found: Option<Link>)
      modifies this
      ensures links == old(links) && nextId == old(nextId) && lookups == old(lookups) + 1
      ensures found.Some? <==> code in links
      ensures found.Some? ==> found.value == links[code]
    {
      lookups := lookups + 1;
      found := if code in links then Some(links[code]) else None;
    }

    /** `create({ data: { code, targetUrl } })` for a code the caller has just
        looked up and found absent. On `Commit` the table gains exactly one row,
        under `code`; on `Abort` nothing changes. */
    method Create(code: string, targetUrl: string, outcome: CreateOutcome, now: Timestamp)
      returns (created: Option<Link>)
      requires Valid()
      requires code !in links && MatchesCodeRegex(code)
      modifies this
      ensures Valid()
      ensures outcome.Commit? ==> created == Some(NewLink(old(nextId), code, targetUrl, now))
      ensures outcome.Abort? ==> created.None?
      ensures created.Some? ==> links == old(links)[code := created.value] && nextId == old(nextId) + 1
      ensures created.None? ==> links == old(links) && nextId == old(nextId)
      ensures lookups == old(lookups)
    {
      if outcome.Commit? {
        var l := NewLink(nextId, code, targetUrl, now);
        InsertKeepsWellFormed(links, nextId, l);
        links := links[code := l];
        nextId := nextId + 1;
        created := Some(l);
      } else {
        created := None;
      }
    }
  }

  /** `rows` is what a query without a filter returns from the table: each
      stored row exactly once, in some order. */
  predicate RowsOf(links: map<string, Link>, rows: seq<Link>) {
    && (forall i :: 0 <= i < |rows| ==> rows[i] in links.Values)
    && (forall c :: c in links ==> links[c] in rows)
    && (forall i, j :: 0 <= i < j < |rows| ==> rows[i] != rows[j])
  }

  /** `orderBy: { createdAt: "desc" }`: newest first. Rows with equal
      timestamps may come in any order. */
  predicate NewestFirst(s: seq<Link>) {
    forall i, j :: 0 <= i < j < |s| ==> s[i].createdAt >= s[j].createdAt
  }

  /** Places `l` before the first row that is not newer than it. */
  function InsertNewestFirst(l: Link, s: seq<Link>): seq<Link> {
    if s == [] || l.createdAt >= s[0].createdAt then [l] + s
    else [s[0]] + InsertNewestFirst(l, s[1..])
  }

  /** One ordering the database may return for `orderBy: { createdAt: "desc" }`. */
  function SortNewestFirst(s: seq<Link>): seq<Link> {
    if s == [] then [] else InsertNewestFirst(s[0], SortNewestFirst(s[1..]))
  }

  lemma {:induction false} InsertNewestFirstPermutes(l: Link, s: seq<Link>)
    ensures multiset(InsertNewestFirst(l, s)) == multiset([l] + s)
  {
    if s != [] && l.createdAt < s[0].createdAt {
      InsertNewestFirstPermutes(l, s[1..]);
      assert s == [s[0]] + s[1..];
    }
  }

  /** A row no older than every row of a newest-first list can go in front. */
  lemma ConsNewestFirst(x: Link, rest: seq<Link>)
    requires NewestFirst(rest)
    requires forall j :: 0 <= j < |rest| ==> x.createdAt >= rest[j].createdAt
    ensures NewestFirst([x] + rest)
  {
    var r := [x] + rest;
    forall a, b | 0 <= a < b < |r|
      ensures r[a].createdAt >= r[b].createdAt
    {
      assert r[b] == rest[b - 1];
      if a > 0 {
        assert r[a] == rest[a - 1];
      }
    }
  }

  lemma {:induction false} InsertNewestFirstCorrect(l: Link, s: seq<Link>)
    requires NewestFirst(s)
    ensures multiset(InsertNewestFirst(l, s)) == multiset([l] + s)
    ensures NewestFirst(InsertNewestFirst(l, s))
  {
    InsertNewestFirstPermutes(l, s);
    if s == [] || l.createdAt >= s[0].createdAt {
      ConsNewestFirst(l, s);
    } else {
      var rest := InsertNewestFirst(l, s[1..]);
      InsertNewestFirstCorrect(l, s[1..]);
      forall j | 0 <= j < |rest|
        ensures s[0].createdAt >= rest[j].createdAt
      {
        assert rest[j] in multiset([l] + s[1..]);
        if rest[j] != l {
          var k :| 0 <= k < |s[1..]| && s[1..][k] == rest[j];
          assert s[k + 1] == rest[j];
        }
      }
      ConsNewestFirst(s[0], rest);
    }
  }

  /** The sort returns a permutation of its input, newest first. */
  lemma {:induction false} SortNewestFirstCorrect(s: seq<Link>)
    ensures multiset(SortNewestFirst(s)) == multiset(s)
    ensures NewestFirst(SortNewestFirst(s))
  {
    if s != [] {
      SortNewestFirstCorrect(s[1..]);
      InsertNewestFirstCorrect(s[0], SortNewestFirst(s[1..]));
      assert s == [s[0]] + s[1..];
    }
  }
}
