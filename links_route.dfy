/** The `/api/links` route: `POST` creates a link under a supplied or generated
    short code and maps every outcome to an HTTP status; `GET` lists every row
    with its count, newest first. */
module LinksRoute {
  import opened Wrappers
  import opened CodeFormat
  import opened LinkStore

  /** The generation loop's bound, `MAX_ATTEMPTS`. */
  const MaxAttempts: nat := 10

  const InvalidPayload := "Invalid payload"
  const InvalidCodeFormat := "Invalid code format (must be 6-8 alphanumeric characters)"
  const CodeExists := "Code already exists"
  const GenerationExhausted := "Could not generate unique code, try again"
  const DatabaseError := "Database error"

  // ---------------------------------------------------------------------------
  // Request body and its schema

  /** One property of the JSON body: absent, a string, or any other JSON value. */
  datatype Field = Missing | Text(s: string) | NonText

  /** The parsed JSON body: an object with the two properties the schema reads,
      or something that is not an object at all. */
  datatype Body = Object(targetUrl: Field, code: Field) | NotAnObject

  datatype Payload = Payload(targetUrl: string, code: Option<string>)

  /** `z.object({ targetUrl: z.string().url(), code: z.string().optional() })`.
      The URL check of the schema library is the parameter `isUrl`. */
  function ParsePayload(body: Body, isUrl: string -> bool): (p: Option<Payload>)
    ensures p.Some? <==>
      body.Object? && body.targetUrl.Text? && isUrl(body.targetUrl.s) && !body.code.NonText?
    ensures p.Some? ==> p.value.targetUrl == body.targetUrl.s
    ensures p.Some? ==> (p.value.code.Some? <==> body.code.Text?)
    ensures p.Some? && body.code.Text? ==> p.value.code.value == body.code.s
  {
    match body
    case NotAnObject => None
    case Object(targetUrl, code) =>
      if !targetUrl.Text? || !isUrl(targetUrl.s) then None
      else match code
        case Missing => Some(Payload(targetUrl.s, None))
        case Text(c) => Some(Payload(targetUrl.s, Some(c)))
        case NonText => None
  }

  /** An empty code counts as no code, so that one is generated. */
  function NormalizeCode(code: Option<string>): (r: Option<string>)
    ensures r.Some? ==> r.value != "" && r == code
    ensures r.None? ==> code.None? || code.value == ""
  {
    if code == Some("") then None else code
  }

  /** The server's format check: a code, if there is one, must match the regex. */
  predicate CodeFormatOk(code: Option<string>) {
    code.None? || MatchesCodeRegex(code.value)
  }

  // ---------------------------------------------------------------------------
  // Replies and the mapping of database failures

  /** The response: `201 { ok: true, link }` or `{ ok: false, error }` with a status. */
  datatype Reply = Created(link: Link) | Failed(status: nat, error: string)

  function Status(r: Reply): nat {
    if r.Created? then 201 else r.status
  }

  /** `t` occurs in `s` starting at index `i`. */
  predicate OccursAt(s: string, t: string, i: nat) {
    i + |t| <= |s| && s[i..i + |t|] == t
  }

  /** `s.includes(t)`: the empty string is contained in every string, and no
      string contains a longer one. */
  predicate Contains(s: string, t: string)
    ensures t == [] ==> Contains(s, t)
    ensures Contains(s, t) ==> |t| <= |s|
  {
    assert t == [] ==> OccursAt(s, t, 0);
    exists i: nat | i <= |s| :: OccursAt(s, t, i)
  }

  predicate MentionsUnique(message: string) {
    Contains(message, "Unique") || Contains(message, "unique")
  }

  /** `String(err ?? "Database error")` for a thrown value given as its string
      form, or `None` when it is `null` or `undefined`. */
  function ThrownMessage(thrown: Option<string>): (m: string)
    ensures thrown.Some? ==> m == thrown.value
    ensures thrown.None? ==> m == DatabaseError
  {
    thrown.GetOr(DatabaseError)
  }

  /** The `catch` block around `create`: a unique-constraint violation is a
      duplicate code (409); anything else is a 500 carrying the raw message. */
  function CreateFailureReply(thrown: Option<string>): (r: Reply)
    ensures r.Failed? && (r.status == 409 || r.status == 500)
    ensures r.status == 409 <==> MentionsUnique(ThrownMessage(thrown))
    ensures r.status == 409 ==> r.error == CodeExists
    ensures r.status == 500 ==> r.error == ThrownMessage(thrown)
  {
    var message := ThrownMessage(thrown);
    if MentionsUnique(message) then Failed(409, CodeExists) else Failed(500, message)
  }

  /** The error Prisma raises for a violated unique constraint maps to 409. */
  lemma PrismaUniqueViolationIsConflict()
    ensures CreateFailureReply(Some("Unique" + " constraint failed on the fields: (`code`)")) == Failed(409, CodeExists)
  {
    assert OccursAt("Unique" + " constraint failed on the fields: (`code`)", "Unique", 0);
  }

  /** A string without the first character of `t` does not contain `t`. */
  lemma MissingFirstCharacter(s: string, t: string)
    requires t != [] && t[0] !in s
    ensures !Contains(s, t)
  {
    forall i: nat
      ensures !OccursAt(s, t, i)
    {
      if i + |t| <= |s| {
        assert s[i..i + |t|][0] == s[i] && s[i] in s;
      }
    }
  }

  /** A nullish thrown value becomes "Database error", which maps to 500. */
  lemma NullishThrowIsServerError()
    ensures CreateFailureReply(None) == Failed(500, DatabaseError)
  {
    assert 'U' !in DatabaseError && 'u' !in DatabaseError;
    MissingFirstCharacter(DatabaseError, "Unique");
    MissingFirstCharacter(DatabaseError, "unique");
  }

  /** The reply once `create` has been attempted for `l`. */
  function CreateReply(outcome: CreateOutcome, l: Link): (r: Reply)
    ensures r.Created? <==> outcome.Commit?
    ensures r.Created? ==> r.link == l
    ensures outcome.Abort? ==> r == CreateFailureReply(outcome.thrown)
  {
    if outcome.Commit? then Created(l) else CreateFailureReply(outcome.thrown)
  }

  // ---------------------------------------------------------------------------
  // Code generation

  /** `Math.floor(Math.random() * 3)`: 0, 1 or 2. */
  newtype LengthRoll = r: int | 0 <= r < 3

  /** The randomness one attempt consumes: the length roll and the alphabet
      indices nanoid picks for a code of that length. */
  datatype Draw = Draw(roll: LengthRoll, picks: seq<SymbolIndex>)

  /** `Math.floor(Math.random() * 3) + 6`. */
  function CandidateLength(roll: LengthRoll): (n: nat)
    ensures MinCodeLength <= n <= MaxCodeLength
  {
    roll as int + 6
  }

  /** nanoid returns exactly as many symbols as the length asks for. */
  predicate WellFormedDraw(d: Draw) {
    |d.picks| == CandidateLength(d.roll)
  }

  predicate AllWellFormed(draws: seq<Draw>) {
    forall i :: 0 <= i < |draws| ==> WellFormedDraw(draws[i])
  }

  /** The string `customAlphabet(alphabet, length)()` returns for draw `d`. */
  function Candidate(d: Draw): (c: string)
    ensures |c| == |d.picks|
    ensures forall i :: 0 <= i < |c| ==> IsAlnum(c[i])
  {
    seq(|d.picks|, i requires 0 <= i < |d.picks| => SymbolAt(d.picks[i]))
  }

  /** Every generated candidate has length 6, 7 or 8, uses only alphabet
      symbols, and so matches the code regex. */
  lemma CandidateMatchesRegex(d: Draw)
    requires WellFormedDraw(d)
    ensures |Candidate(d)| == CandidateLength(d.roll)
    ensures forall i :: 0 <= i < |Candidate(d)| ==> Candidate(d)[i] in Alphabet
    ensures MatchesCodeRegex(Candidate(d))
  {
    forall i | 0 <= i < |Candidate(d)|
      ensures Candidate(d)[i] in Alphabet
    {
      assert Alphabet[d.picks[i]] == Candidate(d)[i];
    }
  }

  /** Conversely every code of the regex's format is some draw's candidate, so
      the generator can produce any valid code. */
  lemma EveryValidCodeIsACandidate(c: string)
    requires MatchesCodeRegex(c)
    ensures exists d :: WellFormedDraw(d) && Candidate(d) == c
  {
    var picks := seq(|c|, i requires 0 <= i < |c| => SymbolOf(c[i]));
    var d := Draw((|c| - 6) as LengthRoll, picks);
    assert Candidate(d) == c;
  }

  /** The index of the first of the attempts `i .. MaxAttempts - 1` whose
      candidate is not in the table, if there is one. */
  function FirstFree(links: map<string, Link>, draws: seq<Draw>, i: nat): (r: Option<nat>)
    requires i <= MaxAttempts <= |draws|
    decreases MaxAttempts - i
    ensures r.Some? ==> i <= r.value < MaxAttempts && Candidate(draws[r.value]) !in links
    ensures r.Some? ==> forall j :: i <= j < r.value ==> Candidate(draws[j]) in links
    ensures r.None? ==> forall j :: i <= j < MaxAttempts ==> Candidate(draws[j]) in links
  {
    if i == MaxAttempts then None
    else if Candidate(draws[i]) !in links then Some(i)
    else FirstFree(links, draws, i + 1)
  }

  /** The generation loop: up to `MaxAttempts` candidates, each looked up once;
      stops at the first that is absent. `code` is empty when all were taken,
      and `attempts` is the number of lookups made. */
  method GenerateCode(db: LinkTable, draws: seq<Draw>) returns (code: string, attempts: nat)
    requires MaxAttempts <= |draws|
    modifies db
    ensures db.links == old(db.links) && db.nextId == old(db.nextId)
    ensures db.lookups == old(db.lookups) + attempts
    ensures 1 <= attempts <= MaxAttempts
    ensures match FirstFree(db.links, draws, 0)
      case None => code == "" && attempts == MaxAttempts
      case Some(i) => code == Candidate(draws[i]) && attempts == i + 1
  {
    var attempt := 0;
    code := "";
    while attempt < MaxAttempts
      invariant 0 <= attempt <= MaxAttempts
      invariant db.links == old(db.links) && db.nextId == old(db.nextId)
      invariant db.lookups == old(db.lookups) + attempt
      invariant code == ""
      invariant FirstFree(db.links, draws, 0) == FirstFree(db.links, draws, attempt)
    {
      attempt := attempt + 1;
      var candidate := Candidate(draws[attempt - 1]);
      var existing := db.FindUnique(candidate);
      if existing.None? {
        code := candidate;
        break;
      }
    }
    attempts := attempt;
  }

  // ---------------------------------------------------------------------------
  // POST /api/links

  /** The reply `POST` gives for a table `links` whose next id is `nextId`. */
  function PostReply(links: map<string, Link>, nextId: nat, body: Body, isUrl: string -> bool,
                     draws: seq<Draw>, outcome: CreateOutcome, now: Timestamp): (r: Reply)
    requires MaxAttempts <= |draws|
    ensures Status(r) in {201, 400, 409, 500, 503}
    ensures r.Created? ==> outcome.Commit? && r.link.code !in links && r.link.id == nextId
    ensures r.Created? ==> r.link.createdAt == now && r.link.clickCount == 0 && !r.link.deleted
    ensures ParsePayload(body, isUrl).None? ==> r == Failed(400, InvalidPayload)
  {
    match ParsePayload(body, isUrl)
    case None => Failed(400, InvalidPayload)
    case Some(p) =>
      var code := NormalizeCode(p.code);
      if !CodeFormatOk(code) then Failed(400, InvalidCodeFormat)
      else if code.Some? then
        if code.value in links then Failed(409, CodeExists)
        else CreateReply(outcome, NewLink(nextId, code.value, p.targetUrl, now))
      else
        match FirstFree(links, draws, 0)
        case None => Failed(503, GenerationExhausted)
        case Some(i) => CreateReply(outcome, NewLink(nextId, Candidate(draws[i]), p.targetUrl, now))
  }

  /** The table after a request that produced `reply`. */
  function StoreAfter(links: map<string, Link>, reply: Reply): (m: map<string, Link>)
    ensures reply.Failed? ==> m == links
    ensures reply.Created? ==> m.Keys == links.Keys + {reply.link.code} && m[reply.link.code] == reply.link
    ensures forall c :: c in links && (reply.Failed? || c != reply.link.code) ==> m[c] == links[c]
  {
    if reply.Created? then links[reply.link.code := reply.link] else links
  }

  /** The `POST` handler over the table `db`. Randomness is the oracle `draws`,
      the database's verdict on the insert is `outcome`, and the clock is `now`. */
  method Post(db: LinkTable, body: Body, isUrl: string -> bool, draws: seq<Draw>,
              outcome: CreateOutcome, now: Timestamp)
    returns (reply: Reply)
    requires db.Valid()
    requires MaxAttempts <= |draws| && AllWellFormed(draws)
    modifies db
    ensures db.Valid()
    ensures reply == PostReply(old(db.links), old(db.nextId), body, isUrl, draws, outcome, now)
    ensures db.links == StoreAfter(old(db.links), reply)
    ensures db.nextId == if reply.Created? then old(db.nextId) + 1 else old(db.nextId)
    ensures old(db.lookups) <= db.lookups <= old(db.lookups) + MaxAttempts
  {
    var parsed := ParsePayload(body, isUrl);
    if parsed.None? {
      return Failed(400, InvalidPayload);
    }
    var targetUrl := parsed.value.targetUrl;
    var providedCode := parsed.value.code;
    if providedCode == Some("") {
      providedCode := None;
    }
    if providedCode.Some? && !MatchesCodeRegex(providedCode.value) {
      return Failed(400, InvalidCodeFormat);
    }
    var code: string;
    if providedCode.Some? {
      var existing := db.FindUnique(providedCode.value);
      if existing.Some? {
        return Failed(409, CodeExists);
      }
      code := providedCode.value;
    } else {
      var attempts;
      code, attempts := GenerateCode(db, draws);
      if code == "" {
        return Failed(503, GenerationExhausted);
      }
      CandidateMatchesRegex(draws[attempts - 1]);
    }
    reply := CreateAndReply(db, code, targetUrl, outcome, now);
  }

  /** The `try { create } catch` block shared by both paths of `POST`. */
  method CreateAndReply(db: LinkTable, code: string, targetUrl: string, outcome: CreateOutcome, now: Timestamp)
    returns (reply: Reply)
    requires db.Valid()
    requires code !in db.links && MatchesCodeRegex(code)
    modifies db
    ensures db.Valid()
    ensures reply == CreateReply(outcome, NewLink(old(db.nextId), code, targetUrl, now))
    ensures db.links == StoreAfter(old(db.links), reply)
    ensures db.nextId == if reply.Created? then old(db.nextId) + 1 else old(db.nextId)
    ensures db.lookups == old(db.lookups)
  {
    var created := db.Create(code, targetUrl, outcome, now);
    reply := if created.Some? then Created(created.value) else CreateFailureReply(outcome.thrown);
  }

  // ---------------------------------------------------------------------------
  // Properties of POST

  /** An empty `code` takes exactly the path of an omitted one. */
  lemma EmptyCodeIsOmittedCode(links: map<string, Link>, nextId: nat, targetUrl: Field,
                               isUrl: string -> bool, draws: seq<Draw>, outcome: CreateOutcome, now: Timestamp)
    requires MaxAttempts <= |draws|
    ensures PostReply(links, nextId, Object(targetUrl, Text("")), isUrl, draws, outcome, now)
         == PostReply(links, nextId, Object(targetUrl, Missing), isUrl, draws, outcome, now)
  {
  }

  /** A non-empty code that does not match the regex is a 400, whatever the
      table holds, and the table is unchanged. */
  lemma MalformedCodeIsBadRequest(links: map<string, Link>, nextId: nat, url: string, c: string,
                                  isUrl: string -> bool, draws: seq<Draw>, outcome: CreateOutcome, now: Timestamp)
    requires MaxAttempts <= |draws|
    requires isUrl(url) && c != "" && !MatchesCodeRegex(c)
    ensures PostReply(links, nextId, Object(Text(url), Text(c)), isUrl, draws, outcome, now)
         == Failed(400, InvalidCodeFormat)
    ensures StoreAfter(links, Failed(400, InvalidCodeFormat)) == links
  {
  }

  /** A valid code that is already stored, soft-deleted or not, is a 409. */
  lemma TakenCodeIsConflict(links: map<string, Link>, nextId: nat, url: string, c: string,
                            isUrl: string -> bool, draws: seq<Draw>, outcome: CreateOutcome, now: Timestamp)
    requires MaxAttempts <= |draws|
    requires isUrl(url) && MatchesCodeRegex(c) && c in links
    ensures PostReply(links, nextId, Object(Text(url), Text(c)), isUrl, draws, outcome, now)
         == Failed(409, CodeExists)
  {
  }

  /** A valid, free code whose insert commits is a 201; the table gains
      exactly one row, under that code, and every other row is unchanged. */
  lemma FreeCodeIsCreated(links: map<string, Link>, nextId: nat, url: string, c: string,
                          isUrl: string -> bool, draws: seq<Draw>, now: Timestamp)
    requires MaxAttempts <= |draws|
    requires isUrl(url) && MatchesCodeRegex(c) && c !in links
    ensures var r := PostReply(links, nextId, Object(Text(url), Text(c)), isUrl, draws, Commit, now);
      && r == Created(NewLink(nextId, c, url, now))
      && StoreAfter(links, r).Keys == links.Keys + {c}
      && |StoreAfter(links, r)| == |links| + 1
      && StoreAfter(links, r)[c].targetUrl == url
      && forall k :: k in links ==> StoreAfter(links, r)[k] == links[k]
  {
  }

  /** When every attempted candidate is taken, `POST` without a code is a 503. */
  lemma ExhaustedGenerationIsUnavailable(links: map<string, Link>, nextId: nat, url: string,
                                         isUrl: string -> bool, draws: seq<Draw>, outcome: CreateOutcome, now: Timestamp)
    requires MaxAttempts <= |draws|
    requires isUrl(url)
    requires forall j :: 0 <= j < MaxAttempts ==> Candidate(draws[j]) in links
    ensures PostReply(links, nextId, Object(Text(url), Missing), isUrl, draws, outcome, now)
         == Failed(503, GenerationExhausted)
  {
  }

  /** A generated code was absent from the table when it was looked up, is the
      first free one among at most `MaxAttempts` candidates, and has the code format. */
  lemma GeneratedCodeIsFresh(links: map<string, Link>, nextId: nat, url: string,
                             isUrl: string -> bool, draws: seq<Draw>, outcome: CreateOutcome, now: Timestamp)
    requires MaxAttempts <= |draws| && AllWellFormed(draws)
    requires PostReply(links, nextId, Object(Text(url), Missing), isUrl, draws, outcome, now).Created?
    ensures var l := PostReply(links, nextId, Object(Text(url), Missing), isUrl, draws, outcome, now).link;
      && l.code !in links
      && MatchesCodeRegex(l.code)
      && l.targetUrl == url
      && exists i :: 0 <= i < MaxAttempts && l.code == Candidate(draws[i])
           && forall j :: 0 <= j < i ==> Candidate(draws[j]) in links
  {
    var i := FirstFree(links, draws, 0).value;
    CandidateMatchesRegex(draws[i]);
  }

  /** A failed insert never creates: a unique-constraint message is a 409 and
      any other failure a 500 carrying the message. */
  lemma AbortedCreateIsFailure(links: map<string, Link>, nextId: nat, body: Body,
                               isUrl: string -> bool, draws: seq<Draw>, thrown: Option<string>, now: Timestamp)
    requires MaxAttempts <= |draws|
    ensures var r := PostReply(links, nextId, body, isUrl, draws, Abort(thrown), now);
      && r.Failed?
      && StoreAfter(links, r) == links
      && (r.status == 500 ==> r.error == ThrownMessage(thrown) && !MentionsUnique(r.error))
  {
  }

  /** Every reply carries one of the documented statuses, and a created link
      has a fresh code of the right format, so the table stays well formed. */
  lemma RepliesAreWellFormed(links: map<string, Link>, nextId: nat, body: Body,
                             isUrl: string -> bool, draws: seq<Draw>, outcome: CreateOutcome, now: Timestamp)
    requires MaxAttempts <= |draws| && AllWellFormed(draws)
    requires WellFormed(links, nextId)
    ensures var r := PostReply(links, nextId, body, isUrl, draws, outcome, now);
      && Status(r) in {201, 400, 409, 500, 503}
      && (r.Created? ==> r.link.code !in links && MatchesCodeRegex(r.link.code) && r.link.id == nextId)
      && WellFormed(StoreAfter(links, r), if r.Created? then nextId + 1 else nextId)
  {
    var r := PostReply(links, nextId, body, isUrl, draws, outcome, now);
    var p := ParsePayload(body, isUrl);
    if r.Created? {
      if NormalizeCode(p.value.code).None? {
        CandidateMatchesRegex(draws[FirstFree(links, draws, 0).value]);
      }
      InsertKeepsWellFormed(links, nextId, r.link);
    }
  }

  /** Two requests with the same explicit code, one after the other: once the
      first has created the link, the second is a 409. */
  lemma SameCodeTwiceConflicts(links: map<string, Link>, nextId: nat, url1: string, url2: string, c: string,
                               isUrl: string -> bool, draws: seq<Draw>, outcome1: CreateOutcome,
                               outcome2: CreateOutcome, now1: Timestamp, now2: Timestamp)
    requires MaxAttempts <= |draws|
    requires c != ""
    requires PostReply(links, nextId, Object(Text(url1), Text(c)), isUrl, draws, outcome1, now1).Created?
    requires isUrl(url2)
    ensures var r1 := PostReply(links, nextId, Object(Text(url1), Text(c)), isUrl, draws, outcome1, now1);
      PostReply(StoreAfter(links, r1), nextId + 1, Object(Text(url2), Text(c)), isUrl, draws, outcome2, now2)
        == Failed(409, CodeExists)
  {
  }

  // ---------------------------------------------------------------------------
  // GET /api/links

  datatype ListReply = ListReply(linksCount: nat, links: seq<Link>)

  /** `count()` and `findMany({ orderBy: { createdAt: "desc" } })` over the
      rows `rows`. Neither call filters on `deleted`. */
  function GetLinks(rows: seq<Link>): ListReply {
    ListReply(|rows|, SortNewestFirst(rows))
  }

  /** The count equals the number of listed links; the list holds every row,
      soft-deleted ones included, newest first. */
  lemma GetListsEveryRowNewestFirst(rows: seq<Link>)
    ensures GetLinks(rows).linksCount == |GetLinks(rows).links|
    ensures multiset(GetLinks(rows).links) == multiset(rows)
    ensures NewestFirst(GetLinks(rows).links)
  {
    SortNewestFirstCorrect(rows);
    assert |multiset(SortNewestFirst(rows))| == |multiset(rows)|;
  }

  /** Over the rows of a table, `GET` lists every stored row and nothing else. */
  lemma GetListsTheTable(links: map<string, Link>, rows: seq<Link>)
    requires RowsOf(links, rows)
    ensures forall c :: c in links ==> links[c] in GetLinks(rows).links
    ensures forall l :: l in GetLinks(rows).links ==> l in links.Values
  {
    SortNewestFirstCorrect(rows);
    forall c | c in links
      ensures links[c] in GetLinks(rows).links
    {
      assert links[c] in links.Values;
      assert multiset(rows)[links[c]] > 0;
    }
    forall l | l in GetLinks(rows).links
      ensures l in links.Values
    {
      assert multiset(GetLinks(rows).links)[l] > 0;
    }
  }
}
