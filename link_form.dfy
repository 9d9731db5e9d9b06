/** The "new link" form of the dashboard: the `code` refinement of its schema
    and the request body its submit handler sends to `POST /api/links`. */
module LinkForm {
  import opened Wrappers
  import opened CodeFormat
  import opened LinksRoute

  /** `.refine((val) => !val || /^[A-Za-z0-9]{6,8}$/.test(val))`: an absent or
      empty code passes, any other must match the regex. */
  predicate CodeRefine(val: Option<string>) {
    val.None? || val.value == "" || MatchesCodeRegex(val.value)
  }

  /** `values.code || undefined`: an empty code is sent as absent. */
  function SubmittedCode(code: Option<string>): (r: Option<string>)
    ensures r.None? <==> code.None? || code.value == ""
    ensures r.Some? ==> r.value != ""
    ensures code.Some? && code.value != "" ==> r == code
  {
    if code.Some? && code.value != "" then code else None
  }

  /** `JSON.stringify({ targetUrl, code })` drops a property whose value is `undefined`. */
  function SubmitBody(targetUrl: string, code: Option<string>): (b: Body)
    ensures b.Object? && b.targetUrl == Text(targetUrl)
    ensures code.None? <==> b.code.Missing?
    ensures code.Some? ==> b.code == Text(code.value)
  {
    Object(Text(targetUrl), if code.Some? then Text(code.value) else Missing)
  }

  /** A non-empty code passes exactly when it has 6 to 8 characters, all in `[A-Za-z0-9]`. */
  lemma RefineOnNonEmptyCode(c: string)
    requires c != ""
    ensures CodeRefine(Some(c)) <==> 6 <= |c| <= 8 && forall i :: 0 <= i < |c| ==> IsAlnum(c[i])
  {
  }

  /** Five or nine characters, or a `-`, are rejected; six letters and digits pass. */
  lemma RefineExamples()
    ensures CodeRefine(None) && CodeRefine(Some(""))
    ensures !CodeRefine(Some("abc12")) && !CodeRefine(Some("abcdefghi"))
    ensures !CodeRefine(Some("abc-12")) && CodeRefine(Some("abc123"))
  {
    assert !IsAlnum("abc-12"[3]);
  }

  /** The form's empty-to-absent mapping is the server's normalisation. */
  lemma SubmittedCodeIsNormalized(code: Option<string>)
    ensures SubmittedCode(code) == NormalizeCode(code)
    ensures NormalizeCode(SubmittedCode(code)) == SubmittedCode(code)
  {
  }

  /** The form's refinement accepts a code exactly when the server's
      normalisation followed by its format check does. */
  lemma RefineAgreesWithServer(code: Option<string>)
    ensures CodeRefine(code) <==> CodeFormatOk(NormalizeCode(code))
  {
  }

  /** Whatever the form submits, the server's reply to it is a format error
      exactly when the refinement rejects the code: the refinement is not
      installed as the form's resolver, so the server's check is the one that
      takes effect, and it draws the same line. */
  lemma SubmittedFormatErrorIffRefineFails(links: map<string, LinkStore.Link>, nextId: nat, url: string,
                                           code: Option<string>, isUrl: string -> bool, draws: seq<Draw>,
                                           outcome: LinkStore.CreateOutcome, now: LinkStore.Timestamp)
    requires MaxAttempts <= |draws|
    requires isUrl(url)
    ensures PostReply(links, nextId, SubmitBody(url, SubmittedCode(code)), isUrl, draws, outcome, now)
              == Failed(400, InvalidCodeFormat)
            <==> !CodeRefine(code)
  {
  }
}
