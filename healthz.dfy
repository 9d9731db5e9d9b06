/** The `/healthz` route: the process uptime split into days, hours, minutes
    and seconds, and a reply that is always 200 with the database check
    reported inside it. */
module Healthz {
  import opened Wrappers

  const SecondsPerMinute: nat := 60
  const SecondsPerHour: nat := 3600
  const SecondsPerDay: nat := 86400

  datatype Uptime = Uptime(days: nat, hours: nat, minutes: nat, seconds: nat)

  /** The number of seconds an uptime stands for; a normalised uptime falls
      within its own whole day. */
  function TotalSeconds(u: Uptime): (t: nat)
    ensures Normalized(u) ==> u.days * SecondsPerDay <= t < (u.days + 1) * SecondsPerDay
  {
    u.days * SecondsPerDay + u.hours * SecondsPerHour + u.minutes * SecondsPerMinute + u.seconds
  }

  predicate Normalized(u: Uptime) {
    u.hours < 24 && u.minutes < 60 && u.seconds < 60
  }

  /** `days = floor(t / 86400)`, `hours = floor((t % 86400) / 3600)`,
      `minutes = floor((t % 3600) / 60)`, `seconds = t % 60` for the whole
      number of seconds `t`. */
  function Decompose(totalSeconds: nat): (u: Uptime)
    ensures Normalized(u)
    ensures u.days == totalSeconds / SecondsPerDay
    ensures TotalSeconds(u) == totalSeconds
  {
    var t := totalSeconds;
    var u := Uptime(t / 86400, (t % 86400) / 3600, (t % 3600) / 60, t % 60);
    DecomposeSum(t);
    u
  }

  lemma DecomposeSum(t: nat)
    ensures (t / 86400) * 86400 + ((t % 86400) / 3600) * 3600 + ((t % 3600) / 60) * 60 + t % 60 == t
  {
    var d, r := t / 86400, t % 86400;
    assert t == d * 86400 + r;
    var h, r' := r / 3600, r % 3600;
    assert r == h * 3600 + r';
    // 3600 divides 86400, so the remainder by the hour is the same either way.
    assert t == (d * 24 + h) * 3600 + r';
    assert t % 3600 == r';
    var m, s := r' / 60, r' % 60;
    assert r' == m * 60 + s;
    assert t == ((d * 24 + h) * 60 + m) * 60 + s;
    assert t % 60 == s;
  }

  /** Decomposition inverts the sum: a normalised uptime is recovered from its
      number of seconds. */
  lemma {:induction false} DecomposeTotalSeconds(u: Uptime)
    requires Normalized(u)
    ensures Decompose(TotalSeconds(u)) == u
  {
    var t := TotalSeconds(u);
    var r' := u.minutes * 60 + u.seconds;
    var r := u.hours * 3600 + r';
    DivModOf(r', u.minutes, u.seconds, 60);
    DivModOf(r, u.hours, r', 3600);
    DivModOf(t, u.days, r, 86400);
    DivModOf(t, u.days * 24 + u.hours, r', 3600);
    DivModOf(t, (u.days * 24 + u.hours) * 60 + u.minutes, u.seconds, 60);
  }

  /** Division with remainder is unique: `t == q * m + r` with `0 <= r < m`
      gives the quotient `q` and the remainder `r`. */
  lemma DivModOf(t: nat, q: nat, r: nat, m: nat)
    requires m == SecondsPerMinute || m == SecondsPerHour || m == SecondsPerDay
    requires r < m && t == q * m + r
    ensures t / m == q && t % m == r
  {
    if m == SecondsPerMinute {
      assert t == q * 60 + r;
    } else if m == SecondsPerHour {
      assert t == q * 3600 + r;
    } else {
      assert t == q * 86400 + r;
    }
  }


  /** `{ ok, error? }` of the database connectivity check. */
  datatype DbStatus = DbStatus(ok: bool, error: Option<string>)

  datatype HealthReply = HealthReply(status: nat, ok: bool, version: string, uptime: Uptime, db: DbStatus)

  /** The handler for a process up `uptimeSeconds` whole seconds, whose
      `SELECT 1` either succeeded (`None`) or threw a value whose string form
      is given. */
  function Health(uptimeSeconds: nat, dbFailure: Option<string>): (r: HealthReply)
    ensures r.status == 200 && r.ok && r.version == "1.0"
    ensures r.db.ok <==> dbFailure.None?
    ensures r.db.error == dbFailure
    ensures r.uptime == Decompose(uptimeSeconds)
  {
    var db := if dbFailure.None? then DbStatus(true, None) else DbStatus(false, dbFailure);
    HealthReply(200, true, "1.0", Decompose(uptimeSeconds), db)
  }
}
