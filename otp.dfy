/**
 * The forgotten-password flow: the per-user sliding-window limiter in front of
 * send-otp (`otpRateLimit`), the one-time-code store (`otpStore`) with expiry,
 * verification and password reset. Both dictionaries live in server memory and
 * are modelled as the fields of `OtpService`; the registration and employer
 * tables the reset writes are the values of `Accounts`.
 */
module Otp {
  import opened Common
  import opened Sessions
  import opened Tables
  import opened JsNumbers

  const MaxOtpRequests: nat := 5
  const TimeWindowMs: int := 10 * 60 * 1000

  /** Every element is at most every later one: request times as the clock hands them out. */
  predicate Nondecreasing(s: seq<int>)
  {
    forall i, j :: 0 <= i < j < |s| ==> s[i] <= s[j]
  }

  /** `ts.filter(ts => now - ts < TIME_WINDOW_MS)`: the timestamps still inside the window, in order. */
  function Recent(ts: seq<int>, now: int): (r: seq<int>)
    ensures |r| <= |ts|
    ensures forall i :: 0 <= i < |r| ==> now - r[i] < TimeWindowMs
    ensures forall t :: t in r <==> t in ts && now - t < TimeWindowMs
  {
    if ts == [] then []
    else
      assert ts == [ts[0]] + ts[1..];
      (if now - ts[0] < TimeWindowMs then [ts[0]] else []) + Recent(ts[1..], now)
  }

  /**
   * The limiter on one user's list: drop the stale timestamps, refuse when
   * `MAX_OTP_REQUESTS` remain, else record `now`. The pruned list is kept in
   * both cases. Returns whether the request passes, and the new list.
   */
  function KeyStep(list: seq<int>, now: int): (r: (bool, seq<int>))
    ensures r.0 <==> |Recent(list, now)| < MaxOtpRequests
    ensures |r.1| <= MaxOtpRequests || r.1 == Recent(list, now)
    ensures forall i :: 0 <= i < |r.1| ==> now - r.1[i] < TimeWindowMs
    ensures r.0 ==> |r.1| >= 1 && r.1[|r.1| - 1] == now
    ensures r.1 == if r.0 then Recent(list, now) + [now] else Recent(list, now)
  {
    var pruned := Recent(list, now);
    if |pruned| >= MaxOtpRequests then (false, pruned) else (true, pruned + [now])
  }

  /**
   * `otpLimiter` over the whole dictionary. The key is `userName || userId`;
   * without one the answer is 400 and nothing is recorded.
   */
  function LimiterStep(table: map<string, seq<int>>, key: Option<string>, now: int)
    : (r: (Gate, map<string, seq<int>>))
    ensures r.0 == Deny(400) <==> !Truthy(key)
    ensures !Truthy(key) ==> r.1 == table
    ensures r.0 == Next || r.0 == Deny(400) || r.0 == Deny(429)
    ensures Truthy(key) ==>
              && r.1.Keys == table.Keys + {key.value}
              && (forall k :: k in table && k != key.value ==> r.1[k] == table[k])
              && var step := KeyStep(if key.value in table then table[key.value] else [], now);
                 && r.1[key.value] == step.1
                 && (r.0 == Next <==> step.0)
    ensures (forall k :: k in table ==> |table[k]| <= MaxOtpRequests) ==>
              forall k :: k in r.1 ==> |r.1[k]| <= MaxOtpRequests
  {
    if !Truthy(key) then (Deny(400), table)
    else
      var step := KeyStep(if key.value in table then table[key.value] else [], now);
      (if step.0 then Next else Deny(429), table[key.value := step.1])
  }

  /**
   * The limiter's list for one user and the times it let through, after the
   * requests at `times` (oldest first), starting from no entry.
   */
  function Replay(times: seq<int>): (r: (seq<int>, seq<int>))
  {
    if times == [] then ([], [])
    else
      var prev := Replay(times[..|times| - 1]);
      var now := times[|times| - 1];
      var step := KeyStep(prev.0, now);
      (step.1, if step.0 then prev.1 + [now] else prev.1)
  }

  /** Pruning at a time and again at a later time is pruning at the later time. */
  lemma {:induction false} RecentTwice(ts: seq<int>, a: int, b: int)
    requires a <= b
    ensures Recent(Recent(ts, a), b) == Recent(ts, b)
  {
    if ts != [] {
      RecentTwice(ts[1..], a, b);
      var rest := Recent(ts[1..], a);
      if a - ts[0] < TimeWindowMs {
        var kept := [ts[0]] + rest;
        assert Recent(ts, a) == kept;
        assert kept[0] == ts[0] && kept[1..] == rest;
      } else {
        assert Recent(ts, a) == rest;
      }
    }
  }

  /** Pruning a list with one more timestamp at its end. */
  lemma {:induction false} RecentAppend(ts: seq<int>, x: int, now: int)
    ensures Recent(ts + [x], now) == Recent(ts, now) + (if now - x < TimeWindowMs then [x] else [])
  {
    if ts == [] {
      assert [x][1..] == [];
    } else {
      assert (ts + [x])[1..] == ts[1..] + [x];
      RecentAppend(ts[1..], x, now);
    }
  }

  /** When every timestamp from index i on is inside the window, at least those are kept. */
  lemma {:induction false} RecentKeepsSuffix(ts: seq<int>, now: int, i: int)
    requires 0 <= i <= |ts|
    requires forall j :: i <= j < |ts| ==> now - ts[j] < TimeWindowMs
    ensures |Recent(ts, now)| >= |ts| - i
  {
    if ts != [] {
      RecentKeepsSuffix(ts[1..], now, if i == 0 then 0 else i - 1);
    }
  }

  /**
   * What the limiter keeps for one user: the accepted times still inside the
   * window of the latest request; the accepted times are ordered, and any six
   * consecutive ones span at least `TIME_WINDOW_MS`.
   */
  lemma {:induction false} ReplayInvariant(times: seq<int>)
    requires Nondecreasing(times)
    ensures ReplayFacts(times, Replay(times))
  {
    if times != [] {
      var before := times[..|times| - 1];
      assert Nondecreasing(before);
      ReplayInvariant(before);
      ReplayStep(times);
    }
  }

  /**
   * What holds after the requests at `times` of the limiter's list (`r.0`) and
   * the accepted times (`r.1`).
   */
  ghost predicate ReplayFacts(times: seq<int>, r: (seq<int>, seq<int>))
  {
    && Nondecreasing(r.1)
    && (forall t :: t in r.1 ==> t in times)
    && (times == [] ==> r.0 == [] && r.1 == [])
    && (times != [] ==> r.0 == Recent(r.1, times[|times| - 1]))
    && forall i :: 0 <= i && i + MaxOtpRequests < |r.1| ==> r.1[i + MaxOtpRequests] - r.1[i] >= TimeWindowMs
  }

  /** One more request keeps the facts. */
  lemma ReplayStep(times: seq<int>)
    requires times != [] && Nondecreasing(times)
    requires ReplayFacts(times[..|times| - 1], Replay(times[..|times| - 1]))
    ensures ReplayFacts(times, Replay(times))
  {
    var before := times[..|times| - 1];
    var now := times[|times| - 1];
    var prev := Replay(before);
    var acc := prev.1;
    assert forall t :: t in acc ==> t <= now by {
      forall t | t in acc ensures t <= now {
        assert t in before;
      }
    }
    // The stored list is the accepted times inside the window of `now`.
    assert Recent(prev.0, now) == Recent(acc, now) by {
      if before != [] {
        RecentTwice(acc, before[|before| - 1], now);
      }
    }
    var step := KeyStep(prev.0, now);
    assert Replay(times) == (step.1, if step.0 then acc + [now] else acc);
    assert forall t :: t in acc ==> t in times by {
      forall t | t in acc ensures t in times {
        assert t in before;
      }
    }
    if step.0 {
      AcceptAt(acc, now);
      assert step.1 == Recent(acc + [now], now);
    } else {
      assert step.1 == Recent(acc, now);
    }
  }

  /** A request the limiter lets through extends the accepted times and keeps them spread out. */
  lemma AcceptAt(acc: seq<int>, now: int)
    requires Nondecreasing(acc) && forall t :: t in acc ==> t <= now
    requires forall i :: 0 <= i && i + MaxOtpRequests < |acc| ==> acc[i + MaxOtpRequests] - acc[i] >= TimeWindowMs
    requires |Recent(acc, now)| < MaxOtpRequests
    ensures Nondecreasing(acc + [now])
    ensures Recent(acc + [now], now) == Recent(acc, now) + [now]
    ensures forall i :: 0 <= i && i + MaxOtpRequests < |acc + [now]| ==>
              (acc + [now])[i + MaxOtpRequests] - (acc + [now])[i] >= TimeWindowMs
  {
    var acc' := acc + [now];
    RecentAppend(acc, now, now);
    forall i, j | 0 <= i < j < |acc'| ensures acc'[i] <= acc'[j] {
      if j == |acc| {
        assert acc'[i] in acc;
      }
    }
    forall i | 0 <= i && i + MaxOtpRequests < |acc'|
      ensures acc'[i + MaxOtpRequests] - acc'[i] >= TimeWindowMs
    {
      if i + MaxOtpRequests == |acc| && now - acc[i] < TimeWindowMs {
        RecentKeepsSuffix(acc, now, i);
      }
    }
  }

  /**
   * The limiter's promise: among the requests it lets through for one user, the
   * sixth after any accepted request comes at least `TIME_WINDOW_MS` later, so
   * no window holds more than `MAX_OTP_REQUESTS` codes.
   */
  lemma NoSixWithinWindow(times: seq<int>, i: int)
    requires Nondecreasing(times)
    requires 0 <= i && i + MaxOtpRequests < |Replay(times).1|
    ensures Replay(times).1[i + MaxOtpRequests] - Replay(times).1[i] >= TimeWindowMs
  {
    ReplayInvariant(times);
  }

  /** Nothing survives pruning when every timestamp is older than the window. */
  lemma {:induction false} RecentOfStale(ts: seq<int>, now: int)
    requires forall t :: t in ts ==> now - t >= TimeWindowMs
    ensures Recent(ts, now) == []
  {
    if ts != [] {
      assert ts[0] in ts;
      assert forall t :: t in ts[1..] ==> t in ts;
      RecentOfStale(ts[1..], now);
    }
  }

  /** A request after a quiet window always passes, and leaves only itself recorded. */
  lemma QuietWindowPasses(list: seq<int>, now: int)
    requires forall t :: t in list ==> now - t >= TimeWindowMs
    ensures KeyStep(list, now) == (true, [now])
  {
    RecentOfStale(list, now);
    assert Recent(list, now) + [now] == [now];
  }

  /** An entry of `otpStore`; an `expires` of None stands for NaN (an unparsable expiry setting). */
  datatype OtpRecord = OtpRecord(code: string, expires: Option<int>)

  /** `Math.floor(100000 + Math.random() * 900000)` for a random value in [0, 1). */
  function OtpValue(random: real): (v: nat)
    requires 0.0 <= random < 1.0
    ensures 100000 <= v <= 999999
  {
    (100000.0 + random * 900000.0).Floor
  }

  /** The code sent and stored: the six-digit rendering of `OtpValue`. */
  function OtpCode(random: real): (code: string)
    requires 0.0 <= random < 1.0
    ensures |code| == 6 && AllDigits(code) && code[0] != '0'
    ensures 100000 <= DigitsValue(code) <= 999999
  {
    var v := OtpValue(random);
    assert Pow10(5) == 100000 && Pow10(6) == 1000000;
    DecimalLength(v, 6);
    DecimalRoundTrip(v);
    Decimal(v)
  }

  /** `parseInt(process.env.OTP_EXPIRE_MINUTES || '10')`, None for NaN. */
  function ExpiryMinutes(setting: Option<string>): Option<int>
  {
    ParseInt(if Truthy(setting) then setting.value else "10", NoRadix)
  }

  /** `now + minutes * 60000`; NaN when the setting does not parse. */
  function Expiry(now: int, setting: Option<string>): (e: Option<int>)
    ensures e.None? <==> ExpiryMinutes(setting).None?
    ensures e.Some? ==> e.value == now + ExpiryMinutes(setting).value * 60000
  {
    var minutes := ExpiryMinutes(setting);
    if minutes.None? then None else Some(now + minutes.value * 60000)
  }

  /** Without a setting a code lives ten minutes. */
  lemma DefaultExpiry(now: int, setting: Option<string>)
    requires !Truthy(setting)
    ensures Expiry(now, setting) == Some(now + 600000)
  {
    ParseIntOfDecimal(10, [], NoRadix);
    assert Decimal(10) + [] == "10";
  }

  /** `Date.now() > record.expires`; a comparison with NaN is false. */
  predicate Expired(record: OtpRecord, now: int)
  {
    record.expires.Some? && now > record.expires.value
  }

  /** The property name a key value is looked up under: an undefined key becomes "undefined". */
  function PropertyName(key: Option<string>): (name: string)
    ensures key.Some? ==> name == key.value
  {
    if key.None? then "undefined" else key.value
  }

  /** `sendOtpToUser`'s write: a fresh record replaces any earlier one for the key. */
  function Issue(store: map<string, OtpRecord>, key: string, now: int, random: real, setting: Option<string>)
    : (r: map<string, OtpRecord>)
    requires 0.0 <= random < 1.0
    ensures r.Keys == store.Keys + {key}
    ensures forall k :: k in store && k != key ==> r[k] == store[k]
    ensures |r[key].code| == 6 && AllDigits(r[key].code) && 100000 <= DigitsValue(r[key].code) <= 999999
    ensures r[key].expires == Expiry(now, setting)
  {
    store[key := OtpRecord(OtpCode(random), Expiry(now, setting))]
  }

  /** The mail `sendOtpEmail` is asked to send. */
  datatype Mail = Mail(to: string, code: string)

  /** The registration and employer tables, keyed by `userName` and by `preferredUserId`. */
  datatype Accounts = Accounts(alumni: map<string, Registration>, employers: map<string, Employer>)

  /** The address a code for this key goes to: the alumnus's first, else the employer's. */
  function MailAddress(accounts: Accounts, key: string): (to: Option<string>)
    ensures to.None? <==> key !in accounts.alumni && key !in accounts.employers
    ensures key in accounts.alumni ==> to == Some(accounts.alumni[key].personalEmail)
    ensures key !in accounts.alumni && key in accounts.employers ==> to == Some(accounts.employers[key].companyEmail)
  {
    if key in accounts.alumni then Some(accounts.alumni[key].personalEmail)
    else if key in accounts.employers then Some(accounts.employers[key].companyEmail)
    else None
  }

  /** POST /api/forgot/find-user: 400 without a user name, 404 for an unknown alumnus, else the e-mail on file. */
  function FindUser(alumni: map<string, Registration>, userName: Option<string>): (r: Response<string>)
    ensures r == Fail(400) <==> !Truthy(userName)
    ensures r == Fail(404) <==> Truthy(userName) && userName.value !in alumni
    ensures r.Ok? ==> userName.value in alumni && r.body == alumni[userName.value].personalEmail
  {
    if !Truthy(userName) then Fail(400)
    else if userName.value !in alumni then Fail(404)
    else Ok(alumni[userName.value].personalEmail)
  }

  /** The address find-user shows an alumnus is the one a code for that user name is mailed to. */
  lemma FoundAddressIsMailed(accounts: Accounts, userName: Option<string>)
    requires FindUser(accounts.alumni, userName).Ok?
    ensures MailAddress(accounts, userName.value) == Some(FindUser(accounts.alumni, userName).body)
  {
  }

  /** The result of POST /api/forgot/send-otp: the answer, both dictionaries, and the mail sent. */
  datatype SendOutcome = SendOutcome(
    response: Response<()>, limits: map<string, seq<int>>, store: map<string, OtpRecord>, mail: Option<Mail>)

  /**
   * POST /api/forgot/send-otp: the limiter first (400, 429), then the alumnus or
   * employer lookup (404), then a code is stored and mailed. A mail that fails
   * is answered with 500 but the code stays stored. The handler's own check of
   * the key repeats the limiter's and never fires.
   */
  function SendOtp(limits: map<string, seq<int>>, store: map<string, OtpRecord>, accounts: Accounts,
                   userName: Option<string>, userId: Option<string>, now: int, random: real,
                   setting: Option<string>, delivered: bool)
    : (r: SendOutcome)
    requires 0.0 <= random < 1.0
    ensures r.limits == LimiterStep(limits, Or(userName, userId), now).1
    ensures LimiterStep(limits, Or(userName, userId), now).0 != Next ==>
              && r.response == Fail(LimiterStep(limits, Or(userName, userId), now).0.status)
              && r.mail.None? && r.store == store
    ensures LimiterStep(limits, Or(userName, userId), now).0 == Next ==>
              (r.mail.Some? <==> MailAddress(accounts, Or(userName, userId).value).Some?)
    ensures r.response == Fail(404) <==> && LimiterStep(limits, Or(userName, userId), now).0 == Next
                                         && MailAddress(accounts, Or(userName, userId).value).None?
    ensures r.response.Fail? ==> r.response.status in {400, 429, 404, 500}
    ensures r.response.Ok? ==> delivered
    ensures r.mail.None? ==> r.store == store && r.response.Fail?
    ensures r.mail.Some? ==>
              && LimiterStep(limits, Or(userName, userId), now).0 == Next
              && var key := Or(userName, userId).value;
                 && MailAddress(accounts, key) == Some(r.mail.value.to)
                 && r.store == Issue(store, key, now, random, setting)
                 && r.mail.value.code == r.store[key].code
                 && (r.response.Ok? <==> delivered)
  {
    var key := Or(userName, userId);
    var limited := LimiterStep(limits, key, now);
    if limited.0 != Next then SendOutcome(Fail(limited.0.status), limited.1, store, None)
    else
      var to := MailAddress(accounts, key.value);
      if to.None? then SendOutcome(Fail(404), limited.1, store, None)
      else
        var store' := Issue(store, key.value, now, random, setting);
        SendOutcome(if delivered then Ok(()) else Fail(500), limited.1, store', Some(Mail(to.value, store'[key.value].code)))
  }

  /**
   * POST /api/forgot/verify-otp: success exactly when a record exists under the
   * key, has not expired and holds the submitted code; the record is kept.
   */
  function VerifyOtp(store: map<string, OtpRecord>, userName: Option<string>, userId: Option<string>,
                     otp: Option<string>, now: int)
    : (r: Response<()>)
    ensures r.Fail? ==> r.status == 400
    ensures r.Ok? <==> var name := PropertyName(Or(userName, userId));
                       name in store && !Expired(store[name], now) && otp == Some(store[name].code)
  {
    var name := PropertyName(Or(userName, userId));
    if name !in store || Expired(store[name], now) || otp != Some(store[name].code) then Fail(400) else Ok(())
  }

  /** The mailed code verifies until its expiry, for a request naming the same user. */
  lemma MailedCodeVerifies(limits: map<string, seq<int>>, store: map<string, OtpRecord>, accounts: Accounts,
                           userName: Option<string>, userId: Option<string>, now: int, random: real,
                           setting: Option<string>, delivered: bool, later: int)
    requires 0.0 <= random < 1.0
    requires SendOtp(limits, store, accounts, userName, userId, now, random, setting, delivered).mail.Some?
    requires !Truthy(setting) && now <= later <= now + 600000
    ensures var sent := SendOtp(limits, store, accounts, userName, userId, now, random, setting, delivered);
            VerifyOtp(sent.store, userName, userId, Some(sent.mail.value.code), later).Ok?
  {
    DefaultExpiry(now, setting);
  }

  /** Any other code is refused. */
  lemma WrongCodeRefused(store: map<string, OtpRecord>, userName: Option<string>, userId: Option<string>,
                         otp: Option<string>, now: int)
    requires PropertyName(Or(userName, userId)) in store
    requires otp != Some(store[PropertyName(Or(userName, userId))].code)
    ensures VerifyOtp(store, userName, userId, otp, now) == Fail(400)
  {
  }

  /**
   * POST /api/forgot/reset-password: the registration row is updated first, else
   * the employer row; on a hit the key's code is deleted, otherwise 404 with the
   * store kept. An undefined key or password is refused by the driver (500).
   * The submitted OTP is not consulted.
   */
  function ResetPassword(store: map<string, OtpRecord>, accounts: Accounts,
                         userName: Option<string>, userId: Option<string>, newPassword: Option<string>)
    : (r: (Response<()>, map<string, OtpRecord>, Accounts))
    ensures r.0.Fail? ==> r.1 == store && r.2 == accounts && r.0.status in {404, 500}
    ensures r.0 == Fail(500) <==> Or(userName, userId).None? || newPassword.None?
    ensures r.0.Ok? ==>
              && var key := Or(userName, userId).value;
                 && r.1 == store - {key}
                 && r.2.alumni.Keys == accounts.alumni.Keys && r.2.employers.Keys == accounts.employers.Keys
                 && (key in accounts.alumni ==>
                       && r.2.alumni[key] == accounts.alumni[key].(passWord := newPassword.value)
                       && r.2.employers == accounts.employers)
                 && (key !in accounts.alumni ==>
                       && key in accounts.employers
                       && r.2.employers[key] == accounts.employers[key].(preferredPassword := Some(newPassword.value))
                       && r.2.alumni == accounts.alumni)
                 && (forall k :: k in accounts.alumni && k != key ==> r.2.alumni[k] == accounts.alumni[k])
                 && (forall k :: k in accounts.employers && k != key ==> r.2.employers[k] == accounts.employers[k])
    ensures r.0 == Fail(404) <==> && Or(userName, userId).Some? && newPassword.Some?
                                  && Or(userName, userId).value !in accounts.alumni
                                  && Or(userName, userId).value !in accounts.employers
  {
    var key := Or(userName, userId);
    if key.None? || newPassword.None? then (Fail(500), store, accounts)
    else if key.value in accounts.alumni then
      var row := accounts.alumni[key.value].(passWord := newPassword.value);
      (Ok(()), store - {key.value}, accounts.(alumni := accounts.alumni[key.value := row]))
    else if key.value in accounts.employers then
      var row := accounts.employers[key.value].(preferredPassword := Some(newPassword.value));
      (Ok(()), store - {key.value}, accounts.(employers := accounts.employers[key.value := row]))
    else (Fail(404), store, accounts)
  }

  /**
   * As written, the reset succeeds for any known account whatever the code
   * store holds: with no code issued at all, the password is still replaced.
   */
  lemma ResetIgnoresCodes(accounts: Accounts, userName: string, newPassword: string)
    requires userName != "" && userName in accounts.alumni
    ensures var r := ResetPassword(map[], accounts, Some(userName), None, Some(newPassword));
            && r.0.Ok?
            && r.2.alumni[userName].passWord == newPassword
  {
  }

  /**
   * The reset the flow calls for: the submitted code must verify for the key
   * (400 otherwise) before the password is replaced as `ResetPassword` does.
   */
  function VerifiedReset(store: map<string, OtpRecord>, accounts: Accounts, userName: Option<string>,
                         userId: Option<string>, otp: Option<string>, newPassword: Option<string>, now: int)
    : (r: (Response<()>, map<string, OtpRecord>, Accounts))
    ensures VerifyOtp(store, userName, userId, otp, now).Fail? ==> r == (Fail(400), store, accounts)
    ensures VerifyOtp(store, userName, userId, otp, now).Ok? ==>
              r == ResetPassword(store, accounts, userName, userId, newPassword)
  {
    if VerifyOtp(store, userName, userId, otp, now).Fail? then (Fail(400), store, accounts)
    else ResetPassword(store, accounts, userName, userId, newPassword)
  }

  /**
   * With the check in place a password changes only for the holder of a live
   * code: the code was issued for that very key, and it is used up.
   */
  lemma VerifiedResetNeedsCode(store: map<string, OtpRecord>, accounts: Accounts, userName: Option<string>,
                               userId: Option<string>, otp: Option<string>, newPassword: Option<string>, now: int)
    requires VerifiedReset(store, accounts, userName, userId, otp, newPassword, now).2 != accounts
    ensures var key := Or(userName, userId);
            && key.Some? && key.value in store
            && !Expired(store[key.value], now) && otp == Some(store[key.value].code)
            && key.value !in VerifiedReset(store, accounts, userName, userId, otp, newPassword, now).1
  {
  }

  /** The two in-memory dictionaries of the server. */
  class OtpService {
    var limits: map<string, seq<int>>
    var store: map<string, OtpRecord>

    /** No list is longer than the limit and every stored code has six digits. */
    ghost predicate Valid()
      reads this
    {
      && (forall k :: k in limits ==> |limits[k]| <= MaxOtpRequests)
      && (forall k :: k in store ==> |store[k].code| == 6 && AllDigits(store[k].code))
    }

    constructor ()
      ensures limits == map[] && store == map[]
      ensures Valid()
    {
      limits := map[];
      store := map[];
    }

    /** `otpLimiter`: prunes and stores the key's list, then refuses or records `now`. */
    method Limit(userName: Option<string>, userId: Option<string>, now: int) returns (g: Gate)
      requires Valid()
      modifies this
      ensures Valid()
      ensures (g, limits) == LimiterStep(old(limits), Or(userName, userId), now)
      ensures store == old(store)
    {
      var key := Or(userName, userId);
      if !Truthy(key) {
        return Deny(400);
      }
      var k := key.value;
      var pruned := Recent(if k in limits then limits[k] else [], now);
      limits := limits[k := pruned];
      if |pruned| >= MaxOtpRequests {
        return Deny(429);
      }
      limits := limits[k := pruned + [now]];
      assert limits == old(limits)[k := pruned + [now]];
      g := Next;
    }

    /** POST /api/forgot/send-otp, the limiter included. */
    method SendCode(accounts: Accounts, userName: Option<string>, userId: Option<string>, now: int,
                    random: real, setting: Option<string>, delivered: bool)
      returns (r: Response<()>, mail: Option<Mail>)
      requires Valid() && 0.0 <= random < 1.0
      modifies this
      ensures Valid()
      ensures SendOutcome(r, limits, store, mail)
              == SendOtp(old(limits), old(store), accounts, userName, userId, now, random, setting, delivered)
    {
      var g := Limit(userName, userId, now);
      if g != Next {
        return Fail(g.status), None;
      }
      var key := Or(userName, userId).value;
      var to := MailAddress(accounts, key);
      if to.None? {
        return Fail(404), None;
      }
      var code := OtpCode(random);
      store := store[key := OtpRecord(code, Expiry(now, setting))];
      mail := Some(Mail(to.value, code));
      r := if delivered then Ok(()) else Fail(500);
    }

    /** POST /api/forgot/verify-otp; the store is only read. */
    function Verify(userName: Option<string>, userId: Option<string>, otp: Option<string>, now: int)
      : (r: Response<()>)
      reads this
      ensures r.Ok? ==> PropertyName(Or(userName, userId)) in store
      ensures r == VerifyOtp(store, userName, userId, otp, now)
    {
      VerifyOtp(store, userName, userId, otp, now)
    }

    /** POST /api/forgot/reset-password: deletes the key's code on a successful update. */
    method Reset(accounts: Accounts, userName: Option<string>, userId: Option<string>, newPassword: Option<string>)
      returns (r: Response<()>, accounts': Accounts)
      requires Valid()
      modifies this
      ensures Valid()
      ensures (r, store, accounts') == ResetPassword(old(store), accounts, userName, userId, newPassword)
      ensures limits == old(limits)
    {
      var key := Or(userName, userId);
      if key.None? || newPassword.None? {
        return Fail(500), accounts;
      }
      var k := key.value;
      if k in accounts.alumni {
        accounts' := accounts.(alumni := accounts.alumni[k := accounts.alumni[k].(passWord := newPassword.value)]);
      } else if k in accounts.employers {
        accounts' := accounts.(employers := accounts.employers[k := accounts.employers[k].(preferredPassword := Some(newPassword.value))]);
      } else {
        return Fail(404), accounts;
      }
      store := store - {k};
      r := Ok(());
    }
  }
}
