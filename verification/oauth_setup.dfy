/**
  The OAuth device-flow setup (`setup_oauth.py`): the credential check, the device-code
  reply, the token polling loop with its growing interval, and the `oauth.json` record.

  The two HTTP endpoints are not called: the device-code reply and the sequence of token
  replies are parameters, and the loop stops when the given replies run out.
*/
module OAuthSetup {
  import opened Wrappers
  import opened Text

  /** The JSON values the script looks at; numbers are integers. */
  datatype Json = Str(s: string) | Num(n: int) | Null

  /** A decoded JSON object. */
  type Response = map<string, Json>

  /** Python's `response.get(key, default)`. */
  function Get(r: Response, key: string, default: Json): Json {
    if key in r then r[key] else default
  }

  const DefaultInterval: nat := 5
  const SlowDownStep: nat := 2
  const YouTubeScope: string := "https://www.googleapis.com/auth/youtube"

  // ---------------------------------------------------------------------------
  // The device-code reply
  // ---------------------------------------------------------------------------

  datatype Start =
    | DeviceError(msg: Json)                  // the reply carries "error"
    | Malformed                               // a key is missing or the interval cannot be slept
    | Polling(deviceCode: Json, interval: nat)

  /**
    What the script makes of the device-code reply: an `error` key aborts with its
    description (or the error itself); otherwise the three codes must be present and the
    interval, 5 seconds by default, must be a number `time.sleep` accepts.
  */
  function StartPolling(code: Response): (s: Start)
    ensures s.DeviceError? <==> "error" in code
    ensures s.DeviceError? ==> s.msg == (if "error_description" in code then code["error_description"] else code["error"])
    ensures s.Polling? <==>
              && "error" !in code
              && "device_code" in code && "user_code" in code && "verification_url" in code
              && (Get(code, "interval", Num(DefaultInterval)).Num? && Get(code, "interval", Num(DefaultInterval)).n >= 0)
    ensures s.Polling? ==> s.deviceCode == code["device_code"]
    ensures s.Polling? ==> ("interval" !in code ==> s.interval == DefaultInterval)
    ensures s.Polling? ==> ("interval" in code ==> code["interval"] == Num(s.interval))
  {
    if "error" in code then
      DeviceError(Get(code, "error_description", code["error"]))
    else if "device_code" !in code || "user_code" !in code || "verification_url" !in code then
      Malformed
    else
      match Get(code, "interval", Num(DefaultInterval))
      case Num(n) => if n >= 0 then Polling(code["device_code"], n) else Malformed
      case _ => Malformed
  }

  // ---------------------------------------------------------------------------
  // One token reply
  // ---------------------------------------------------------------------------

  datatype Verdict =
    | Granted(tokens: Response)  // the reply carries access and refresh tokens
    | Denied                     // access_denied
    | Expired                    // expired_token
    | Failed(msg: Json)          // any other error, with its description
    | Crashed                    // an access token without a refresh token: a KeyError
    | Waiting                    // the given replies ran out while still polling

  datatype Step = Done(verdict: Verdict) | Retry(interval: nat)

  /** The pending and slow-down errors keep the loop going; every other reply ends it. */
  function Classify(r: Response, interval: nat): (s: Step)
    ensures s.Retry? <==> "access_token" !in r
                          && Get(r, "error", Null) in {Str("authorization_pending"), Str("slow_down")}
    ensures s.Retry? ==> s.interval == if Get(r, "error", Null) == Str("slow_down") then interval + SlowDownStep else interval
    ensures s == Done(Crashed) <==> "access_token" in r && "refresh_token" !in r
    ensures s.Done? && s.verdict.Granted? <==> "access_token" in r && "refresh_token" in r
    ensures s.Done? && s.verdict.Granted? ==> s.verdict.tokens == r
    ensures s.Done? ==> s.verdict != Waiting
  {
    if "access_token" in r then
      if "refresh_token" in r then Done(Granted(r)) else Done(Crashed)
    else if Get(r, "error", Null) == Str("authorization_pending") then
      Retry(interval)
    else if Get(r, "error", Null) == Str("slow_down") then
      Retry(interval + SlowDownStep)
    else if Get(r, "error", Null) == Str("access_denied") then
      Done(Denied)
    else if Get(r, "error", Null) == Str("expired_token") then
      Done(Expired)
    else
      Done(Failed(Get(r, "error_description", Get(r, "error", Str("Unknown error")))))
  }

  // ---------------------------------------------------------------------------
  // The polling loop
  // ---------------------------------------------------------------------------

  /**
    The loop over the token replies `rs` starting at `interval`: the verdict and the
    length of every sleep, one sleep before each request.
  */
  function Poll(rs: seq<Response>, interval: nat): (p: (Verdict, seq<nat>))
    ensures |p.1| <= |rs|
    ensures p.0 == Waiting <==> |p.1| == |rs| && forall j :: 0 <= j < |rs| ==> Classify(rs[j], 0).Retry?
    ensures p.0 != Waiting ==> |p.1| >= 1
    ensures |p.1| >= 1 ==> p.1[0] == interval
    ensures p.0.Granted? ==> "access_token" in p.0.tokens && "refresh_token" in p.0.tokens
  {
    if rs == [] then (Waiting, [])
    else match Classify(rs[0], interval)
      case Done(v) =>
        assert !Classify(rs[0], 0).Retry?;
        (v, [interval])
      case Retry(next) =>
        var rest := Poll(rs[1..], next);
        assert forall j :: 1 <= j < |rs| ==> rs[j] == rs[1..][j - 1];
        (rest.0, [interval] + rest.1)
  }

  /** The loop of `main`: sleep, ask for the token, act on the reply. */
  method PollForToken(rs: seq<Response>, interval: nat) returns (verdict: Verdict, sleeps: seq<nat>)
    ensures verdict == Poll(rs, interval).0 && sleeps == Poll(rs, interval).1
  {
    var i := 0;
    var current: nat := interval;
    sleeps := [];
    assert rs[0..] == rs;
    while i < |rs|
      invariant 0 <= i <= |rs|
      invariant Poll(rs[i..], current).0 == Poll(rs, interval).0
      invariant sleeps + Poll(rs[i..], current).1 == Poll(rs, interval).1
    {
      assert rs[i..][0] == rs[i] && rs[i..][1..] == rs[i + 1..];
      sleeps := sleeps + [current];
      var reply := rs[i];
      if "access_token" in reply {
        if "refresh_token" !in reply {
          return Crashed, sleeps;
        }
        return Granted(reply), sleeps;
      } else if Get(reply, "error", Null) == Str("authorization_pending") {
      } else if Get(reply, "error", Null) == Str("slow_down") {
        current := current + SlowDownStep;
      } else if Get(reply, "error", Null) == Str("access_denied") {
        return Denied, sleeps;
      } else if Get(reply, "error", Null) == Str("expired_token") {
        return Expired, sleeps;
      } else {
        return Failed(Get(reply, "error_description", Get(reply, "error", Str("Unknown error")))), sleeps;
      }
      i := i + 1;
    }
    verdict := Waiting;
  }

  /** The number of slow-down replies among the first `n` replies. */
  function SlowDowns(rs: seq<Response>, n: nat): nat
    requires n <= |rs|
  {
    if n == 0 then 0
    else SlowDowns(rs, n - 1) + (if Get(rs[n - 1], "error", Null) == Str("slow_down") then 1 else 0)
  }

  /** Each sleep is the starting interval plus two seconds for every slow-down received before it. */
  lemma {:induction false} SleepsGrowBySlowDowns(rs: seq<Response>, interval: nat, j: nat)
    requires j < |Poll(rs, interval).1|
    ensures Poll(rs, interval).1[j] == interval + SlowDownStep * SlowDowns(rs, j)
  {
    if j > 0 {
      var next := Classify(rs[0], interval).interval;
      SleepsGrowBySlowDowns(rs[1..], next, j - 1);
      SlowDownsShift(rs, j);
    }
  }

  /** Counting slow-downs from the second reply on. */
  lemma {:induction false} SlowDownsShift(rs: seq<Response>, n: nat)
    requires 1 <= n <= |rs|
    ensures SlowDowns(rs, n)
            == (if Get(rs[0], "error", Null) == Str("slow_down") then 1 else 0) + SlowDowns(rs[1..], n - 1)
  {
    if n > 1 {
      SlowDownsShift(rs, n - 1);
      assert rs[1..][n - 2] == rs[n - 1];
    }
  }

  /** The interval never shrinks: the sleeps are in non-decreasing order. */
  lemma {:induction false} SleepsNonDecreasing(rs: seq<Response>, interval: nat)
    ensures forall j :: 0 < j < |Poll(rs, interval).1| ==> Poll(rs, interval).1[j - 1] <= Poll(rs, interval).1[j]
  {
    if rs != [] && Classify(rs[0], interval).Retry? {
      var next := Classify(rs[0], interval).interval;
      SleepsNonDecreasing(rs[1..], next);
    }
  }

  /** Polling stops at the first reply that is neither pending nor slow-down: later replies are never requested. */
  lemma {:induction false} StopsAtFirstVerdict(rs: seq<Response>, more: seq<Response>, interval: nat)
    requires Poll(rs, interval).0 != Waiting
    ensures Poll(rs + more, interval) == Poll(rs, interval)
  {
    assert (rs + more)[0] == rs[0];
    if Classify(rs[0], interval).Retry? {
      assert (rs + more)[1..] == rs[1..] + more;
      StopsAtFirstVerdict(rs[1..], more, Classify(rs[0], interval).interval);
    }
  }

  /** One request per sleep: the reply that ends the loop is the last one requested. */
  lemma {:induction false} VerdictFromLastRequest(rs: seq<Response>, interval: nat)
    requires Poll(rs, interval).0 != Waiting
    ensures var n := |Poll(rs, interval).1|;
            && Classify(rs[n - 1], Poll(rs, interval).1[n - 1]) == Done(Poll(rs, interval).0)
            && forall j :: 0 <= j < n - 1 ==> Classify(rs[j], 0).Retry?
  {
    if Classify(rs[0], interval).Retry? {
      var next := Classify(rs[0], interval).interval;
      VerdictFromLastRequest(rs[1..], next);
      var n := |Poll(rs, interval).1|;
      assert rs[n - 1] == rs[1..][n - 2];
      forall j | 1 <= j < n - 1 ensures Classify(rs[j], 0).Retry? {
        assert rs[j] == rs[1..][j - 1];
      }
    }
  }

  // ---------------------------------------------------------------------------
  // The saved record and the whole script
  // ---------------------------------------------------------------------------

  /**
    `oauth_data`: both tokens from the reply, token type, lifetime and scope from the reply
    or their defaults, and the client credentials as entered.
  */
  function OAuthRecord(tokens: Response, clientId: string, clientSecret: string): (rec: map<string, Json>)
    requires "access_token" in tokens && "refresh_token" in tokens
    ensures rec.Keys == {"access_token", "refresh_token", "token_type", "expires_in", "scope", "client_id", "client_secret"}
    ensures rec["access_token"] == tokens["access_token"] && rec["refresh_token"] == tokens["refresh_token"]
    ensures rec["token_type"] == Get(tokens, "token_type", Str("Bearer"))
    ensures rec["expires_in"] == Get(tokens, "expires_in", Num(3600))
    ensures rec["scope"] == Get(tokens, "scope", Str(YouTubeScope))
    ensures rec["client_id"] == Str(clientId) && rec["client_secret"] == Str(clientSecret)
  {
    map[
      "access_token" := tokens["access_token"],
      "refresh_token" := tokens["refresh_token"],
      "token_type" := Get(tokens, "token_type", Str("Bearer")),
      "expires_in" := Get(tokens, "expires_in", Num(3600)),
      "scope" := Get(tokens, "scope", Str(YouTubeScope)),
      "client_id" := Str(clientId),
      "client_secret" := Str(clientSecret)
    ]
  }

  datatype OAuthOutcome =
    | MissingCredentials              // an empty client id or secret: exit 1 before any request
    | DeviceCodeError(msg: Json)      // the device-code reply carried an error: exit 1
    | Aborted                         // a KeyError or a sleep that raised: an uncaught exception
    | Saved(record: map<string, Json>)
    | AccessDenied
    | CodeExpired
    | TokenError(msg: Json)
    | StillWaiting                    // the given replies ran out

  /**
    `main`: `idInput` and `secretInput` are the two typed lines, `code` the device-code reply
    and `rs` the token replies in order. `requests` counts the HTTP requests made.
  */
  method RunOAuthSetup(idInput: string, secretInput: string, code: Response, rs: seq<Response>)
    returns (outcome: OAuthOutcome, requests: nat)
    ensures var id, secret := Strip(idInput), Strip(secretInput);
            && (outcome == MissingCredentials <==> id == "" || secret == "")
            && (outcome == MissingCredentials <==> requests == 0)
            && (outcome.DeviceCodeError? <==> id != "" && secret != "" && "error" in code)
            && (outcome.DeviceCodeError? ==> StartPolling(code) == DeviceError(outcome.msg))
            && (outcome.Saved? ==>
                  && StartPolling(code).Polling?
                  && Poll(rs, StartPolling(code).interval).0.Granted?
                  && outcome.record == OAuthRecord(Poll(rs, StartPolling(code).interval).0.tokens, id, secret))
            && ((outcome.Saved? || outcome == AccessDenied || outcome == CodeExpired || outcome.TokenError? || outcome == StillWaiting)
                  ==> StartPolling(code).Polling? && requests == 1 + |Poll(rs, StartPolling(code).interval).1|)
            && (outcome == AccessDenied ==> Poll(rs, StartPolling(code).interval).0 == Denied)
            && (outcome == CodeExpired ==> Poll(rs, StartPolling(code).interval).0 == Expired)
            && (outcome.TokenError? ==> Poll(rs, StartPolling(code).interval).0 == Failed(outcome.msg))
            && (outcome == StillWaiting ==> Poll(rs, StartPolling(code).interval).0 == Waiting)
    ensures var id, secret, start := Strip(idInput), Strip(secretInput), StartPolling(code);
            outcome == Aborted <==>
              id != "" && secret != "" && "error" !in code
              && (start.Malformed? || (start.Polling? && Poll(rs, start.interval).0 == Crashed))
    ensures var id, secret, start := Strip(idInput), Strip(secretInput), StartPolling(code);
            id != "" && secret != "" && start.Polling? ==>
              var verdict := Poll(rs, start.interval).0;
              && (outcome.Saved? <==> verdict.Granted?)
              && (outcome == AccessDenied <==> verdict == Denied)
              && (outcome == CodeExpired <==> verdict == Expired)
              && (outcome.TokenError? <==> verdict.Failed?)
              && (outcome == StillWaiting <==> verdict == Waiting)
  {
    var clientId := Strip(idInput);
    var clientSecret := Strip(secretInput);
    if clientId == "" || clientSecret == "" {
      return MissingCredentials, 0;
    }
    requests := 1;
    var start := StartPolling(code);
    match start
    case DeviceError(msg) =>
      return DeviceCodeError(msg), requests;
    case Malformed =>
      return Aborted, requests;
    case Polling(_, interval) =>
      var verdict, sleeps := PollForToken(rs, interval);
      requests := requests + |sleeps|;
      match verdict
      case Granted(tokens) =>
        outcome := Saved(OAuthRecord(tokens, clientId, clientSecret));
      case Denied =>
        outcome := AccessDenied;
      case Expired =>
        outcome := CodeExpired;
      case Failed(msg) =>
        outcome := TokenError(msg);
      case Crashed =>
        outcome := Aborted;
      case Waiting =>
        outcome := StillWaiting;
  }
}
