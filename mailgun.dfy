/**
 * The Mailgun webhook check of laravel-shield: a request is authentic when it
 * is a POST, its claimed timestamp lies within the tolerance of the current
 * time (either side), and its signature is the lower-case hex HMAC-SHA256 of
 * the decimal timestamp immediately followed by the token, keyed with the
 * shared secret.
 *
 * The clock is the parameter `now`; HMAC-SHA256 is the parameter `mac`, the
 * raw digest `hash_hmac('sha256', message, key)` would hex-encode.
 */
module Mailgun {
  import opened Wrappers
  import Decimal
  import Hex

  /** HMAC-SHA256: (key, message) to raw digest bytes. */
  type Mac = (string, string) -> seq<Hex.byte>

  /** The fields the check reads from the inbound request. */
  datatype Request = Request(httpMethod: string, timestamp: int, token: string, signature: string)

  /** The service options: the signing secret (option `token`) and the optional `tolerance`. */
  datatype Config = Config(secret: string, tolerance: Option<int>)

  /** Seconds of clock skew allowed when the configuration names none. */
  const DefaultTolerance: int := 60 * 5

  /**
   * A specification-only label for the check that turns a request away. The
   * service returns only a boolean, so the order (method, then age, then
   * signature) is the order of its `||` and early return, not something a
   * caller can observe.
   */
  datatype Verdict = Accepted | WrongMethod | Stale | BadSignature

  /** The window in seconds: the configured tolerance, or five minutes when none is configured. */
  function Tolerance(config: Config): (t: int)
    ensures config.tolerance.None? ==> t == 300
    ensures config.tolerance.Some? ==> t == config.tolerance.value
  {
    config.tolerance.GetOr(DefaultTolerance)
  }

  /** PHP's `abs` on integers. */
  function Abs(x: int): (a: nat)
    ensures a == x || a == -x
  {
    if x < 0 then -x else x
  }

  /** The signed message: the timestamp's decimal string immediately followed by the token. */
  function SignedMessage(timestamp: int, token: string): (m: string)
    ensures |m| == |Decimal.IntToString(timestamp)| + |token|
    ensures m[..|Decimal.IntToString(timestamp)|] == Decimal.IntToString(timestamp)
    ensures m[|Decimal.IntToString(timestamp)|..] == token
  {
    Decimal.IntToString(timestamp) + token
  }

  /** The signature the service computes: lower-case hex of the HMAC of the signed message. */
  function ExpectedSignature(mac: Mac, secret: string, timestamp: int, token: string): (sig: string)
    ensures |sig| == 2 * |mac(secret, SignedMessage(timestamp, token))|
    ensures forall i :: 0 <= i < |sig| ==> Hex.IsLowerHex(sig[i])
  {
    Hex.ToHex(mac(secret, SignedMessage(timestamp, token)))
  }

  /** The three checks as separate outcomes, first failure first. */
  ghost function Judge(mac: Mac, request: Request, config: Config, now: int): Verdict {
    if request.httpMethod != "POST" then WrongMethod
    else if now - Tolerance(config) > request.timestamp || request.timestamp > now + Tolerance(config) then Stale
    else if request.signature != ExpectedSignature(mac, config.secret, request.timestamp, request.token) then BadSignature
    else Accepted
  }

  /** `verify`: true exactly when no check rejects the request. */
  function Verify(mac: Mac, request: Request, config: Config, now: int): (ok: bool)
    ensures ok <==> Judge(mac, request, config, now) == Accepted
  {
    if request.httpMethod != "POST" || Abs(now - request.timestamp) > Tolerance(config) then false
    else ExpectedSignature(mac, config.secret, request.timestamp, request.token) == request.signature
  }

  /** `headers`: the service requires no header. */
  function Headers(): (names: seq<string>)
    ensures forall name :: name !in names
  {
    []
  }

  /** Any method other than POST is turned away first, whatever the timestamp and signature. */
  lemma NonPostRejected(mac: Mac, request: Request, config: Config, now: int)
    requires request.httpMethod != "POST"
    ensures Judge(mac, request, config, now) == WrongMethod
    ensures !Verify(mac, request, config, now)
  {
  }

  /**
   * A POST whose timestamp is more than the tolerance in the past or in the
   * future is turned away for staleness, before its signature is looked at.
   */
  lemma StaleRejected(mac: Mac, request: Request, config: Config, now: int)
    requires request.httpMethod == "POST"
    requires request.timestamp < now - Tolerance(config) || request.timestamp > now + Tolerance(config)
    ensures Judge(mac, request, config, now) == Stale
    ensures !Verify(mac, request, config, now)
  {
  }

  /** For a POST inside the window, the signature alone decides. */
  lemma SignatureDecides(mac: Mac, request: Request, config: Config, now: int)
    requires request.httpMethod == "POST"
    requires now - Tolerance(config) <= request.timestamp <= now + Tolerance(config)
    ensures Verify(mac, request, config, now) <==>
      request.signature == Hex.ToHex(mac(config.secret, Decimal.IntToString(request.timestamp) + request.token))
  {
  }

  /** The window is closed: a timestamp exactly `tolerance` seconds away, either side, still passes. */
  lemma WindowBoundaryInclusive(mac: Mac, request: Request, config: Config, now: int)
    requires request.httpMethod == "POST"
    requires request.timestamp == now - Tolerance(config) || request.timestamp == now + Tolerance(config)
    requires Tolerance(config) >= 0
    requires request.signature == ExpectedSignature(mac, config.secret, request.timestamp, request.token)
    ensures Verify(mac, request, config, now)
  {
  }

  /** A negative tolerance turns every request away, since no distance is below zero. */
  lemma NegativeToleranceRejectsAll(mac: Mac, request: Request, config: Config, now: int)
    requires Tolerance(config) < 0
    ensures !Verify(mac, request, config, now)
  {
  }

  /**
   * Without a configured tolerance the window is five minutes: a correctly
   * signed POST 300 seconds off either way passes, one 301 seconds off does not.
   */
  lemma DefaultWindowIsFiveMinutes(mac: Mac, secret: string, token: string, now: int)
    ensures Verify(mac, Request("POST", now - 300, token, ExpectedSignature(mac, secret, now - 300, token)), Config(secret, None), now)
    ensures !Verify(mac, Request("POST", now - 301, token, ExpectedSignature(mac, secret, now - 301, token)), Config(secret, None), now)
    ensures Verify(mac, Request("POST", now + 300, token, ExpectedSignature(mac, secret, now + 300, token)), Config(secret, None), now)
    ensures !Verify(mac, Request("POST", now + 301, token, ExpectedSignature(mac, secret, now + 301, token)), Config(secret, None), now)
  {
  }

  /** Everything an accepted request must satisfy. */
  lemma Soundness(mac: Mac, request: Request, config: Config, now: int)
    requires Verify(mac, request, config, now)
    ensures request.httpMethod == "POST"
    ensures Abs(now - request.timestamp) <= Tolerance(config)
    ensures request.signature == Hex.ToHex(mac(config.secret, Decimal.IntToString(request.timestamp) + request.token))
  {
  }

  /** Widening the window never turns an accepted request away. */
  lemma ToleranceMonotone(mac: Mac, request: Request, secret: string, tolerance: int, wider: int, now: int)
    requires tolerance <= wider
    requires Verify(mac, request, Config(secret, Some(tolerance)), now)
    ensures Verify(mac, request, Config(secret, Some(wider)), now)
  {
  }

  /**
   * A signature made for some other timestamp and token is turned away
   * whenever the HMAC of that other message differs from the HMAC of this
   * request's own message.
   */
  lemma ForeignSignatureRejected(mac: Mac, request: Request, config: Config, now: int, timestamp: int, token: string)
    requires request.signature == ExpectedSignature(mac, config.secret, timestamp, token)
    requires mac(config.secret, SignedMessage(timestamp, token)) != mac(config.secret, SignedMessage(request.timestamp, request.token))
    ensures !Verify(mac, request, config, now)
  {
    Hex.ToHexInjective(mac(config.secret, SignedMessage(timestamp, token)),
                       mac(config.secret, SignedMessage(request.timestamp, request.token)));
  }

  /** When the two timestamps have decimal strings of one length, the signed message determines both fields. */
  lemma SignedMessageSplitsUniquely(t1: int, k1: string, t2: int, k2: string)
    requires |Decimal.IntToString(t1)| == |Decimal.IntToString(t2)|
    requires SignedMessage(t1, k1) == SignedMessage(t2, k2)
    ensures t1 == t2 && k1 == k2
  {
    var a, b := Decimal.IntToString(t1), Decimal.IntToString(t2);
    var m := SignedMessage(t1, k1);
    assert a == m[..|a|] == b;
    Decimal.IntToStringInjective(t1, t2);
    assert k1 == m[|a|..] == k2;
  }

  /** For one timestamp, different tokens give different signed messages. */
  lemma SignedMessageBindsToken(timestamp: int, k1: string, k2: string)
    requires k1 != k2
    ensures SignedMessage(timestamp, k1) != SignedMessage(timestamp, k2)
  {
  }

  /** For one token, different timestamps give different signed messages. */
  lemma SignedMessageBindsTimestamp(t1: int, t2: int, token: string)
    requires t1 != t2
    ensures SignedMessage(t1, token) != SignedMessage(t2, token)
  {
    if SignedMessage(t1, token) == SignedMessage(t2, token) {
      SignedMessageSplitsUniquely(t1, token, t2, token);
    }
  }

  /** Without a delimiter the message can be split two ways: "12" + "3" and "1" + "23". */
  lemma SignedMessageAmbiguous()
    ensures SignedMessage(12, "3") == SignedMessage(1, "23")
  {
    assert Decimal.NatToDigits(12) == Decimal.NatToDigits(1) + ['2'];
  }

  /** A shorter non-negative timestamp that is a prefix of a longer one is at least ten times smaller. */
  lemma ShorterSplitIsSmaller(t1: int, k1: string, t2: int, k2: string)
    requires 0 <= t1 && 0 <= t2
    requires SignedMessage(t1, k1) == SignedMessage(t2, k2)
    requires |Decimal.IntToString(t1)| < |Decimal.IntToString(t2)|
    ensures 0 < t1 && 10 * t1 <= t2
  {
    var a, b := Decimal.IntToString(t1), Decimal.IntToString(t2);
    var m := SignedMessage(t1, k1);
    assert a == m[..|a|] && b == m[..|b|];
    var rest := b[|a|..];
    assert b == a + rest;
    Decimal.AppendDigitsGrows(a, rest);
    Decimal.DigitsRoundTrip(t1);
    Decimal.DigitsRoundTrip(t2);
  }

  /**
   * Two different non-negative splits of one signed message have timestamps
   * that differ at least ninefold the smaller one, so both can be accepted at
   * the same moment only with a window of that order: for present-day clocks
   * (about 1.7e9 seconds) no realistic tolerance admits such a re-split.
   */
  lemma ResplitNeedsWideWindow(mac: Mac, r1: Request, r2: Request, config: Config, now: int)
    requires r1.timestamp >= 0 && r2.timestamp >= 0
    requires (r1.timestamp, r1.token) != (r2.timestamp, r2.token)
    requires SignedMessage(r1.timestamp, r1.token) == SignedMessage(r2.timestamp, r2.token)
    requires Verify(mac, r1, config, now) && Verify(mac, r2, config, now)
    ensures 9 * (if r1.timestamp < r2.timestamp then r1.timestamp else r2.timestamp) <= 2 * Tolerance(config)
  {
    var t1, t2 := r1.timestamp, r2.timestamp;
    var n1, n2 := |Decimal.IntToString(t1)|, |Decimal.IntToString(t2)|;
    if n1 == n2 {
      SignedMessageSplitsUniquely(t1, r1.token, t2, r2.token);
      assert false;
    } else if n1 < n2 {
      ShorterSplitIsSmaller(t1, r1.token, t2, r2.token);
    } else {
      ShorterSplitIsSmaller(t2, r2.token, t1, r1.token);
    }
  }

  /**
   * The outcomes the service's unit tests expect, for any clock and for any
   * HMAC that gives the "good" and "bad" messages different digests.
   */
  lemma ServiceTestScenarios(mac: Mac, now: int)
    requires mac("good", SignedMessage(now, "good")) != mac("good", SignedMessage(now, "bad"))
    ensures forall m :: m in ["GET", "PUT", "PATCH", "DELETE", "POST"] ==>
      (Verify(mac, Request(m, now, "raNd0mk3y", ExpectedSignature(mac, "raNd0mk3y", now, "raNd0mk3y")),
               Config("raNd0mk3y", None), now)
       <==> m == "POST")
    ensures !Verify(mac, Request("POST", now - 61, "raNd0mk3y", ExpectedSignature(mac, "raNd0mk3y", now - 61, "raNd0mk3y")),
                    Config("raNd0mk3y", Some(60)), now)
    ensures !Verify(mac, Request("POST", now, "bad", ExpectedSignature(mac, "good", now, "good")), Config("good", None), now)
  {
    ForeignSignatureRejected(mac, Request("POST", now, "bad", ExpectedSignature(mac, "good", now, "good")),
                             Config("good", None), now, now, "good");
  }
}
