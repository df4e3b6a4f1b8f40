# Mailgun webhook verification (laravel-shield/mailgun)

The package is a single service. It decides whether an inbound Mailgun webhook
request is authentic. `verify` runs three checks in order:

1. The request method must be `POST`.
2. The claimed `timestamp` must be at most `tolerance` seconds from the
   current time, in the past or in the future. The tolerance defaults to
   60 * 5 seconds.
3. The request's `signature` must equal, character for character, the
   lower-case hex HMAC-SHA256 of the signed message. The message is the
   timestamp's decimal string immediately followed by the `token`. The key is
   the configured secret, which is the option named `token`.

`headers` returns the empty list, because the service requires no header.

The model has four modules:

- `Mailgun` (mailgun.dfy) holds the request and configuration values,
  `Verify`, `Headers` and the theorems about them. The clock is the parameter
  `now`. HMAC-SHA256 is the parameter `mac`, a function from (key, message)
  to the raw digest bytes. It also holds `Judge`, a specification-only
  function that labels which check turns a request away. The label follows
  the order of the code's `||` and early return. The service itself returns
  only a boolean, so callers cannot observe that order. `Judge` writes the
  window as two comparisons instead of `abs`, and `Verify`'s contract ties
  the boolean result to it.
- `Decimal` (decimal.dfy) models PHP's integer-to-string conversion, which
  the `.` operator applies to the timestamp. `ParseInt` is its inverse, and
  the round trip is proved.
- `Hex` (hex.dfy) models the lower-case hexadecimal text that `hash_hmac`
  returns. `FromHex` is its inverse, so distinct digests give distinct
  signatures.
- `Wrappers` (wrappers.dfy) holds `Option`, used for the optional tolerance
  and for parse results.

The signed message has no delimiter, so "12" + "3" and "1" + "23" are the
same message. `ResplitNeedsWideWindow` bounds what this allows for
non-negative timestamps. If two different requests share one signed message
and are both accepted at the same moment, the tolerance must be at least 4.5
times the smaller timestamp. For present-day clocks no realistic tolerance
allows that.

## Model

| member | source | states |
|---|---|---|
| `Mailgun.Verify` | src/Mailgun.php:16-35 | A request is accepted exactly when it passes all three checks in order: method POST, timestamp inside the closed window, signature equal to the expected one. |
| `Mailgun.Headers` | src/Mailgun.php:37-40 | No header name is required. |
| `Mailgun.Abs` | src/Mailgun.php:23 | The distance used for the window is the magnitude of `now - timestamp`, whichever side the timestamp lies on. |
| `Mailgun.ExpectedSignature` | src/Mailgun.php:28-32 | The computed signature is two lower-case hex characters per digest byte. |
| `Mailgun.Tolerance` | src/Mailgun.php:18 | The window is the configured tolerance, or 300 seconds when none is configured. |
| `Mailgun.SignedMessage` | src/Mailgun.php:30 | The signed message is the timestamp's decimal string immediately followed by the token, with no delimiter. |
| `Mailgun.NonPostRejected` | src/Mailgun.php:21-25 | A method other than POST is rejected whatever the timestamp and signature. `Judge` labels it with the method check, the first operand of the code's `||`. |
| `Mailgun.StaleRejected` | src/Mailgun.php:21-25 | A POST whose timestamp is more than the tolerance before or after `now` is rejected whatever its signature. `Judge` labels it with the age check, which the code runs before computing the signature. |
| `Mailgun.SignatureDecides` | src/Mailgun.php:28-34 | For a POST inside the window, acceptance holds exactly when the signature equals the hex HMAC of the decimal timestamp followed by the token. |
| `Mailgun.WindowBoundaryInclusive` | src/Mailgun.php:23 | For a non-negative tolerance, a correctly signed POST exactly `tolerance` seconds in the past or in the future is accepted, because the comparison is strict. |
| `Mailgun.NegativeToleranceRejectsAll` | src/Mailgun.php:18-25 | With a negative tolerance every request is rejected, because no distance is below zero. |
| `Mailgun.DefaultWindowIsFiveMinutes` | src/Mailgun.php:18-23 | With no tolerance configured, a correctly signed POST 300 seconds off either way is accepted and one 301 seconds off is rejected. |
| `Mailgun.Soundness` | src/Mailgun.php:21-34 | An accepted request is a POST, lies inside the window, and carries the hex HMAC of its own timestamp and token. |
| `Mailgun.ToleranceMonotone` | src/Mailgun.php:23 | A request accepted with some tolerance is accepted with any larger one. |
| `Mailgun.ForeignSignatureRejected` | src/Mailgun.php:28-34 | A signature computed for another timestamp and token is rejected whenever the HMAC of that message differs from the HMAC of this request's message. |
| `Mailgun.SignedMessageSplitsUniquely` | src/Mailgun.php:30 | When the two timestamp strings have the same length, the signed message determines both the timestamp and the token. |
| `Mailgun.SignedMessageBindsToken` | src/Mailgun.php:30 | For one timestamp, different tokens give different signed messages. |
| `Mailgun.SignedMessageBindsTimestamp` | src/Mailgun.php:30 | For one token, different timestamps give different signed messages. |
| `Mailgun.SignedMessageAmbiguous` | src/Mailgun.php:30 | Without a delimiter, timestamp 12 with token "3" and timestamp 1 with token "23" give the same message. |
| `Mailgun.ShorterSplitIsSmaller` | src/Mailgun.php:30 | If two non-negative splits of one message have timestamp strings of different lengths, the shorter timestamp is positive and at most a tenth of the longer. |
| `Mailgun.ResplitNeedsWideWindow` | src/Mailgun.php:21-34 | Two different accepted requests with non-negative timestamps and one signed message need a tolerance of at least 4.5 times the smaller timestamp. |
| `Mailgun.ServiceTestScenarios` | tests/Unit/ServiceTest.php:38-148 | These are the unit tests' outcomes for any clock, and for any HMAC that gives the "good" and "bad" messages different digests. Only POST of GET, PUT, PATCH, DELETE and POST is accepted. A request 61 s old with tolerance 60 is rejected. A signature made for token "good" is rejected on a request with token "bad". |
| `Decimal.NatToDigits` | src/Mailgun.php:30 | The decimal form of a natural number is a non-empty digit string that starts with '0' only for zero. |
| `Decimal.IntToString` | src/Mailgun.php:30 | The string form of an integer is canonical: an optional '-' only for negatives, and no leading zeros. |
| `Decimal.DigitsRoundTrip` | src/Mailgun.php:30 | Reading back the digits of a natural number gives that number. |
| `Decimal.IntRoundTrip` | src/Mailgun.php:30 | Parsing the string form of an integer gives that integer. |
| `Decimal.IntToStringInjective` | src/Mailgun.php:30 | Different timestamps have different string forms. |
| `Hex.ToHex` | src/Mailgun.php:28-32 | The hex text of a digest has two characters per byte, all in 0-9 and a-f. |
| `Hex.HexRoundTrip` | src/Mailgun.php:28-32 | Reading back the hex text of a digest gives the digest. |
| `Hex.ToHexInjective` | src/Mailgun.php:28-32 | Different digests have different hex text. |

## Left out

- HMAC-SHA256 itself (`hash_hmac`, a PHP built-in) is the parameter `mac`. Nothing is proved about SHA-256. Theorems that need two messages to have different MACs say so in their preconditions.
- The wall clock (`time()`) is the parameter `now`.
- The Laravel request and configuration objects are replaced by the `Request` and `Config` values. This covers `input(...)`, body parsing and `Collection::get`.
- The request method is the upper-case method the framework reports. Symfony's upper-casing in `isMethod` and its method-override mechanisms are not modelled.
- PHP loose typing is not modelled. The timestamp is an `int`, and the secret and signature are strings. So a timestamp sent as a string with leading zeros, a missing field, or a null secret, tolerance or signature is outside the model. In PHP such a timestamp is compared numerically but signed as written.
- Integers are unbounded. PHP's `time() - $timestamp` and `abs` switch to floating point past the 64-bit range, and that is not modelled.
- Strings are sequences of characters. The byte encoding PHP hashes is not modelled.
