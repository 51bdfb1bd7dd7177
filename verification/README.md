# Shopify call-limit gate

A model of the credit-based admission gate a small Shopify API client puts in
front of every request. The client keeps one process-wide counter of API
credits, 40 at start. A caller may send a request only after it obtains a
credit, which succeeds while more than 5 credits remain and takes one. After
the response arrives, the counter is overwritten with `total - used`, read
from the response's call-limit header `"<used>/<total>"`. A missing header
counts as `"0/0"`. Each side is read with Ruby's `to_i`, so the parser never
fails: white space, a sign and the base-10 radix prefix `0d` are accepted
before the digits, and anything else reads as 0.

The modules follow the pieces of the client:

- `RubyString` (ruby_string.dfy): the parts of Ruby's `String#to_i` and
  `String#split` that the parser relies on.
- `CallLimit` (call_limit.dfy): `parse_credit_limit_from_response`.
- `CreditPool` (credit_pool.dfy): the counter, `obtain_credit` and the
  counter update of `set_credits_remaining_from_response`. Every change to the
  counter runs under one mutex. So any run of concurrent callers is a serial
  trace of whole operations (`Op`). `Run` folds `Step` over such a trace.
- `Admission` (admission.dfy): `wait_for_credits`. During each 10-second sleep,
  other callers run operations of their own. The model is given these as a
  finite schedule, one trace per sleep. If the schedule runs out before a
  credit is obtained, the result is `StillWaiting`.
- `Gateway` (gateway.dfy): `request` in both versions. The gist's version
  returns the raw response. The library's version decodes the body. The HTTP
  client and the JSON decoder are function parameters.
- `Wrappers` (wrappers.dfy): `Option` and `Result`.

The code refuses a credit at 5 or fewer, so from 40 credits 50 attempts obtain
35 and leave 5 (`CreditPool.InitialBudget`).

The header is looked up under the exact key the code uses,
`HTTP_X_SHOPIFY_SHOP_API_CALL_LIMIT`. Whether the HTTP client's response
headers ever hold that key is outside the model. When the key is absent, the
model shows the consequence: the counter drops to 0, and later callers wait
until some other response refreshes it (`Gateway.MissingHeaderStarves`).

## Model

| member | source | states |
|---|---|---|
| `RubyString.DigitRun` | lib/shopify.rb:91 | `to_i` reads the longest run of leading digits: the run is all digits, and the character after it is not a digit |
| `RubyString.ToI` | lib/shopify.rb:91 | `to_i` is negative only after a minus sign, and non-zero only when, after white space, a sign or a digit comes first |
| `RubyString.Decimal` | lib/shopify.rb:91 | the decimal digits of `n` are all digits, and they read back as `n` |
| `RubyString.Show` | lib/shopify.rb:91 | `to_i` of any integer's decimal form, sign included, is that integer |
| `RubyString.ToIOfDigitPrefix` | lib/shopify.rb:91 | `to_i` of digits followed by a non-digit is the value of the digits; what follows is ignored |
| `RubyString.ToIOfNegativeDigitPrefix` | lib/shopify.rb:91 | a leading minus sign negates the digits' value |
| `RubyString.ToISkipsSpace` | lib/shopify.rb:91 | leading white space does not change what `to_i` reads |
| `RubyString.ToIOfPositiveDigitPrefix` | lib/shopify.rb:91 | a leading plus sign leaves the digits' value unchanged |
| `RubyString.ToISignWithoutDigits` | lib/shopify.rb:91 | a sign followed by no digit, or by nothing, reads as 0 |
| `RubyString.ToIOfRadixPrefix` | lib/shopify.rb:91 | `to_i` skips a `0d` or `0D` prefix and reads the digits after it |
| `RubyString.ToINonNumeric` | lib/shopify.rb:91 | a side that starts with neither white space, a sign nor a digit reads as 0, and so does an empty side |
| `RubyString.Fields` | lib/shopify.rb:90 | cutting a string at every separator gives at least one field, empty fields included |
| `RubyString.FieldsCount` | lib/shopify.rb:90 | there is exactly one field more than there are separators |
| `RubyString.JoinOfFields` | lib/shopify.rb:90 | no field of `split` holds the separator, and joining the fields with it gives back the header |
| `RubyString.FieldsOfJoin` | lib/shopify.rb:90 | splitting fields joined by the separator gives back the fields, when none holds the separator |
| `RubyString.FieldsAtSeparator` | lib/shopify.rb:90 | a slash-free prefix followed by a slash is exactly the first field, and a slash-free string is one field |
| `RubyString.DropTrailingEmpty` | lib/shopify.rb:90 | `split` keeps a prefix of the fields that ends in a non-empty field, and every dropped field is empty |
| `RubyString.Split` | lib/shopify.rb:90 | `split('/')` gives parts that hold no slash, the last one non-empty; they are the leading fields, and only empty trailing fields are dropped |
| `CallLimit.ParseCreditLimit` | lib/shopify.rb:88-92 | the parser reads the first two fields of the header, or of `"0/0"` when there is none, with `to_i`; a missing second field reads as 0, like `nil.to_i`. With `ParseMissingHeader`, `ParseWithoutSlash`, `ParseHeader` and `ParseIgnoresExtraFields` it covers every header: absent, without a slash, with one slash, with more |
| `CallLimit.ParseMissingHeader` | lib/shopify.rb:89 | a missing header parses as 0 used of 0 |
| `CallLimit.ParseHeader` | lib/shopify.rb:90-91 | a header `a/b` with slash-free sides parses as (`a.to_i`, `b.to_i`) |
| `CallLimit.ParseIgnoresExtraFields` | lib/shopify.rb:90-91 | anything after a second slash is ignored |
| `CallLimit.ParseWithoutSlash` | lib/shopify.rb:90-91 | a header without a slash gives the used side and a total of 0 |
| `CallLimit.ParseRoundTrip` | lib/shopify.rb:88-92 | writing any pair of integers as `used/total` and parsing it gives the pair back |
| `CallLimit.ParseWellFormedExample` | lib/shopify.rb:88-92 | `"32/40"` parses as (32, 40) |
| `CallLimit.ParseNonNumericUsedExample` | lib/shopify.rb:90-91 | `"bad/40"` parses as (0, 40) |
| `CallLimit.ParseNonNumericTotalExample` | lib/shopify.rb:90-91 | `"5/bad"` parses as (5, 0) |
| `CallLimit.ParseMissingTotalExample` | lib/shopify.rb:90-91 | `"12"` parses as (12, 0) |
| `CallLimit.ParseExtraFieldExample` | lib/shopify.rb:90-91 | `"1/2/3"` parses as (1, 2) |
| `CallLimit.ParseScenarioExample` | lib/shopify.rb:88-92 | `"39/40"` parses as (39, 40) |
| `CallLimit.ParseRadixPrefixExample` | lib/shopify.rb:90-91 | `"0d5/40"` parses as (5, 40) |
| `CreditPool.ObtainCredit` | lib/shopify.rb:62-72 | a credit is granted iff more than 5 remain; a grant takes exactly one, and a refusal changes nothing |
| `CreditPool.SetCreditsRemaining` | lib/shopify.rb:77-83 | the counter becomes `total - used`, whatever it was before, negative when `used > total` |
| `CreditPool.Step` | lib/shopify.rb:62-83 | each critical section either takes one credit, changes nothing, or overwrites the counter with `total - used` |
| `CreditPool.Run` | lib/shopify.rb:63-80 | a trace grants at most one credit per operation; without refreshes, the counter falls by exactly the credits granted |
| `CreditPool.AcquiresOnly` | lib/shopify.rb:62-72 | `n` attempts from a counter at `c` grant `min(n, max(0, c - 5))` credits, and the counter falls by that many |
| `CreditPool.Exhaustion` | lib/shopify.rb:64-65 | enough attempts grant `max(0, c - 5)` credits and leave `min(c, 5)` |
| `CreditPool.InitialBudget` | lib/shopify.rb:4 | from the initial 40 credits, 50 attempts obtain 35 and leave 5 |
| `CreditPool.LastRefreshDecides` | lib/shopify.rb:79-80 | no lost updates: the final counter depends only on the last refresh and the credits granted after it, not on anything before |
| `CreditPool.RefreshThenAcquires` | lib/shopify.rb:62-83 | after a refresh to `t - u` and `n` attempts, the counter is `t - u - min(n, max(0, t - u - 5))` |
| `Admission.AfterSleepsIsOneTrace` | lib/shopify.rb:53-56 | the other callers' traces during the successive sleeps act on the counter as one serial trace, run in order |
| `Admission.WaitForCredits` | lib/shopify.rb:52-57 | each attempt sees the counter as the other callers left it, so failed attempts change nothing. The loop returns only after the first attempt that sees more than 5, taking one credit. If no attempt in the schedule succeeds, it is still waiting |
| `Admission.AcquiresNeverRaise` | gists/call_limit_mutex.rb:22-27 | while nobody refreshes, other callers' attempts never raise the counter |
| `Admission.StarvesWithoutRefresh` | gists/call_limit_mutex.rb:22-27 | a caller that finds 5 or fewer credits keeps waiting for as long as nobody refreshes |
| `Admission.ProgressAfterRefresh` | lib/shopify.rb:52-57 | blocked at 3 credits, a caller is admitted at its second attempt after a refresh reporting 0 of 40, leaving 39 |
| `Gateway.CallLimitOf` | lib/shopify.rb:89 | the header is present exactly when the response holds the call-limit key, and then it is that key's value |
| `Gateway.WithJsonHeaders` | gists/call_limit_mutex.rb:8 | the headers sent are exactly `Content-Type: application/json`, and the caller's body is kept |
| `Gateway.SetCreditsRemainingFromResponse` | gists/call_limit_mutex.rb:32-38 | the counter becomes `total - used` as parsed from the response's header |
| `Gateway.Request` | gists/call_limit_mutex.rb:7-19 | nothing is sent unless a credit was obtained. What is sent carries only the JSON header. The response comes back unchanged. The counter is refreshed from that response. A transport error leaves the credit taken and skips the refresh |
| `Gateway.RequestDecoded` | lib/shopify.rb:43-49 | the library's call is the same call, and it yields a decoded body exactly when the call completed |
| `Gateway.RefreshForgetsInFlight` | gists/call_limit_mutex.rb:17 | other callers' operations while a call is in flight do not affect the counter it leaves |
| `Gateway.CompletedWithHeader` | lib/shopify.rb:47 | a response whose header reads `used/total` leaves `total - used` credits |
| `Gateway.MissingHeaderStarves` | lib/shopify.rb:89 | a response without the header leaves 0 credits, and later callers wait until someone refreshes |
| `Gateway.AdmittedAtOnce` | lib/shopify.rb:53 | a caller that finds more than 5 credits is admitted at its first attempt |
| `Gateway.EndToEndScenario` | lib/shopify.rb:43-49 | from 40 credits, a call whose response reports `39/40` leaves 1 credit, whatever other callers did meanwhile |
| `Gateway.NextCallBlocks` | lib/shopify.rb:52-57 | at 1 credit the next attempt fails, and the next call blocks while nobody refreshes |

## Left out

- The business wrappers (`get_product`, `get_products_id_title`, `update_inventory`, `set_product_metafield_map`, lib/shopify.rb:8-40) only build JSON payloads and call `request`.
- Gateway.RequestDecoded: `JSON.parse` is a foreign library call and becomes the `decode` parameter; a decoding error, raised after the counter is refreshed (lib/shopify.rb:48), is not modelled. JSON encoding in the business wrappers is left out with them.
- Gateway.CallLimitOf: the header is found by an exact match of its name in the response's headers. The HTTP client matches header names without regard to case; that matching is not modelled.
- Gateway.WithJsonHeaders: `params[:headers] = ...` writes into the caller's own hash, so a caller that keeps its `params` finds its headers replaced after the call. The model's `Params` is a value and shows only the options that are sent. Every caller in lib/shopify.rb:9-39 passes a fresh hash, so the in-place update is not observable there.
- The base URL from `ENV["SHOPIFY_URL"]` and `File.join` are configuration. The transport receives the relative path.
- The HTTP client (`Excon`) is a function parameter. Its network errors become `Failure`. Any HTTP status is an ordinary response, as it is for the client by default.
- `sleep(10)` and `puts` have no effect on the counter and are left out.
- Threads and the `Mutex` are not modelled. The lock makes each critical section atomic, so concurrent runs are serial traces of `Op`.
- Admission.WaitForCredits: the loop in the code never gives up. The model stops when the finite schedule of other callers' operations runs out and reports `StillWaiting`. Termination is not claimed.
- RubyString.DigitRun: Ruby's `to_i` also accepts single `_` separators between digits (`"1_000"` reads as 1000). The model stops at the first `_`.
- Only the `GET`, `PUT`, `POST` and `DELETE` methods are named. The method is passed to the transport untouched.
