# express-security-txt in Dafny

A model of the `middleware` class of express-security-txt (`index.js`), an
Express middleware that serves a security.txt policy. The class has three
parts, and the model keeps them:

- `validatePolicyFields` checks an options record guard by guard. It throws on a
  non-object, on a missing or falsy `contact`, on a set `encryption` that is not
  a string or whose scheme is `http://` in any letter case, and on a set
  `acknowledgement`, `signature`, `policy` or `hiring` that is not a string.
  Otherwise it returns `true`.
- `formatSecurityPolicy` validates first. It then fills a directive table in the
  fixed order Contact, Encryption, Acknowledgement, Signature, Policy, Hiring,
  wrapping a string contact in a one-element array. It pushes one
  `Field: value` line per array element or scalar, and joins the lines with
  `'\n'`.
- `setup(options = {})` renders the policy once, eagerly. It returns a handler
  that answers a GET (in any letter case) of `/security.txt` or
  `/.well-known/security.txt` with status 200, `text/plain` and the policy. Every
  other request goes to `next`.

Files:

- `js_strings.dfy` (module `JsStrings`): `toLowerCase`, `substr(0, n)`, `join`,
  and `split` as the inverse of a one-character join.
- `js_values.dfy` (module `JsValues`): JavaScript values as a tagged datatype
  (`Undefined | Null | Bool | Num | Str | Arr | Obj`). It also defines
  `typeof … === 'object'`, truthiness, property lookup and template-literal
  stringification, where an array shows as its elements joined by ','.
- `middleware.dfy` (module `Middleware`): the validator as a function, the
  renderer as methods with loops proved equal to the specification function
  `FormatPolicy`, and the handler and `setup`.
- `middleware_properties.dfy` (module `MiddlewareProperties`): the promised
  properties of the output and the errors.

An error is a `Result` value, never an exception. `Rejected(guard)` names the
validation check that threw. `NotIterable` is the `TypeError` that `forEach`
raises at index.js:66 when `contact` is a plain (non-array) object: that input
passes validation and then crashes. A `null` options value passes the `typeof`
check and throws a `TypeError` reading `.contact` (index.js:89). The model gives
this its own guard, `NullOptions`, which runs between the type check and the
contact check.

What index.js does not do, and so neither does the model:

- It writes no comment lines.
- It has no Expires, Preferred-Languages or Canonical directives.
- It has no Acknowledgments alias and gives no warning about one.
- It sends no 301 redirect from `/security.txt`: it serves both paths directly.
- It adds no newline after the last line.

The repository's tests expect a `Disclosure:` line and expect
`disclosure: 'abc'` to be rejected. index.js neither reads nor renders
`disclosure`, so the model ignores it; `UnreadPropertyIgnored` states this.

## Model

| member | source | states |
|---|---|---|
| `Middleware.ValidatePolicyFields` | index.js:84-120 | returns true only when no guard is violated; on failure, the error names a guard the options violate, and no guard earlier in the chain is violated (the first failing check wins) |
| `Middleware.HttpPrefixTest` | index.js:98 | `toLowerCase().substr(0, 7) === 'http://'` holds exactly when the first seven characters are `http://` in any letter case |
| `Middleware.FillPolicySetting` | index.js:34-61 | the table filled field by field equals the directive table: the contact (a string wrapped in a one-element array), then each set optional field in the fixed order |
| `Middleware.TableLinesFailureSticks` | index.js:64-72 | once an entry of the table throws, rendering the whole table throws that same error |
| `Middleware.PushElements` | index.js:65-68 | the `forEach` over an array value appends, in order, one `field: element` text per element (the texts of `EntryLines(field, value)`) after what was pushed before, and changes nothing else |
| `Middleware.FormatSecurityPolicy` | index.js:30-76 | the validate/fill/forEach/push/join procedure returns exactly `FormatPolicy(options)`: the validation error, the `forEach` error, or the table's lines joined by '\n' |
| `Middleware.LowerIsGet` | index.js:16 | `method.toLowerCase() === 'get'` holds exactly for the eight letter-case spellings of GET |
| `Middleware.Handle` | index.js:13-21 | the handler serves exactly the GET requests (any case) for `/security.txt` or `/.well-known/security.txt`, with status 200, `text/plain` and the precomputed policy; every other request calls `next` |
| `Middleware.Setup` | index.js:10-11 | setup fails with the rendering error when rendering fails, and otherwise returns a handler holding the rendered text; `setup()` with no options fails for lack of a contact |
| `MiddlewareProperties.ValidFieldsAreStrings` | index.js:93-117 | in options that pass validation, every set optional field is a string |
| `MiddlewareProperties.SingleEntryLines` | index.js:64-72 | a one-entry table renders as that entry does |
| `MiddlewareProperties.ContactEntryLines` | index.js:37-41 | the contact's table entry renders to one line for a string and one line per element for an array |
| `MiddlewareProperties.TableLinesAppend` | index.js:64-72 | rendering two tables one after the other renders each and concatenates the lines in order |
| `MiddlewareProperties.ObjectContactThrows` | index.js:65-66 | a plain-object contact makes rendering throw `NotIterable`, whatever follows it in the table |
| `MiddlewareProperties.TableThroughStep` | index.js:43-61 | adding one optional directive to the table adds its line, if it is set, after the lines already rendered |
| `MiddlewareProperties.TableThroughRenders` | index.js:37-72 | the partial table renders to the contact's lines followed by the lines of the optional fields considered so far |
| `MiddlewareProperties.RenderedLines` | index.js:37-72 | for valid options: the contact's lines, then one `Field: value` line per set optional field in the fixed directive order; a plain-object contact throws instead |
| `MiddlewareProperties.FormatFailsIffValidationFails` | index.js:30-32 | formatting fails with the validator's error whenever validation fails; for valid options it fails only on a plain-object contact; every rejection it reports is the validator's |
| `MiddlewareProperties.FieldLinesOrdered` | index.js:43-61 | the optional fields' lines are in strictly increasing directive order, each directive at most once |
| `MiddlewareProperties.LinesFollowDirectiveOrder` | index.js:37-72 | output lines follow Contact, Encryption, Acknowledgement, Signature, Policy, Hiring; only Contact may repeat |
| `MiddlewareProperties.ContactLinesFirst` | index.js:37-68 | the Contact lines are exactly the contact's own lines, all at the front; no later line is a Contact line |
| `MiddlewareProperties.ContactShapes` | index.js:37-72 | in the rendered lines, a string contact gives exactly one Contact line holding it, an array one Contact line per element holding its string form in array order, any other scalar one Contact line holding its string form; no later line is a Contact line |
| `MiddlewareProperties.OnlyStringContact` | index.js:37-75 | options holding only a non-empty string contact render to exactly `Contact: <value>` |
| `MiddlewareProperties.TextSplitsIntoLines` | index.js:74 | when no value contains a newline, splitting the policy text on '\n' gives back exactly its lines (no trailing newline); no lines give the empty text |
| `MiddlewareProperties.MissingContactRejected` | index.js:89-91 | an object or array whose `contact` is missing or falsy is rejected for the missing contact |
| `MiddlewareProperties.EncryptionRule` | index.js:93-120 | for object options with a truthy contact of any kind, a string `encryption`, and every other optional field unset or a string: validation succeeds exactly when the encryption's scheme is not `http://` in any letter case, and otherwise fails as not HTTPS |
| `MiddlewareProperties.EncryptionSchemeExamples` | index.js:98 | `http://…` and `HTTP://…` count as HTTP; `https://…` and `dns:abc` do not |
| `MiddlewareProperties.SetNonStringFieldRejected` | index.js:103-117 | a set acknowledgement, signature, policy or hiring that is not a string makes validation fail |
| `MiddlewareProperties.TableThroughAgree` | index.js:37-61 | options that contribute the same contact and the same optional entries get the same table |
| `MiddlewareProperties.SameGuardsSameVerdict` | index.js:84-120 | options that violate the same guards get the same validation result |
| `MiddlewareProperties.EquivalentOptionsViolateAlike` | index.js:84-120 | options that agree on their type, their contact and (up to being unset) every optional field break exactly the same checks |
| `MiddlewareProperties.EquivalentOptionsBehaveAlike` | index.js:30-120 | options that agree on their type, their contact and (up to being unset) every optional field validate and render identically, so the order of their keys cannot matter |
| `MiddlewareProperties.UnreadPropertyIgnored` | index.js:30-120 | adding a property the middleware does not read, such as `disclosure`, changes neither validation nor output |
| `MiddlewareProperties.FalsyFieldIgnored` | index.js:43-117 | a falsy optional field is neither checked nor rendered: it behaves exactly like an absent one |
| `JsValues.NumberString` | index.js:67-70 | `${n}` for an integer: a leading '-' exactly when `n` is negative, followed by decimal digits without a leading zero that denote the magnitude of `n` |
| `JsValues.ArrayStringJoin` | index.js:67-70 | `${a}` for an array is `a.join(',')`: each element's string form, `null` and `undefined` as nothing, with ',' between neighbours |
| `JsValues.ElementsStringJoin` | index.js:67-70 | the elements of an array from any index on stringify as their pieces joined by ',' |
| `JsValues.NatDigits` | index.js:67-70 | the digits `${n}` prints for a non-negative integer: decimal digits with no leading zero that denote exactly `n` |
| `JsStrings.SplitJoin` | index.js:74 | joining lines that contain no '\n' with '\n' and splitting again gives back the lines |
| `JsStrings.JoinLast` | index.js:74 | the last line closes the joined text after exactly one separator; nothing is added after it |

## Left out

- The Express `req`, `res` and `next` objects and the `res.status().header().send()` chain. The handler returns a `Response` value: `Serve(status, contentType, body)` or `CallNext`.
- A request whose `path` is not a string, and a `method` that is not a string. The model takes both as strings, so the `TypeError` that a missing `method` raises on a policy path is not modelled.
- JavaScript numbers other than integers: NaN, -0, fractions, and the exponent form `String` uses from 1e21 on. BigInt, symbols and functions are left out too. A function-valued `contact` would be stringified from its source text.
- Integers of magnitude 2^53 and above. A `Num` holds any integer and prints all its digits, but JavaScript cannot hold most such integers (2^53+1 is not a JavaScript number), and it prints the shortest digits that round-trip: `{contact: 2**60}` gives `Contact: 1152921504606847000` in JavaScript and `Contact: 1152921504606846976` in the model.
- Named properties on arrays. `Prop` reads named properties only from plain objects. An array options value that has a `contact` property set passes the contact check at index.js:89 and renders, but the model rejects it with `MissingContact`.
- The text of the thrown errors. An error is identified by the check that threw it (`Rejected(guard)`) or by `NotIterable`, not by its message string.
- Objects with their own `toString` or `forEach`, inherited properties, and array holes. An object is its own enumerable properties, held in a map, so the key order of the input is not represented. `EquivalentOptionsBehaveAlike` states that only the read fields matter.
- `toLowerCase` beyond ASCII. No other character lowercases into `http://` or `get`, so these two tests are exact.
