# Growatt-rs session client, modelled in Dafny

Growatt-rs is a small Rust client for the Growatt solar-inverter web service.
It has one component, `GrowattServer`. It keeps a server URL and a session: the
list of `cookie` header values and a `referer` URL, both taken from the
`set-cookie` headers of the login response. It offers three calls:

- `login` posts the credentials, rebuilds the session from the response
  headers, and accepts the body only when the JSON envelope reports success;
- `device_list_by_plant` sends the session and applies the same success test;
- `mix_system_status` sends the session and returns only the `obj` member of
  the JSON body, serialised again.

The `SOC` field of the `MixStatus` record arrives as a JSON string and is read
with Rust's `u32::from_str`.

The model has six modules.

- `Wrappers` holds `Option` and `Result`.
- `Json` holds serde_json's `Value` and the three accessors the client uses:
  `get`, indexing with `[]`, and `as_i64`. The parser and the serialiser are
  supplied from outside as a `JsonCodec` of two functions.
- `Envelope` holds `check_res`, the tail of `device_list_by_plant`, and the
  `obj` narrowing of `mix_system_status`.
- `DecimalU32` holds `u32::from_str` and the decoding of the `SOC` field.
- `Cookies` holds the two patterns `login` tests each `set-cookie` value
  against. Its specification functions give the cookie list and the referer
  that walking a header list produces.
- `Client` holds the class `GrowattServer`. It has the fields `serverUrl`,
  `cookie` and `referer`, and the login loop is a method that updates them in
  place. The requests are built from the state, and its invariant `Valid()` is
  that every stored value is visible ASCII. `Valid()` is why the
  `referer.parse().unwrap()` of the data calls cannot panic.

The cookie loop of `login` is split into two methods.

- `UpdateSession` is the loop. It clears the list, then walks the values with
  their `to_str` check.
- `TakeSetCookie` is one pass of the loop body.

`Login` is `UpdateSession` followed by the success test on the body. The
response headers and the body text are its parameters.

### Behaviour a caller might not expect

The model keeps each of these as the code has it.

- A login clears only the cookie list (src/lib.rs:154). The referer is never
  cleared, so a login whose response carries no session cookie keeps the
  referer of an earlier login (`Cookies.RefererKeptWithoutSession`).
- The session can end up holding only a `SERVERID` cookie together with the
  referer of an earlier login, neither empty nor built from one login
  (`Cookies.ServerOnlyExample`).
- When the success test of a login fails, the cookies just stored stay stored.
  `Client.GrowattServer.Login` states the new session on every path.
- If `to_str` rejects a `set-cookie` value, `login` returns the error at once,
  and the cookies stored before that value stay stored.
- A body without an `obj` member is not an error for `mix_system_status`:
  `v["obj"]` gives `Null`, so the answer is the text `null`
  (`Envelope.MixStatusMissingObjIsNull`).
- A value matching both patterns is stored twice (`Cookies.CookiesFromCount`).
- `MixStatus` is also read from a JSON array of its fields in order, with
  `SOC` second (`DecimalU32.SocFromArray`).

## Model

| member | source | states |
|---|---|---|
| Json.Get | src/lib.rs:114 | `Value::get`: the member of an object under the key, nothing for a missing key or any other value |
| Json.Index | src/lib.rs:216 | `v[key]`: the member as `get` finds it, `Null` when there is none |
| Json.AsI64 | src/lib.rs:114 | `as_i64`: the integer of an `Int` in the i64 range, nothing for any other value |
| Envelope.CheckRes | src/lib.rs:111-119 | the test is true exactly when the body parses to an object whose `result` is an integer in the i64 range and not 0 |
| Envelope.CheckResFailsClosed | src/lib.rs:112-116 | each way the envelope can be wrong gives false, never an error: no parse, no `result`, a `result` that is not an integer, an integer outside i64, or 0; any other i64 gives true |
| Envelope.CheckResOnlyResult | src/lib.rs:114 | two object bodies whose `result` members agree (both absent, or equal) get the same verdict, whatever else they contain |
| Envelope.DeviceListResult | src/lib.rs:243-248 | the body comes back unchanged exactly when the success test passes; otherwise the error is InvalidData "Succeed false" |
| Envelope.MixStatusResult | src/lib.rs:215-217 | an error (the serde_json syntax error) exactly when the body does not parse; otherwise the serialisation of the body's `obj` member, with `Null` when it is missing |
| Envelope.MixStatusIgnoresSiblings | src/lib.rs:215-216 | two object bodies with the same `obj` give the same answer, the serialised `obj` |
| Envelope.MixStatusMissingObjIsNull | src/lib.rs:216 | a body that parses but has no `obj` member gives `Ok("null")`, not an error |
| DecimalU32.Accumulate | src/lib.rs:23 | the digit loop succeeds exactly when every character is a digit and the value fits in 32 bits; the value is then the decimal value; a failure is never `Empty` |
| DecimalU32.AccumulateOverflow | src/lib.rs:23 | all-digit text whose value exceeds 2^32 - 1 is a PosOverflow error |
| DecimalU32.ParseU32 | src/lib.rs:22-23 | `u32::from_str` succeeds exactly on an optional `+` followed by one or more digits with a value of at most 2^32 - 1; the result is that value; Empty exactly for the empty string |
| DecimalU32.DecimalRoundTrip | src/lib.rs:16-24 | every 32-bit value is read back from its decimal text, with or without a leading `+` |
| DecimalU32.DecimalOverflow | src/lib.rs:16-24 | the decimal text of any value above 2^32 - 1 is an overflow error |
| DecimalU32.ParseOverflowExample | src/lib.rs:23 | "4294967296" is an overflow |
| DecimalU32.DecodeSoc | src/lib.rs:60-70 | for an object payload, `SOC` decodes exactly when its `SOC` member is a string `u32::from_str` accepts, with that value, and an absent `SOC` is a missing-field error; for an array payload the same holds of its second element, and an array of fewer than two elements is a length error; any other payload is the wrong type |
| DecimalU32.SocText | src/lib.rs:22-23 | one member decodes exactly when it is a JSON string `u32::from_str` accepts, with that value; a non-string is the wrong type; a rejected string carries the `u32::from_str` error kind |
| DecimalU32.SocFortyTwo | src/lib.rs:68-70 | the string "42" decodes to 42 |
| DecimalU32.SocNotANumber | src/lib.rs:68-70 | the string "abc" is an InvalidDigit error for the record |
| DecimalU32.SocOutOfRange | src/lib.rs:68-70 | the string "4294967296" is a PosOverflow error for the record |
| DecimalU32.SocWrongType | src/lib.rs:68-70 | a JSON number as `SOC`, or a null payload, is an invalid-type error |
| DecimalU32.SocFromArray | src/lib.rs:60-70 | a ten-element array whose second element is "42" decodes `SOC` as 42 |
| DecimalU32.SocArrayTooShort | src/lib.rs:60-70 | arrays of zero and one element are length errors |
| Cookies.FindSession | src/lib.rs:151 | the position found, at or after `k`, is a match of the session pattern |
| Cookies.RunFrom | src/lib.rs:151 | the greedy `[^;]+` run from `k` fits in the rest of the text, and is nonempty when the character at `k` is not `;` |
| Cookies.SessionId | src/lib.rs:159-162 | capture group 1 of `JSESSIONID=([^;]+)`; when present it is nonempty and no longer than the text after the key |
| Cookies.ContainsFrom | src/lib.rs:152 | a literal search that succeeds only where the pattern fits in the text from `k` |
| Cookies.HasServerId | src/lib.rs:167 | the `SERVERID=` test; it can only succeed on text at least as long as `SERVERID=` |
| Cookies.Contribution | src/lib.rs:159-169 | what one value adds to the cookie list: at most two entries, each the value itself, and none exactly when it matches neither pattern |
| Cookies.CookiesFrom | src/lib.rs:154-170 | the cookie list a walk leaves, at most two entries per walked value |
| Cookies.RefererAfter | src/lib.rs:155-163 | the referer a walk leaves: the old one, or the fixed referer prefix followed by a nonempty id |
| Cookies.FindSessionLeftmost | src/lib.rs:159 | the match found is a match, no match starts between `k` and it, and when nothing is found no position matches |
| Cookies.RunFromMaximal | src/lib.rs:151 | the captured run occurs right after the key, holds no `;`, and ends at a `;` or at the end |
| Cookies.SessionIdCaptures | src/lib.rs:159-162 | the pattern captures exactly when it matches somewhere; the capture is nonempty and is the maximal run after the leftmost match |
| Cookies.ContainsFromOccurs | src/lib.rs:167 | the literal search behind the `SERVERID=` test succeeds exactly when the pattern occurs somewhere at or after its start |
| Cookies.WalkStep | src/lib.rs:155-170 | one more value appends its contribution to the cookie list and, on a session match, overwrites the referer |
| Cookies.CookiesFromCount | src/lib.rs:154-170 | each value is in the list once per copy sent for each pattern it matches, and nothing else is in it |
| Cookies.CookiesFromAppend | src/lib.rs:155-170 | walking two header lists one after the other stores what walking them joined stores: order is kept |
| Cookies.CookiesFromSound | src/lib.rs:159-169 | every stored cookie was sent and matches one of the two patterns |
| Cookies.RefererFromLastSession | src/lib.rs:159-163 | the last value that matches the session pattern determines the referer |
| Cookies.RefererKeptWithoutSession | src/lib.rs:154-163 | with no session match the referer keeps its earlier value: it is never cleared |
| Cookies.SessionIdOfPrefixed | src/lib.rs:151 | `JSESSIONID=` then a `;`-free id then nothing or `;...` has exactly that id as its capture |
| Cookies.NoServerIdWithout | src/lib.rs:152 | text lacking a character of `SERVERID=` does not match the server-id pattern |
| Cookies.NoSessionWithout | src/lib.rs:151 | text lacking a character of `JSESSIONID=` does not match the session pattern |
| Cookies.HasServerIdOfPrefixed | src/lib.rs:152 | text starting with `SERVERID=` matches the server-id pattern |
| Cookies.ServerOnlyExample | src/lib.rs:154-170 | a lone `SERVERID=s1; Path=/` value is stored and the earlier referer is kept |
| Cookies.WalkSingleSession | src/lib.rs:159-169 | a lone value matching only the session pattern is stored once and sets the referer from its id |
| Cookies.ExampleSessionId | src/lib.rs:151 | `JSESSIONID=ABC123; Path=/` captures `ABC123` |
| Cookies.ExampleNoServerId | src/lib.rs:152 | `JSESSIONID=ABC123; Path=/` has no server id |
| Cookies.SessionExample | src/lib.rs:155-170 | that value alone is stored once and gives the referer `https://server.growatt.com/index;jsessionid=ABC123` |
| Client.MixStatusPage | src/lib.rs:189 | the status page is the fixed prefix followed by the plant id, unescaped, which can be read back |
| Client.DeviceListPage | src/lib.rs:224-227 | the device-list page is the prefix, the plant id unescaped, and `&currPage=1`; the plant id can be read back |
| Client.PagesInjective | src/lib.rs:189-227 | two plant ids give the same page exactly when they are equal, for each of the two pages |
| Client.VisibleAscii | src/lib.rs:156 | `HeaderValue::to_str` succeeds: every character is visible ASCII or a tab; such a value also passes `HeaderValue::from_str` |
| Client.HeaderValueParses | src/lib.rs:196 | `HeaderValue::from_str` (behind `referer.parse()`) succeeds: no control character other than a tab, and no DEL |
| Client.WalkLength | src/lib.rs:155-156 | the walk passes a prefix of values that `to_str` accepts, and stops at the first one it rejects |
| Client.SessionIdVisible | src/lib.rs:156-163 | the referer built from a value `to_str` accepts is visible ASCII |
| Client.RefererAfterVisible | src/lib.rs:155-163 | the referer left by a walk over accepted values, from a visible start, is visible ASCII |
| Client.SessionVisible | src/lib.rs:155-170 | everything a walk over accepted values stores, cookies and referer, is visible ASCII |
| Client.FreshClientHeaders | src/lib.rs:195-202 | before any login a data call sends only an empty `referer` header |
| Client.GrowattServer.constructor | src/lib.rs:102-109 | the production URL, no cookies, an empty referer, and the invariant holds |
| Client.GrowattServer.GetUrl | src/lib.rs:121-125 | the URL is the server URL followed directly by the page |
| Client.GrowattServer.SessionHeaders | src/lib.rs:195-202 | one `cookie` header per stored cookie, in order, then the `referer` header |
| Client.GrowattServer.SessionHeadersParse | src/lib.rs:196 | under the invariant every session header value passes `HeaderValue::from_str`, so the `unwrap` cannot fail |
| Client.GrowattServer.LoginRequest | src/lib.rs:132-145 | posts to the `login` page with exactly the form fields `account` and `password` |
| Client.GrowattServer.MixStatusRequest | src/lib.rs:189-203 | posts to the status page with the session headers and exactly the form field `mixSn` |
| Client.GrowattServer.DeviceListRequest | src/lib.rs:224-238 | posts to the device-list page with the session headers and no form |
| Client.GrowattServer.TakeSetCookie | src/lib.rs:159-169 | one value adds its contribution to the list and, on a session match, sets the referer from the captured id |
| Client.GrowattServer.UpdateSession | src/lib.rs:151-170 | the list is rebuilt from the values before the first one `to_str` rejects; the referer is the last session match among them, or the old referer; true exactly when no value is rejected; the invariant is kept |
| Client.GrowattServer.Login | src/lib.rs:127-182 | the session as `UpdateSession` leaves it on every path; a rejected value is the `to_str` error; otherwise the body when the success test passes and the "Missing success field" error when it fails |

## Left out

- The reqwest transport is left out: sending, reading the body, TLS, and the transport errors these raise through `?` (src/lib.rs:141-147, 172, 198-205, 212, 233-239, 243). The `set-cookie` values and the body text are parameters of `Login`.
- The HTTP status is not modelled. `login` ignores it apart from logging it.
- `async`/`await` is left out, and so is the unsynchronised sharing of the session between concurrent calls. There is no contract for them in the code.
- serde_json's parser and serialiser are not modelled. They are the two functions of a `JsonCodec`, and callers may state assumptions about them (for example that `Null` is written `null`).
- Envelope.MixStatusResult treats `serde_json::to_string` as total. Its error case cannot arise for a `Value`.
- `log::trace!` calls are left out: output only, no effect on state.
- `Default` for `GrowattServer` and `When` is left out. The first is `new`; the second reads the clock.
- DecimalU32.DecodeSoc: decodes the `SOC` field alone. The errors that the other fields of `MixStatus` can raise are not modelled, because those fields are floating point. serde may report such an error first, for example a missing `chargePower`, or an array with more or fewer than ten elements.
- `MixStatus` fields other than `SOC` are left out. They are `f32`, and floating point is not modelled; that includes the `utils::from_str` reads into `f32`.
- `DecimalU32.ParseU32` models the `u32::from_str` of current Rust: the empty string is `Empty`, a lone `+` or `-` is `InvalidDigit`, and each character is checked for being a digit before overflow is checked.
- The form encoding is left out. A `HashMap` payload is a Dafny `map`, so the model has no field order, as Rust's `HashMap` promises none.
- Client.GrowattServer.LoginRequest: the request carries the two fixed login headers, but its contract does not state them.
- Header values are Dafny strings, not bytes. `to_str` is modelled as "every character is visible ASCII or a tab"; a byte of 0x80 or above counts as rejected.
- `Regex::new(...).unwrap()` is left out. Both patterns are constants that compile, and the model states their matching directly.
- The tests at the end of src/lib.rs are left out. They need live credentials and the network.
