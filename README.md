# Avatar derivation and mouse-tracker state, modelled in Dafny

This project models two pieces of a small realtime demonstration web
application.

- **lib/avatars.ts** turns a user id into a DiceBear avatar URL.
  - `hashCode` is the 32-bit string hash: `hash = ((hash << 5) - hash) + char; hash = hash & hash` over the UTF-16 code units.
  - `getUserAvatar` picks one of six styles with `|hashCode(id)| % 6` and one of eight background colours with `|hashCode(id + 'color')| % 8`.
  - `generateAvatar` fills in missing configuration fields. The style defaults to `adventurer`; the colour and the seed default to random draws.
  - It then writes `https://api.dicebear.com/7.x/<style>/svg?` followed by the `URLSearchParams` serialization of `seed`, `backgroundColor`, `radius=50` and `size=128`.
- **app/mouse/page.tsx** is the shared mouse tracker page. Its state is:
  - a log of movement rows received from the database;
  - the local user id, which starts unset;
  - a status text.

  A local move sends an insert request, but only once an id is known. The realtime INSERT handler appends the echoed row to the log. "Clear" empties the log. Each render draws one dot per row: blue for the local id, red for everyone else. Rendering then sets the status back to `Idle`.

The project has four modules:

- `JsRuntime` (js_runtime.dfy) holds the JavaScript semantics the code relies on:
  - ToInt32 and ToUint32, `<<` and `&` on int32 values, `Math.abs`;
  - the UTF-16 code units of a string;
  - optional (`undefined`/`null`) values.
- `FormUrlEncoded` (form_urlencoded.dfy) is the application/x-www-form-urlencoded serializer of section 5.2 of the WHATWG URL Standard, which `URLSearchParams.prototype.toString()` runs. It also has a splitter for the serialized form.
- `Avatars` (avatars.dfy) has `hashCode` as a loop-based method. The method is proved equal to the function `Hash`. `Hash` is in turn proved equal to the Java string hash (the sum of `c[i] * 31^(n-1-i)`), truncated to a signed 32-bit integer. The module also has `generateAvatar` and `getUserAvatar`.
- `MouseTracker` (mouse_tracker.dfy) has the class `Tracker`, whose fields are the page's state cells. Its methods are the state changes:
  - the mount effect;
  - `logMouseMovement`;
  - the INSERT handler;
  - `clearCanvas`;
  - the render effect.

  An insert is recorded as an outbound request in the field `inserts`. The canvas is the field `canvas`, the sequence of dots drawn.

## Model

| member | source | states |
|---|---|---|
| JsRuntime.Option.GetOr | lib/avatars.ts:19-23 | a destructuring default is used exactly when the field is undefined; a supplied field is kept |
| JsRuntime.ToInt32 | lib/avatars.ts:54-55 | the int32 conversion of the bitwise operators gives an int32 congruent to its argument modulo 2^32 and leaves int32 values alone |
| JsRuntime.ToUint32 | lib/avatars.ts:55 | the uint32 conversion gives a value in [0, 2^32) congruent to its argument |
| JsRuntime.ToInt32Congruent | lib/avatars.ts:54-55 | numbers congruent modulo 2^32 convert to the same int32 |
| JsRuntime.FromUint32 | lib/avatars.ts:55 | a 32-bit pattern read back as signed is an int32 congruent to the pattern |
| JsRuntime.ShiftLeft5 | lib/avatars.ts:54 | `hash << 5` is an int32 congruent to 32 * hash modulo 2^32 |
| JsRuntime.AndBits | lib/avatars.ts:55 | the bitwise AND of the low n bits is below 2^n |
| JsRuntime.BitAnd | lib/avatars.ts:55 | `a & b` is an int32 |
| JsRuntime.AndBitsSelf | lib/avatars.ts:55 | ANDing the low n bits of a number with themselves gives the number modulo 2^n |
| JsRuntime.BitAndSelf | lib/avatars.ts:55 | `hash & hash` is exactly the int32 truncation of hash |
| JsRuntime.Pow2Is32 | lib/avatars.ts:55 | 2^32 computed by doubling is the modulus of the 32-bit conversions, so 32 rounds of the bit-by-bit AND cover a whole word |
| JsRuntime.Abs | lib/avatars.ts:39-40 | `Math.abs` returns x or -x and is positive for negative x; it does not overflow at -2^31 |
| JsRuntime.Utf16 | lib/avatars.ts:52-53 | a character is one code unit below U+10000, otherwise a high/low surrogate pair that encodes it |
| JsRuntime.CodeUnits | lib/avatars.ts:52-53 | a string has at least as many code units as characters, and a string of BMP characters has them one for one with equal values |
| FormUrlEncoded.Utf8 | lib/avatars.ts:26-33 | the UTF-8 encoding of a character is 1 to 4 bytes; ASCII is the one byte itself and every byte of a non-ASCII character is at least 0x80 |
| FormUrlEncoded.Utf8RoundTrip | lib/avatars.ts:26-33 | decoding the UTF-8 bytes gives the character back, written in the shortest form for its range |
| FormUrlEncoded.HexValue | lib/avatars.ts:33 | an upper-case hexadecimal digit stands for a value from 0 to 15 |
| FormUrlEncoded.HexDigit | lib/avatars.ts:33 | percent-encoding writes an upper-case hexadecimal digit whose value is the digit given |
| FormUrlEncoded.PercentEncodeByte | lib/avatars.ts:33 | an encoded byte is `%` followed by two upper-case hexadecimal digits that read back, high digit first, as the byte |
| FormUrlEncoded.EncodeChar | lib/avatars.ts:33 | a space becomes `+`; every other character outside the unreserved set becomes an escape starting with `%`; the result contains only unreserved characters, `+` and `%` |
| FormUrlEncoded.Encode | lib/avatars.ts:33 | no contract of its own: percent-encodes each character in turn; EncodeUnreserved, EncodeWritesEncodedChars and EncodeHasNoSeparators state its properties |
| FormUrlEncoded.EncodeCharUnreserved | lib/avatars.ts:33 | ASCII alphanumerics, `*`, `-`, `.` and `_` are written unchanged |
| FormUrlEncoded.EncodeUnreserved | lib/avatars.ts:33 | the encoder is the identity on strings of unreserved characters |
| FormUrlEncoded.EncodeWritesEncodedChars | lib/avatars.ts:33 | the encoded string contains only unreserved characters, `+` and `%` |
| FormUrlEncoded.EncodeHasNoSeparators | lib/avatars.ts:33 | an encoded name or value never contains `&` or `=` |
| FormUrlEncoded.EncodedPair | lib/avatars.ts:33 | no contract of its own: `name=value` with both sides encoded; SplitPairAt states that it can be cut back apart |
| FormUrlEncoded.EncodedPairPlainName | lib/avatars.ts:26-31 | a pair whose name is unreserved is written `name=` followed by the encoded value |
| FormUrlEncoded.AppendPairs | lib/avatars.ts:33 | no contract of its own: the serializer's loop; AppendPairsIsJoin states what it produces |
| FormUrlEncoded.Serialize | lib/avatars.ts:33 | no contract of its own: `params.toString()`; SerializeIsJoin and SerializeParses state what it produces and that it is unambiguous |
| FormUrlEncoded.AppendPairsIsJoin | lib/avatars.ts:33 | the serializer's loop, which writes `&` only after non-empty output, joins the non-empty `name=value` strings with `&` |
| FormUrlEncoded.SerializeIsJoin | lib/avatars.ts:33 | `params.toString()` is the `name=value` strings of the pairs, in order, joined with `&` |
| FormUrlEncoded.SplitJoin | lib/avatars.ts:33 | splitting at `&` undoes joining with `&` when no part contains `&` |
| FormUrlEncoded.SplitPairAt | lib/avatars.ts:33 | cutting `name=value` at its first `=` gives name and value back when the name contains no `=` |
| FormUrlEncoded.SerializeParses | lib/avatars.ts:26-33 | the serialized form splits back into exactly the encoded name and value of every pair, in order, so the query string is unambiguous |
| Avatars.HashStep | lib/avatars.ts:54-55 | one turn of the loop leaves an int32 in `hash` |
| Avatars.HashStepIsJavaStep | lib/avatars.ts:54-55 | `((hash << 5) - hash) + char` followed by `hash & hash` is `31 * hash + char` truncated to int32 |
| Avatars.HashFold | lib/avatars.ts:51-57 | the loop over at least one code unit, or from an int32 start, ends in an int32 |
| Avatars.Hash | lib/avatars.ts:50-58 | the hash is an int32, and the empty string hashes to 0 |
| Avatars.StringHash | lib/avatars.ts:50-58 | `hashCode(str)`, the hash of the string's UTF-16 code units, is an int32 |
| Avatars.HashFoldAppend | lib/avatars.ts:52-56 | running the loop over a concatenation runs it over the first part, then over the second from where it stopped |
| Avatars.HashSnoc | lib/avatars.ts:52-56 | one more code unit is exactly one more turn of the loop |
| Avatars.HashSnocJava | lib/avatars.ts:52-56 | `hashCode(s + c)` is `31 * hashCode(s) + c` truncated to int32 |
| Avatars.JavaPolySnoc | lib/avatars.ts:52-56 | the reference polynomial of `s + c` is 31 times that of `s`, plus c |
| Avatars.HashIsJavaHash | lib/avatars.ts:50-58 | `hashCode` equals the Java string hash, the sum of `c[i] * 31^(n-1-i)` truncated to a signed 32-bit integer |
| Avatars.HashCode | lib/avatars.ts:50-58 | the loop over `str.length` code units returns the hash of the string's code units, an int32 |
| Avatars.StyleName | lib/avatars.ts:4 | no contract of its own: the string literal of each `AvatarStyle`; StyleNameInjective states that they are distinct |
| Avatars.StyleNameInjective | lib/avatars.ts:4 | two styles with the same name are the same style |
| Avatars.AvatarParams | lib/avatars.ts:26-31 | no contract of its own: the four pairs of the object literal, in order; AvatarParamsEncoded and AvatarParamsSerialize state how they are written |
| Avatars.VariablePairs | lib/avatars.ts:26-28 | the seed and colour pairs are written `seed=` and `backgroundColor=` followed by the encoded value |
| Avatars.FixedPairs | lib/avatars.ts:29-30 | the fixed pairs are written `radius=50` and `size=128` |
| Avatars.AvatarParamsEncoded | lib/avatars.ts:26-31 | the four parameters encode to `seed=<encoded seed>`, `backgroundColor=<encoded colour>`, `radius=50` and `size=128`, in that order |
| Avatars.AvatarParamsSerialize | lib/avatars.ts:26-33 | the query is `seed=…&backgroundColor=…&radius=50&size=128` with seed and colour encoded |
| Avatars.GenerateAvatar | lib/avatars.ts:18-34 | no contract of its own: `generateAvatar(config)` with the random defaults as a parameter; GenerateAvatarShape, GenerateAvatarDefaults and GenerateAvatarConfigured carry its contract |
| Avatars.GenerateAvatarShape | lib/avatars.ts:18-34 | every result is `https://api.dicebear.com/7.x/<style>/svg?seed=…&backgroundColor=…&radius=50&size=128`; a missing style is `adventurer`; a missing colour or seed comes from the random draw; supplied fields are used as given |
| Avatars.GenerateAvatarDefaults | lib/avatars.ts:18-23 | called with no configuration (`config = {}`), the URL uses the `adventurer` style and the drawn seed and colour |
| Avatars.GenerateAvatarConfigured | lib/avatars.ts:18-34 | with all three fields supplied, the URL does not depend on the random draw and uses exactly the given style, seed and colour |
| Avatars.AvatarQueryParses | lib/avatars.ts:26-33 | the query of an avatar URL splits back into the four parameters, in order, with the encoded seed and colour |
| Avatars.PlainAvatarQuery | lib/avatars.ts:26-33 | a seed and a colour made of unreserved characters appear in the query unencoded |
| Avatars.StyleIndex | lib/avatars.ts:39 | the style index is a valid index into the six styles, also when the hash is -2^31 |
| Avatars.ColorIndex | lib/avatars.ts:40 | the colour index is a valid index into the eight colours |
| Avatars.ColorHashContinuesStyleHash | lib/avatars.ts:39-40 | the hash of `userId + 'color'` continues the loop from the hash of `userId` over the code units of `color` |
| Avatars.CodeUnitsAppend | lib/avatars.ts:40 | the code units of a concatenation are the code units of the parts, in order |
| Avatars.ColorsPlain | lib/avatars.ts:13-16 | every background colour is made of hexadecimal digits, which need no encoding |
| Avatars.PlainLiterals | lib/avatars.ts:26-31 | the parameter names and the fixed values `50` and `128` are unchanged by encoding |
| Avatars.UserAvatar | lib/avatars.ts:37-47 | `getUserAvatar(id)` is the avatar URL whose style is `AVATAR_STYLES[styleIndex]`, whose seed is the id and whose colour is `BACKGROUND_COLORS[colorIndex]`, with no random input |
| Avatars.UserAvatarPlain | lib/avatars.ts:37-47 | for an id of unreserved characters, such as a UUID, the URL is the plain concatenation of the chosen style, the id and the chosen colour |
| MouseTracker.DotColor | app/mouse/page.tsx:61 | no contract of its own: `user_id === userId ? 'blue' : 'red'`; DotsBlueIffOwn and DotsAllRedWithoutIdentity state the rule |
| MouseTracker.DotOf | app/mouse/page.tsx:60-64 | no contract of its own: the dot drawn for one row; DotsFollowRows states its position |
| MouseTracker.Dots | app/mouse/page.tsx:60-65 | no contract of its own: the dots of the `forEach` over the log; DotsFollowRows, DotsBlueIffOwn and DotsAppend state its properties, and Tracker.Render is proved against it |
| MouseTracker.DotsBlueIffOwn | app/mouse/page.tsx:60-61 | with a known id there is one dot per row, and a dot is blue exactly when its row's `user_id` is the local id |
| MouseTracker.DotsAllRedWithoutIdentity | app/mouse/page.tsx:60-61 | while the id is unset every dot is red |
| MouseTracker.DotsFollowRows | app/mouse/page.tsx:60-64 | there is one dot per row, at that row's coordinates, in log order |
| MouseTracker.DotsAppend | app/mouse/page.tsx:41-65 | one more row at the end of the log is one more dot at the end; earlier dots are unchanged |
| MouseTracker.OwnEchoIsBlue | app/mouse/page.tsx:30-61 | a movement inserted under the local id comes back as a blue dot at its coordinates |
| MouseTracker.Tracker.Valid | app/mouse/page.tsx:19-31 | the invariant every method keeps: the status is `Idle` or `Tracking...`, every insert went to `mouse_movements` under a non-empty id, and no insert exists while the id is unset |
| MouseTracker.Tracker.constructor | app/mouse/page.tsx:19-21 | the page starts with an empty log, no user id and status `Idle`, having sent and drawn nothing |
| MouseTracker.Tracker.AssignIdentity | app/mouse/page.tsx:23-25 | the mount effect sets the id and changes nothing else |
| MouseTracker.Tracker.LogMove | app/mouse/page.tsx:27-31 | with no id (null or empty) nothing is sent and the status is unchanged; otherwise the status becomes `Tracking...` and exactly one insert of `{user_id, x, y}` into `mouse_movements` is sent; the log is untouched |
| MouseTracker.Tracker.OnInsert | app/mouse/page.tsx:39-42 | the INSERT handler appends exactly the new row at the end; earlier rows are unchanged |
| MouseTracker.Tracker.Clear | app/mouse/page.tsx:79-86 | the log is empty afterwards whatever it held; the canvas is wiped when a canvas and context exist |
| MouseTracker.Tracker.Render | app/mouse/page.tsx:51-68 | without a canvas or context nothing changes; otherwise the canvas holds one dot per row, coloured by the blue/red rule, and the status is `Idle` |

`Tracker.Valid` is kept by every method. It says the status is `Idle` or `Tracking...`. It also says every insert went to `mouse_movements` under a non-empty id, and that no insert was sent before an id arrived.

## Left out

- Random defaults: `Math.random()` in `generateAvatar` (lib/avatars.ts:21-22) is not modelled as randomness. The colour index it draws and the base-36 seed string it produces are the parameter `RandomDraw`. The only constraint on them is that the index is below 8, as `Math.floor(Math.random() * 8)` guarantees.
- Avatars.HashCode: JavaScript strings may hold lone surrogate code units, which a Dafny `string` cannot. The model covers strings of Unicode scalar values only, whose code units come from `CodeUnits`.
- Avatars.HashStep: the arithmetic is on exact integers. JavaScript uses doubles, which are exact here because every intermediate value is below 2^33 in magnitude.
- The `AvatarStyle` union values other than the six in `AVATAR_STYLES` are modelled only as their string literals; the remote DiceBear service is not modelled.
- Database and realtime calls (app/mouse/page.tsx:30, 34-48): `from().insert`, `channel`, `on`, `subscribe` and `removeChannel` are network I/O through a library that is not part of this model. An insert is recorded in `inserts`; an inbound INSERT event is a call of `OnInsert`; the unsubscribe on unmount is left out.
- Canvas drawing (app/mouse/page.tsx:52-65, 81-85): `getContext`, `clearRect`, `arc` and `Math.PI` are abstracted. The canvas is the sequence of dots drawn. Whether a canvas and a 2D context exist is the boolean `canvasReady`.
- Coordinates: `clientX - rect.left` and `handleMouseMove` (app/mouse/page.tsx:70-77) are DOM floating-point computations and are not modelled; x and y are opaque `real` values passed to `LogMove`. The early return when no bounding rectangle exists is the caller not calling `LogMove`.
- Identity generation: `uuidv4()` (app/mouse/page.tsx:24) is a foreign library. Its result is the parameter of `AssignIdentity`.
- React scheduling: when effects re-run (after `mouseMovements` or `userId` change), batching of state updates, StrictMode double invocation and the `await` on the insert are not modelled. The caller decides when `Render` runs.
- JSX markup and styling, the login page and its server actions, the home page, the client-construction wrappers and the type declarations are not part of this model.
