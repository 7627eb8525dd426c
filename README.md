# Hex codec of substrate-micro-service

This project models the hexadecimal codec in `common/util.ts` of a small
helper library for building and offline-signing Substrate transactions:

- `uint8ArrayToHexString(bytes)` folds over a `Uint8Array` with `reduce`,
  starting from `''` and appending `byte.toString(16).padStart(2, '0')` for
  each byte. The result is lowercase Base16 (the alphabet of section 8 of
  RFC 4648, in lower case) with no `0x` prefix.
- `uint8ArrayfromHexString(hexString)` cuts the string with
  `match(/.{1,2}/g)` into groups of two characters (the last group is one
  character when the length is odd), reads each group with
  `parseInt(group, 16)` and builds a `Uint8Array` from the numbers. On the
  empty string `match` returns `null` and the following `.map` throws.

The JavaScript operations the two functions rely on (`reduce`,
`toString(16)`, `padStart`, `match`, `parseInt` and the conversion inside
`Uint8Array.from`) are modelled in `js_builtins.dfy` (module
`JsBuiltins`) on the inputs the codec gives them. The digit alphabet is in `hex.dfy` (module `Hex`). The codec and its
properties are in `util.dfy` (module `Util`). A byte is an `int` in
`0..255`. A string is `seq<char>`. The decoder returns
`Result<seq<Byte>>`, with `Err(NullMatch)` standing for the thrown
TypeError.

What is proved:

- The encoding has two characters per byte, all lowercase hexadecimal
  digits. Byte `i` becomes characters `2i` and `2i+1`, the high digit then
  the low digit, so a byte below 16 gets a leading `0`. Encoding is a
  homomorphism from concatenation to concatenation. The `reduce` fold equals
  an independent right-recursive concatenation.
- Decoding fails exactly on the empty string. Otherwise a string of length
  `n` gives `ceil(n/2)` bytes. Byte `i` is `16 * val(s[2i]) + val(s[2i+1])`,
  or `val(s[n-1])` for the trailing digit of an odd-length string.
- Round trips. Decoding an encoding gives back every non-empty byte array.
  Encoding a decoding gives back every non-empty even-length string in lower
  case, which is the identity on lowercase strings. For odd length, the
  trailing digit comes back as `0` followed by the digit.
- `parseInt(_, 16)` reads back what `toString(16)` writes, for every
  non-negative integer.

The doc comment above the two functions (common/util.ts:67-75) names
`Buffer.from(hexString, 'hex')` and `Buffer.from(hex).toString('hex')` as
equivalent implementations. Node's `Buffer` decoder and this code differ in
three places. The model follows this code:

- `Buffer.from("", 'hex')` is an empty buffer. This code throws on `""`.
- `Buffer.from` drops the trailing digit of an odd-length string. This code
  decodes that digit as a byte of its own, giving `ceil(n/2)` bytes.
- `Buffer.from` stops at the first pair that is not hexadecimal. This code
  passes such a pair to `parseInt`, whose prefix parsing and `NaN` result
  are not modelled (see below).

## Model

| member | source | states |
|---|---|---|
| Hex.DigitValue | common/util.ts:78 | the value `parseInt(_, 16)` gives a single digit is below 16, and is 10 or more exactly for the letters a-f and A-F |
| Hex.HexDigit | common/util.ts:84 | the digit `toString(16)` writes for a value below 16 is a lowercase hex digit whose value is that value |
| Hex.DigitOfValue | common/util.ts:78 | re-spelling the value of a digit gives the digit back in lower case (both cases of a letter have the same value) |
| JsBuiltins.Reduce | common/util.ts:83-85 | `reduce` with a string-appending callback keeps the accumulator as a prefix of the result; Util.ReduceIsConcat gives the whole result |
| JsBuiltins.ToRadix16 | common/util.ts:84 | `n.toString(16)` is a non-empty string of lowercase hex digits |
| JsBuiltins.ToRadix16OfByte | common/util.ts:84 | below 256, `toString(16)` writes one digit for values below 16 and otherwise the high digit followed by the low digit |
| JsBuiltins.ParseInt16 | common/util.ts:78 | `parseInt(s, 16)` of `k` hex digits is below 16^k |
| JsBuiltins.ParseInt16OfToRadix16 | common/util.ts:78 | `parseInt(n.toString(16), 16) == n` for every non-negative `n` |
| JsBuiltins.PadStart | common/util.ts:84 | `padStart(len, fill)` has length `max(|s|, len)`, ends with `s` and is `fill` before it |
| JsBuiltins.Pairs | common/util.ts:78 | the `/.{1,2}/g` pieces number `ceil(n/2)`; piece `i` is characters `2i` and `2i+1`, or the last character alone when the length is odd |
| JsBuiltins.MatchPairs | common/util.ts:78 | `match` is `null` exactly for the empty string, and otherwise yields the pieces |
| JsBuiltins.ToUint8 | common/util.ts:77 | the conversion `Uint8Array.from` applies lands in 0..255 and leaves values already in 0..255 unchanged |
| Util.ByteToHex | common/util.ts:84 | the piece appended for each byte is two lowercase hex digits |
| Util.ByteToHexDigits | common/util.ts:84 | that piece is the byte's high digit then its low digit, so a byte below 16 is padded with `0` |
| Util.ToHexString | common/util.ts:82-87 | `uint8ArrayToHexString` returns exactly `2 * |bytes|` characters, all in `0-9a-f`; the empty array gives `""` |
| Util.ReduceIsConcat | common/util.ts:83-85 | the `reduce` fold from an accumulator equals the accumulator followed by the in-order concatenation of the pieces |
| Util.ToHexStringIsConcat | common/util.ts:83-86 | `uint8ArrayToHexString` equals the in-order concatenation of the two-digit spellings |
| Util.ToHexStringAt | common/util.ts:84 | characters `2i` and `2i+1` of the output are the high and low digit of byte `i`, the first one `0` when the byte is below 16 |
| Util.ToHexStringOfDigit | common/util.ts:84 | a single byte below 16 is spelled `0` followed by its digit |
| Util.ToHexStringAppendDigit | common/util.ts:84 | appending a byte below 16 appends `0` and its digit to the encoding |
| Util.ToHexStringAppend | common/util.ts:83-85 | encoding `a + b` gives the encoding of `a` followed by that of `b` |
| Util.Uint8ArrayFrom | common/util.ts:77-79 | `Uint8Array.from` keeps the length and every value already in 0..255 |
| Util.ParseGroups | common/util.ts:78 | the `map(parseInt)` step keeps the number of groups and gives a value in 0..255 for each group of one or two digits |
| Util.FromHexString | common/util.ts:76-80 | `uint8ArrayfromHexString` throws exactly on the empty string, and otherwise returns `ceil(n/2)` bytes |
| Util.FromHexStringAt | common/util.ts:77-79 | byte `i` is `16 * val(s[2i]) + val(s[2i+1])`, or `val(s[2i])` when that digit is the last of an odd-length string |
| Util.FromHexStringOddTail | common/util.ts:78 | an odd-length string of length `n` gives `n/2 + 1` bytes, the last being the value of the trailing digit |
| Util.FromHexOfToHex | common/util.ts:67-87 | decoding the encoding of any non-empty byte array gives that array back |
| Util.ToHexOfPairValues | common/util.ts:84 | bytes holding the values of the digit pairs of an even-length string are encoded as that string in lower case |
| Util.ToHexOfFromHexEven | common/util.ts:76-87 | encoding the decoding of a non-empty even-length hex string gives the string in lower case |
| Util.ToHexOfFromHexLower | common/util.ts:76-87 | encoding the decoding of a non-empty even-length lowercase hex string gives the string itself |
| Util.ToHexOfFromHexOddInit | common/util.ts:76-87 | for odd length, the bytes before the last are encoded as the digits before the last, in lower case |
| Util.ToHexOfFromHexOdd | common/util.ts:76-87 | for odd length, encoding the decoding gives the string in lower case with a `0` inserted before the trailing digit |
| Util.EmptyRoundTripThrows | common/util.ts:76-87 | the empty array encodes to `""`, and decoding `""` throws |
| Util.FromHexStringIntended | common/util.ts:76-80 | `uint8ArrayfromHexString` with the empty-string case corrected (as `Buffer.from` does for `""`) gives `ceil(n/2)` bytes, the empty array for `""`, and agrees with `uint8ArrayfromHexString` on every other string |
| Util.FromHexIntendedOfToHex | common/util.ts:67-87 | with the empty case corrected, decoding inverts encoding on every byte array, the empty one included |

## Findings

| source | as written | input that shows it | evidently intended | confidence | as-written member | corrected member |
|---|---|---|---|---|---|---|
| common/util.ts:78 | `hexString.match(/.{1,2}/g)` is `null` for the empty string, so `.map` throws a TypeError, while `uint8ArrayToHexString` of an empty array returns `""` | `""`, which is the encoding of an empty `Uint8Array` | decoding `""` gives an empty array, as `Buffer.from("", 'hex')` does (the doc comment at lines 67-71 names `Buffer.from` as an equivalent); only that case changes, and the pair is then inverse on every byte array | medium, not executed | Util.EmptyRoundTripThrows | Util.FromHexIntendedOfToHex |

## Left out

- `rpcToDefaultNode` (common/util.ts:13-39): an HTTP POST through `node-fetch` to a URL read from an environment variable, with JSON parsing and Promise chaining. This is network I/O with no logic beyond formatting an error message.
- `signWith` (common/util.ts:48-65): every step is a call into polkadot-js (`createMetadata`, `registry.setMetadata`, `createType('ExtrinsicPayload', …)`, `.sign`). That code is not part of this model.
- Util.FromHexString: requires every character to be a hex digit. For other characters JavaScript's `parseInt` parses a prefix (`"1z"` gives 1) or gives `NaN`, which `Uint8Array.from` turns into 0. These are host-runtime quirks and are not modelled.
- JsBuiltins.Pairs, JsBuiltins.MatchPairs: model `/.{1,2}/g` only on strings of hexadecimal digits, the only strings the codec hands them. On other strings `.` skips line terminators, which is not modelled.
- Util.FromHexStringIntended: corrects only the empty string. It keeps this code's odd-length behaviour (the trailing digit becomes a byte), where `Buffer.from(hexString, 'hex')` drops that digit.
- JsBuiltins.ParseInt16, JsBuiltins.ToRadix16, JsBuiltins.PadStart: modelled only on the inputs the codec gives them. That is non-empty hex-digit strings, non-negative integers and a one-character filler. Leading whitespace, signs, `0x` prefixes, fractions and longer fillers are not modelled.
- Hex.ToLower: lowers only the letters A-F, the only upper-case characters a hex string holds.
- A `Uint8Array` is modelled as an immutable sequence of bytes. Both functions build a fresh value and mutate nothing.
