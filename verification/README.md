# cubetiq-utils-go helpers in Dafny

This project models the deterministic core of the `cubetiq-utils-go` utility
library and proves properties about it:

- **Bearer-token handling** (`jwt/jwt.go`):
  - `ExtractToken` takes a `bearer <token>` header value apart.
  - The three issuers `EncryptToken`, `EncryptTokenByUsername` and `FileEncryptSharedToken` build claims.
  - `DecryptToken` accepts only HMAC-signed tokens.
- **String helpers** (`string/string.go`):
  - `GetPartOfLast`, `IsEmpty`/`IsNotEmpty`, `HasPrefix`/`HasSuffix`, `TrimWhiteSpace` and `ToLower`/`ToUpper`.
  - The parts of Go's `strings` package they rely on: `Index`, `Split`, `SplitN` and `Join`.
- **Slice membership** (`array/arrayString/arrayString.go`): the linear scan `Contains` and the nested scan `ContainsWithMultipleArgs`.
- **Placeholder resolution** (`env/mapper.go`): `GetMapper` splits `NAME:default` at the first colon and looks the name up in the environment.
- **Upload destination path** (`file/file.go`): the naming part of `SaveMultipartToFile`.
- **Integer narrowing** (`number/number.go`): `IntToInt16`, `IntToInt32` and `IntToInt64`.

There is one Dafny module per Go file: `StringUtil`, `Jwt`, `ArrayString`,
`Env`, `FileUtil` and `Number`. A small `Results` module supplies `Option` and
`Result`.

Everything the Go code takes from outside is a parameter:

- the clock reading (`Instant`);
- the fresh UUID;
- the process environment, as a `map<string, string>`;
- the golang-jwt signer, and the library's decode, claim-validation and signature-check operations, as function-valued parameters.

A few Go-specific behaviours are modelled explicitly:

- `strings.Split` with an empty separator splits a string into its characters.
- `ExtractToken` panics on a header consisting of the prefix alone. This is a distinct outcome, `IndexOutOfRange`.
- Narrowing conversions wrap around modulo 2^16 or 2^32.
- `os.LookupEnv` never reports the empty name or a name holding `=` as set.
- The code's expiry computation, whose `time.Duration` wraps around modulo 2^64, is modelled beside the corrected expiry that the issued tokens carry (see "## Findings").

## Model

| member | source | states |
|---|---|---|
| StringUtil.IndexOf | env/mapper.go:9 | Go `strings.Index`: -1 exactly when `sep` does not occur in `s`; otherwise an occurrence with none before it |
| StringUtil.Join | string/string.go:12 | Go `strings.Join`, the inverse used to state Split: "" for no pieces; otherwise the result starts with the first piece |
| StringUtil.SplitN | env/mapper.go:9 | Go `strings.SplitN`: no pieces for n = 0, otherwise at least one and, for n > 0, at most n |
| StringUtil.SplitNSpec | env/mapper.go:9 | the pieces join back to the input; each cut is at the first occurrence of the separator in what remains; the first piece is the text before its first occurrence; no piece but the last contains it, and the last does not either unless n > 0 pieces were made |
| StringUtil.Split | string/string.go:12 | Go `strings.Split`: one piece per character for an empty separator, at least one piece otherwise |
| StringUtil.SplitSpec | string/string.go:12 | with a non-empty separator the pieces join back to the input, none contains the separator, and each cut is at the first occurrence of it in what remains (this fixes the pieces uniquely) |
| StringUtil.SplitCharCount | jwt/jwt.go:176 | splitting at one character gives one more piece than the character's number of occurrences (three pieces means exactly two dots) |
| StringUtil.GetPartOfLast | string/string.go:11-13 | the last piece of `strings.Split(s, sep)`; with an empty separator the last character (the other cases are GetPartOfLastSpec) |
| StringUtil.GetPartOfLastSpec | string/string.go:11-13 | the result is a suffix of `s` and, for a non-empty `sep`, free of `sep`. It is all of `s` when `sep` does not occur; otherwise `s` is some prefix, then `sep`, then the result |
| StringUtil.GetPartOfLastChar | string/string.go:11-13 | for `p + c + t` with `t` free of `c`, the last part at `c` is exactly `t` |
| StringUtil.IsEmpty | string/string.go:32-34 | true exactly when `s` has length 0, i.e. holds no character |
| StringUtil.IsNotEmpty | string/string.go:32-38 | IsNotEmpty is the negation of IsEmpty (`s == ""`), i.e. true exactly when `s` has a character |
| StringUtil.HasPrefix | string/string.go:40-42 | true exactly when `existString` is `newString` followed by something (so always for an empty `newString`) |
| StringUtil.HasSuffix | string/string.go:44-46 | true exactly when `existString` is something followed by `newString` (so always for an empty `newString`) |
| StringUtil.TrimWhiteSpace | string/string.go:48-50 | the result neither starts nor ends with a space and is a contiguous slice of `s` with only spaces cut off both ends |
| StringUtil.TrimKeepsOtherChars | string/string.go:48-50 | trimming keeps the count of every character other than `' '` (tabs and newlines stay) |
| StringUtil.TrimWhiteSpaceIdempotent | string/string.go:48-50 | trimming twice is trimming once |
| StringUtil.ToLower | string/string.go:52-54 | length kept; each ASCII upper-case letter becomes its lower-case letter, every other character is unchanged |
| StringUtil.ToUpper | string/string.go:56-58 | length kept; each ASCII lower-case letter becomes its upper-case letter, every other character is unchanged |
| StringUtil.ToLowerIdempotent | string/string.go:52-54 | a lower-cased string has no upper-case letter, and lower-casing it again changes nothing |
| StringUtil.ToLowerOfToUpper | string/string.go:52-58 | lower-casing after upper-casing is lower-casing |
| StringUtil.ToLowerMatches | string/string.go:52-54 | for an all-lower-case `t`, `ToLower(w) == t` exactly when every character of `w` is that of `t` in either case |
| Jwt.ErrorMessage | jwt/jwt.go:160-178 | the three error texts; none is empty |
| Jwt.ErrorMessagesDistinct | jwt/jwt.go:160-178 | two errors have the same text exactly when they are the same error |
| Jwt.ExtractToken | jwt/jwt.go:158-181 | "token is required" exactly for the empty input; an extracted token has no space and exactly two dots |
| Jwt.BearerAnyCase | jwt/jwt.go:167-168 | the first field passes exactly when it is "bearer" in any mix of cases |
| Jwt.ExtractTokenFields | jwt/jwt.go:164-180 | for a header `w t rest`: "bearer is required" unless `w` lowers to "bearer", else `t` if it has two dots, else "token is invalid"; `rest` is ignored |
| Jwt.ExtractTokenOfFields | jwt/jwt.go:164-180 | the outcome for any header of two or more fields, in terms of its first two fields |
| Jwt.ExtractTokenSingleField | jwt/jwt.go:165-173 | a non-empty header without a space panics on the missing second field if it is "bearer" in any case, and is refused with "bearer is required" otherwise |
| Jwt.ExtractTokenSuccess | jwt/jwt.go:165-180 | a success means the header is "bearer" in some case, one space, the token, then the end or a space |
| Jwt.ExtractTokenAcceptsBearer | jwt/jwt.go:165-180 | `"Bearer a.b.c"` yields `"a.b.c"` |
| Jwt.ExtractTokenDropsExtraFields | jwt/jwt.go:165-180 | `"BEARER a.b.c x"` yields `"a.b.c"`; the third field is dropped |
| Jwt.ExtractTokenRefusesMissingPrefix | jwt/jwt.go:165-170 | `"a.b.c"` is refused with "bearer is required" |
| Jwt.ExtractTokenRefusesOneSegment | jwt/jwt.go:176-178 | `"Bearer abc"` is refused with "token is invalid" |
| Jwt.ExtractTokenRefusesDoubleSpace | jwt/jwt.go:176-178 | `"Bearer  a.b.c"` has an empty second field and is refused with "token is invalid" |
| Jwt.ExtractTokenPanicsOnLonePrefix | jwt/jwt.go:165-173 | `"bearer"` alone reads a missing second field (index out of range) |
| Jwt.ExpiresAtAsWritten | jwt/jwt.go:53 | Go's expiry computation (int64 nanosecond duration, `Time.Add` carry) equals now + 3600 × hours whenever the duration fits in int64 |
| Jwt.ExpiresAt | jwt/jwt.go:53 | the intended expiry: exactly `hours` hours after the clock; later than now for positive hours, equal for 0; agrees with the code where it does not overflow |
| Jwt.ExpiryOverflow | jwt/jwt.go:53 | with 2562048 hours the code's expiry lies before the Unix epoch while the intended one lies after it |
| Jwt.RegisteredClaims | jwt/jwt.go:52-56 | the claim map has exactly the keys exp, iss, iat; iss is the issuer and iat the wrapper's IssueAt |
| Jwt.UserToken | jwt/jwt.go:47-60 | HS256; a JwtClaim with the id and username; exp = now + 3600 × ExpirationHours (the corrected expiry), which is the code's expiry whenever ExpirationHours lies within ±2562047; iss = Issuer, iat = IssueAt |
| Jwt.EncryptToken | jwt/jwt.go:47-70 | the result, signed token or error, is the signer's answer for that token and the wrapper's secret key |
| Jwt.UsernameToken | jwt/jwt.go:73-85 | HS256; a UsernameJwtClaim with the username; the same exp (corrected, equal to the code's in range), iss and iat rules |
| Jwt.EncryptTokenByUsername | jwt/jwt.go:73-95 | the signer's answer for that token and the wrapper's secret key |
| Jwt.FileSharedToken | jwt/jwt.go:98-124 | HS256; a FileJwtClaim with owner key and file ids; exp is null exactly when ExpirationHours is 0, else now + 3600 × hours (corrected, equal to the code's in range); iss and iat as above |
| Jwt.FileEncryptSharedToken | jwt/jwt.go:98-134 | the signer's answer for that token and the wrapper's secret key |
| Jwt.OnlyExpiryDependsOnClock | jwt/jwt.go:52-56 | tokens issued at two instants agree on every claim but exp, and their exp values differ by the clocks' difference |
| Jwt.KeyFunc | jwt/jwt.go:138-144 | the secret key is handed out exactly for HMAC-family methods; any other method gets "unexpected signing method" with its alg |
| Jwt.Parse | jwt/jwt.go:138 | golang-jwt v4 `jwt.Parse`: the token is Valid exactly when no error is returned, and a valid token is the one the string decodes to |
| Jwt.DecryptResult | jwt/jwt.go:146-154 | an error is returned exactly when Parse erred; claims exactly when there is no error and the token is valid; `(nil, nil)` otherwise |
| Jwt.DecryptToken | jwt/jwt.go:137-155 | claims are returned only for a decodable HMAC-family token, and they are its claims; `(nil, nil)` never happens |
| Jwt.DecryptRejectsNonHmac | jwt/jwt.go:139-141 | a non-HMAC token (RSA, ECDSA, "none", ...) is refused with "unexpected signing method" |
| Jwt.DecryptAcceptsExactly | jwt/jwt.go:137-155 | a decoded token yields its claims exactly when it is HMAC-signed, its claims validate and its signature verifies under the secret key |
| Jwt.DecryptMalformed | jwt/jwt.go:146-148 | a token the library cannot decode is reported with the library's reason |
| ArrayString.Contains | array/arrayString/arrayString.go:3-11 | true exactly when some element equals the searched string (so false on an empty slice) |
| ArrayString.ContainsWithMultipleArgs | array/arrayString/arrayString.go:13-23 | true exactly when some element of the slice equals some searched string |
| ArrayString.NoArgumentsShareNothing | array/arrayString/arrayString.go:13-23 | with no search arguments the answer is false |
| ArrayString.SingleArgumentIsContains | array/arrayString/arrayString.go:3-23 | with one search argument the answer is that of Contains |
| ArrayString.SharesElementSplit | array/arrayString/arrayString.go:13-23 | searching for `xs + ys` is searching for `xs` or for `ys` |
| ArrayString.IsEmpty | array/arrayString/arrayString.go:25-27 | true exactly for the empty slice, i.e. when no string is an element |
| ArrayString.IsNotEmpty | array/arrayString/arrayString.go:25-31 | IsNotEmpty is the negation of IsEmpty (length 0) |
| Env.SplitAtFirstColon | env/mapper.go:9 | `SplitN(p, ":", 2)` is `[p]` without a colon, and otherwise the text before the first colon and everything after it |
| Env.ParsePlaceholder | env/mapper.go:9-14 | without a colon the name is the whole input and the default ""; with one, input = name + ":" + default and the name has no colon |
| Env.ParsePlaceholderInverse | env/mapper.go:9-14 | `name:default` with a colon-free name gives back exactly that name and default, even when the default holds colons |
| Env.LookupEnv | env/mapper.go:16 | Go `os.LookupEnv`: a value exactly for a non-empty name without `=` that the environment holds, and then its value; nothing for the empty name |
| Env.GetMapper | env/mapper.go:8-22 | the variable's value when `os.LookupEnv` reports it set (even to ""), the default otherwise |
| Env.GetMapperWithDefault | env/mapper.go:8-22 | for `name:default`: the set value wins, else the default (so "" for `name:`) |
| Env.GetMapperEmptyName | env/mapper.go:8-22 | `:default` yields the default whatever the environment holds, since the empty name is never set |
| Env.GetMapperWithoutDefault | env/mapper.go:8-22 | for a colon-free placeholder: the set value, else ""; the empty placeholder yields "" |
| FileUtil.FileName | file/file.go:19-24 | the filename when it is non-empty, the UUID otherwise |
| FileUtil.DestinationDir | file/file.go:27-32 | the path when it is non-empty, "./" otherwise; never empty |
| FileUtil.Extension | file/file.go:35-36 | dot-free; the whole source name when it has no dot, otherwise the text after its last dot |
| FileUtil.DestinationFile | file/file.go:39-44 | starts with the directory, has a '/' just before `name.ext`, adds that '/' only when the directory does not end in one, and ends with `name + "." + ext` |
| FileUtil.DestinationKeepsExtension | file/file.go:35-44 | the destination's own extension is the source file's extension |
| Number.IntToInt16 | number/number.go:5-7 | the int16 congruent to `i` modulo 2^16; `i` itself when it is in range |
| Number.IntToInt16Unique | number/number.go:5-7 | no other int16 is congruent to `i` modulo 2^16 |
| Number.IntToInt32 | number/number.go:13-15 | the int32 congruent to `i` modulo 2^32; `i` itself when it is in range |
| Number.IntToInt32Unique | number/number.go:13-15 | no other int32 is congruent to `i` modulo 2^32 |
| Number.IntToInt64 | number/number.go:9-11 | the identity (Go's `int` is 64 bits) |
| Number.NarrowingComposes | number/number.go:5-15 | narrowing to int32 and then to int16 is narrowing to int16 |
| Number.WrapInt64 | jwt/jwt.go:53 | int64 overflow: the int64 congruent to the value modulo 2^64, the value itself when it fits |

## Left out

- crypto/crypto.go (AES-GCM), password/password.go (bcrypt) and date/date.go are not part of this model. They wrap library code that is not visible. Two defects in crypto/crypto.go are noted but not modelled:
  - `rand.Read(secret)` overwrites the key on both the encrypt and the decrypt path.
  - A payload shorter than the nonce returns an empty string with a nil error.
- The golang-jwt library's HS256 signing, base64url/JSON encoding, decoding, claim validation and signature verification are oracles (`Signer`, `JwtLibrary`).
- The claim structs embed `jwt.MapClaims` under the JSON tag `details`. The model keeps the map as a field and does not model JSON serialisation, so where exp/iss/iat end up in the encoded token is not captured.
- The clock, the UUID and the environment are parameters. `time.Now().Local()` is reduced to its Unix reading, which `Local` does not change.
- Jwt.UserToken: carries the corrected expiry (Jwt.ExpiresAt, see "## Findings"), not the code's wrapping one; the two agree, as proved, whenever |ExpirationHours| ≤ 2562047.
- Jwt.UsernameToken: carries the corrected expiry (Jwt.ExpiresAt, see "## Findings"), not the code's wrapping one; the two agree, as proved, whenever |ExpirationHours| ≤ 2562047.
- Jwt.FileSharedToken: carries the corrected expiry (Jwt.ExpiresAt, see "## Findings"), not the code's wrapping one; the two agree, as proved, whenever |ExpirationHours| ≤ 2562047.
- Jwt.ExpiresAt: seconds are unbounded integers; the int64 overflow of `Time`'s own seconds field (not of the duration) is not modelled.
- Jwt.DecryptToken: `token.Claims.(jwt.MapClaims)` is taken to always succeed, as `jwt.Parse` always builds MapClaims.
- StringUtil.GetPartOfLast: requires `s` or `sep` to be non-empty. With both empty, Go indexes an empty slice and panics.
- StringUtil.ToLower: maps ASCII letters only; Go's `strings.ToLower` also maps non-ASCII Unicode letters.
- StringUtil.ToUpper: maps ASCII letters only; Go's `strings.ToUpper` also maps non-ASCII Unicode letters.
- StringUtil.SplitN: requires a non-empty separator; Go's `SplitN` with an empty one splits into characters, a case the core never uses with SplitN.
- StringUtil.Split with an empty separator yields characters, where Go yields UTF-8 sequences; strings are sequences of characters throughout.
- `ToInt`, `ToInt64` and `ToBoolean` (strconv parsing; `ToBoolean` also calls `log.Fatal`) are not modelled, nor is `GenerateRandomString` (randomness).
- `Int64ToFloat64`, `Float64ToString` and `FormatFileSize` involve floating point and are not modelled.
- The rest of `SaveMultipartToFile` (`os.Stat`, `os.MkdirAll`, saving the upload) is file-system I/O and is not modelled. The same goes for `RemoveFile` and `RemoveDirectory`.
- `AUTHORIZATION_HEADER` and `TOKEN_PREFIX` are mutable package variables in Go and constants here.

## Findings

| source | as written | input that shows it | evidently intended | confidence | as-written member | corrected member |
|---|---|---|---|---|---|---|
| jwt/jwt.go:53 (also 78 and 116) | `time.Hour * time.Duration(j.ExpirationHours)` multiplies in int64 nanoseconds, which wraps for more than 2562047 hours | ExpirationHours = 2562048 with the clock at Unix time 0: exp is negative, so the token is expired when issued | exp = now + 3600 × ExpirationHours | not executed | Jwt.ExpiryOverflow | Jwt.ExpiresAt |
