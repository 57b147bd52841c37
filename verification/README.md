# Basic-Authentication request gate, modelled in Dafny

This project models the request-authentication gate of the Basic-Authentication
API (`0x01-Basic_authentication/api/v1/auth`) and proves properties of it:

- `Auth.require_auth(path, excluded_paths)` decides whether a request path needs
  authentication. An absent path, or an absent or empty exclusion list, means
  authentication is required. Otherwise the path is normalised with
  `rstrip("/") + "/"`. Each pattern is cut at its first `*`. The path is exempt
  when the normalised path starts with that literal prefix.
- `Auth.authorization_header(request)` returns the `Authorization` header
  unchanged. It returns absent when there is no request or no such header.
- `Auth.current_user(request)` always returns absent.
- `BasicAuth.extract_base64_authorization_header(header)` checks only for the
  literal, case-sensitive prefix `"Basic "`. It returns the rest of the header.
  It returns absent for `None`, for a non-string, and for a string without that
  prefix. This differs from the `Basic` scheme of section 2 of RFC 7617, which
  follows section 2.1 of RFC 7235, in three ways:
  - Scheme names there match case-insensitively, so `"basic x"` is accepted.
    Here it gives absent (`BasicAuth.ExtractIsCaseSensitive`).
  - The RFCs allow one or more spaces before the credentials. Here only the
    first space is consumed, so `"Basic  x"` gives `" x"`.
  - Any text after the prefix is taken as the token, even one the RFCs reject.
    `"Basic "` gives `""`, `"Basic a b"` gives `"a b"` and `"Basic !!"` gives
    `"!!"` (`BasicAuth.ExtractExamples`).

Files:

- `options.dfy`: `Option`, which stands for Python's `None`.
- `auth.dfy`: module `Auth`.
- `basic_auth.dfy`: module `BasicAuth`.

Strings are `seq<char>`. A request is a record holding a `map<string, string>`
of headers. The argument of the extraction method is a `Value`: `Null`,
`Str(text)` or `NonString`.

`rstrip("/")` removes every trailing slash before one is appended, so `"/a//"`
becomes `"/a/"` (`Auth.ExampleSlashesCollapse`).

## Model

| member | source | states |
|---|---|---|
| Auth.StripTrailingSlashes | 0x01-Basic_authentication/api/v1/auth/auth.py:22 | `rstrip("/")` gives a prefix of the path that does not end in `/`; everything after it in the path is `/` |
| Auth.StripIsUnique | 0x01-Basic_authentication/api/v1/auth/auth.py:22 | any string with those three properties is the stripped path, so the contract determines the result |
| Auth.StripIgnoresAppendedSlashes | 0x01-Basic_authentication/api/v1/auth/auth.py:22 | appending any run of slashes to a path leaves the stripped path unchanged |
| Auth.NormalizePath | 0x01-Basic_authentication/api/v1/auth/auth.py:22 | the normalised path ends in exactly one `/`; without that `/` it is a prefix of the input, and the input holds only slashes after it |
| Auth.ExampleSlashesCollapse | 0x01-Basic_authentication/api/v1/auth/auth.py:22 | every trailing slash is removed before one is appended: `"/a//"` normalises to `"/a/"`, and `""` and `"///"` normalise to `"/"` |
| Auth.NormalizeIsCanonical | 0x01-Basic_authentication/api/v1/auth/auth.py:22 | any string meeting that description is the normalised path, so it is the stripped input plus one `/` |
| Auth.NormalizeIgnoresTrailingSlash | 0x01-Basic_authentication/api/v1/auth/auth.py:22 | `p` and `p + "/"` normalise to the same string |
| Auth.NormalizeIsIdempotent | 0x01-Basic_authentication/api/v1/auth/auth.py:22 | normalising a normalised path changes nothing |
| Auth.LiteralPrefix | 0x01-Basic_authentication/api/v1/auth/auth.py:24 | `split("*")[0]` is a wildcard-free prefix of the pattern, followed by `*` or by the end of the pattern; a pattern without `*` is its own prefix |
| Auth.LiteralPrefixOfWildcardPattern | 0x01-Basic_authentication/api/v1/auth/auth.py:24 | a pattern `literal*rest` whose literal has no `*` is cut back to exactly `literal` |
| Auth.ExemptsIff | 0x01-Basic_authentication/api/v1/auth/auth.py:24 | the predicate `Auth.Exempts`, which models `path.startswith(pattern.split("*")[0])`, holds iff the literal part of the pattern is a prefix of the path; for a wildcard-free pattern, iff the whole pattern is a prefix |
| Auth.ScanExclusions | 0x01-Basic_authentication/api/v1/auth/auth.py:23-26 | the loop returns true iff no pattern's literal prefix starts the normalised path |
| Auth.RequireAuth | 0x01-Basic_authentication/api/v1/auth/auth.py:14-26 | true for an absent path; true for an absent or empty list; otherwise false iff some pattern's prefix before its first `*` is a prefix of the normalised path |
| Auth.RequireAuthIgnoresTrailingSlash | 0x01-Basic_authentication/api/v1/auth/auth.py:22 | `require_auth(p + "/", L) == require_auth(p, L)` for every `p` and `L` |
| Auth.RequireAuthIgnoresOrder | 0x01-Basic_authentication/api/v1/auth/auth.py:23-26 | two lists with the same patterns, in any order and with any repetitions, give the same answer |
| Auth.RequireAuthMonotone | 0x01-Basic_authentication/api/v1/auth/auth.py:23-26 | a path exempt under a list stays exempt under any list containing all of its patterns |
| Auth.RequireAuthAppend | 0x01-Basic_authentication/api/v1/auth/auth.py:20-26 | after appending a pattern, a path needs auth iff it did before and the new pattern does not exempt it |
| Auth.EmptyLiteralExemptsEverything | 0x01-Basic_authentication/api/v1/auth/auth.py:24-25 | a list containing `"*"` or `""` exempts every present path |
| Auth.WildcardPatternExempts | 0x01-Basic_authentication/api/v1/auth/auth.py:22-26 | `[literal + "*" + rest]` exempts a path iff `literal` is a prefix of the normalised path |
| Auth.ExampleNormalizedPathIsExempt | 0x01-Basic_authentication/api/v1/auth/auth.py:22-25 | `"/api/v1/status/"` is exempt under `["/api/v1/status/"]` |
| Auth.ExampleMissingSlashIsExempt | 0x01-Basic_authentication/api/v1/auth/auth.py:22-25 | `"/api/v1/status"` is exempt under `["/api/v1/status/"]` |
| Auth.ExampleLiteralIsPrefixNotEquality | 0x01-Basic_authentication/api/v1/auth/auth.py:22-25 | `"/api/v1/statusX"` is exempt under `["/api/v1/status"]`, because matching is by prefix |
| Auth.ExampleOtherPathIsProtected | 0x01-Basic_authentication/api/v1/auth/auth.py:22-26 | `"/api/v1/users"` needs auth under `["/api/v1/status/"]` |
| Auth.AuthorizationHeader | 0x01-Basic_authentication/api/v1/auth/auth.py:28-36 | present iff there is a request and it has an `Authorization` key; when present, it is that header's value unchanged |
| Auth.AuthorizationHeaderRoundTrip | 0x01-Basic_authentication/api/v1/auth/auth.py:34-36 | setting `Authorization` to `v` and reading it back gives `v`, whatever the other headers are |
| Auth.AuthorizationHeaderIgnoresOtherHeaders | 0x01-Basic_authentication/api/v1/auth/auth.py:34-36 | two requests that agree on `Authorization` give the same result |
| Auth.CurrentUser | 0x01-Basic_authentication/api/v1/auth/auth.py:38-42 | absent for every request, absent or not |
| BasicAuth.FromHeader | 0x01-Basic_authentication/api/v1/auth/basic_auth.py:15-23 | an absent header becomes `Null` (the `None` case) and a present one becomes a string holding the same text; it joins the two classes' methods and models no source logic of its own |
| BasicAuth.ExtractBase64AuthorizationHeader | 0x01-Basic_authentication/api/v1/auth/basic_auth.py:15-26 | present iff the input is a string starting with `"Basic "`; then `"Basic " + result` is the input and the result is 6 characters shorter |
| BasicAuth.ExtractRoundTrip | 0x01-Basic_authentication/api/v1/auth/basic_auth.py:24-26 | extracting from `"Basic " + t` gives `t`, for every `t` including the empty one |
| BasicAuth.ExtractIff | 0x01-Basic_authentication/api/v1/auth/basic_auth.py:24-26 | extracting from a string gives `t` iff the string is `"Basic " + t` |
| BasicAuth.ExtractRejectsMissingSpace | 0x01-Basic_authentication/api/v1/auth/basic_auth.py:24-25 | `"Basic"` followed by nothing, or by a string not starting with a space, gives absent |
| BasicAuth.ExtractIsCaseSensitive | 0x01-Basic_authentication/api/v1/auth/basic_auth.py:24-25 | `"basic "` and `"BASIC "` headers give absent, whatever follows |
| BasicAuth.ExtractExamples | 0x01-Basic_authentication/api/v1/auth/basic_auth.py:20-26 | `"Basic"` and `None` give absent; `"Basic "` gives `""`; `"Basic Ym9iOnB3"` gives `"Ym9iOnB3"`; `"Basic  x"` gives `" x"`; `"Basic a b"` gives `"a b"`; `"Basic !!"` gives `"!!"`; `"basic x"` gives absent |
| BasicAuth.TokenFromRequest | 0x01-Basic_authentication/api/v1/auth/basic_auth.py:10-26 | reading the header (inherited from `Auth`) and then extracting yields `t` iff the request carries `Authorization: Basic t` |

## Left out

- Flask's `request` object: a request is reduced to a plain map of headers. The key lookup is exact, so Flask's case-insensitive header container is not modelled.
- Class inheritance and the `self` receiver: the methods are free functions in modules `Auth` and `BasicAuth`. `BasicAuth.TokenFromRequest` states what a caller gets by feeding the inherited `authorization_header` into `extract_base64_authorization_header`. The source itself never chains the two calls.
- `Auth.CurrentUser`: the `TypeVar("User")` return annotation becomes a type parameter, because the source gives the user type no structure.
- Base64 decoding, splitting credentials on `:`, user lookup and password checks are not part of this model. `basic_auth.py` defines only `extract_base64_authorization_header`. It has no decoding, credential splitting or user lookup, so modelling them would invent behaviour.
- The session lifecycle (register, login, logout, session cookies) and reset tokens belong to the separate `0x03-user_authentication_service` service, not to the `0x01` gate modelled here. `0x03-user_authentication_service/main.py` only drives them over HTTP against a live server.
- Non-string elements inside the exclusion list, and a non-string `path`, are not modelled. The source's annotations declare `str` and `List[str]`, and it never checks them.
