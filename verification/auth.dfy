/**
 Model of the base `Auth` class of the Basic-Authentication API
 (api/v1/auth/auth.py): the path-exclusion gate `require_auth` and the
 fail-closed defaults `authorization_header` and `current_user`.

 Strings are `seq<char>`, Python's `None` is `Option.None`, and a request is
 reduced to its header map.
 */
module Auth {
  import opened Options

  const Slash: char := '/'
  const Wildcard: char := '*'
  const AuthorizationKey: string := "Authorization"

  /** The request as the gate sees it: only its headers, keyed exactly. */
  datatype Request = Request(headers: map<string, string>)

  // ---------------------------------------------------------------------------
  // Path normalisation
  // ---------------------------------------------------------------------------

  /** True iff every character of `s` is a slash. */
  predicate AllSlashes(s: string) {
    forall i :: 0 <= i < |s| ==> s[i] == Slash
  }

  /** Python's `s.rstrip("/")`: the longest prefix of `s` that does not end in a
      slash, such that everything after it is slashes. */
  function StripTrailingSlashes(s: string): (r: string)
    ensures r <= s
    ensures |r| == 0 || r[|r| - 1] != Slash
    ensures forall i :: |r| <= i < |s| ==> s[i] == Slash
    decreases |s|
  {
    if |s| > 0 && s[|s| - 1] == Slash then StripTrailingSlashes(s[..|s| - 1]) else s
  }

  /** The three properties of `StripTrailingSlashes` determine its result. */
  lemma StripIsUnique(s: string, r: string)
    requires r <= s
    requires |r| == 0 || r[|r| - 1] != Slash
    requires forall i :: |r| <= i < |s| ==> s[i] == Slash
    ensures StripTrailingSlashes(s) == r
  {
    var t := StripTrailingSlashes(s);
    assert t == s[..|t|] && r == s[..|r|];
  }

  /** Appending slashes to a path does not change what `rstrip("/")` keeps. */
  lemma {:induction false} StripIgnoresAppendedSlashes(path: string, slashes: string)
    requires AllSlashes(slashes)
    ensures StripTrailingSlashes(path + slashes) == StripTrailingSlashes(path)
  {
    var t := StripTrailingSlashes(path);
    var s := path + slashes;
    forall i | |t| <= i < |s|
      ensures s[i] == Slash
    {
      if i < |path| {
        assert s[i] == path[i];
      } else {
        assert s[i] == slashes[i - |path|];
      }
    }
    StripIsUnique(s, t);
  }

  /** The path as `require_auth` compares it: `path.rstrip("/") + "/"`. It ends
      in exactly one slash, and removing that slash leaves a prefix of `path`
      after which `path` holds nothing but slashes. */
  function NormalizePath(path: string): (n: string)
    ensures |n| > 0 && n[|n| - 1] == Slash
    ensures |n| == 1 || n[|n| - 2] != Slash
    ensures n[..|n| - 1] <= path
    ensures forall i :: |n| - 1 <= i < |path| ==> path[i] == Slash
  {
    StripTrailingSlashes(path) + [Slash]
  }

  /** Every trailing slash goes, and exactly one comes back. */
  lemma ExampleSlashesCollapse()
    ensures NormalizePath("/a//") == "/a/"
    ensures NormalizePath("") == "/"
    ensures NormalizePath("///") == "/"
  {
    NormalizeIsCanonical("/a//", "/a/");
    NormalizeIsCanonical("", "/");
    NormalizeIsCanonical("///", "/");
  }

  /** Any string meeting the contract of `NormalizePath` is its result: the
      normalised form is canonical. */
  lemma NormalizeIsCanonical(path: string, n: string)
    requires |n| > 0 && n[|n| - 1] == Slash
    requires |n| == 1 || n[|n| - 2] != Slash
    requires n[..|n| - 1] <= path
    requires forall i :: |n| - 1 <= i < |path| ==> path[i] == Slash
    ensures NormalizePath(path) == n
  {
    StripIsUnique(path, n[..|n| - 1]);
    assert n == n[..|n| - 1] + [Slash];
  }

  /** Normalisation is insensitive to trailing slashes. */
  lemma NormalizeIgnoresTrailingSlash(path: string)
    ensures NormalizePath(path + [Slash]) == NormalizePath(path)
  {
    StripIgnoresAppendedSlashes(path, [Slash]);
  }

  /** Normalising twice is the same as normalising once. */
  lemma NormalizeIsIdempotent(path: string)
    ensures NormalizePath(NormalizePath(path)) == NormalizePath(path)
  {
    var n := NormalizePath(path);
    var t := StripTrailingSlashes(path);
    assert n == t + [Slash];
    NormalizeIgnoresTrailingSlash(t);
    StripIsUnique(t, t);
  }

  // ---------------------------------------------------------------------------
  // Exclusion patterns
  // ---------------------------------------------------------------------------

  /** Python's `pattern.split("*")[0]`: the part of an exclusion pattern before
      its first wildcard, or the whole pattern when it has none. */
  function LiteralPrefix(pattern: string): (r: string)
    ensures r <= pattern
    ensures Wildcard !in r
    ensures |r| < |pattern| ==> pattern[|r|] == Wildcard
    ensures Wildcard !in pattern ==> r == pattern
  {
    if |pattern| == 0 || pattern[0] == Wildcard then ""
    else [pattern[0]] + LiteralPrefix(pattern[1..])
  }

  /** A pattern made of a wildcard-free literal, a wildcard and anything after
      it is cut back to the literal. */
  lemma {:induction false} LiteralPrefixOfWildcardPattern(literal: string, rest: string)
    requires Wildcard !in literal
    ensures LiteralPrefix(literal + [Wildcard] + rest) == literal
  {
    var pattern := literal + [Wildcard] + rest;
    if |literal| > 0 {
      assert pattern[0] == literal[0];
      assert pattern[1..] == literal[1..] + [Wildcard] + rest;
      LiteralPrefixOfWildcardPattern(literal[1..], rest);
      assert literal == [literal[0]] + literal[1..];
    }
  }

  /** The pattern exempts the (already normalised) path: `path.startswith(prefix)`. */
  predicate Exempts(normalized: string, pattern: string) {
    LiteralPrefix(pattern) <= normalized
  }

  /** `Exempts` is plain prefix matching on the literal part of the pattern. */
  lemma ExemptsIff(normalized: string, literal: string, rest: string)
    requires Wildcard !in literal
    ensures Exempts(normalized, literal + [Wildcard] + rest) <==> literal <= normalized
    ensures Exempts(normalized, literal) <==> literal <= normalized
  {
    LiteralPrefixOfWildcardPattern(literal, rest);
  }

  /** Some pattern of `excluded` exempts `path` once it is normalised. */
  ghost predicate ExemptedBy(path: string, excluded: seq<string>) {
    exists pattern :: pattern in excluded && Exempts(NormalizePath(path), pattern)
  }

  // ---------------------------------------------------------------------------
  // require_auth
  // ---------------------------------------------------------------------------

  /** The loop over the exclusion list: false at the first pattern that exempts
      the path, true when the list runs out. */
  function ScanExclusions(normalized: string, excluded: seq<string>): (r: bool)
    ensures r <==> forall i :: 0 <= i < |excluded| ==> !Exempts(normalized, excluded[i])
  {
    if |excluded| == 0 then true
    else if Exempts(normalized, excluded[0]) then false
    else ScanExclusions(normalized, excluded[1..])
  }

  /** `Auth.require_auth`: true (authentication required) unless the path is
      present, the exclusion list is present and non-empty, and one of its
      patterns exempts the normalised path. */
  function RequireAuth(path: Option<string>, excluded: Option<seq<string>>): (r: bool)
    ensures path.None? ==> r
    ensures excluded.None? || |excluded.value| == 0 ==> r
    ensures path.Some? && excluded.Some? ==> (!r <==> ExemptedBy(path.value, excluded.value))
  {
    if path.None? then true
    else if excluded.None? || |excluded.value| == 0 then true
    else
      var normalized := NormalizePath(path.value);
      var r := ScanExclusions(normalized, excluded.value);
      assert !r ==> ExemptedBy(path.value, excluded.value) by {
        if !r {
          var i :| 0 <= i < |excluded.value| && Exempts(normalized, excluded.value[i]);
          assert excluded.value[i] in excluded.value;
        }
      }
      r
  }

  /** A path with a trailing slash needs authentication exactly when the path
      without it does. */
  lemma RequireAuthIgnoresTrailingSlash(path: string, excluded: Option<seq<string>>)
    ensures RequireAuth(Some(path + [Slash]), excluded) == RequireAuth(Some(path), excluded)
  {
    NormalizeIgnoresTrailingSlash(path);
  }

  /** Only the set of patterns matters, not their order or repetitions. */
  lemma RequireAuthIgnoresOrder(path: Option<string>, a: seq<string>, b: seq<string>)
    requires forall pattern :: pattern in a <==> pattern in b
    ensures RequireAuth(path, Some(a)) == RequireAuth(path, Some(b))
  {
  }

  /** Adding patterns can only exempt more paths: a path exempt under `a` stays
      exempt under any list containing all of `a`'s patterns. */
  lemma RequireAuthMonotone(path: Option<string>, a: seq<string>, b: seq<string>)
    requires forall pattern :: pattern in a ==> pattern in b
    ensures !RequireAuth(path, Some(a)) ==> !RequireAuth(path, Some(b))
  {
  }

  /** Appending one pattern: the path still needs authentication iff it did
      before and the new pattern does not exempt it. */
  lemma RequireAuthAppend(path: string, excluded: seq<string>, pattern: string)
    ensures RequireAuth(Some(path), Some(excluded + [pattern]))
         == (RequireAuth(Some(path), Some(excluded)) && !Exempts(NormalizePath(path), pattern))
  {
    var n := NormalizePath(path);
    assert pattern in excluded + [pattern];
    if ExemptedBy(path, excluded) {
      var q :| q in excluded && Exempts(n, q);
      assert q in excluded + [pattern];
    }
    if ExemptedBy(path, excluded + [pattern]) {
      var q :| q in excluded + [pattern] && Exempts(n, q);
      assert q in excluded || q == pattern;
    }
  }

  /** A pattern whose literal part is empty (`"*"`, `""`) exempts every path. */
  lemma EmptyLiteralExemptsEverything(path: string, excluded: seq<string>, pattern: string)
    requires pattern in excluded
    requires pattern == [Wildcard] || pattern == ""
    ensures !RequireAuth(Some(path), Some(excluded))
  {
    assert LiteralPrefix(pattern) == "";
  }

  /** A pattern `literal*...` exempts exactly the paths whose normalised form
      starts with `literal`. */
  lemma WildcardPatternExempts(path: string, literal: string, rest: string)
    requires Wildcard !in literal
    ensures !RequireAuth(Some(path), Some([literal + [Wildcard] + rest]))
        <==> literal <= NormalizePath(path)
  {
    LiteralPrefixOfWildcardPattern(literal, rest);
    var pattern := literal + [Wildcard] + rest;
    assert pattern in [pattern];
  }

  /** Examples, including the prefix quirk: a pattern with no wildcard is a
      prefix, not an exact match. */
  lemma ExampleNormalizedPathIsExempt()
    ensures !RequireAuth(Some("/api/v1/status/"), Some(["/api/v1/status/"]))
  {
    NormalizeIsCanonical("/api/v1/status/", "/api/v1/status/");
    assert "/api/v1/status/" in ["/api/v1/status/"];
  }

  lemma ExampleMissingSlashIsExempt()
    ensures !RequireAuth(Some("/api/v1/status"), Some(["/api/v1/status/"]))
  {
    NormalizeIsCanonical("/api/v1/status", "/api/v1/status/");
    assert "/api/v1/status/" in ["/api/v1/status/"];
  }

  lemma ExampleLiteralIsPrefixNotEquality()
    ensures !RequireAuth(Some("/api/v1/statusX"), Some(["/api/v1/status"]))
  {
    NormalizeIsCanonical("/api/v1/statusX", "/api/v1/statusX/");
    assert "/api/v1/status" in ["/api/v1/status"];
  }

  lemma ExampleOtherPathIsProtected()
    ensures RequireAuth(Some("/api/v1/users"), Some(["/api/v1/status/"]))
  {
    NormalizeIsCanonical("/api/v1/users", "/api/v1/users/");
  }

  // ---------------------------------------------------------------------------
  // authorization_header and current_user
  // ---------------------------------------------------------------------------

  /** `Auth.authorization_header`: the `Authorization` header's value, unchanged,
      when there is a request carrying one; absent otherwise. */
  function AuthorizationHeader(request: Option<Request>): (r: Option<string>)
    ensures r.Some? <==> request.Some? && AuthorizationKey in request.value.headers
    ensures r.Some? ==> r.value == request.value.headers[AuthorizationKey]
  {
    if request.None? then None
    else if AuthorizationKey !in request.value.headers then None
    else Some(request.value.headers[AuthorizationKey])
  }

  /** Setting the `Authorization` header and reading it back gives the value
      that was set, whatever the other headers are. */
  lemma AuthorizationHeaderRoundTrip(headers: map<string, string>, value: string)
    ensures AuthorizationHeader(Some(Request(headers[AuthorizationKey := value]))) == Some(value)
  {
  }

  /** Headers other than `Authorization` do not affect the result. */
  lemma AuthorizationHeaderIgnoresOtherHeaders(a: map<string, string>, b: map<string, string>)
    requires AuthorizationKey in a <==> AuthorizationKey in b
    requires AuthorizationKey in a ==> a[AuthorizationKey] == b[AuthorizationKey]
    ensures AuthorizationHeader(Some(Request(a))) == AuthorizationHeader(Some(Request(b)))
  {
  }

  /** `Auth.current_user`: the base class authenticates nobody. The user type is
      a parameter, as the source leaves it a bare type variable. */
  function CurrentUser<User>(request: Option<Request>): (u: Option<User>)
    ensures u.None?
  {
    None
  }
}
