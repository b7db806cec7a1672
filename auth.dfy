/** The environment helpers and the decision logic of the OAuth set-up
    (services/mcp_server/src/ssyk_mcp/auth.py). The environment is a map from
    variable name to value; the JWT verifier and the remote provider are not
    built, the model returns the arguments they would receive. */
module Auth {
  import opened Optional
  import Text

  type Env = map<string, string>

  /** `os.getenv(name)`. */
  function GetEnv(env: Env, name: string): Option<string> {
    if name in env then Some(env[name]) else None
  }

  /** A variable whose value is truthy in Python: set and not "". */
  predicate IsSet(env: Env, name: string) {
    name in env && env[name] != ""
  }

  /** A part `_split_csv` can return: non-empty, stripped, comma free. */
  predicate IsCsvItem(p: string) {
    p != [] && ',' !in p && Text.IsStripped(p)
  }

  /** The stripped, non-empty pieces of a list of pieces, in order. */
  function KeepNonBlank(pieces: seq<string>): (parts: seq<string>)
    ensures |parts| <= |pieces|
    ensures forall k :: 0 <= k < |parts| ==> parts[k] != [] && Text.IsStripped(parts[k])
  {
    if pieces == [] then []
    else
      var p := Text.Strip(pieces[0]);
      var rest := KeepNonBlank(pieces[1..]);
      if p == [] then rest
      else
        assert forall k :: 0 < k < |[p] + rest| ==> ([p] + rest)[k] == rest[k - 1];
        [p] + rest
  }

  /** One piece is kept, stripped, exactly when it is not blank. */
  lemma KeepNonBlankSingle(p: string)
    ensures KeepNonBlank([p]) == if Text.Strip(p) == [] then [] else [Text.Strip(p)]
  {
    assert [p][1..] == [];
  }

  /** The pieces are filtered one by one, in order. */
  lemma {:induction false} KeepNonBlankAppend(a: seq<string>, b: seq<string>)
    ensures KeepNonBlank(a + b) == KeepNonBlank(a) + KeepNonBlank(b)
  {
    if a == [] {
      assert a + b == b;
    } else {
      assert (a + b)[0] == a[0];
      assert (a + b)[1..] == a[1..] + b;
      KeepNonBlankAppend(a[1..], b);
    }
  }

  /** Only what `strip()` makes of each piece matters. */
  lemma {:induction false} KeepNonBlankSameStrip(pieces: seq<string>, others: seq<string>)
    requires |pieces| == |others|
    requires forall k :: 0 <= k < |pieces| ==> Text.Strip(pieces[k]) == Text.Strip(others[k])
    ensures KeepNonBlank(pieces) == KeepNonBlank(others)
  {
    if pieces != [] {
      KeepNonBlankSameStrip(pieces[1..], others[1..]);
    }
  }

  lemma {:induction false} KeepNonBlankNoComma(pieces: seq<string>)
    requires forall k :: 0 <= k < |pieces| ==> ',' !in pieces[k]
    ensures forall k :: 0 <= k < |KeepNonBlank(pieces)| ==> IsCsvItem(KeepNonBlank(pieces)[k])
  {
    if pieces != [] {
      var p := Text.Strip(pieces[0]);
      var rest := KeepNonBlank(pieces[1..]);
      Text.StripSubset(pieces[0], ',');
      KeepNonBlankNoComma(pieces[1..]);
      if p != [] {
        var parts := KeepNonBlank(pieces);
        assert parts == [p] + rest;
        assert IsCsvItem(p);
        forall k | 0 < k < |parts| ensures IsCsvItem(parts[k]) {
          assert parts[k] == rest[k - 1];
        }
      }
    }
  }

  /** `_split_csv(value)`: nothing for an absent or blank value, else the comma
      separated parts, each stripped, the empty ones dropped, in their order. */
  function SplitCsv(value: Option<string>): (parts: seq<string>)
    ensures value.None? ==> parts == []
    ensures value.Some? && Text.AllSpace(value.value) ==> parts == []
    ensures forall k :: 0 <= k < |parts| ==> IsCsvItem(parts[k])
  {
    match value
    case None => []
    case Some(v) =>
      var stripped := Text.Strip(v);
      if stripped == [] then []
      else
        KeepNonBlankNoComma(Text.SplitOn(stripped, ','));
        KeepNonBlank(Text.SplitOn(stripped, ','))
  }

  /** Left-stripping a comma separated string only touches its first part. */
  lemma TrimLeftJoin(pieces: seq<string>)
    requires pieces != []
    ensures Text.TrimLeft(Text.Join(pieces, ","))
         == Text.Join([Text.TrimLeft(pieces[0])] + pieces[1..], ",")
  {
    var first := Text.TrimLeft(pieces[0]);
    var firsts := [first] + pieces[1..];
    if |pieces| == 1 {
      assert firsts == [first];
    } else {
      assert firsts[0] == first && firsts[1..] == pieces[1..];
      Text.JoinCons(pieces, ",");
      Text.JoinCons(firsts, ",");
      Text.TrimLeftConcat(pieces[0], "," + Text.Join(pieces[1..], ","));
    }
  }

  /** Right-stripping a comma separated string only touches its last part. */
  lemma {:induction false} TrimRightJoin(pieces: seq<string>)
    requires pieces != []
    ensures Text.TrimRight(Text.Join(pieces, ","))
         == Text.Join(pieces[..|pieces| - 1] + [Text.TrimRight(pieces[|pieces| - 1])], ",")
  {
    var n := |pieces|;
    var lasts := pieces[..n - 1] + [Text.TrimRight(pieces[n - 1])];
    if n == 1 {
      assert lasts == [Text.TrimRight(pieces[0])];
    } else {
      var tail := pieces[1..];
      TrimRightJoin(tail);
      var tailLasts := tail[..|tail| - 1] + [Text.TrimRight(tail[|tail| - 1])];
      var rest := Text.Join(tail, ",");
      var head := pieces[0] + ",";
      assert Text.Join(pieces, ",") == head + rest;
      Text.TrimRightConcat(head, rest);
      assert lasts[0] == pieces[0];
      assert lasts[1..] == tailLasts;
      assert Text.Join(lasts, ",") == head + Text.Join(tailLasts, ",");
    }
  }

  /** Stripping a comma separated string gives the join of parts that strip the same
      way as the original parts and are still comma free. */
  lemma StripJoin(pieces: seq<string>) returns (trimmed: seq<string>)
    requires pieces != []
    requires forall k :: 0 <= k < |pieces| ==> ',' !in pieces[k]
    ensures |trimmed| == |pieces|
    ensures forall k :: 0 <= k < |trimmed| ==> ',' !in trimmed[k]
    ensures forall k :: 0 <= k < |trimmed| ==> Text.Strip(trimmed[k]) == Text.Strip(pieces[k])
    ensures Text.Strip(Text.Join(pieces, ",")) == Text.Join(trimmed, ",")
  {
    var firsts := FirstTrimmed(pieces);
    trimmed := LastTrimmed(firsts);
    TrimLeftJoin(pieces);
    TrimRightJoin(firsts);
  }

  /** Left-stripping the first part keeps every part comma free and stripping the same. */
  lemma FirstTrimmed(pieces: seq<string>) returns (firsts: seq<string>)
    requires pieces != []
    requires forall k :: 0 <= k < |pieces| ==> ',' !in pieces[k]
    ensures firsts == [Text.TrimLeft(pieces[0])] + pieces[1..]
    ensures forall k :: 0 <= k < |firsts| ==> ',' !in firsts[k]
    ensures forall k :: 0 <= k < |firsts| ==> Text.Strip(firsts[k]) == Text.Strip(pieces[k])
  {
    firsts := [Text.TrimLeft(pieces[0])] + pieces[1..];
    forall k | 0 <= k < |firsts|
      ensures ',' !in firsts[k]
    {
      if k == 0 {
        Text.TrimSubset(pieces[0], ',');
      } else {
        assert firsts[k] == pieces[k];
      }
    }
    forall k | 0 <= k < |firsts|
      ensures Text.Strip(firsts[k]) == Text.Strip(pieces[k])
    {
      if k == 0 {
        Text.StripTrimLeft(pieces[0]);
      } else {
        assert firsts[k] == pieces[k];
      }
    }
  }

  /** Right-stripping the last part keeps every part comma free and stripping the same. */
  lemma LastTrimmed(pieces: seq<string>) returns (lasts: seq<string>)
    requires pieces != []
    requires forall k :: 0 <= k < |pieces| ==> ',' !in pieces[k]
    ensures lasts == pieces[..|pieces| - 1] + [Text.TrimRight(pieces[|pieces| - 1])]
    ensures forall k :: 0 <= k < |lasts| ==> ',' !in lasts[k]
    ensures forall k :: 0 <= k < |lasts| ==> Text.Strip(lasts[k]) == Text.Strip(pieces[k])
  {
    var n := |pieces|;
    lasts := pieces[..n - 1] + [Text.TrimRight(pieces[n - 1])];
    forall k | 0 <= k < n
      ensures ',' !in lasts[k]
    {
      if k == n - 1 {
        Text.TrimSubset(pieces[k], ',');
      } else {
        assert lasts[k] == pieces[k];
      }
    }
    forall k | 0 <= k < n
      ensures Text.Strip(lasts[k]) == Text.Strip(pieces[k])
    {
      if k == n - 1 {
        Text.StripTrimRight(pieces[k]);
      } else {
        assert lasts[k] == pieces[k];
      }
    }
  }

  /** `_split_csv(value)` on a comma separated string is the stripped, non-blank parts,
      in order: the strip of the whole value before splitting changes nothing. */
  lemma SplitCsvPieces(pieces: seq<string>)
    requires forall k :: 0 <= k < |pieces| ==> ',' !in pieces[k]
    ensures SplitCsv(Some(Text.Join(pieces, ","))) == KeepNonBlank(pieces)
  {
    var v := Text.Join(pieces, ",");
    if pieces == [] {
      assert Text.AllSpace(v);
    } else {
      var trimmed := StripJoin(pieces);
      KeepNonBlankSameStrip(pieces, trimmed);
      assert "," == [','];
      Text.SplitJoin(trimmed, ',');
      SplitCsvStripped(v, trimmed);
    }
  }

  /** `_split_csv` of a value whose strip splits back into `parts`: the non-blank parts. */
  lemma SplitCsvStripped(v: string, parts: seq<string>)
    requires Text.SplitOn(Text.Strip(v), ',') == parts
    ensures SplitCsv(Some(v)) == KeepNonBlank(parts)
  {
    if Text.Strip(v) == [] {
      assert parts == [[]];
      KeepNonBlankSingle([]);
      assert Text.AllSpace([]);
    }
  }

  /** For every value, `_split_csv` is `[p.strip() for p in value.split(",") if p.strip()]`. */
  lemma SplitCsvValue(value: string)
    ensures SplitCsv(Some(value)) == KeepNonBlank(Text.SplitOn(value, ','))
  {
    Text.JoinSplit(value, ',');
    assert "," == [','];
    SplitCsvPieces(Text.SplitOn(value, ','));
  }

  lemma {:induction false} KeepNonBlankStripped(parts: seq<string>)
    requires forall k :: 0 <= k < |parts| ==> parts[k] != [] && Text.IsStripped(parts[k])
    ensures KeepNonBlank(parts) == parts
  {
    if parts != [] {
      Text.StripStripped(parts[0]);
      KeepNonBlankStripped(parts[1..]);
      assert parts == [parts[0]] + parts[1..];
    }
  }

  lemma JoinFirst(parts: seq<string>, sep: string)
    requires parts != [] && parts[0] != []
    ensures |Text.Join(parts, sep)| > 0 && Text.Join(parts, sep)[0] == parts[0][0]
  {
    if |parts| > 1 {
      var rest := Text.Join(parts[1..], sep);
      assert Text.Join(parts, sep) == parts[0] + (sep + rest);
    }
  }

  lemma {:induction false} JoinLast(parts: seq<string>, sep: string)
    requires parts != [] && parts[|parts| - 1] != []
    ensures |Text.Join(parts, sep)| > 0
    ensures Text.Join(parts, sep)[|Text.Join(parts, sep)| - 1]
         == parts[|parts| - 1][|parts[|parts| - 1]| - 1]
  {
    if |parts| > 1 {
      var tail := parts[1..];
      assert tail[|tail| - 1] == parts[|parts| - 1];
      JoinLast(tail, sep);
      var rest := Text.Join(tail, sep);
      assert Text.Join(parts, sep) == (parts[0] + sep) + rest;
    }
  }

  lemma JoinIsStripped(parts: seq<string>)
    requires parts != []
    requires forall k :: 0 <= k < |parts| ==> IsCsvItem(parts[k])
    ensures Text.Join(parts, ",") != []
    ensures Text.IsStripped(Text.Join(parts, ","))
  {
    var first, last := parts[0], parts[|parts| - 1];
    assert IsCsvItem(first) && IsCsvItem(last);
    JoinFirst(parts, ",");
    JoinLast(parts, ",");
  }

  lemma SplitJoinedClean(parts: seq<string>)
    requires parts != []
    requires forall k :: 0 <= k < |parts| ==> IsCsvItem(parts[k])
    ensures Text.SplitOn(Text.Join(parts, ","), ',') == parts
  {
    assert forall k :: 0 <= k < |parts| ==> ',' !in parts[k];
    Text.SplitJoin(parts, ',');
  }

  /** Writing a list of clean parts as comma separated text and splitting it again
      gives the same list back. */
  lemma SplitCsvJoin(parts: seq<string>)
    requires forall k :: 0 <= k < |parts| ==> IsCsvItem(parts[k])
    ensures SplitCsv(Some(Text.Join(parts, ","))) == parts
  {
    if parts != [] {
      JoinIsStripped(parts);
      Text.StripStripped(Text.Join(parts, ","));
      SplitJoinedClean(parts);
      KeepNonBlankStripped(parts);
    } else {
      assert Text.Strip(Text.Join(parts, ",")) == [];
    }
  }

  const TruthyValues: set<string> := {"1", "true", "yes", "y", "on"}

  /** `_is_truthy(value)`. Python lowercases every letter, but only ASCII letters can
      lower to a character of the five accepted words. */
  function IsTruthy(value: Option<string>): bool {
    Text.LowerAsciiString(Text.Strip(value.GetOr(""))) in TruthyValues
  }

  lemma {:induction false} TrimLeftLower(s: string)
    ensures Text.TrimLeft(Text.LowerAsciiString(s)) == Text.LowerAsciiString(Text.TrimLeft(s))
  {
    var l := Text.LowerAsciiString(s);
    if s != [] {
      assert l[1..] == Text.LowerAsciiString(s[1..]);
      Text.LowerAsciiSpace(s[0]);
      TrimLeftLower(s[1..]);
    }
  }

  lemma TrimRightLower(s: string)
    ensures Text.TrimRight(Text.LowerAsciiString(s)) == Text.LowerAsciiString(Text.TrimRight(s))
  {
    var t := Text.TrimRight(s);
    var l := Text.LowerAsciiString(s);
    var m := Text.LowerAsciiString(t);
    assert m == l[..|m|];
    forall i | |m| <= i < |l| ensures Text.IsSpace(l[i]) {
      assert s[|t|..][i - |t|] == s[i];
      Text.LowerAsciiSpace(s[i]);
    }
    assert Text.AllSpace(l[|m|..]);
    if m != [] {
      Text.LowerAsciiSpace(t[|t| - 1]);
    }
    Text.TrimRightUnique(l, m);
  }

  /** `_is_truthy` ignores surrounding whitespace. */
  lemma TruthyPadded(ws: string, s: string, ws': string)
    requires Text.AllSpace(ws) && Text.AllSpace(ws')
    ensures IsTruthy(Some(ws + s + ws')) == IsTruthy(Some(s))
  {
    Text.StripPadded(ws, s, ws');
  }

  lemma StripLower(s: string)
    ensures Text.Strip(Text.LowerAsciiString(s)) == Text.LowerAsciiString(Text.Strip(s))
  {
    TrimLeftLower(s);
    TrimRightLower(Text.TrimLeft(s));
  }

  lemma LowerTwice(s: string)
    ensures Text.LowerAsciiString(Text.LowerAsciiString(s)) == Text.LowerAsciiString(s)
  {
  }

  /** `_is_truthy` ignores the case of ASCII letters. */
  lemma TruthyCaseless(s: string)
    ensures IsTruthy(Some(Text.LowerAsciiString(s))) == IsTruthy(Some(s))
  {
    StripLower(s);
    LowerTwice(Text.Strip(s));
  }

  const RequiredVars: seq<string> := ["AUTH_JWKS_URI", "AUTH_ISSUER", "AUTH_AUDIENCE"]

  /** The `missing` list of `build_auth`: the required variables that are unset or
      empty, in the order JWKS URI, issuer, audience. */
  function MissingVars(env: Env): (missing: seq<string>)
    ensures missing == [] <==>
      IsSet(env, "AUTH_JWKS_URI") && IsSet(env, "AUTH_ISSUER") && IsSet(env, "AUTH_AUDIENCE")
    ensures |missing| <= |RequiredVars|
  {
    (if IsSet(env, "AUTH_JWKS_URI") then [] else ["AUTH_JWKS_URI"])
    + (if IsSet(env, "AUTH_ISSUER") then [] else ["AUTH_ISSUER"])
    + (if IsSet(env, "AUTH_AUDIENCE") then [] else ["AUTH_AUDIENCE"])
  }

  /** The list names exactly the unset required variables, each once. */
  lemma MissingVarsExact(env: Env, name: string)
    ensures name in MissingVars(env) <==> name in RequiredVars && !IsSet(env, name)
    ensures forall a, b :: 0 <= a < b < |MissingVars(env)| ==> MissingVars(env)[a] != MissingVars(env)[b]
  {
  }

  /** The arguments `build_auth` hands to the JWT verifier and the remote provider. */
  datatype AuthConfig = AuthConfig(
    jwksUri: string,
    issuer: string,
    audience: string,
    authorizationServers: seq<string>,
    baseUrl: string,
    allowedRedirectUris: Option<seq<string>>)

  datatype AuthOutcome =
    | AuthDisabled                   // `return None`
    | AuthError(message: string)     // `raise ValueError(...)`
    | AuthProvider(config: AuthConfig)

  const MissingVarsPrefix: string := "AUTH_ENABLED is true but required auth env vars are missing: "

  /** `_split_csv(os.getenv("AUTHORIZATION_SERVERS") or issuer)`: the listed servers,
      or the issuer when the variable is unset or empty. */
  function AuthorizationServers(env: Env): seq<string> {
    SplitCsv(if IsSet(env, "AUTHORIZATION_SERVERS") then GetEnv(env, "AUTHORIZATION_SERVERS")
             else GetEnv(env, "AUTH_ISSUER"))
  }

  /** `allowed_client_redirect_uris`: no list when the variable is unset, else its
      parts. */
  function AllowedRedirects(env: Env): Option<seq<string>> {
    match GetEnv(env, "AUTH_ALLOWED_REDIRECT_URIS")
    case None => None
    case Some(raw) => Some(SplitCsv(Some(raw)))
  }

  /** `build_auth(base_url=...)`. */
  function BuildAuth(env: Env, baseUrl: string): (r: AuthOutcome)
    ensures r.AuthDisabled? <==> !IsTruthy(GetEnv(env, "AUTH_ENABLED"))
    ensures r.AuthError? <==> IsTruthy(GetEnv(env, "AUTH_ENABLED")) && MissingVars(env) != []
    ensures r.AuthError? ==> r.message == MissingVarsPrefix + Text.Join(MissingVars(env), ", ")
    ensures r.AuthProvider? ==>
      IsSet(env, "AUTH_JWKS_URI") && IsSet(env, "AUTH_ISSUER") && IsSet(env, "AUTH_AUDIENCE")
  {
    if !IsTruthy(GetEnv(env, "AUTH_ENABLED")) then AuthDisabled
    else
      var missing := MissingVars(env);
      if missing != [] then AuthError(MissingVarsPrefix + Text.Join(missing, ", "))
      else
        AuthProvider(AuthConfig(
          env["AUTH_JWKS_URI"], env["AUTH_ISSUER"], env["AUTH_AUDIENCE"],
          AuthorizationServers(env), baseUrl, AllowedRedirects(env)))
  }

  /** What an enabled, fully configured set-up hands to the JWT verifier and the
      remote provider. This only names BuildAuth's provider case; what the two lists
      hold is stated by AuthorizationServersParts and AllowedRedirectsParts. */
  lemma ProviderArguments(env: Env, baseUrl: string)
    requires IsTruthy(GetEnv(env, "AUTH_ENABLED"))
    requires IsSet(env, "AUTH_JWKS_URI") && IsSet(env, "AUTH_ISSUER") && IsSet(env, "AUTH_AUDIENCE")
    ensures BuildAuth(env, baseUrl)
         == AuthProvider(AuthConfig(env["AUTH_JWKS_URI"], env["AUTH_ISSUER"], env["AUTH_AUDIENCE"],
                                    AuthorizationServers(env), baseUrl, AllowedRedirects(env)))
  {
  }

  /** With AUTHORIZATION_SERVERS unset or empty, a plain issuer URL is the only
      authorization server. */
  lemma DefaultAuthorizationServers(env: Env)
    requires !IsSet(env, "AUTHORIZATION_SERVERS") && IsSet(env, "AUTH_ISSUER")
    requires IsCsvItem(env["AUTH_ISSUER"])
    ensures AuthorizationServers(env) == [env["AUTH_ISSUER"]]
  {
    var single := [env["AUTH_ISSUER"]];
    assert Text.Join(single, ",") == single[0];
    SplitCsvJoin(single);
  }

  /** A comma separated list of clean URLs in AUTHORIZATION_SERVERS is used as it
      stands, whatever the issuer. */
  lemma ListedAuthorizationServers(env: Env, servers: seq<string>)
    requires servers != [] && forall k :: 0 <= k < |servers| ==> IsCsvItem(servers[k])
    requires "AUTHORIZATION_SERVERS" in env && env["AUTHORIZATION_SERVERS"] == Text.Join(servers, ",")
    ensures AuthorizationServers(env) == servers
  {
    JoinIsStripped(servers);
    SplitCsvJoin(servers);
  }

  /** The authorization servers are the stripped, non-blank comma separated parts of
      AUTHORIZATION_SERVERS when it is non-empty, else of AUTH_ISSUER, and none when
      neither is set. */
  lemma AuthorizationServersParts(env: Env)
    ensures IsSet(env, "AUTHORIZATION_SERVERS") ==>
      AuthorizationServers(env) == KeepNonBlank(Text.SplitOn(env["AUTHORIZATION_SERVERS"], ','))
    ensures !IsSet(env, "AUTHORIZATION_SERVERS") && "AUTH_ISSUER" in env ==>
      AuthorizationServers(env) == KeepNonBlank(Text.SplitOn(env["AUTH_ISSUER"], ','))
    ensures !IsSet(env, "AUTHORIZATION_SERVERS") && "AUTH_ISSUER" !in env ==>
      AuthorizationServers(env) == []
  {
    if IsSet(env, "AUTHORIZATION_SERVERS") {
      SplitCsvValue(env["AUTHORIZATION_SERVERS"]);
    } else if "AUTH_ISSUER" in env {
      SplitCsvValue(env["AUTH_ISSUER"]);
    }
  }

  /** A set AUTH_ALLOWED_REDIRECT_URIS, even an empty one, gives the list of its
      stripped, non-blank comma separated parts. */
  lemma AllowedRedirectsParts(env: Env)
    ensures "AUTH_ALLOWED_REDIRECT_URIS" in env ==>
      AllowedRedirects(env) == Some(KeepNonBlank(Text.SplitOn(env["AUTH_ALLOWED_REDIRECT_URIS"], ',')))
  {
    if "AUTH_ALLOWED_REDIRECT_URIS" in env {
      SplitCsvValue(env["AUTH_ALLOWED_REDIRECT_URIS"]);
    }
  }

  /** AUTH_ALLOWED_REDIRECT_URIS set to "" gives an empty list (every redirect
      allowed), which differs from leaving it unset (no list at all). */
  lemma RedirectDefaults(env: Env)
    ensures "AUTH_ALLOWED_REDIRECT_URIS" in env && env["AUTH_ALLOWED_REDIRECT_URIS"] == ""
      ==> AllowedRedirects(env) == Some([])
    ensures "AUTH_ALLOWED_REDIRECT_URIS" !in env ==> AllowedRedirects(env) == None
  {
    assert Text.AllSpace("");
  }
}
