/** The OAuth2 builders of src/http_types.c: count the length, allocate, move a cursor through the buffer. */
module OAuthForms {
  import opened Bytes
  import opened UrlEncoding
  import opened QueryScan

  // ---------- forms grow at the end ----------

  lemma {:induction false} JoinConcat(ps: seq<Pair>, qs: seq<Pair>)
    requires ps != [] && qs != []
    ensures Join(ps + qs) == Join(ps) + "&" + Join(qs)
  {
    var all := ps + qs;
    assert all[0] == ps[0];
    if |ps| == 1 {
      assert all[1..] == qs;
    } else {
      assert all[1..] == ps[1..] + qs;
      JoinConcat(ps[1..], qs);
      Regroup(PairText(ps[0]) + "&", Join(ps[1..]), "&");
      Regroup(PairText(ps[0]) + "&", Join(ps[1..]) + "&", Join(qs));
    }
  }

  lemma FormConcat(fs: seq<Field>, gs: seq<Field>)
    requires fs != [] && gs != []
    ensures Form(fs + gs) == Form(fs) + "&" + Form(gs)
  {
    assert Coded(fs + gs) == Coded(fs) + Coded(gs);
    JoinConcat(Coded(fs), Coded(gs));
  }

  /** What stands in front of a value. */
  function Label(first: bool, name: text): text {
    (if first then [] else ['&']) + name + ['=']
  }

  lemma FormSnoc(fs: seq<Field>, f: Field)
    ensures Form(fs + [f]) == Form(fs) + (Label(fs == [], f.name) + Encode(f.value))
  {
    var one := f.name + ['='] + Encode(f.value);
    assert Coded([f]) == [Pair(f.name, Some(Encode(f.value)))];
    assert Form([f]) == one;
    if fs == [] {
      assert fs + [f] == [f];
    } else {
      FormConcat(fs, [f]);
      Regroup(Form(fs), "&", one);
      assert "&" + one == Label(false, f.name) + Encode(f.value);
    }
  }

  // ---------- parameter names ----------

  datatype Name =
    | GrantType | Username | Password | ClientId | ClientSecret | Scope | RefreshToken | Code | RedirectUri
    | CodeVerifier | Assertion | DeviceCode | Token | TokenTypeHint | ResponseType | State | CodeChallenge
    | CodeChallengeMethod

  function Spelling(n: Name): text {
    match n
    case GrantType => "grant_type"
    case Username => "username"
    case Password => "password"
    case ClientId => "client_id"
    case ClientSecret => "client_secret"
    case Scope => "scope"
    case RefreshToken => "refresh_token"
    case Code => "code"
    case RedirectUri => "redirect_uri"
    case CodeVerifier => "code_verifier"
    case Assertion => "assertion"
    case DeviceCode => "device_code"
    case Token => "token"
    case TokenTypeHint => "token_type_hint"
    case ResponseType => "response_type"
    case State => "state"
    case CodeChallenge => "code_challenge"
    case CodeChallengeMethod => "code_challenge_method"
  }

  /** How many octets the source copies for a literal `name=`; one more for `&name=`. */
  function Width(n: Name): (w: nat)
    ensures w == |Spelling(n)| + 1
  {
    match n
    case GrantType => 11
    case Username | Password => 9
    case ClientId | Assertion => 10
    case ClientSecret | RefreshToken | CodeVerifier | ResponseType => 14
    case Scope | Token | State => 6
    case Code => 5
    case RedirectUri => 13
    case DeviceCode => 12
    case TokenTypeHint => 16
    case CodeChallenge => 15
    case CodeChallengeMethod => 22
  }

  lemma SpellingClean(n: Name)
    ensures forall c <- Spelling(n) :: !KEY_STOP(c)
  {
  }

  /** No two parameters share a spelling: length and at most two octets tell them apart. */
  lemma SpellingInjective(m: Name, n: Name)
    requires Spelling(m) == Spelling(n)
    ensures m == n
  {
    assert Width(m) == Width(n);
    assert Spelling(m)[0] == Spelling(n)[0] && Spelling(m)[2] == Spelling(n)[2];
  }

  /** A parameter of a builder. */
  datatype Entry = Entry(name: Name, value: text)

  function Fields(es: seq<Entry>): (fs: seq<Field>)
    ensures |fs| == |es|
  {
    seq(|es|, i requires 0 <= i < |es| => Field(Spelling(es[i].name), es[i].value))
  }

  function Opt(n: Name, value: Option<text>): seq<Entry> {
    if value.Some? then [Entry(n, value.value)] else []
  }

  const FORM: seq<Entry> -> text := (es: seq<Entry>) => Form(Fields(es))

  lemma FormNext(es: seq<Entry>, e: Entry)
    ensures FORM(es + [e]) == FORM(es) + (Label(es == [], Spelling(e.name)) + Encode(e.value))
  {
    FormSnoc(Fields(es), Field(Spelling(e.name), e.value));
    assert Fields(es + [e]) == Fields(es) + [Field(Spelling(e.name), e.value)];
  }

  /** The value of the last parameter of that name. */
  function LastEntry(es: seq<Entry>, n: Name): Option<text> {
    if es == [] then None
    else if es[|es| - 1].name == n then Some(es[|es| - 1].value)
    else LastEntry(es[..|es| - 1], n)
  }

  lemma {:induction false} LastNamed(es: seq<Entry>, n: Name)
    ensures LastField(Fields(es), Spelling(n)) == LastEntry(es, n)
  {
    if es != [] {
      var most, e := es[..|es| - 1], es[|es| - 1];
      assert Fields(es)[..|es| - 1] == Fields(most);
      if Spelling(e.name) == Spelling(n) {
        SpellingInjective(e.name, n);
      }
      LastNamed(most, n);
    }
  }

  /** What a builder wrote reads back, parameter by parameter, with every value as it was given. */
  lemma FormReadBack(es: seq<Entry>, tail: text, n: Name)
    requires Ends(tail)
    ensures Pairs(FORM(es) + tail) == Coded(Fields(es))
    ensures LastValue(Pairs(FORM(es) + tail), Spelling(n)) == LastEntry(es, n)
  {
    forall f | f in Fields(es)
      ensures forall c <- f.name :: !KEY_STOP(c)
    {
      var i :| 0 <= i < |es| && Fields(es)[i] == f;
      SpellingClean(es[i].name);
    }
    FormRead(Fields(es), tail);
    LastCoded(Fields(es), Spelling(n));
    LastNamed(es, n);
  }

  // ---------- the form so far ----------

  ghost predicate Is(g: seq<Entry> -> text) {
    g == FORM
  }

  /** `s` is `base` and the form of `es`. */
  ghost predicate Spells(s: text, base: text, es: seq<Entry>) {
    forall g {:trigger Is(g)} :: Is(g) ==> s == base + g(es)
  }

  /** `n` octets are `size` and the length of the form of `es`. */
  ghost predicate Measures(n: nat, size: nat, es: seq<Entry>) {
    forall g {:trigger Is(g)} :: Is(g) ==> n == size + |g(es)|
  }

  lemma Spelled(s: text, base: text, es: seq<Entry>)
    requires Spells(s, base, es)
    ensures s == base + FORM(es)
  {
    assert Is(FORM);
  }

  lemma Measured(n: nat, size: nat, es: seq<Entry>)
    requires Measures(n, size, es)
    ensures n == size + |FORM(es)|
  {
    assert Is(FORM);
  }

  /** The length that `Measures` speaks of. */
  lemma Sized(size: nat, es: seq<Entry>) returns (n: nat)
    ensures Measures(n, size, es)
  {
    n := size + |FORM(es)|;
  }

  /** A form does not get shorter by one more parameter. */
  lemma Grows(n: nat, m: nat, size: nat, es: seq<Entry>, more: seq<Entry>)
    requires Measures(n, size, es) && Measures(m, size, es + more) && |more| <= 1
    ensures n <= m
  {
    Measured(n, size, es);
    Measured(m, size, es + more);
    if more == [] {
      assert es + more == es;
    } else {
      assert more == [more[0]];
      FormNext(es, more[0]);
    }
  }

  lemma NothingMeasured(n: nat)
    ensures Measures(n, n, [])
  {
    assert Fields([]) == [] && Coded([]) == [];
  }

  lemma NothingYet(base: text)
    ensures Spells(base, base, []) && Measures(|base|, |base|, [])
  {
    assert Fields([]) == [] && Coded([]) == [];
    assert base + [] == base;
  }

  // ---------- the first pass ----------

  /** `len += width + math_urlencode_len(value)`. */
  method Count(len: nat, width: nat, value: text, ghost size: nat, ghost es: seq<Entry>, ghost n: Name) returns (r: nat)
    requires Measures(len, size, es) && width == Width(n) + if es == [] then 0 else 1
    ensures Measures(r, size, es + [Entry(n, value)]) && r >= len
  {
    Measured(len, size, es);
    FormNext(es, Entry(n, value));
    var k := EncodedLength(value);
    r := len + (width + k);
  }

  method CountOptional(len: nat, width: nat, value: Option<text>, ghost size: nat, ghost es: seq<Entry>, ghost n: Name)
    returns (r: nat)
    requires Measures(len, size, es) && width == Width(n) + if es == [] then 0 else 1
    ensures Measures(r, size, es + Opt(n, value)) && r >= len
  {
    r := len;
    if value.Some? {
      r := Count(r, width, value.value, size, es, n);
    } else {
      assert es + Opt(n, value) == es;
    }
  }

  // ---------- the second pass ----------

  /** `memcpy(p, src, width); p += width`. */
  method Copy(dest: array<octet>, at: nat, src: text, width: nat) returns (q: nat)
    requires width == |src| && at + width <= dest.Length
    modifies dest
    ensures q == at + width && dest[..q] == old(dest[..at]) + src
  {
    forall i | 0 <= i < width {
      dest[at + i] := src[i];
    }
    q := at + width;
  }

  /** The literal `name=` or `&name=`, and an encoded value. */
  method Put(dest: array<octet>, at: nat, n: Name, width: nat, value: text,
             ghost room: nat, ghost base: text, ghost es: seq<Entry>) returns (q: nat)
    requires width == Width(n) + if es == [] then 0 else 1
    requires at <= dest.Length && Spells(dest[..at], base, es)
    requires Measures(room, |base|, es + [Entry(n, value)]) && room <= dest.Length
    modifies dest
    ensures q == room && Spells(dest[..q], base, es + [Entry(n, value)])
  {
    Spelled(dest[..at], base, es);
    Measured(room, |base|, es + [Entry(n, value)]);
    FormNext(es, Entry(n, value));
    var literal := if width == Width(n) then Label(true, Spelling(n)) else Label(false, Spelling(n));
    ghost var done := dest[..at];
    q := Copy(dest, at, literal, width);
    ghost var before := dest[..q];
    q := Append(dest, q, value);
    assert dest[..q] == before + Encode(value);
    Regroup(done, literal, Encode(value));
    Regroup(base, FORM(es), literal + Encode(value));
  }

  method PutOptional(dest: array<octet>, at: nat, n: Name, width: nat, value: Option<text>,
                     ghost room: nat, ghost base: text, ghost es: seq<Entry>) returns (q: nat)
    requires width == Width(n) + if es == [] then 0 else 1
    requires at <= dest.Length && Spells(dest[..at], base, es)
    requires Measures(room, |base|, es + Opt(n, value)) && room <= dest.Length
    modifies dest
    ensures q == room && Spells(dest[..q], base, es + Opt(n, value))
  {
    q := at;
    if value.Some? {
      q := Put(dest, q, n, width, value.value, room, base, es);
    } else {
      assert es + Opt(n, value) == es;
      Spelled(dest[..at], base, es);
      Measured(room, |base|, es);
    }
  }

  /** The finished buffer: `len` octets, the terminator, and not one octet more. */
  ghost predicate Holds(buf: array<octet>, len: nat, base: text, es: seq<Entry>)
    reads buf
  {
    buf.Length == len + 1 && buf[len] == '\0' && Spells(buf[..len], base, es)
  }

  method Finish(buf: array<octet>, at: nat)
    requires at < buf.Length
    modifies buf
    ensures buf[..at] == old(buf[..at]) && buf[at] == '\0'
  {
    buf[at] := '\0';
  }

  /** What a caller finds in the buffer. */
  lemma Content(buf: array<octet>, len: nat, base: text, es: seq<Entry>)
    requires Holds(buf, len, base, es)
    ensures buf[..len] == base + FORM(es)
  {
    Spelled(buf[..len], base, es);
  }

  // ---------- the builders ----------

  const PASSWORD: text := "password"
  const REFRESH_TOKEN: text := "refresh_token"
  const AUTHORIZATION_CODE: text := "authorization_code"
  const CLIENT_CREDENTIALS: text := "client_credentials"
  const GRANT_TYPE_URN: text := "urn:ietf:params:oauth:grant-type:"
  const JWT_BEARER: text := GRANT_TYPE_URN + "jwt-bearer"
  const DEVICE_CODE: text := GRANT_TYPE_URN + "device_code"

  function PasswordEntries(username: text, password: text, clientId: Option<text>, clientSecret: Option<text>,
                           scope: Option<text>): seq<Entry>
  {
    [Entry(GrantType, PASSWORD)] + [Entry(Username, username)] + [Entry(Password, password)]
    + Opt(ClientId, clientId) + Opt(ClientSecret, clientSecret) + Opt(Scope, scope)
  }

  /** Resource owner password credentials. */
  method PasswordGrant(username: text, password: text, clientId: Option<text>, clientSecret: Option<text>,
                       scope: Option<text>)
    returns (body: array<octet>, len: nat)
    ensures Holds(body, len, [], PasswordEntries(username, password, clientId, clientSecret, scope))
  {
    NothingYet([]);
    ghost var f1 := [Entry(GrantType, PASSWORD)];
    ghost var f2 := f1 + [Entry(Username, username)];
    ghost var f3 := f2 + [Entry(Password, password)];
    ghost var f4 := f3 + Opt(ClientId, clientId);
    ghost var f5 := f4 + Opt(ClientSecret, clientSecret);
    var n1 := Count(0, 11, PASSWORD, 0, [], GrantType);
    var n2 := Count(n1, 10, username, 0, f1, Username);
    var n3 := Count(n2, 10, password, 0, f2, Password);
    var n4 := CountOptional(n3, 11, clientId, 0, f3, ClientId);
    var n5 := CountOptional(n4, 15, clientSecret, 0, f4, ClientSecret);
    len := CountOptional(n5, 7, scope, 0, f5, Scope);
    body := new octet[len + 1];
    var p := Put(body, 0, GrantType, 11, PASSWORD, n1, [], []);
    p := Put(body, p, Username, 10, username, n2, [], f1);
    p := Put(body, p, Password, 10, password, n3, [], f2);
    p := PutOptional(body, p, ClientId, 11, clientId, n4, [], f3);
    p := PutOptional(body, p, ClientSecret, 15, clientSecret, n5, [], f4);
    p := PutOptional(body, p, Scope, 7, scope, len, [], f5);
    Finish(body, p);
  }

  function RefreshTokenEntries(refreshToken: text, clientId: Option<text>, clientSecret: Option<text>,
                               scope: Option<text>): seq<Entry>
  {
    [Entry(GrantType, REFRESH_TOKEN)] + [Entry(RefreshToken, refreshToken)] + Opt(ClientId, clientId)
    + Opt(ClientSecret, clientSecret) + Opt(Scope, scope)
  }

  /** Refresh token. */
  method RefreshTokenGrant(refreshToken: text, clientId: Option<text>, clientSecret: Option<text>, scope: Option<text>)
    returns (body: array<octet>, len: nat)
    ensures Holds(body, len, [], RefreshTokenEntries(refreshToken, clientId, clientSecret, scope))
  {
    NothingYet([]);
    ghost var f1 := [Entry(GrantType, REFRESH_TOKEN)];
    ghost var f2 := f1 + [Entry(RefreshToken, refreshToken)];
    ghost var f3 := f2 + Opt(ClientId, clientId);
    ghost var f4 := f3 + Opt(ClientSecret, clientSecret);
    var n1 := Count(0, 11, REFRESH_TOKEN, 0, [], GrantType);
    var n2 := Count(n1, 15, refreshToken, 0, f1, RefreshToken);
    var n3 := CountOptional(n2, 11, clientId, 0, f2, ClientId);
    var n4 := CountOptional(n3, 15, clientSecret, 0, f3, ClientSecret);
    len := CountOptional(n4, 7, scope, 0, f4, Scope);
    body := new octet[len + 1];
    var p := Put(body, 0, GrantType, 11, REFRESH_TOKEN, n1, [], []);
    p := Put(body, p, RefreshToken, 15, refreshToken, n2, [], f1);
    p := PutOptional(body, p, ClientId, 11, clientId, n3, [], f2);
    p := PutOptional(body, p, ClientSecret, 15, clientSecret, n4, [], f3);
    p := PutOptional(body, p, Scope, 7, scope, len, [], f4);
    Finish(body, p);
  }

  function AuthorizationCodeEntries(code: text, redirectUri: Option<text>, clientId: Option<text>,
                                    clientSecret: Option<text>, codeVerifier: Option<text>): seq<Entry>
  {
    [Entry(GrantType, AUTHORIZATION_CODE)] + [Entry(Code, code)] + Opt(RedirectUri, redirectUri)
    + Opt(ClientId, clientId) + Opt(ClientSecret, clientSecret) + Opt(CodeVerifier, codeVerifier)
  }

  /** Authorization code, with an optional proof key. */
  method AuthorizationCodeGrant(code: text, redirectUri: Option<text>, clientId: Option<text>,
                                clientSecret: Option<text>, codeVerifier: Option<text>)
    returns (body: array<octet>, len: nat)
    ensures Holds(body, len, [], AuthorizationCodeEntries(code, redirectUri, clientId, clientSecret, codeVerifier))
  {
    NothingYet([]);
    ghost var f1 := [Entry(GrantType, AUTHORIZATION_CODE)];
    ghost var f2 := f1 + [Entry(Code, code)];
    ghost var f3 := f2 + Opt(RedirectUri, redirectUri);
    ghost var f4 := f3 + Opt(ClientId, clientId);
    ghost var f5 := f4 + Opt(ClientSecret, clientSecret);
    var n1 := Count(0, 11, AUTHORIZATION_CODE, 0, [], GrantType);
    var n2 := Count(n1, 6, code, 0, f1, Code);
    var n3 := CountOptional(n2, 14, redirectUri, 0, f2, RedirectUri);
    var n4 := CountOptional(n3, 11, clientId, 0, f3, ClientId);
    var n5 := CountOptional(n4, 15, clientSecret, 0, f4, ClientSecret);
    len := CountOptional(n5, 15, codeVerifier, 0, f5, CodeVerifier);
    body := new octet[len + 1];
    var p := Put(body, 0, GrantType, 11, AUTHORIZATION_CODE, n1, [], []);
    p := Put(body, p, Code, 6, code, n2, [], f1);
    p := PutOptional(body, p, RedirectUri, 14, redirectUri, n3, [], f2);
    p := PutOptional(body, p, ClientId, 11, clientId, n4, [], f3);
    p := PutOptional(body, p, ClientSecret, 15, clientSecret, n5, [], f4);
    p := PutOptional(body, p, CodeVerifier, 15, codeVerifier, len, [], f5);
    Finish(body, p);
  }

  function ClientCredentialsEntries(clientId: Option<text>, clientSecret: Option<text>, scope: Option<text>): seq<Entry>
  {
    [Entry(GrantType, CLIENT_CREDENTIALS)] + Opt(ClientId, clientId) + Opt(ClientSecret, clientSecret)
    + Opt(Scope, scope)
  }

  /** Client credentials. */
  method ClientCredentialsGrant(clientId: Option<text>, clientSecret: Option<text>, scope: Option<text>)
    returns (body: array<octet>, len: nat)
    ensures Holds(body, len, [], ClientCredentialsEntries(clientId, clientSecret, scope))
  {
    NothingYet([]);
    ghost var f1 := [Entry(GrantType, CLIENT_CREDENTIALS)];
    ghost var f2 := f1 + Opt(ClientId, clientId);
    ghost var f3 := f2 + Opt(ClientSecret, clientSecret);
    var n1 := Count(0, 11, CLIENT_CREDENTIALS, 0, [], GrantType);
    var n2 := CountOptional(n1, 11, clientId, 0, f1, ClientId);
    var n3 := CountOptional(n2, 15, clientSecret, 0, f2, ClientSecret);
    len := CountOptional(n3, 7, scope, 0, f3, Scope);
    body := new octet[len + 1];
    var p := Put(body, 0, GrantType, 11, CLIENT_CREDENTIALS, n1, [], []);
    p := PutOptional(body, p, ClientId, 11, clientId, n2, [], f1);
    p := PutOptional(body, p, ClientSecret, 15, clientSecret, n3, [], f2);
    p := PutOptional(body, p, Scope, 7, scope, len, [], f3);
    Finish(body, p);
  }

  function JwtBearerEntries(assertion: text, scope: Option<text>): seq<Entry>
  {
    [Entry(GrantType, JWT_BEARER)] + [Entry(Assertion, assertion)] + Opt(Scope, scope)
  }

  /** A JSON web token as assertion. */
  method JwtBearerGrant(assertion: text, scope: Option<text>)
    returns (body: array<octet>, len: nat)
    ensures Holds(body, len, [], JwtBearerEntries(assertion, scope))
  {
    NothingYet([]);
    ghost var f1 := [Entry(GrantType, JWT_BEARER)];
    ghost var f2 := f1 + [Entry(Assertion, assertion)];
    var n1 := Count(0, 11, JWT_BEARER, 0, [], GrantType);
    var n2 := Count(n1, 11, assertion, 0, f1, Assertion);
    len := CountOptional(n2, 7, scope, 0, f2, Scope);
    body := new octet[len + 1];
    var p := Put(body, 0, GrantType, 11, JWT_BEARER, n1, [], []);
    p := Put(body, p, Assertion, 11, assertion, n2, [], f1);
    p := PutOptional(body, p, Scope, 7, scope, len, [], f2);
    Finish(body, p);
  }

  function DeviceAuthorizationEntries(clientId: text, scope: Option<text>): seq<Entry>
  {
    [Entry(ClientId, clientId)] + Opt(Scope, scope)
  }

  /** Device authorization request. */
  method DeviceAuthorization(clientId: text, scope: Option<text>)
    returns (body: array<octet>, len: nat)
    ensures Holds(body, len, [], DeviceAuthorizationEntries(clientId, scope))
  {
    NothingYet([]);
    ghost var f1 := [Entry(ClientId, clientId)];
    var n1 := Count(0, 10, clientId, 0, [], ClientId);
    len := CountOptional(n1, 7, scope, 0, f1, Scope);
    body := new octet[len + 1];
    var p := Put(body, 0, ClientId, 10, clientId, n1, [], []);
    p := PutOptional(body, p, Scope, 7, scope, len, [], f1);
    Finish(body, p);
  }

  function DeviceAccessTokenEntries(clientId: text, deviceCode: text): seq<Entry>
  {
    [Entry(GrantType, DEVICE_CODE)] + [Entry(ClientId, clientId)] + [Entry(DeviceCode, deviceCode)]
  }

  /** Device access token request. */
  method DeviceAccessToken(clientId: text, deviceCode: text)
    returns (body: array<octet>, len: nat)
    ensures Holds(body, len, [], DeviceAccessTokenEntries(clientId, deviceCode))
  {
    NothingYet([]);
    ghost var f1 := [Entry(GrantType, DEVICE_CODE)];
    ghost var f2 := f1 + [Entry(ClientId, clientId)];
    var n1 := Count(0, 11, DEVICE_CODE, 0, [], GrantType);
    var n2 := Count(n1, 11, clientId, 0, f1, ClientId);
    len := Count(n2, 13, deviceCode, 0, f2, DeviceCode);
    body := new octet[len + 1];
    var p := Put(body, 0, GrantType, 11, DEVICE_CODE, n1, [], []);
    p := Put(body, p, ClientId, 11, clientId, n2, [], f1);
    p := Put(body, p, DeviceCode, 13, deviceCode, len, [], f2);
    Finish(body, p);
  }

  function TokenEntries(token: text, tokenTypeHint: Option<text>, clientId: Option<text>,
                        clientSecret: Option<text>): seq<Entry>
  {
    [Entry(Token, token)] + Opt(TokenTypeHint, tokenTypeHint) + Opt(ClientId, clientId)
    + Opt(ClientSecret, clientSecret)
  }

  /** Token revocation and token introspection, whose bodies are built alike. */
  method TokenRequest(token: text, tokenTypeHint: Option<text>, clientId: Option<text>, clientSecret: Option<text>)
    returns (body: array<octet>, len: nat)
    ensures Holds(body, len, [], TokenEntries(token, tokenTypeHint, clientId, clientSecret))
  {
    NothingYet([]);
    ghost var f1 := [Entry(Token, token)];
    ghost var f2 := f1 + Opt(TokenTypeHint, tokenTypeHint);
    ghost var f3 := f2 + Opt(ClientId, clientId);
    var n1 := Count(0, 6, token, 0, [], Token);
    var n2 := CountOptional(n1, 17, tokenTypeHint, 0, f1, TokenTypeHint);
    var n3 := CountOptional(n2, 11, clientId, 0, f2, ClientId);
    len := CountOptional(n3, 15, clientSecret, 0, f3, ClientSecret);
    body := new octet[len + 1];
    var p := Put(body, 0, Token, 6, token, n1, [], []);
    p := PutOptional(body, p, TokenTypeHint, 17, tokenTypeHint, n2, [], f1);
    p := PutOptional(body, p, ClientId, 11, clientId, n3, [], f2);
    p := PutOptional(body, p, ClientSecret, 15, clientSecret, len, [], f3);
    Finish(body, p);
  }

  // ---------- the authorization URL ----------

  /** An endpoint that has a query is continued, another one begins a query. */
  function Separator(endpoint: text): (r: text)
    ensures |r| == 1
  {
    if '?' in endpoint then ['&'] else ['?']
  }

  /** What stands in front of the parameters. */
  function Stem(endpoint: text): (r: text)
    ensures |r| == |endpoint| + 1
  {
    endpoint + Separator(endpoint)
  }

  method PutEndpoint(url: array<octet>, endpoint: text) returns (p: nat)
    requires |endpoint| + 1 <= url.Length
    modifies url
    ensures p == |endpoint| + 1 && Spells(url[..p], Stem(endpoint), [])
  {
    var hasQuery := '?' in endpoint;
    p := Copy(url, 0, endpoint, |endpoint|);
    p := Copy(url, p, if hasQuery then ['&'] else ['?'], 1);
    assert url[..p] == endpoint + Separator(endpoint);
    NothingYet(url[..p]);
  }

  /** The parameters that name the request. */
  function RequestEntries(clientId: text, responseType: text, redirectUri: Option<text>, scope: Option<text>)
    : (r: seq<Entry>)
    ensures r != []
  {
    [Entry(ResponseType, responseType)] + [Entry(ClientId, clientId)]
    + Opt(RedirectUri, redirectUri) + Opt(Scope, scope)
  }

  /** `es`, and the parameters that tie the answer to the request. */
  function BoundEntries(es: seq<Entry>, state: Option<text>, codeChallenge: Option<text>,
                        codeChallengeMethod: Option<text>): seq<Entry>
  {
    es + Opt(State, state) + Opt(CodeChallenge, codeChallenge) + Opt(CodeChallengeMethod, codeChallengeMethod)
  }

  function AuthorizationEntries(clientId: text, responseType: text, redirectUri: Option<text>, scope: Option<text>,
                                state: Option<text>, codeChallenge: Option<text>,
                                codeChallengeMethod: Option<text>): seq<Entry>
  {
    BoundEntries(RequestEntries(clientId, responseType, redirectUri, scope), state, codeChallenge, codeChallengeMethod)
  }

  method CountRequest(n0: nat, clientId: text, responseType: text, redirectUri: Option<text>, scope: Option<text>)
    returns (len: nat)
    ensures len >= n0 && Measures(len, n0, RequestEntries(clientId, responseType, redirectUri, scope))
  {
    NothingMeasured(n0);
    ghost var f1 := [Entry(ResponseType, responseType)];
    ghost var f2 := f1 + [Entry(ClientId, clientId)];
    ghost var f3 := f2 + Opt(RedirectUri, redirectUri);
    len := Count(n0, 14, responseType, n0, [], ResponseType);
    len := Count(len, 11, clientId, n0, f1, ClientId);
    len := CountOptional(len, 14, redirectUri, n0, f2, RedirectUri);
    len := CountOptional(len, 7, scope, n0, f3, Scope);
  }

  method PutRequest(url: array<octet>, at: nat, clientId: text, responseType: text, redirectUri: Option<text>,
                    scope: Option<text>, ghost room: nat, ghost base: text) returns (p: nat)
    requires at <= url.Length && Spells(url[..at], base, [])
    requires room <= url.Length && Measures(room, |base|, RequestEntries(clientId, responseType, redirectUri, scope))
    modifies url
    ensures p == room && Spells(url[..p], base, RequestEntries(clientId, responseType, redirectUri, scope))
  {
    ghost var f1 := [Entry(ResponseType, responseType)];
    ghost var f2 := f1 + [Entry(ClientId, clientId)];
    ghost var f3 := f2 + Opt(RedirectUri, redirectUri);
    ghost var n1 := Sized(|base|, f1);
    ghost var n2 := Sized(|base|, f2);
    ghost var n3 := Sized(|base|, f3);
    Grows(n1, n2, |base|, f1, Opt(ClientId, Some(clientId)));
    Grows(n2, n3, |base|, f2, Opt(RedirectUri, redirectUri));
    Grows(n3, room, |base|, f3, Opt(Scope, scope));
    p := Put(url, at, ResponseType, 14, responseType, n1, base, []);
    p := Put(url, p, ClientId, 11, clientId, n2, base, f1);
    p := PutOptional(url, p, RedirectUri, 14, redirectUri, n3, base, f2);
    p := PutOptional(url, p, Scope, 7, scope, room, base, f3);
  }

  method CountBound(n0: nat, state: Option<text>, codeChallenge: Option<text>, codeChallengeMethod: Option<text>,
                    ghost size: nat, ghost es: seq<Entry>) returns (len: nat)
    requires es != [] && Measures(n0, size, es)
    ensures len >= n0 && Measures(len, size, BoundEntries(es, state, codeChallenge, codeChallengeMethod))
  {
    ghost var f1 := es + Opt(State, state);
    ghost var f2 := f1 + Opt(CodeChallenge, codeChallenge);
    len := CountOptional(n0, 7, state, size, es, State);
    len := CountOptional(len, 16, codeChallenge, size, f1, CodeChallenge);
    len := CountOptional(len, 23, codeChallengeMethod, size, f2, CodeChallengeMethod);
  }

  method PutBound(url: array<octet>, at: nat, state: Option<text>, codeChallenge: Option<text>,
                  codeChallengeMethod: Option<text>, ghost room: nat, ghost base: text, ghost es: seq<Entry>)
    returns (p: nat)
    requires es != [] && at <= url.Length && Spells(url[..at], base, es)
    requires room <= url.Length && Measures(room, |base|, BoundEntries(es, state, codeChallenge, codeChallengeMethod))
    modifies url
    ensures p == room && Spells(url[..p], base, BoundEntries(es, state, codeChallenge, codeChallengeMethod))
  {
    ghost var f1 := es + Opt(State, state);
    ghost var f2 := f1 + Opt(CodeChallenge, codeChallenge);
    ghost var n1 := Sized(|base|, f1);
    ghost var n2 := Sized(|base|, f2);
    Grows(n1, n2, |base|, f1, Opt(CodeChallenge, codeChallenge));
    Grows(n2, room, |base|, f2, Opt(CodeChallengeMethod, codeChallengeMethod));
    p := PutOptional(url, at, State, 7, state, n1, base, es);
    p := PutOptional(url, p, CodeChallenge, 16, codeChallenge, n2, base, f1);
    p := PutOptional(url, p, CodeChallengeMethod, 23, codeChallengeMethod, room, base, f2);
  }

  /** The authorization URL: the endpoint, a separator, the form. */
  method AuthorizationUrl(endpoint: text, clientId: text, responseType: text, redirectUri: Option<text>,
                          scope: Option<text>, state: Option<text>, codeChallenge: Option<text>,
                          codeChallengeMethod: Option<text>)
    returns (url: array<octet>, len: nat)
    ensures Holds(url, len, Stem(endpoint),
              AuthorizationEntries(clientId, responseType, redirectUri, scope, state,
                                   codeChallenge, codeChallengeMethod))
  {
    ghost var base, es := Stem(endpoint), RequestEntries(clientId, responseType, redirectUri, scope);
    var n0 := |endpoint| + 1;
    var n := CountRequest(n0, clientId, responseType, redirectUri, scope);
    len := CountBound(n, state, codeChallenge, codeChallengeMethod, n0, es);
    url := new octet[len + 1];
    var p := PutEndpoint(url, endpoint);
    p := PutRequest(url, p, clientId, responseType, redirectUri, scope, n, base);
    p := PutBound(url, p, state, codeChallenge, codeChallengeMethod, len, base, es);
    Finish(url, p);
  }

  lemma StemContinued(path: text, e: text, d: text)
    ensures Stem(path + "?" + e) + d == path + "?" + (e + "&" + d)
  {
    assert (path + "?" + e)[|path|] == '?';
    Regroup(path + "?", e, "&");
    Regroup(path + "?", e + "&", d);
  }

  /** An endpoint whose query is a form keeps its parameters, in front of those of the request. */
  lemma QueryExtended(path: text, es: seq<Entry>, ds: seq<Entry>)
    requires es != [] && ds != []
    ensures var endpoint := path + "?" + FORM(es);
            Stem(endpoint) + FORM(ds) == path + "?" + FORM(es + ds)
  {
    assert Fields(es + ds) == Fields(es) + Fields(ds);
    FormConcat(Fields(es), Fields(ds));
    StemContinued(path, FORM(es), FORM(ds));
  }

  /** Without a query in the endpoint, the query of the request line for the URL is the form alone. */
  lemma QueryBegun(path: text, es: seq<Entry>, tail: text, n: Name)
    requires '?' !in path && (forall c <- path :: !PATH_STOP(c)) && Ends(tail)
    ensures Stem(path) == path + "?"
    ensures LastValue(Pairs(Query("GET " + path + "?" + (FORM(es) + tail))), Spelling(n)) ==
            LastEntry(es, n)
  {
    QueryRead(path, FORM(es) + tail);
    FormReadBack(es, tail, n);
  }

  /** The parameter names of RFC 6749 section 11.2.2, RFC 7636, RFC 7521, RFC 7009 and RFC 8628. */
  lemma NamesSpelled()
    ensures Spelling(GrantType) == "grant_type" && Spelling(Username) == "username" && Spelling(Password) == "password"
    ensures Spelling(ClientId) == "client_id" && Spelling(ClientSecret) == "client_secret"
    ensures Spelling(Scope) == "scope" && Spelling(State) == "state" && Spelling(Code) == "code"
    ensures Spelling(RefreshToken) == "refresh_token" && Spelling(RedirectUri) == "redirect_uri"
    ensures Spelling(ResponseType) == "response_type" && Spelling(Assertion) == "assertion"
    ensures Spelling(CodeVerifier) == "code_verifier" && Spelling(CodeChallenge) == "code_challenge"
    ensures Spelling(CodeChallengeMethod) == "code_challenge_method" && Spelling(DeviceCode) == "device_code"
    ensures Spelling(Token) == "token" && Spelling(TokenTypeHint) == "token_type_hint"
    ensures PASSWORD == "password" && REFRESH_TOKEN == "refresh_token" && AUTHORIZATION_CODE == "authorization_code"
    ensures CLIENT_CREDENTIALS == "client_credentials"
    ensures JWT_BEARER == "urn:ietf:params:oauth:grant-type:jwt-bearer"
    ensures DEVICE_CODE == "urn:ietf:params:oauth:grant-type:device_code"
  {
  }
}
