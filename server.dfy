/** The decisions the Express server (server/index.js) makes before and
    around its handlers: reading the admin PIN from the request headers,
    checking it against the configured hash, the CORS origin rule, the
    upload file filter and the body checks of the project and upload
    routes. Configuration read from the environment is a parameter. */
module Server {
  import opened Common
  import opened Api
  import opened Database

  // ---------------------------------------------------------------------------
  // Replies
  // ---------------------------------------------------------------------------

  /** A JSON reply, or the page Express's default error handler sends for an
      error passed to `next`. */
  datatype Reply = Reply(status: nat, body: Json) | ErrorPage(status: nat, message: string)

  function ErrorReply(status: nat, message: string): Reply
  {
    Reply(status, JObject(map["error" := JString(message)]))
  }

  // ---------------------------------------------------------------------------
  // The admin PIN
  // ---------------------------------------------------------------------------

  const BearerPrefix: string := "bearer "

  predicate IsBearer(authorization: string)
  {
    BearerPrefix <= Lower(authorization)
  }

  /** getAdminPinFromRequest: the trimmed rest of an `Authorization` header
      whose scheme is "bearer " in any letter case, else the trimmed
      `x-admin-pin` header, else nothing. An absent header is `None`. */
  function GetAdminPin(authorization: Option<string>, adminPinHeader: Option<string>): (pin: Option<string>)
    ensures authorization.Some? && IsBearer(authorization.value) ==>
      pin == Some(Trim(authorization.value[|BearerPrefix|..]))
    ensures !(authorization.Some? && IsBearer(authorization.value)) ==>
      pin == if adminPinHeader.Some? then Some(Trim(adminPinHeader.value)) else None
    ensures pin.Some? && pin.value != "" ==> !IsSpace(pin.value[0]) && !IsSpace(pin.value[|pin.value| - 1])
  {
    if authorization.Some? && IsBearer(authorization.value) then
      Some(Trim(authorization.value[|BearerPrefix|..]))
    else if adminPinHeader.Some? then Some(Trim(adminPinHeader.value))
    else None
  }

  /** A bearer credential wins over `x-admin-pin`, whatever that header
      holds. */
  lemma BearerTakesPrecedence(authorization: string, header1: Option<string>, header2: Option<string>)
    requires IsBearer(authorization)
    ensures GetAdminPin(Some(authorization), header1) == GetAdminPin(Some(authorization), header2)
  {
  }

  /** The scheme is matched in any letter case: "Bearer", "BEARER" and
      "bEaReR" all yield the same PIN. */
  lemma BearerAnyCase(scheme: string, rest: string, header: Option<string>)
    requires Lower(scheme) == BearerPrefix
    ensures GetAdminPin(Some(scheme + rest), header) == Some(Trim(rest))
  {
    var a := scheme + rest;
    assert Lower(a)[..|BearerPrefix|] == Lower(scheme);
    assert a[|BearerPrefix|..] == rest;
  }

  /** A PIN without surrounding white space comes out unchanged from either
      header. */
  lemma PinSentIsPinRead(pin: string)
    requires pin == [] || (!IsSpace(pin[0]) && !IsSpace(pin[|pin| - 1]))
    ensures GetAdminPin(Some(BearerPrefix + pin), None) == Some(pin)
  {
    TrimUnchanged(pin);
    LowerBearerPrefix();
    BearerAnyCase(BearerPrefix, pin, None);
  }

  lemma PinHeaderIsPinRead(pin: string)
    requires pin == [] || (!IsSpace(pin[0]) && !IsSpace(pin[|pin| - 1]))
    ensures GetAdminPin(None, Some(pin)) == Some(pin)
  {
    var read := GetAdminPin(None, Some(pin));
    assert read == Some(Trim(pin));
    TrimUnchanged(pin);
  }

  lemma LowerBearerPrefix()
    ensures Lower(BearerPrefix) == BearerPrefix
  {
    var lowered := Lower(BearerPrefix);
    assert lowered[0] == 'b' && lowered[1] == 'e' && lowered[2] == 'a' && lowered[3] == 'r';
    assert lowered[4] == 'e' && lowered[5] == 'r' && lowered[6] == ' ';
  }

  type Bytes = seq<bv8>

  /** `ADMIN_PIN_SALT` and `ADMIN_PIN_HASH` (base64 of the derived key). */
  datatype PinConfig = PinConfig(salt: Option<string>, hash: Option<string>)

  predicate Configured(config: PinConfig)
  {
    config.salt.Some? && config.salt.value != "" && config.hash.Some? && config.hash.value != ""
  }

  /** verifyAdminPin, with base64 decoding (`decode`) and the scrypt key
      derivation (`derive(pin, salt, length)`) left uninterpreted: it holds
      exactly when the server is configured, the PIN is non-empty, the
      decoded hash is non-empty and the key derived from the PIN equals
      it. */
  function VerifyAdminPin(config: PinConfig, pin: Option<string>,
                          decode: string -> Bytes, derive: (string, string, nat) -> Bytes): (ok: bool)
    ensures ok ==> Configured(config) && pin.Some? && pin.value != ""
    ensures ok <==> Configured(config) && pin.Some? && pin.value != "" && |decode(config.hash.value)| > 0
                    && derive(pin.value, config.salt.value, |decode(config.hash.value)|) == decode(config.hash.value)
  {
    if !Configured(config) then false
    else if pin.None? || pin.value == "" then false
    else
      var expected := decode(config.hash.value);
      if |expected| == 0 then false
      else
        var actual := derive(pin.value, config.salt.value, |expected|);
        if |actual| != |expected| then false
        else actual == expected
  }

  /** What the gate does with a request. */
  datatype Gate = NotConfigured | MissingCredentials | InvalidCredentials | Pass

  const NotConfiguredMessage: string :=
    "Admin PIN is not configured on the server (missing ADMIN_PIN_SALT / ADMIN_PIN_HASH)."

  /** requireAdmin: 503 when the PIN is not configured, whatever the
      request carries; then 401 for a missing or empty PIN, 401 for a PIN
      that does not verify, and otherwise the request goes on. */
  function RequireAdmin(config: PinConfig, authorization: Option<string>, adminPinHeader: Option<string>,
                        decode: string -> Bytes, derive: (string, string, nat) -> Bytes): (g: Gate)
    ensures g == NotConfigured <==> !Configured(config)
    ensures g == MissingCredentials <==>
      Configured(config) && GetAdminPin(authorization, adminPinHeader) in {None, Some("")}
    ensures g == Pass <==> VerifyAdminPin(config, GetAdminPin(authorization, adminPinHeader), decode, derive)
  {
    if !Configured(config) then NotConfigured
    else
      var pin := GetAdminPin(authorization, adminPinHeader);
      if pin.None? || pin.value == "" then MissingCredentials
      else if !VerifyAdminPin(config, pin, decode, derive) then InvalidCredentials
      else Pass
  }

  /** The answer a refusing gate sends. */
  function GateReply(g: Gate): (r: Reply)
    requires g != Pass
    ensures g == NotConfigured ==> r == ErrorReply(503, NotConfiguredMessage)
    ensures g == MissingCredentials ==> r == ErrorReply(401, "Missing admin credentials")
    ensures g == InvalidCredentials ==> r == ErrorReply(401, "Invalid admin credentials")
    ensures r.Reply? && !IsOk(r.status)
  {
    match g
    case NotConfigured => ErrorReply(503, NotConfiguredMessage)
    case MissingCredentials => ErrorReply(401, "Missing admin credentials")
    case InvalidCredentials => ErrorReply(401, "Invalid admin credentials")
  }

  /** GET /api/admin/verify: `{ok: true}` behind the gate. */
  function AdminVerifyRoute(g: Gate): (r: Reply)
    ensures r.Reply? && (r.status == 200 <==> g == Pass)
  {
    if g != Pass then GateReply(g) else Reply(200, JObject(map["ok" := JBool(true)]))
  }

  // ---------------------------------------------------------------------------
  // CORS
  // ---------------------------------------------------------------------------

  const DefaultCorsOrigins: seq<string> := [
    "https://dedouleur.netlify.app",
    "https://dedouleur.mooo.com",
    "https://retardded.github.io",
    "http://localhost:5173",
    "http://localhost:3000"
  ]

  predicate Clean(s: string)
  {
    s != [] && ',' !in s && !IsSpace(s[0]) && !IsSpace(s[|s| - 1])
  }

  function TrimAll(pieces: seq<string>): (r: seq<string>)
    ensures |r| == |pieces| && forall k :: 0 <= k < |pieces| ==> r[k] == Trim(pieces[k])
  {
    seq(|pieces|, k requires 0 <= k < |pieces| => Trim(pieces[k]))
  }

  predicate NonEmpty(s: string)
  {
    s != ""
  }

  function RawText(raw: Option<string>): string
  {
    if raw.Some? then raw.value else ""
  }

  /** `envCorsOrigins`: `CORS_ORIGINS` split on ",", each piece trimmed,
      empty pieces dropped; an unset variable gives the empty list. */
  function EnvCorsOrigins(raw: Option<string>): (r: seq<string>)
    ensures forall x :: x in r <==> x in TrimAll(Split(RawText(raw), ',')) && x != ""
    ensures forall x :: x in r ==> Clean(x)
    ensures RawText(raw) == "" ==> r == []
  {
    var pieces := Split(RawText(raw), ',');
    assert RawText(raw) == "" ==> pieces == [""];
    forall k | 0 <= k < |pieces|
      ensures ',' !in Trim(pieces[k])
    {
      TrimKeepsOut(pieces[k], ',');
    }
    Filter(NonEmpty, TrimAll(pieces))
  }

  /** A list of origins without commas or surrounding white space, written
      comma-separated into `CORS_ORIGINS`, is read back as the same list. */
  lemma EnvCorsOriginsRoundTrip(origins: seq<string>)
    requires |origins| >= 1 && forall k :: 0 <= k < |origins| ==> Clean(origins[k])
    ensures EnvCorsOrigins(Some(Join(origins, ','))) == origins
  {
    var raw := Join(origins, ',');
    assert Split(RawText(Some(raw)), ',') == origins by {
      SplitJoin(origins, ',');
    }
    assert TrimAll(origins) == origins by {
      TrimAllClean(origins);
    }
    assert Filter(NonEmpty, origins) == origins by {
      FilterAll(NonEmpty, origins);
    }
  }

  lemma TrimAllClean(origins: seq<string>)
    requires forall k :: 0 <= k < |origins| ==> Clean(origins[k])
    ensures TrimAll(origins) == origins
  {
    forall k | 0 <= k < |origins|
      ensures Trim(origins[k]) == origins[k]
    {
      TrimUnchanged(origins[k]);
    }
  }

  /** `allowedOrigins`: the defaults together with the environment's. */
  function AllowedOrigins(env: seq<string>): (r: set<string>)
    ensures forall o :: o in r <==> o in DefaultCorsOrigins || o in env
  {
    (set o | o in DefaultCorsOrigins) + (set o | o in env)
  }

  /** The answer of the `cors` origin callback. */
  datatype CorsDecision = AllowWithoutOrigin | ReflectOrigin(origin: string) | BlockOrigin(error: string)

  /** The origin callback: requests without an Origin header are let
      through; "*" in the environment list reflects any origin; an allowed
      origin is reflected; any other origin is refused with an error. */
  function CorsOrigin(env: seq<string>, origin: Option<string>): (d: CorsDecision)
    ensures d == AllowWithoutOrigin <==> origin.None? || origin.value == ""
    ensures d.ReflectOrigin? <==> origin.Some? && origin.value != "" && ("*" in env || origin.value in AllowedOrigins(env))
    ensures d.ReflectOrigin? ==> d.origin == origin.value
    ensures d.BlockOrigin? ==> d.error == "CORS blocked for origin: " + origin.value
  {
    if origin.None? || origin.value == "" then AllowWithoutOrigin
    else if "*" in env then ReflectOrigin(origin.value)
    else if origin.value in AllowedOrigins(env) then ReflectOrigin(origin.value)
    else BlockOrigin("CORS blocked for origin: " + origin.value)
  }

  /** The built-in origins are reflected whatever the environment says. */
  lemma DefaultOriginsReflected(env: seq<string>, origin: string)
    requires origin in DefaultCorsOrigins
    ensures CorsOrigin(env, Some(origin)) == ReflectOrigin(origin)
  {
  }

  /** The extra middleware: the `Access-Control-Allow-Origin` value it sets,
      if any. */
  function AllowOriginHeader(env: seq<string>, origin: Option<string>): (h: Option<string>)
    ensures h.Some? ==> origin == h
  {
    if origin.None? || origin.value == "" then None
    else if "*" in env || origin.value in AllowedOrigins(env) then origin
    else None
  }

  /** The middleware sets the header exactly for the origins the `cors`
      callback reflects. */
  lemma HeaderMatchesCors(env: seq<string>, origin: Option<string>)
    ensures AllowOriginHeader(env, origin).Some? <==> CorsOrigin(env, origin).ReflectOrigin?
    ensures AllowOriginHeader(env, origin).Some? ==>
      CorsOrigin(env, origin) == ReflectOrigin(AllowOriginHeader(env, origin).value)
  {
  }

  // ---------------------------------------------------------------------------
  // The upload file filter
  // ---------------------------------------------------------------------------

  function DropTrailingSlashes(p: string): (r: string)
    ensures |r| <= |p| && r == p[..|r|]
    ensures r == [] || r[|r| - 1] != '/'
  {
    if p != [] && p[|p| - 1] == '/' then
      var r := DropTrailingSlashes(p[..|p| - 1]);
      assert p[..|p| - 1][..|r|] == p[..|r|];
      r
    else p
  }

  /** The text after the last '/'. */
  function LastSegment(p: string): (r: string)
    ensures '/' !in r
    ensures |r| <= |p| && r == p[|p| - |r|..]
    ensures '/' !in p ==> r == p
  {
    if p == [] || p[|p| - 1] == '/' then []
    else
      var r := LastSegment(p[..|p| - 1]);
      assert p[..|p| - 1][|p| - 1 - |r|..] + [p[|p| - 1]] == p[|p| - 1 - |r|..];
      r + [p[|p| - 1]]
  }

  /** The position of the last `c` in `s`. */
  function LastIndex(s: string, c: char): (r: Option<nat>)
    ensures r.None? <==> c !in s
    ensures r.Some? ==> r.value < |s| && s[r.value] == c && c !in s[r.value + 1..]
  {
    if s == [] then None
    else if s[|s| - 1] == c then Some(|s| - 1)
    else
      var r := LastIndex(s[..|s| - 1], c);
      assert r.Some? ==> s[r.value + 1..] == s[..|s| - 1][r.value + 1..] + [s[|s| - 1]];
      assert r.None? ==> s == s[..|s| - 1] + [s[|s| - 1]];
      r
  }

  /** `path.extname` of Node's POSIX path module: from the last '.' of the
      last segment (trailing slashes ignored) to its end; empty when the
      segment has no '.', starts with its only '.', or is "..". */
  function Extname(path: string): (e: string)
    ensures e == "" || (e[0] == '.' && '.' !in e[1..] && '/' !in e)
    ensures var segment := LastSegment(DropTrailingSlashes(path));
      if e == "" then segment == ".." || forall k :: 0 < k < |segment| ==> segment[k] != '.'
      else segment != ".." && EndsWith(segment, e) && |e| < |segment|
  {
    SegmentExtension(LastSegment(DropTrailingSlashes(path)))
  }

  /** The extension of one path segment, without '/'. */
  function SegmentExtension(segment: string): (e: string)
    requires '/' !in segment
    ensures e == "" || (e[0] == '.' && '.' !in e[1..] && '/' !in e)
    ensures if e == "" then segment == ".." || forall k :: 0 < k < |segment| ==> segment[k] != '.'
      else segment != ".." && EndsWith(segment, e) && |e| < |segment|
  {
    match LastIndex(segment, '.')
    case None => ""
    case Some(i) =>
      if i == 0 || segment == ".." then
        NoDotAfterLast(segment, i);
        ""
      else
        var e := segment[i..];
        assert e[1..] == segment[i + 1..];
        assert |segment| - |e| == i;
        e
  }

  /** No '.' follows the last '.' of a segment. */
  lemma NoDotAfterLast(segment: string, i: nat)
    requires i < |segment| && '.' !in segment[i + 1..]
    ensures forall k :: i < k < |segment| ==> segment[k] != '.'
  {
    forall k | i < k < |segment|
      ensures segment[k] != '.'
    {
      assert segment[k] == segment[i + 1..][k - i - 1];
    }
  }

  /** The extension is the end of the path's last segment. */
  lemma ExtnameIsSuffix(path: string)
    ensures EndsWith(DropTrailingSlashes(path), Extname(path))
  {
    var d := DropTrailingSlashes(path);
    var segment := LastSegment(d);
    var e := Extname(path);
    if e != "" {
      var i := LastIndex(segment, '.').value;
      assert e == segment[i..];
      SuffixOfSuffix(d, segment, i);
    }
  }

  lemma SuffixOfSuffix(d: string, segment: string, i: nat)
    requires |segment| <= |d| && segment == d[|d| - |segment|..] && i <= |segment|
    ensures EndsWith(d, segment[i..])
  {
    var e := segment[i..];
    assert forall m :: 0 <= m < |e| ==> e[m] == d[|d| - |e| + m];
  }

  /** A path without a '.' has no extension. */
  lemma ExtnameWithoutDot(path: string)
    requires '.' !in path
    ensures Extname(path) == ""
  {
    var d := DropTrailingSlashes(path);
    var segment := LastSegment(d);
    assert forall k :: 0 <= k < |segment| ==> segment[k] == d[|d| - |segment| + k] == path[|d| - |segment| + k];
    assert '.' !in segment;
  }

  /** The unanchored `/jpeg|jpg|png|gif|webp|mp4|webm|ogg|mov/` test. */
  predicate ExtensionAllowed(lowered: string)
  {
    Contains(lowered, "jpeg") || Contains(lowered, "jpg") || Contains(lowered, "png")
    || Contains(lowered, "gif") || Contains(lowered, "webp") || Contains(lowered, "mp4")
    || Contains(lowered, "webm") || Contains(lowered, "ogg") || Contains(lowered, "mov")
  }

  /** The unanchored `/image|video/` test on the MIME type. */
  predicate MimeAllowed(mimeType: string)
  {
    Contains(mimeType, "image") || Contains(mimeType, "video")
  }

  datatype FilterDecision = AcceptFile | RefuseFile(message: string)

  /** multer's `fileFilter`. */
  function FileFilter(originalName: string, mimeType: string): (d: FilterDecision)
    ensures d == AcceptFile <==> MimeAllowed(mimeType) && ExtensionAllowed(Lower(Extname(originalName)))
    ensures d.RefuseFile? ==> d.message == "Only image and video files are allowed!"
  {
    if MimeAllowed(mimeType) && ExtensionAllowed(Lower(Extname(originalName))) then AcceptFile
    else RefuseFile("Only image and video files are allowed!")
  }

  /** A name without a '.' has no extension and is refused, whatever its
      MIME type. */
  lemma NoExtensionRefused(originalName: string, mimeType: string)
    requires '.' !in originalName
    ensures FileFilter(originalName, mimeType).RefuseFile?
  {
    ExtnameWithoutDot(originalName);
    assert Lower("") == "";
  }

  /** A token that does not start with '.' found in a text that does sits
      after that first character. */
  lemma OccursAfterDot(s: string, t: string)
    requires Contains(s, t) && t != [] && t[0] != '.' && (s == [] || s[0] == '.')
    ensures |s| >= |t| + 1
  {
    var j := IndexOf(s, t).value;
    assert s[j] == t[0];
  }

  /** An accepted file always has an extension: a dot followed by at least
      the three letters of a token. */
  lemma AcceptedHasExtension(originalName: string, mimeType: string)
    requires FileFilter(originalName, mimeType) == AcceptFile
    ensures |Extname(originalName)| >= 4 && Extname(originalName)[0] == '.'
  {
    var e := Extname(originalName);
    var lowered := Lower(e);
    assert lowered == [] || lowered[0] == '.';
    if Contains(lowered, "jpeg") {
      OccursAfterDot(lowered, "jpeg");
    } else if Contains(lowered, "jpg") {
      OccursAfterDot(lowered, "jpg");
    } else if Contains(lowered, "png") {
      OccursAfterDot(lowered, "png");
    } else if Contains(lowered, "gif") {
      OccursAfterDot(lowered, "gif");
    } else if Contains(lowered, "webp") {
      OccursAfterDot(lowered, "webp");
    } else if Contains(lowered, "mp4") {
      OccursAfterDot(lowered, "mp4");
    } else if Contains(lowered, "webm") {
      OccursAfterDot(lowered, "webm");
    } else if Contains(lowered, "ogg") {
      OccursAfterDot(lowered, "ogg");
    } else {
      OccursAfterDot(lowered, "mov");
    }
  }

  /** The extension of a plain file name is its last dot and what follows. */
  lemma ExtnameOfFileName(base: string, ext: string)
    requires base != [] && ext != [] && '/' !in base && '/' !in ext && '.' !in ext
    ensures Extname(base + "." + ext) == "." + ext
  {
    var name := base + "." + ext;
    PlainNameIsSegment(base, ext);
    assert Extname(name) == SegmentExtension(name);
    LastDotOfFileName(base, ext);
    assert name != ".." by {
      assert |name| >= 3;
    }
    assert name[|base|..] == "." + ext;
    assert SegmentExtension(name) == "." + ext;
  }

  lemma PlainNameIsSegment(base: string, ext: string)
    requires ext != [] && '/' !in base && '/' !in ext
    ensures LastSegment(DropTrailingSlashes(base + "." + ext)) == base + "." + ext
  {
    var name := base + "." + ext;
    assert name[|name| - 1] == ext[|ext| - 1];
    assert DropTrailingSlashes(name) == name;
    assert '/' !in name;
  }

  lemma LastDotOfFileName(base: string, ext: string)
    requires '.' !in ext
    ensures LastIndex(base + "." + ext, '.') == Some(|base|)
  {
    var name := base + "." + ext;
    var r := LastIndex(name, '.');
    assert name[|base|] == '.';
    assert name[|base| + 1..] == ext;
  }

  /** The extension test ignores letter case: "photo.JPG" and "photo.jpg"
      get the same answer. */
  lemma ExtensionCaseIgnored(base: string, ext: string, mimeType: string)
    requires base != [] && ext != [] && '/' !in base && '/' !in ext && '.' !in ext
    ensures FileFilter(base + "." + ext, mimeType) == FileFilter(base + "." + Lower(ext), mimeType)
  {
    var lowered := Lower(ext);
    assert '/' !in lowered && '.' !in lowered by {
      assert forall k :: 0 <= k < |lowered| ==> lowered[k] == LowerChar(ext[k]);
    }
    ExtnameOfFileName(base, ext);
    ExtnameOfFileName(base, lowered);
    LowerConcat(".", ext);
    LowerConcat(".", lowered);
    LowerIdempotent(ext);
  }

  /** For a plain file name the extension test is an unanchored, case
      blind search for a token in the text after the dot: "photo.pngx" is
      accepted and "notes.txt" is not. */
  lemma PlainFileNameVerdict(base: string, ext: string, mimeType: string)
    requires base != [] && ext != [] && '/' !in base && '/' !in ext && '.' !in ext
    ensures FileFilter(base + "." + ext, mimeType) == AcceptFile <==>
      MimeAllowed(mimeType) && ExtensionAllowed(Lower(ext))
  {
    ExtnameOfFileName(base, ext);
    LowerConcat(".", ext);
    assert Lower(".") == ".";
    DotPrefixAllowed(Lower(ext));
  }

  /** A leading '.' never completes one of the extension tokens. */
  lemma DotPrefixAllowed(lowered: string)
    ensures ExtensionAllowed("." + lowered) <==> ExtensionAllowed(lowered)
  {
    ContainsAfterChar('.', lowered, "jpeg");
    ContainsAfterChar('.', lowered, "jpg");
    ContainsAfterChar('.', lowered, "png");
    ContainsAfterChar('.', lowered, "gif");
    ContainsAfterChar('.', lowered, "webp");
    ContainsAfterChar('.', lowered, "mp4");
    ContainsAfterChar('.', lowered, "webm");
    ContainsAfterChar('.', lowered, "ogg");
    ContainsAfterChar('.', lowered, "mov");
  }

  /** A MIME type naming neither images nor videos is refused, whatever the
      extension. */
  lemma TextMimeRefused(originalName: string)
    ensures FileFilter(originalName, "text/plain").RefuseFile?
  {
    MissingChar("text/plain", "image", 'm');
    MissingChar("text/plain", "video", 'v');
  }

  // ---------------------------------------------------------------------------
  // Routes
  // ---------------------------------------------------------------------------

  /** The text the PostgreSQL driver sends for a parameter value: a string
      as it is, a number or a boolean as `String(value)` would write it, and
      NULL (`None`) for null. */
  function ParamText(j: Json): (t: Option<string>)
    ensures j.JString? ==> t == Some(j.s)
    ensures j.JNumber? ==> t == Some(IntToString(j.n))
    ensures j.JBool? ==> t == Some(if j.b then "true" else "false")
    ensures j.JNull? ==> t.None?
  {
    match j
    case JString(s) => Some(s)
    case JNumber(n) => Some(IntToString(n))
    case JBool(b) => Some(if b then "true" else "false")
    case _ => None
  }

  /** JavaScript truthiness of a JSON value. */
  predicate Truthy(j: Json)
  {
    match j
    case JNull => false
    case JBool(b) => b
    case JNumber(n) => n != 0
    case JString(s) => s != ""
    case _ => true
  }

  /** `project[key] || default` as the query sees it: a falsy or missing
      value leaves the default to Defaulted; any other value is sent as
      its text, which is then never empty. */
  function DefaultedParam(m: map<string, Json>, key: string): (t: Option<string>)
    ensures key !in m || !Truthy(m[key]) ==> t.None?
    ensures key in m && m[key].JString? && m[key].s != "" ==> t == Some(m[key].s)
    ensures key in m && m[key].JNumber? && m[key].n != 0 ==> t == Some(IntToString(m[key].n))
    ensures t.Some? ==> t.value != ""
  {
    if key in m && Truthy(m[key]) then
      match m[key]
      case JString(s) => Some(s)
      case JNumber(n) => Some(IntToString(n))
      case JBool(_) => Some("true")
      case _ => None
    else None
  }

  /** A JSON array element as `saveAllProjects` hands it to the INSERT: the
      title as the text of whatever value it has (no default), the other
      properties after their `||` defaults, and the id as the number
      PostgreSQL reads from its text. */
  function IncomingOf(j: Json): (p: Incoming)
    ensures !j.JObject? ==> p.title.None?
    ensures j.JObject? ==> p.title == (if "title" in j.members then ParamText(j.members["title"]) else None)
    ensures j.JObject? && "id" in j.members && j.members["id"].JNumber? ==> p.id == Some(j.members["id"].n)
    ensures j.JObject? && "id" in j.members && j.members["id"].JString? ==> p.id == IntegerInput(j.members["id"].s)
    ensures j.JObject? && ("id" !in j.members || j.members["id"].JNull?) ==> p.id.None?
    ensures j.JObject? ==>
      p.description == DefaultedParam(j.members, "description") && p.year == DefaultedParam(j.members, "year")
      && p.category == DefaultedParam(j.members, "category") && p.image == DefaultedParam(j.members, "image")
      && p.video == DefaultedParam(j.members, "video") && p.kind == DefaultedParam(j.members, "type")
  {
    if !j.JObject? then Incoming(None, None, None, None, None, None, None, None)
    else
      var m := j.members;
      var id := if "id" in m && ParamText(m["id"]).Some? then IntegerInput(ParamText(m["id"]).value) else None;
      NumericIdRead(m);
      Incoming(id, if "title" in m then ParamText(m["title"]) else None,
               DefaultedParam(m, "description"), DefaultedParam(m, "year"), DefaultedParam(m, "category"),
               DefaultedParam(m, "image"), DefaultedParam(m, "video"), DefaultedParam(m, "type"))
  }

  /** A numeric id is sent as its text and read back as the same number. */
  lemma NumericIdRead(m: map<string, Json>)
    ensures "id" in m && m["id"].JNumber? ==>
      ParamText(m["id"]).Some? && IntegerInput(ParamText(m["id"]).value) == Some(m["id"].n)
  {
    if "id" in m && m["id"].JNumber? {
      IntegerInputOfNumber(m["id"].n);
    }
  }

  /** An id sent as the text "7" inserts the row with id 7, and a numeric
      title is stored as its digits. */
  lemma TextIdAndNumericTitle()
    ensures IncomingOf(JObject(map["id" := JString("7"), "title" := JNumber(42)])).id == Some(7)
    ensures IncomingOf(JObject(map["id" := JString("7"), "title" := JNumber(42)])).title == Some("42")
  {
    IntegerInputOfNumber(7);
    assert IntToString(7) == "7";
    assert NatToString(4) == "4";
    assert NatToString(42) == NatToString(4) + "2" == "42";
  }

  function IncomingsOf(items: seq<Json>): (ps: seq<Incoming>)
    ensures |ps| == |items| && forall i :: 0 <= i < |items| ==> ps[i] == IncomingOf(items[i])
  {
    seq(|items|, i requires 0 <= i < |items| => IncomingOf(items[i]))
  }

  /** POST /api/projects behind the gate: a body that is not an array is a
      400 and touches nothing; otherwise the array replaces the table, with
      200 on success and 500 when the save fails or rejects. */
  method PostProjects(repo: Repository, g: Gate, body: Json, up: bool) returns (r: Reply)
    requires repo.Valid()
    modifies repo
    ensures repo.Valid()
    ensures g != Pass ==> r == GateReply(g)
    ensures g == Pass && !body.JArray? ==> r == ErrorReply(400, "Projects must be an array")
    ensures r.Reply? && (r.status == 200 <==>
      g == Pass && body.JArray? && repo.connected && up && Committable(IncomingsOf(body.items)))
    ensures r.status == 200 ==> repo.rows == InsertAll(IncomingsOf(body.items)).value
    ensures r.status != 200 ==> repo.rows == old(repo.rows) && repo.nextId == old(repo.nextId)
    ensures g == Pass && body.JArray? && r.status != 200 ==> r == ErrorReply(500, "Failed to save projects")
  {
    if g != Pass {
      return GateReply(g);
    }
    if !body.JArray? {
      return ErrorReply(400, "Projects must be an array");
    }
    var reply := repo.SaveAll(IncomingsOf(body.items), up);
    if reply == Resolved(true) {
      r := Reply(200, JObject(map["success" := JBool(true), "message" := JString("Projects saved successfully")]));
    } else {
      r := ErrorReply(500, "Failed to save projects");
    }
  }

  const MaxUploadBytes: nat := 200 * 1024 * 1024

  datatype UploadedFile = UploadedFile(originalName: string, mimeType: string, size: nat)

  /** What the Cloudinary upload produced: the stored file, or the error it
      threw with its `message` and nested `error.message`. */
  datatype CloudinaryResult = Stored(secureUrl: string, publicId: string)
                            | StoreFailed(message: Option<string>, nestedMessage: Option<string>)

  /** POST /api/upload behind the gate: multer's filter and size limit
      first (their errors reach Express's error handler), then the missing
      file check, then the Cloudinary outcome. */
  function UploadRoute(g: Gate, file: Option<UploadedFile>, cloud: CloudinaryResult): (r: Reply)
    ensures g != Pass ==> r == GateReply(g)
    ensures g == Pass && file.None? ==> r == ErrorReply(400, "No file uploaded")
    ensures r.Reply? && r.status == 200 <==>
      g == Pass && file.Some? && FileFilter(file.value.originalName, file.value.mimeType) == AcceptFile
      && file.value.size <= MaxUploadBytes && cloud.Stored?
    ensures r.Reply? && r.status == 200 ==>
      r.body.JObject? && "url" in r.body.members && r.body.members["url"] == JString(cloud.secureUrl)
  {
    if g != Pass then GateReply(g)
    else if file.None? then ErrorReply(400, "No file uploaded")
    else if FileFilter(file.value.originalName, file.value.mimeType).RefuseFile? then
      ErrorPage(500, FileFilter(file.value.originalName, file.value.mimeType).message)
    else if file.value.size > MaxUploadBytes then ErrorPage(500, "File too large")
    else
      match cloud
      case Stored(url, publicId) =>
        Reply(200, JObject(map["success" := JBool(true), "url" := JString(url), "filename" := JString(publicId)]))
      case StoreFailed(message, nested) =>
        ErrorReply(500, if message.Some? && message.value != "" then message.value
                        else if nested.Some? && nested.value != "" then nested.value
                        else "Failed to upload file (unknown error)")
  }

  /** DELETE /api/images/:filename behind the gate; `destroyed` says whether
      the Cloudinary `destroy` call resolved (its result is not inspected). */
  function DeleteImageRoute(g: Gate, destroyed: bool): (r: Reply)
    ensures r.Reply? && (r.status == 200 <==> g == Pass && destroyed)
  {
    if g != Pass then GateReply(g)
    else if destroyed then Reply(200, JObject(map["success" := JBool(true), "message" := JString("Image deleted")]))
    else ErrorReply(500, "Failed to delete image")
  }

  function AsFetched(r: Reply): FetchResult
  {
    match r
    case Reply(status, body) => Responded(Response(status, "", Parsed(body)))
    case ErrorPage(status, message) => Responded(Response(status, "", Unreadable(JsError("SyntaxError", message))))
  }

  /** The client's uploadImage, sending the given credential headers, gets
      the stored URL back exactly when the PIN they carry verifies and the
      upload route succeeds. */
  lemma UploadRoundTrip(config: PinConfig, authorization: Option<string>, adminPinHeader: Option<string>,
                        decode: string -> Bytes, derive: (string, string, nat) -> Bytes,
                        file: Option<UploadedFile>, cloud: CloudinaryResult)
    ensures var g := RequireAdmin(config, authorization, adminPinHeader, decode, derive);
      UploadImage(AsFetched(UploadRoute(g, file, cloud))).Some? <==>
      VerifyAdminPin(config, GetAdminPin(authorization, adminPinHeader), decode, derive)
      && file.Some? && FileFilter(file.value.originalName, file.value.mimeType) == AcceptFile
      && file.value.size <= MaxUploadBytes && cloud.Stored?
    ensures var g := RequireAdmin(config, authorization, adminPinHeader, decode, derive);
      cloud.Stored? && UploadImage(AsFetched(UploadRoute(g, file, cloud))).Some? ==>
      UploadImage(AsFetched(UploadRoute(g, file, cloud))) == Some(JString(cloud.secureUrl))
  {
  }

  /** The client's deleteImage, sending the given credential headers,
      reports true exactly when the PIN they carry verifies and the
      `destroy` call resolved. */
  lemma DeleteRoundTrip(config: PinConfig, authorization: Option<string>, adminPinHeader: Option<string>,
                        decode: string -> Bytes, derive: (string, string, nat) -> Bytes, destroyed: bool)
    ensures var g := RequireAdmin(config, authorization, adminPinHeader, decode, derive);
      DeleteImage(AsFetched(DeleteImageRoute(g, destroyed))) <==>
      VerifyAdminPin(config, GetAdminPin(authorization, adminPinHeader), decode, derive) && destroyed
  {
  }

  /** saveProjects, uploadImage and deleteImage as written send neither an
      `Authorization` nor an `x-admin-pin` header, so the gate refuses them
      all, whatever the server's configuration: nothing is saved, uploaded
      or deleted. */
  lemma ClientRequestsRefused(config: PinConfig, decode: string -> Bytes, derive: (string, string, nat) -> Bytes,
                              file: Option<UploadedFile>, cloud: CloudinaryResult, destroyed: bool)
    ensures RequireAdmin(config, None, None, decode, derive) in {NotConfigured, MissingCredentials}
    ensures !SaveProjects(AsFetched(GateReply(RequireAdmin(config, None, None, decode, derive))))
    ensures UploadImage(AsFetched(UploadRoute(RequireAdmin(config, None, None, decode, derive), file, cloud))).None?
    ensures !DeleteImage(AsFetched(DeleteImageRoute(RequireAdmin(config, None, None, decode, derive), destroyed)))
  {
    UploadRoundTrip(config, None, None, decode, derive, file, cloud);
    DeleteRoundTrip(config, None, None, decode, derive, destroyed);
  }

  /** The scheme a corrected client writes in front of the PIN. */
  const AuthScheme: string := "Bearer "

  /** `Authorization: Bearer <pin>`. */
  function AuthorizationFor(pin: string): (header: string)
    ensures IsBearer(header)
  {
    AuthSchemeIsBearer();
    assert Lower(AuthScheme + pin)[..|BearerPrefix|] == Lower(AuthScheme);
    AuthScheme + pin
  }

  lemma AuthSchemeIsBearer()
    ensures Lower(AuthScheme) == BearerPrefix
  {
    var lowered := Lower(AuthScheme);
    assert lowered[0] == 'b' && lowered[1] == 'e' && lowered[2] == 'a' && lowered[3] == 'r';
    assert lowered[4] == 'e' && lowered[5] == 'r' && lowered[6] == ' ';
  }

  /** A client that sends `Authorization: Bearer <pin>` with the configured
      PIN gets its uploads and deletions through exactly when the route
      itself succeeds, and its saves past the gate. */
  lemma AuthorizedClientRoundTrip(config: PinConfig, pin: string, decode: string -> Bytes,
                                  derive: (string, string, nat) -> Bytes,
                                  file: Option<UploadedFile>, cloud: CloudinaryResult, destroyed: bool)
    requires pin == [] || (!IsSpace(pin[0]) && !IsSpace(pin[|pin| - 1]))
    requires VerifyAdminPin(config, Some(pin), decode, derive)
    ensures RequireAdmin(config, Some(AuthorizationFor(pin)), None, decode, derive) == Pass
    ensures var g := RequireAdmin(config, Some(AuthorizationFor(pin)), None, decode, derive);
      UploadImage(AsFetched(UploadRoute(g, file, cloud))).Some? <==>
      file.Some? && FileFilter(file.value.originalName, file.value.mimeType) == AcceptFile
      && file.value.size <= MaxUploadBytes && cloud.Stored?
    ensures var g := RequireAdmin(config, Some(AuthorizationFor(pin)), None, decode, derive);
      DeleteImage(AsFetched(DeleteImageRoute(g, destroyed))) <==> destroyed
  {
    AuthSchemeIsBearer();
    BearerAnyCase(AuthScheme, pin, None);
    TrimUnchanged(pin);
    UploadRoundTrip(config, Some(AuthorizationFor(pin)), None, decode, derive, file, cloud);
    DeleteRoundTrip(config, Some(AuthorizationFor(pin)), None, decode, derive, destroyed);
  }
}
