/** The client data layer (src/lib/api.ts): the `Project` record, the way
    each fetch wrapper turns what `fetch` produced into a return value or an
    error, and the extraction of a file name from an `/images/` URL. The
    network itself is not modelled: each wrapper receives what `fetch` and
    `response.json()` produced as a value. */
module Api {
  import opened Common

  /** One gallery entry. `image`, `video` and `kind` (the source's `type`)
      are optional properties. `kind` is any string: the type names "image"
      and "video" are a convention the writers follow, and nothing checks
      a value read back from the server or from an imported file. */
  datatype Project = Project(
    id: int,
    title: string,
    description: string,
    year: string,
    category: string,
    image: Option<string>,
    video: Option<string>,
    kind: Option<string>)

  // ---------------------------------------------------------------------------
  // Projects as JSON (what `JSON.stringify` writes and a reader gets back)
  // ---------------------------------------------------------------------------

  /** The JSON object `JSON.stringify` writes for a project: absent optional
      properties are omitted. */
  function ProjectToJson(p: Project): (j: Json)
    ensures j.JObject? && "id" in j.members && j.members["id"] == JNumber(p.id)
  {
    var required := map[
      "id" := JNumber(p.id),
      "title" := JString(p.title),
      "description" := JString(p.description),
      "year" := JString(p.year),
      "category" := JString(p.category)];
    var withImage := if p.image.Some? then required["image" := JString(p.image.value)] else required;
    var withVideo := if p.video.Some? then withImage["video" := JString(p.video.value)] else withImage;
    var withKind := if p.kind.Some? then withVideo["type" := JString(p.kind.value)] else withVideo;
    JObject(withKind)
  }

  function StringMember(m: map<string, Json>, key: string): Option<string>
  {
    if key in m && m[key].JString? then Some(m[key].s) else None
  }

  function KindMember(m: map<string, Json>): Option<Option<string>>
  {
    if "type" !in m then Some(None)
    else if m["type"].JString? then Some(Some(m["type"].s))
    else None
  }

  /** Reads a project back from JSON; `None` when the value does not have
      the shape of a `Project`. */
  function ProjectFromJson(j: Json): Option<Project>
  {
    if !j.JObject? then None
    else
      var m := j.members;
      if !("id" in m && m["id"].JNumber?) then None
      else if StringMember(m, "title").None? || StringMember(m, "description").None?
           || StringMember(m, "year").None? || StringMember(m, "category").None? then None
      else if ("image" in m && !m["image"].JString?) || ("video" in m && !m["video"].JString?) then None
      else if KindMember(m).None? then None
      else Some(Project(m["id"].n,
                        StringMember(m, "title").value, StringMember(m, "description").value,
                        StringMember(m, "year").value, StringMember(m, "category").value,
                        StringMember(m, "image"), StringMember(m, "video"),
                        KindMember(m).value))
  }

  /** Every project survives being written as JSON and read back, field for
      field. */
  lemma ProjectJsonRoundTrip(p: Project)
    ensures ProjectFromJson(ProjectToJson(p)) == Some(p)
  {
    var m := ProjectToJson(p).members;
    ProjectJsonMembers(p);
    assert StringMember(m, "title") == Some(p.title);
    assert StringMember(m, "description") == Some(p.description);
    assert StringMember(m, "year") == Some(p.year);
    assert StringMember(m, "category") == Some(p.category);
    assert StringMember(m, "image") == p.image;
    assert StringMember(m, "video") == p.video;
    assert KindMember(m) == Some(p.kind);
  }

  /** The members `ProjectToJson` writes, one by one. */
  lemma ProjectJsonMembers(p: Project)
    ensures var m := ProjectToJson(p).members;
      && "title" in m && m["title"] == JString(p.title)
      && "description" in m && m["description"] == JString(p.description)
      && "year" in m && m["year"] == JString(p.year)
      && "category" in m && m["category"] == JString(p.category)
      && (p.image.Some? <==> "image" in m) && (p.image.Some? ==> m["image"] == JString(p.image.value))
      && (p.video.Some? <==> "video" in m) && (p.video.Some? ==> m["video"] == JString(p.video.value))
      && (p.kind.Some? <==> "type" in m) && (p.kind.Some? ==> m["type"] == JString(p.kind.value))
  {
  }

  function ProjectsToJson(ps: seq<Project>): (j: Json)
    ensures j.JArray? && |j.items| == |ps|
    ensures forall i :: 0 <= i < |ps| ==> j.items[i] == ProjectToJson(ps[i])
  {
    JArray(seq(|ps|, i requires 0 <= i < |ps| => ProjectToJson(ps[i])))
  }

  // ---------------------------------------------------------------------------
  // What `fetch` produced
  // ---------------------------------------------------------------------------

  /** The outcome of reading a response body with `response.json()`. */
  datatype Body = Parsed(value: Json) | Unreadable(error: JsError)

  datatype Response = Response(status: nat, statusText: string, body: Body)

  /** A resolved `fetch` call, or the error it rejected with (an abort, a
      network failure). */
  datatype FetchResult = Responded(response: Response) | Threw(error: JsError)

  /** `response.ok`. */
  predicate IsOk(status: nat)
  {
    200 <= status <= 299
  }

  // ---------------------------------------------------------------------------
  // fetchProjects
  // ---------------------------------------------------------------------------

  datatype FetchOutcome = Loaded(items: seq<Json>) | Failed(error: JsError)

  // Written in pieces so that proofs can find the words "not available" at
  // a known position without unfolding the whole text character by character.
  const UnavailableMessage: string := "Server is " + "not available" + ". Make sure backend is running on port 3005."

  /** The error a non-ok response is turned into. */
  function StatusError(resp: Response): (e: JsError)
    requires !IsOk(resp.status)
    ensures e.name == "Error"
    ensures resp.status == 404 || resp.status >= 500 ==> e.message == "Server error: " + NatToString(resp.status)
    ensures resp.status != 404 && resp.status < 500 ==> e.message == "Failed to fetch projects: " + resp.statusText
  {
    if resp.status == 404 || resp.status >= 500 then JsError("Error", "Server error: " + NatToString(resp.status))
    else JsError("Error", "Failed to fetch projects: " + resp.statusText)
  }

  /** The `catch` block of fetchProjects: aborts and network failures become
      one "not available" error, anything else passes through. */
  function Reclassify(e: JsError): (r: JsError)
    ensures r == JsError("Error", UnavailableMessage) || r == e
    ensures r == e <== !(e.name == "AbortError" || e.name == "TypeError"
                         || Contains(e.message, "fetch") || Contains(e.message, "NetworkError"))
    ensures r.message == UnavailableMessage <== (e.name == "AbortError" || e.name == "TypeError"
                                                || Contains(e.message, "fetch") || Contains(e.message, "NetworkError"))
  {
    if e.name == "AbortError" then JsError("Error", UnavailableMessage)
    else if Contains(e.message, "fetch") || Contains(e.message, "NetworkError") || e.name == "TypeError" then
      JsError("Error", UnavailableMessage)
    else e
  }

  /** fetchProjects as written: the error thrown for a non-ok status is
      raised inside the `try`, so it passes through the `catch` as well. */
  function FetchProjectsAsWritten(r: FetchResult): (out: FetchOutcome)
    ensures r.Responded? && IsOk(r.response.status) && r.response.body.Parsed? ==>
      out == Loaded(if r.response.body.value.JArray? then r.response.body.value.items else [])
    ensures r.Responded? && !IsOk(r.response.status) ==>
      out.Failed? && out.error.name == "Error" &&
      (out.error.message == UnavailableMessage
       || (out.error.message == "Server error: " + NatToString(r.response.status)
           && (r.response.status == 404 || r.response.status >= 500)))
    ensures r.Responded? && !IsOk(r.response.status) && (r.response.status == 404 || r.response.status >= 500) ==>
      out == Failed(StatusError(r.response))
    ensures r.Threw? ==> out == Failed(Reclassify(r.error))
  {
    match r
    case Threw(e) => Failed(Reclassify(e))
    case Responded(resp) =>
      if !IsOk(resp.status) then
        if resp.status == 404 || resp.status >= 500 then
          ServerErrorKept(resp.status);
          Failed(Reclassify(StatusError(resp)))
        else
          assert OccursAt(StatusError(resp).message, "fetch", 10);
          Failed(Reclassify(StatusError(resp)))
      else
        match resp.body
        case Unreadable(e) => Failed(Reclassify(e))
        case Parsed(v) => if v.JArray? then Loaded(v.items) else Loaded([])
  }

  /** A "Server error: <status>" message names neither "fetch" nor
      "NetworkError", so the `catch` block passes it through. */
  lemma ServerErrorKept(status: nat)
    ensures !Contains("Server error: " + NatToString(status), "fetch")
    ensures !Contains("Server error: " + NatToString(status), "NetworkError")
  {
    var m := "Server error: " + NatToString(status);
    assert 'f' !in m by {
      forall i | 0 <= i < |m| ensures m[i] != 'f' {
        if i >= 14 { assert m[i] == NatToString(status)[i - 14]; }
      }
    }
    assert 'N' !in m by {
      forall i | 0 <= i < |m| ensures m[i] != 'N' {
        if i >= 14 { assert m[i] == NatToString(status)[i - 14]; }
      }
    }
    MissingChar(m, "fetch", 'f');
    MissingChar(m, "NetworkError", 'N');
  }

  /** Every non-ok status other than 404 and 5xx is reported by the code as
      written as "server not available", whatever the status text: the
      message "Failed to fetch projects: ..." contains "fetch". */
  lemma {:induction false} StatusFailureMasked(resp: Response)
    requires !IsOk(resp.status) && resp.status != 404 && resp.status < 500
    ensures FetchProjectsAsWritten(Responded(resp)) == Failed(JsError("Error", UnavailableMessage))
  {
    var msg := StatusError(resp).message;
    assert OccursAt(msg, "fetch", 10);
  }

  /** A concrete case: a 401 answer (the admin gate's refusal) reads as an
      unreachable server. */
  lemma UnauthorizedReadsAsUnavailable()
    ensures FetchProjectsAsWritten(Responded(Response(401, "Unauthorized", Parsed(JNull))))
            == Failed(JsError("Error", UnavailableMessage))
  {
    var resp := Response(401, "Unauthorized", Parsed(JNull));
    StatusFailureMasked(resp);
  }

  /** What a loader settled with: the list fetchProjects resolved with, or
      the error that won (in the admin console, possibly the five-second
      timer's). */
  datatype LoadResult = ServerList(items: seq<Project>) | LoadThrew(error: JsError)

  /** fetchProjects as evidently intended: a status error is reported as
      such, and only what `fetch` or `response.json()` threw is reclassified. */
  function FetchProjects(r: FetchResult): (out: FetchOutcome)
    ensures r.Responded? && IsOk(r.response.status) && r.response.body.Parsed? ==>
      out == Loaded(if r.response.body.value.JArray? then r.response.body.value.items else [])
    ensures r.Responded? && !IsOk(r.response.status) ==>
      out.Failed? && out.error.name == "Error" &&
      out.error.message == (if r.response.status == 404 || r.response.status >= 500
                            then "Server error: " + NatToString(r.response.status)
                            else "Failed to fetch projects: " + r.response.statusText)
    ensures r.Threw? && (r.error.name == "AbortError" || r.error.name == "TypeError"
                         || Contains(r.error.message, "fetch") || Contains(r.error.message, "NetworkError")) ==>
      out == Failed(JsError("Error", UnavailableMessage))
    ensures r.Threw? && !(r.error.name == "AbortError" || r.error.name == "TypeError"
                          || Contains(r.error.message, "fetch") || Contains(r.error.message, "NetworkError")) ==>
      out == Failed(r.error)
  {
    match r
    case Threw(e) => Failed(Reclassify(e))
    case Responded(resp) =>
      if !IsOk(resp.status) then Failed(StatusError(resp))
      else
        match resp.body
        case Unreadable(e) => Failed(Reclassify(e))
        case Parsed(v) => if v.JArray? then Loaded(v.items) else Loaded([])
  }

  /** The two versions differ only on non-ok answers. */
  lemma {:induction false} FetchProjectsAgreesExceptOnStatus(r: FetchResult)
    requires !(r.Responded? && !IsOk(r.response.status))
    ensures FetchProjects(r) == FetchProjectsAsWritten(r)
  {
  }

  // ---------------------------------------------------------------------------
  // saveProjects, uploadImage, deleteImage
  // ---------------------------------------------------------------------------

  /** saveProjects never throws: true exactly when the server answered with
      a 2xx status. */
  function SaveProjects(r: FetchResult): (saved: bool)
    ensures saved <==> r.Responded? && IsOk(r.response.status)
  {
    match r
    case Threw(_) => false
    case Responded(resp) => IsOk(resp.status)
  }

  /** uploadImage: the `url` member of the answer on success; `None` (null or
      undefined) on any failure. Reading `url` of a `null` body throws and
      is caught; of any other non-object it is undefined. */
  function UploadImage(r: FetchResult): (url: Option<Json>)
    ensures url.Some? ==> url.value != JNull
    ensures url.Some? <==> r.Responded? && IsOk(r.response.status) && r.response.body.Parsed?
                           && r.response.body.value.JObject? && "url" in r.response.body.value.members
                           && r.response.body.value.members["url"] != JNull
    ensures url.Some? ==> url.value == r.response.body.value.members["url"]
  {
    match r
    case Threw(_) => None
    case Responded(resp) =>
      if !IsOk(resp.status) then None
      else
        match resp.body
        case Unreadable(_) => None
        case Parsed(v) =>
          if v.JObject? && "url" in v.members && v.members["url"] != JNull then Some(v.members["url"]) else None
  }

  /** deleteImage: `response.ok`, or false when `fetch` threw. */
  function DeleteImage(r: FetchResult): (deleted: bool)
    ensures deleted <==> r.Responded? && IsOk(r.response.status)
  {
    match r
    case Threw(_) => false
    case Responded(resp) => IsOk(resp.status)
  }

  // ---------------------------------------------------------------------------
  // getImageFilename
  // ---------------------------------------------------------------------------

  /** The position of the last '/' in `s`. */
  function LastSlash(s: string): (r: Option<nat>)
    ensures r.Some? ==> r.value < |s| && s[r.value] == '/' && '/' !in s[r.value + 1..]
    ensures r.None? ==> '/' !in s
  {
    if s == [] then None
    else if s[|s| - 1] == '/' then Some(|s| - 1)
    else
      var r := LastSlash(s[..|s| - 1]);
      assert s == s[..|s| - 1] + [s[|s| - 1]];
      r
  }

  const ImagesSegment: string := "/images/"

  /** getImageFilename: the match of `/\/images\/([^\/]+)$/`, that is, the
      non-empty, slash-free tail that follows a final "/images/". */
  function ImageFilename(u: string): (r: Option<string>)
    ensures u == "" ==> r.None?
    ensures r.Some? ==> r.value != "" && '/' !in r.value && EndsWith(u, ImagesSegment + r.value)
    ensures r.None? ==> forall name :: name != "" && '/' !in name ==> !EndsWith(u, ImagesSegment + name)
  {
    if u == "" then None
    else
      var tail := match LastSlash(u) case None => u case Some(k) => u[k + 1..];
      var k := |u| - |tail|;
      if tail != "" && k >= 8 && u[k - 8..k] == ImagesSegment then
        assert u[|u| - |ImagesSegment + tail|..] == u[k - 8..k] + tail;
        Some(tail)
      else
        NoImagesSuffix(u, tail);
        None
  }

  /** The last slash is the one with no slash after it. */
  lemma LastSlashAt(u: string, k: nat)
    requires k < |u| && u[k] == '/' && '/' !in u[k + 1..]
    ensures LastSlash(u) == Some(k)
  {
  }

  /** A URL ending in "/images/<name>" has its last slash just before `name`. */
  lemma ImagesSuffixShape(u: string, name: string)
    requires name != "" && '/' !in name && EndsWith(u, ImagesSegment + name)
    ensures |u| - |name| >= 8 && u[|u| - |name|..] == name
    ensures LastSlash(u) == Some(|u| - |name| - 1)
    ensures u[|u| - |name| - 8..|u| - |name|] == ImagesSegment
  {
    var k := |u| - |name|;
    var whole := ImagesSegment + name;
    assert u[|u| - |whole|..] == whole;
    assert u[k - 8..k] == whole[..8];
    assert u[k..] == whole[8..];
    assert u[k - 1] == whole[7];
    LastSlashAt(u, k - 1);
  }

  /** A helper for ImageFilename's negative case: any "/images/<name>"
      ending makes `name` the text after the last slash. */
  lemma NoImagesSuffix(u: string, tail: string)
    requires u != "" && tail == (match LastSlash(u) case None => u case Some(k) => u[k + 1..])
    requires !(tail != "" && |u| - |tail| >= 8 && u[|u| - |tail| - 8..|u| - |tail|] == ImagesSegment)
    ensures forall name :: name != "" && '/' !in name ==> !EndsWith(u, ImagesSegment + name)
  {
    forall name | name != "" && '/' !in name && EndsWith(u, ImagesSegment + name)
      ensures false
    {
      ImagesSuffixShape(u, name);
    }
  }
}
