/** Browser-side persistence (src/lib/storage.ts): projects and skills kept
    as JSON text under two `localStorage` keys, plus a whole-store export and
    import. `localStorage` is a class holding the key-value map; what the
    browser does with one `setItem` call is a parameter of the writing
    methods, and `JSON.stringify` / `JSON.parse` are the uninterpreted codec
    of module Common. */
module Storage {
  import opened Common

  const ProjectsKey: string := "projects_v1"
  const SkillsKey: string := "skills_v1"

  // Written in two pieces so that proofs can find the word "quota" at a
  // known position without unfolding the whole text character by character.
  const QuotaMessage: string := "Storage quota exceeded." + " Please reduce image sizes or delete some projects."
  const MismatchMessage: string := "Data was not saved correctly"

  /** What one `localStorage.setItem` call did: stored the text, returned
      without the text taking (the case the read-back in setProjects guards
      against), or threw (a full quota, storage disabled). */
  datatype Write = Stored | Dropped | Threw(error: JsError)

  /** The map after one `setItem(key, value)` call. */
  function Written(items: map<string, string>, key: string, value: string, w: Write): (r: map<string, string>)
    ensures w.Stored? ==> key in r && r[key] == value
    ensures !w.Stored? ==> r == items
    ensures forall k :: k != key ==> (k in r <==> k in items)
    ensures forall k :: k != key && k in r ==> r[k] == items[k]
  {
    if w.Stored? then items[key := value] else items
  }

  /** The body of getProjects and getSkills: the stored value parsed, or
      `defaults` when the key is absent, holds the empty text, or holds text
      `JSON.parse` rejects. The parsed value is returned whatever its shape
      (`as Project[]` checks nothing). */
  function Read(codec: JsonCodec, items: map<string, string>, key: string, defaults: Json): (r: Json)
    ensures key !in items || items[key] == "" ==> r == defaults
    ensures key in items && items[key] != "" && codec.parse(items[key]).None? ==> r == defaults
    ensures key in items && items[key] != "" && codec.parse(items[key]).Some? ==> r == codec.parse(items[key]).value
  {
    if key !in items || items[key] == "" then defaults
    else
      match codec.parse(items[key])
      case None => defaults
      case Some(v) => v
  }

  /** A value written with `JSON.stringify` reads back as itself. */
  lemma ReadAfterWrite(codec: JsonCodec, items: map<string, string>, key: string, v: Json, indent: nat, defaults: Json)
    requires RoundTrips(codec)
    ensures Read(codec, Written(items, key, codec.stringify(v, indent), Stored), key, defaults) == v
  {
    var text := codec.stringify(v, indent);
    assert text != "" && codec.parse(text) == Some(v);
  }

  /** Writing one key leaves what the other key reads unchanged. */
  lemma ReadOtherKey(codec: JsonCodec, items: map<string, string>, key: string, other: string, value: string, w: Write, defaults: Json)
    requires key != other
    ensures Read(codec, Written(items, key, value, w), other, defaults) == Read(codec, items, other, defaults)
  {
  }

  /** The catch block of setProjects: a quota failure becomes the friendly
      message, anything else is rethrown as it is. */
  function Rethrown(e: JsError): (r: JsError)
    ensures e.name == "QuotaExceededError" || Contains(e.message, "quota") ==> r == JsError("Error", QuotaMessage)
    ensures !(e.name == "QuotaExceededError" || Contains(e.message, "quota")) ==> r == e
  {
    if e.name == "QuotaExceededError" || Contains(e.message, "quota") then JsError("Error", QuotaMessage) else e
  }

  /** The friendly message itself mentions the quota, so passing an error
      through the catch block twice changes nothing more. */
  lemma RethrownIdempotent(e: JsError)
    ensures Rethrown(Rethrown(e)) == Rethrown(e)
  {
    assert QuotaMessage[8..13] == "quota";
    assert OccursAt(QuotaMessage, "quota", 8);
  }

  /** The read-back failure is rethrown unchanged. */
  lemma MismatchRethrownUnchanged()
    ensures Rethrown(JsError("Error", MismatchMessage)) == JsError("Error", MismatchMessage)
  {
    MissingChar(MismatchMessage, "quota", 'q');
  }

  /** Whether setProjects ends in an error, given the map before the call,
      the text it writes and what `setItem` did: `setItem` threw, or the
      read-back does not find the text. */
  predicate SetFails(items: map<string, string>, data: string, w: Write)
  {
    w.Threw? || (w.Dropped? && !(ProjectsKey in items && items[ProjectsKey] == data))
  }

  /** `Array.isArray(parsed[key])`: the array held by an object member;
      `None` for every other value, where the property is undefined or not
      an array. */
  function ArrayMember(parsed: Json, key: string): (r: Option<seq<Json>>)
    ensures r.Some? <==> parsed.JObject? && key in parsed.members && parsed.members[key].JArray?
    ensures r.Some? ==> parsed.members[key] == JArray(r.value)
  {
    if parsed.JObject? && key in parsed.members && parsed.members[key].JArray? then Some(parsed.members[key].items)
    else None
  }

  /** The object exportAll prints. */
  function ExportObject(projects: Json, skills: Json): (j: Json)
    ensures ArrayMember(j, "projects").Some? <==> projects.JArray?
    ensures ArrayMember(j, "skills").Some? <==> skills.JArray?
    ensures projects.JArray? ==> ArrayMember(j, "projects") == Some(projects.items)
    ensures skills.JArray? ==> ArrayMember(j, "skills") == Some(skills.items)
  {
    JObject(map["projects" := projects, "skills" := skills])
  }

  /** `window.localStorage`, seen by this module's functions. */
  class LocalStore {
    var items: map<string, string>
    const codec: JsonCodec

    constructor (codec: JsonCodec, items: map<string, string>)
      ensures this.codec == codec && this.items == items
    {
      this.codec := codec;
      this.items := items;
    }

    /** getProjects(defaults) */
    function GetProjects(defaults: Json): (r: Json)
      reads this
      ensures ProjectsKey !in items || items[ProjectsKey] == "" || codec.parse(items[ProjectsKey]).None? ==>
        r == defaults
      ensures ProjectsKey in items && items[ProjectsKey] != "" && codec.parse(items[ProjectsKey]).Some? ==>
        r == codec.parse(items[ProjectsKey]).value
    {
      Read(codec, items, ProjectsKey, defaults)
    }

    /** getSkills(defaults) */
    function GetSkills(defaults: Json): (r: Json)
      reads this
      ensures SkillsKey !in items || items[SkillsKey] == "" || codec.parse(items[SkillsKey]).None? ==>
        r == defaults
      ensures SkillsKey in items && items[SkillsKey] != "" && codec.parse(items[SkillsKey]).Some? ==>
        r == codec.parse(items[SkillsKey]).value
    {
      Read(codec, items, SkillsKey, defaults)
    }

    /** setProjects: write the list, read it back, and report what went
        wrong as the error the UI is given. */
    method SetProjects(projects: seq<Json>, write: Write) returns (err: Option<JsError>)
      modifies this
      ensures items == Written(old(items), ProjectsKey, codec.stringify(JArray(projects), 0), write)
      ensures err.Some? <==> SetFails(old(items), codec.stringify(JArray(projects), 0), write)
      ensures write.Threw? ==> err == Some(Rethrown(write.error))
      ensures write.Dropped? && err.Some? ==> err == Some(JsError("Error", MismatchMessage))
      ensures err.None? && RoundTrips(codec) ==> forall d :: GetProjects(d) == JArray(projects)
      ensures forall d :: GetSkills(d) == old(GetSkills(d))
    {
      var dataString := codec.stringify(JArray(projects), 0);
      ghost var before := items;
      var thrown: Option<JsError> := None;
      match write {
        case Threw(e) => thrown := Some(e);
        case Stored => items := items[ProjectsKey := dataString];
        case Dropped =>
      }
      if thrown.None? {
        var saved := if ProjectsKey in items then Some(items[ProjectsKey]) else None;
        if saved != Some(dataString) {
          thrown := Some(JsError("Error", MismatchMessage));
        }
      }
      err := if thrown.Some? then Some(Rethrown(thrown.value)) else None;
      MismatchRethrownUnchanged();
      forall d ensures GetSkills(d) == old(GetSkills(d)) {
        ReadOtherKey(codec, before, ProjectsKey, SkillsKey, dataString, write, d);
      }
      if err.None? && RoundTrips(codec) {
        forall d ensures GetProjects(d) == JArray(projects) {
          assert codec.parse(dataString) == Some(JArray(projects));
        }
      }
    }

    /** setSkills: one write whose failure is swallowed. */
    method SetSkills(skills: seq<Json>, write: Write)
      modifies this
      ensures items == Written(old(items), SkillsKey, codec.stringify(JArray(skills), 0), write)
      ensures forall d :: GetProjects(d) == old(GetProjects(d))
      ensures write.Stored? && RoundTrips(codec) ==> forall d :: GetSkills(d) == JArray(skills)
    {
      var dataString := codec.stringify(JArray(skills), 0);
      ghost var before := items;
      if write.Stored? {
        items := items[SkillsKey := dataString];
      }
      forall d ensures GetProjects(d) == old(GetProjects(d)) {
        ReadOtherKey(codec, before, SkillsKey, ProjectsKey, dataString, write, d);
      }
      if write.Stored? && RoundTrips(codec) {
        forall d ensures GetSkills(d) == JArray(skills) {
          ReadAfterWrite(codec, before, SkillsKey, JArray(skills), 0, d);
        }
      }
    }

    /** exportAll: both lists, read with empty defaults, printed with an
        indent of two. */
    function ExportAll(): (text: string)
      reads this
      ensures RoundTrips(codec) ==>
        codec.parse(text) == Some(ExportObject(GetProjects(JArray([])), GetSkills(JArray([]))))
    {
      codec.stringify(ExportObject(GetProjects(JArray([])), GetSkills(JArray([]))), 2)
    }

    /** importAll: parse the text and write each of the two lists it holds
        as an array; `false` when parsing throws, when the text is `null`
        (reading a property of it throws) or when setProjects throws. */
    method ImportAll(json: string, projectsWrite: Write, skillsWrite: Write) returns (ok: bool)
      modifies this
      ensures var parsed := codec.parse(json);
        parsed.None? || parsed == Some(JNull) ==> !ok && items == old(items)
      ensures var parsed := codec.parse(json);
        parsed.Some? && parsed.value != JNull ==>
          var ps := ArrayMember(parsed.value, "projects");
          var sk := ArrayMember(parsed.value, "skills");
          var afterProjects := if ps.Some? then Written(old(items), ProjectsKey, codec.stringify(JArray(ps.value), 0), projectsWrite) else old(items);
          if ps.Some? && SetFails(old(items), codec.stringify(JArray(ps.value), 0), projectsWrite) then
            !ok && items == afterProjects
          else
            ok && items == (if sk.Some? then Written(afterProjects, SkillsKey, codec.stringify(JArray(sk.value), 0), skillsWrite) else afterProjects)
      ensures RoundTrips(codec) && json == old(ExportAll()) && projectsWrite == Stored && skillsWrite == Stored ==>
        ok && GetProjects(JArray([])) == old(GetProjects(JArray([]))) && GetSkills(JArray([])) == old(GetSkills(JArray([])))
    {
      var parsed := codec.parse(json);
      if RoundTrips(codec) && json == ExportAll() {
        assert parsed == Some(ExportObject(GetProjects(JArray([])), GetSkills(JArray([]))));
      }
      if parsed.None? || parsed.value == JNull {
        return false;
      }
      if RoundTrips(codec) {
        ExportImportKeepsReads(codec, items);
      }
      var ps := ArrayMember(parsed.value, "projects");
      if ps.Some? {
        var err := SetProjects(ps.value, projectsWrite);
        if err.Some? {
          return false;
        }
      }
      var sk := ArrayMember(parsed.value, "skills");
      if sk.Some? {
        SetSkills(sk.value, skillsWrite);
      }
      ok := true;
    }
  }

  /** Writing back each list that reads (with empty defaults) as an array,
      as importing an export does, leaves both reads as they were. */
  lemma {:induction false} ExportImportKeepsReads(codec: JsonCodec, items: map<string, string>)
    requires RoundTrips(codec)
    ensures var p, s := Read(codec, items, ProjectsKey, JArray([])), Read(codec, items, SkillsKey, JArray([]));
      var mid := if p.JArray? then Written(items, ProjectsKey, codec.stringify(JArray(p.items), 0), Stored) else items;
      var after := if s.JArray? then Written(mid, SkillsKey, codec.stringify(JArray(s.items), 0), Stored) else mid;
      Read(codec, after, ProjectsKey, JArray([])) == p && Read(codec, after, SkillsKey, JArray([])) == s
  {
    var p, s := Read(codec, items, ProjectsKey, JArray([])), Read(codec, items, SkillsKey, JArray([]));
    var mid := if p.JArray? then Written(items, ProjectsKey, codec.stringify(JArray(p.items), 0), Stored) else items;
    if p.JArray? {
      ReadAfterWrite(codec, items, ProjectsKey, JArray(p.items), 0, JArray([]));
      ReadOtherKey(codec, items, ProjectsKey, SkillsKey, codec.stringify(JArray(p.items), 0), Stored, JArray([]));
    }
    assert Read(codec, mid, ProjectsKey, JArray([])) == p && Read(codec, mid, SkillsKey, JArray([])) == s;
    if s.JArray? {
      ReadAfterWrite(codec, mid, SkillsKey, JArray(s.items), 0, JArray([]));
      ReadOtherKey(codec, mid, SkillsKey, ProjectsKey, codec.stringify(JArray(s.items), 0), Stored, JArray([]));
    }
  }
}
