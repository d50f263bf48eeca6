/** The admin console's working set (src/admin/Admin.tsx): every edit is a
    change to an in-memory list of projects that is persisted only by an
    explicit bulk save. Adding, patching, deleting and reordering are pure
    list operations; the bulk upload walks the selected files one at a time,
    counting successes and failures, then numbers the new entries after the
    current largest id. Network calls and image compression are inputs. */
module Admin {
  import opened Common
  import opened Api
  import opened Defaults

  predicate HasId(ps: seq<Project>, id: int)
  {
    exists p :: p in ps && p.id == id
  }

  predicate UniqueIds(ps: seq<Project>)
  {
    forall i, j :: 0 <= i < j < |ps| ==> ps[i].id != ps[j].id
  }

  /** `Math.max(...ps.map(p => p.id))` for a non-empty list. */
  function MaxId(ps: seq<Project>): (m: int)
    requires ps != []
    ensures forall p :: p in ps ==> p.id <= m
    ensures exists p :: p in ps && p.id == m
  {
    if |ps| == 1 then ps[0].id
    else
      var rest := MaxId(ps[1..]);
      assert forall p :: p in ps ==> p == ps[0] || p in ps[1..];
      if ps[0].id > rest then ps[0].id else rest
  }

  // ---------------------------------------------------------------------------
  // addProject, updateProject, deleteProject
  // ---------------------------------------------------------------------------

  /** addProject: a fresh entry with id one above the current largest (1 for
      an empty list), put in front of the unchanged list. `year` is the
      current calendar year, read from the clock by the source. */
  function AddProject(ps: seq<Project>, year: string): (r: seq<Project>)
    ensures |r| == |ps| + 1 && r[1..] == ps
    ensures r[0] == Project(r[0].id, "New project", "", year, "Uncategorized", None, None, None)
    ensures ps == [] ==> r[0].id == 1
    ensures ps != [] ==> r[0].id == MaxId(ps) + 1
    ensures !HasId(ps, r[0].id)
    ensures UniqueIds(ps) ==> UniqueIds(r)
  {
    var id := if |ps| > 0 then MaxId(ps) + 1 else 1;
    var r := [Project(id, "New project", "", year, "Uncategorized", None, None, None)] + ps;
    assert forall j :: 1 <= j < |r| ==> r[j] in ps;
    r
  }

  /** A `Partial<Project>`: each property is either present (it overrides)
      or absent. The optional properties `image`, `video` and `type` can
      also be present with the value `undefined` (`Some(None)`), which
      overrides the entry's own value with nothing. */
  datatype Patch = Patch(
    id: Option<int>,
    title: Option<string>,
    description: Option<string>,
    year: Option<string>,
    category: Option<string>,
    image: Option<Option<string>>,
    video: Option<Option<string>>,
    kind: Option<Option<string>>)

  /** `{ ...p, ...patch }`. */
  function ApplyPatch(p: Project, patch: Patch): Project
  {
    Project(
      if patch.id.Some? then patch.id.value else p.id,
      if patch.title.Some? then patch.title.value else p.title,
      if patch.description.Some? then patch.description.value else p.description,
      if patch.year.Some? then patch.year.value else p.year,
      if patch.category.Some? then patch.category.value else p.category,
      if patch.image.Some? then patch.image.value else p.image,
      if patch.video.Some? then patch.video.value else p.video,
      if patch.kind.Some? then patch.kind.value else p.kind)
  }

  /** `{ image: value }` and `{ video: value }`, as the upload handlers send
      them. */
  function ImagePatch(value: Option<string>): Patch
  {
    Patch(None, None, None, None, None, Some(value), None, None)
  }

  function VideoPatch(value: Option<string>): Patch
  {
    Patch(None, None, None, None, None, None, Some(value), None)
  }

  /** updateProject: the same list, in the same order, where every entry with
      the given id takes the patched properties over its own. */
  function UpdateProject(ps: seq<Project>, id: int, patch: Patch): (r: seq<Project>)
    ensures |r| == |ps|
    ensures forall i :: 0 <= i < |ps| && ps[i].id != id ==> r[i] == ps[i]
    ensures forall i :: 0 <= i < |ps| && ps[i].id == id ==> r[i] == ApplyPatch(ps[i], patch)
  {
    seq(|ps|, i requires 0 <= i < |ps| => if ps[i].id == id then ApplyPatch(ps[i], patch) else ps[i])
  }

  /** A patch that does not carry an id (every patch the editing form
      sends) leaves every id where it was, so unique ids stay unique. */
  lemma UpdateKeepsIds(ps: seq<Project>, id: int, patch: Patch)
    requires patch.id.None?
    ensures forall i :: 0 <= i < |ps| ==> UpdateProject(ps, id, patch)[i].id == ps[i].id
    ensures UniqueIds(ps) ==> UniqueIds(UpdateProject(ps, id, patch))
  {
  }

  /** Applying the same id-free patch twice is the same as applying it once. */
  lemma UpdateIdempotent(ps: seq<Project>, id: int, patch: Patch)
    requires patch.id.None?
    ensures UpdateProject(UpdateProject(ps, id, patch), id, patch) == UpdateProject(ps, id, patch)
  {
    var once := UpdateProject(ps, id, patch);
    var twice := UpdateProject(once, id, patch);
    forall i | 0 <= i < |ps|
      ensures twice[i] == once[i]
    {
      if ps[i].id == id {
        assert once[i] == ApplyPatch(ps[i], patch) && once[i].id == id;
      }
    }
  }

  /** The image upload handler shows a placeholder, then puts the original
      value back when the upload fails: the list is as before, also when the
      entry had no image (the patch `{ image: undefined }` removes the
      placeholder). */
  lemma FailedImageUploadRestores(ps: seq<Project>, id: int, original: Option<string>, placeholder: string)
    requires forall p :: p in ps && p.id == id ==> p.image == original
    ensures UpdateProject(UpdateProject(ps, id, ImagePatch(Some(placeholder))), id, ImagePatch(original)) == ps
  {
    var shown := UpdateProject(ps, id, ImagePatch(Some(placeholder)));
    var restored := UpdateProject(shown, id, ImagePatch(original));
    forall i | 0 <= i < |ps|
      ensures restored[i] == ps[i]
    {
      assert ps[i] in ps;
    }
  }

  /** The same for the video upload handler and `{ video: originalVideo }`. */
  lemma FailedVideoUploadRestores(ps: seq<Project>, id: int, original: Option<string>, placeholder: string)
    requires forall p :: p in ps && p.id == id ==> p.video == original
    ensures UpdateProject(UpdateProject(ps, id, VideoPatch(Some(placeholder))), id, VideoPatch(original)) == ps
  {
    var shown := UpdateProject(ps, id, VideoPatch(Some(placeholder)));
    var restored := UpdateProject(shown, id, VideoPatch(original));
    forall i | 0 <= i < |ps|
      ensures restored[i] == ps[i]
    {
      assert ps[i] in ps;
    }
  }

  /** deleteProject: every entry with the id is gone; all others are kept in
      their original order, each as many times as it occurred. */
  function DeleteProject(ps: seq<Project>, id: int): (r: seq<Project>)
    ensures !HasId(r, id)
    ensures forall p :: p in r <==> p in ps && p.id != id
    ensures forall p :: multiset(r)[p] == if p.id != id then multiset(ps)[p] else 0
    ensures IsSubsequence(r, ps)
    ensures !HasId(ps, id) ==> r == ps
  {
    var keep := (p: Project) => p.id != id;
    FilterIsSubsequence(keep, ps);
    FilterCounts(keep, ps);
    if !HasId(ps, id) then FilterAll(keep, ps); Filter(keep, ps) else Filter(keep, ps)
  }

  // ---------------------------------------------------------------------------
  // "Videos to bottom"
  // ---------------------------------------------------------------------------

  /** `(pr.type || "image") === "image"`: no type, the empty type, or
      "image". */
  predicate IsImageEntry(p: Project)
  {
    p.kind.None? || p.kind.value == "" || p.kind.value == "image"
  }

  /** `pr.type === "video"` */
  predicate IsVideoEntry(p: Project)
  {
    p.kind == Some("video")
  }

  /** An entry whose type is neither, such as "Video" or "gif". */
  predicate IsOtherEntry(p: Project)
  {
    !IsImageEntry(p) && !IsVideoEntry(p)
  }

  /** Every entry has one of the two type names the console writes. */
  predicate KnownKinds(ps: seq<Project>)
  {
    forall p :: p in ps ==> IsImageEntry(p) || IsVideoEntry(p)
  }

  /** The "Videos to bottom" button as written: image entries in their
      order, then video entries in their order. An entry of any other type
      is in neither list and disappears. */
  function VideosToBottom(ps: seq<Project>): (r: seq<Project>)
    ensures forall p :: p in r <==> p in ps && (IsImageEntry(p) || IsVideoEntry(p))
    ensures |r| <= |ps|
  {
    var images, videos := Filter(IsImageEntry, ps), Filter(IsVideoEntry, ps);
    FilterPartition3(IsImageEntry, IsVideoEntry, IsOtherEntry, ps);
    assert |multiset(images + videos)| <= |multiset(ps)|;
    images + videos
  }

  /** What the button keeps and what it drops make up the whole list. */
  lemma VideosToBottomDropsOthers(ps: seq<Project>)
    ensures multiset(VideosToBottom(ps)) + multiset(Filter(IsOtherEntry, ps)) == multiset(ps)
  {
    FilterPartition3(IsImageEntry, IsVideoEntry, IsOtherEntry, ps);
  }

  /** When every type is one of the two names, nothing is lost or
      duplicated: the result is a permutation. */
  lemma VideosToBottomPermutes(ps: seq<Project>)
    requires KnownKinds(ps)
    ensures multiset(VideosToBottom(ps)) == multiset(ps)
  {
    VideosToBottomDropsOthers(ps);
    FilterNone(IsOtherEntry, ps);
  }

  /** An imported entry typed "Video" is removed by the button. */
  lemma VideosToBottomLosesUnknownKind(p: Project)
    requires p.kind == Some("Video")
    ensures VideosToBottom([p]) == []
  {
    assert !IsImageEntry(p) && !IsVideoEntry(p);
    assert Filter(IsImageEntry, [p]) == Filter(IsImageEntry, [p][1..]);
    assert Filter(IsVideoEntry, [p]) == Filter(IsVideoEntry, [p][1..]);
  }

  /** The button as evidently intended: every entry that is not a video
      entry stays in front, so an unknown type is kept. */
  function VideosToBottomKeepingAll(ps: seq<Project>): (r: seq<Project>)
    ensures multiset(r) == multiset(ps)
    ensures KnownKinds(ps) ==> r == VideosToBottom(ps)
  {
    var notVideo := (p: Project) => !IsVideoEntry(p);
    FilterPartition(notVideo, IsVideoEntry, ps);
    if KnownKinds(ps) then
      FilterSame(notVideo, IsImageEntry, ps);
      Filter(notVideo, ps) + Filter(IsVideoEntry, ps)
    else
      Filter(notVideo, ps) + Filter(IsVideoEntry, ps)
  }

  /** No image entry follows a video entry. */
  lemma VideosToBottomOrdered(ps: seq<Project>)
    ensures forall i, j :: 0 <= i < j < |VideosToBottom(ps)| && IsVideoEntry(VideosToBottom(ps)[i]) ==>
      IsVideoEntry(VideosToBottom(ps)[j])
  {
    var images, videos := Filter(IsImageEntry, ps), Filter(IsVideoEntry, ps);
    var r := VideosToBottom(ps);
    forall i, j | 0 <= i < j < |r| && IsVideoEntry(r[i])
      ensures IsVideoEntry(r[j])
    {
      assert r[j] == videos[j - |images|] && r[j] in videos;
    }
  }

  /** The move is stable: images keep their relative order, and so do
      videos. */
  lemma {:induction false} VideosToBottomStable(ps: seq<Project>)
    ensures Filter(IsImageEntry, VideosToBottom(ps)) == Filter(IsImageEntry, ps)
    ensures Filter(IsVideoEntry, VideosToBottom(ps)) == Filter(IsVideoEntry, ps)
  {
    var images, videos := Filter(IsImageEntry, ps), Filter(IsVideoEntry, ps);
    FilterConcat(IsImageEntry, images, videos);
    FilterConcat(IsVideoEntry, images, videos);
    FilterAll(IsImageEntry, images);
    FilterNone(IsImageEntry, videos);
    FilterNone(IsVideoEntry, images);
    FilterAll(IsVideoEntry, videos);
  }

  /** Pressing the button twice is the same as pressing it once. */
  lemma VideosToBottomIdempotent(ps: seq<Project>)
    ensures VideosToBottom(VideosToBottom(ps)) == VideosToBottom(ps)
  {
    VideosToBottomStable(ps);
  }

  // ---------------------------------------------------------------------------
  // Bulk upload
  // ---------------------------------------------------------------------------

  /** One selected file and what happened to it: `prepared` says whether the
      compression and re-encoding of an image succeeded (videos are not
      compressed); `uploadedUrl` is what uploadImage resolved with. */
  datatype UploadFile = UploadFile(name: string, mimeType: string, prepared: bool, uploadedUrl: Option<string>)

  predicate IsVideoFile(f: UploadFile)
  {
    "video/" <= f.mimeType
  }

  /** `name.split(".")[0] || "New Project"`. */
  function TitleFromName(name: string): (t: string)
    ensures t != "" && '.' !in t
    ensures t == "New Project" || (t <= name && (|t| == |name| || name[|t|] == '.'))
    ensures t == "New Project" <== (name == "" || name[0] == '.')
    ensures name != "" && name[0] != '.' ==> t <= name && (|t| == |name| || name[|t|] == '.')
  {
    SplitHead(name, '.');
    var first := Split(name, '.')[0];
    if first == "" then "New Project" else first
  }

  /** The url a file ends up with: a failed preparation throws before the
      upload, and a missing or empty url counts as a failed upload. */
  function UploadedUrl(f: UploadFile): (url: Option<string>)
    ensures url.Some? <==> (IsVideoFile(f) || f.prepared) && f.uploadedUrl.Some? && f.uploadedUrl.value != ""
    ensures url.Some? ==> url == f.uploadedUrl
  {
    if !IsVideoFile(f) && !f.prepared then None
    else if f.uploadedUrl.Some? && f.uploadedUrl.value != "" then f.uploadedUrl
    else None
  }

  /** The entry created for an uploaded file, before its id is assigned. */
  function Draft(f: UploadFile, url: string, year: string): (p: Project)
    ensures IsVideoFile(f) ==> IsVideoEntry(p) && p.video == Some(url) && p.image == None
    ensures !IsVideoFile(f) ==> p.kind == Some("image") && p.image == Some(url) && p.video == None
    ensures p.title == TitleFromName(f.name)
  {
    var video := IsVideoFile(f);
    Project(0, TitleFromName(f.name), "", year, "Uncategorized",
            if video then None else Some(url),
            if video then Some(url) else None,
            Some(if video then "video" else "image"))
  }

  /** The entries the upload loop collects, in upload order. */
  function Drafts(files: seq<UploadFile>, year: string): (ds: seq<Project>)
    ensures |ds| <= |files|
  {
    if files == [] then []
    else
      var init := Drafts(files[..|files| - 1], year);
      var f := files[|files| - 1];
      match UploadedUrl(f)
      case None => init
      case Some(url) => init + [Draft(f, url, year)]
  }

  /** One more file adds its entry, if it has one, at the end. */
  lemma DraftsStep(files: seq<UploadFile>, i: nat, year: string)
    requires i < |files|
    ensures Drafts(files[..i + 1], year) ==
      Drafts(files[..i], year) + (if UploadedUrl(files[i]).Some? then [Draft(files[i], UploadedUrl(files[i]).value, year)] else [])
  {
    assert files[..i + 1][..i] == files[..i];
  }

  /** Ids `base + 1`, `base + 2`, ... in order. */
  function Numbered(drafts: seq<Project>, base: int): (r: seq<Project>)
    ensures |r| == |drafts|
    ensures forall i :: 0 <= i < |r| ==> r[i] == drafts[i].(id := base + i + 1)
  {
    seq(|drafts|, i requires 0 <= i < |drafts| => drafts[i].(id := base + i + 1))
  }

  /** `currentMaxId`: the largest id, or 0 for an empty list. */
  function CurrentMaxId(ps: seq<Project>): (m: int)
    ensures forall p :: p in ps ==> p.id <= m
    ensures ps != [] ==> exists p :: p in ps && p.id == m
    ensures ps == [] ==> m == 0
  {
    if |ps| > 0 then MaxId(ps) else 0
  }

  /** The banner the bulk upload ends with. */
  datatype BulkStatus =
    | AddedAndSaved(added: nat, failures: nat)
    | AddedNotSaved(added: nat)
    | AllUploadsFailed
    | NothingProcessed

  /** handleBulkUpload: processes the files one at a time, counting each as a
      success or a failure, then puts the new entries, numbered after the
      largest id of `current` (the working set when the loop ends), in front
      of it. `saveOk` is what the following saveProjects call resolved with.
      An empty selection returns at once. */
  method BulkUpload(files: seq<UploadFile>, year: string, current: seq<Project>, saveOk: bool)
    returns (successful: nat, failed: nat, updated: seq<Project>, status: Option<BulkStatus>)
    ensures files == [] ==> successful == 0 && failed == 0 && updated == current && status == None
    ensures successful + failed == |files|
    ensures successful == |Drafts(files, year)|
    ensures successful > 0 ==> updated == Numbered(Drafts(files, year), CurrentMaxId(current)) + current
    ensures successful == 0 ==> updated == current
    ensures files != [] ==> status == Some(if successful == 0 then AllUploadsFailed
                                           else if saveOk then AddedAndSaved(successful, failed)
                                           else AddedNotSaved(successful))
  {
    if files == [] {
      return 0, 0, current, None;
    }
    var newProjects: seq<Project> := [];
    successful, failed := 0, 0;
    for i := 0 to |files|
      invariant newProjects == Drafts(files[..i], year)
      invariant successful == |newProjects|
      invariant successful + failed == i
    {
      var f := files[i];
      DraftsStep(files, i, year);
      var isVideo := "video/" <= f.mimeType;
      if !isVideo && !f.prepared {
        // compressImage (or reading its result back) threw
        assert UploadedUrl(f).None?;
        failed := failed + 1;
      } else if f.uploadedUrl.Some? && f.uploadedUrl.value != "" {
        assert UploadedUrl(f) == f.uploadedUrl;
        newProjects := newProjects + [Draft(f, f.uploadedUrl.value, year)];
        successful := successful + 1;
      } else {
        assert UploadedUrl(f).None?;
        failed := failed + 1;
      }
    }
    assert files[..|files|] == files;
    if |newProjects| > 0 {
      var currentMaxId := if |current| > 0 then MaxId(current) else 0;
      var adjusted := seq(|newProjects|, k requires 0 <= k < |newProjects| => newProjects[k].(id := currentMaxId + k + 1));
      assert adjusted == Numbered(newProjects, CurrentMaxId(current));
      updated := adjusted + current;
      status := Some(if saveOk then AddedAndSaved(successful, failed) else AddedNotSaved(successful));
    } else {
      updated := current;
      status := Some(if failed > 0 then AllUploadsFailed else NothingProcessed);
    }
  }

  /** The entries the upload adds have ids above every current id and
      distinct from one another, so unique ids stay unique. */
  lemma BulkIdsFresh(drafts: seq<Project>, current: seq<Project>)
    ensures forall i, p :: 0 <= i < |drafts| && p in current ==>
      Numbered(drafts, CurrentMaxId(current))[i].id > p.id
    ensures UniqueIds(current) ==> UniqueIds(Numbered(drafts, CurrentMaxId(current)) + current)
  {
    var base := CurrentMaxId(current);
    var numbered := Numbered(drafts, base);
    var r := numbered + current;
    if UniqueIds(current) {
      forall i, j | 0 <= i < j < |r|
        ensures r[i].id != r[j].id
      {
        if j >= |numbered| {
          if i >= |numbered| {
            assert r[i] == current[i - |numbered|] && r[j] == current[j - |numbered|];
          } else {
            assert r[j] in current;
          }
        }
      }
    }
  }

  /** A file counts as a success exactly when it yields an entry. */
  lemma {:induction false} DraftsCount(files: seq<UploadFile>, year: string)
    ensures |Drafts(files, year)| == |Filter((f: UploadFile) => UploadedUrl(f).Some?, files)|
  {
    if files != [] {
      var init, last := files[..|files| - 1], files[|files| - 1];
      DraftsCount(init, year);
      assert files == init + [last];
      FilterConcat((f: UploadFile) => UploadedUrl(f).Some?, init, [last]);
    }
  }

  // ---------------------------------------------------------------------------
  // Import
  // ---------------------------------------------------------------------------

  datatype ImportOutcome =
    | Replaced(items: seq<Json>, saved: bool)  // working set replaced, then saved or not
    | Rejected                                 // working set unchanged, "Import failed" banner

  /** handleImport, given what `JSON.parse` made of the file (`None` where it
      threw) and what the following saveProjects call resolved with. */
  function Import(parsed: Option<Json>, saveOk: bool): (r: ImportOutcome)
    ensures r.Replaced? <==>
      (parsed.Some? && (parsed.value.JArray? || (parsed.value.JObject? && "projects" in parsed.value.members
                                                 && parsed.value.members["projects"].JArray?)))
    ensures r.Replaced? && parsed.value.JArray? ==> r.items == parsed.value.items
    ensures r.Replaced? && parsed.value.JObject? ==> r.items == parsed.value.members["projects"].items
    ensures r.Replaced? ==> r.saved == saveOk
  {
    match parsed
    case None => Rejected
    case Some(JArray(items)) => Replaced(items, saveOk)
    case Some(JObject(m)) =>
      if "projects" in m && m["projects"].JArray? then Replaced(m["projects"].items, saveOk) else Rejected
    case Some(_) => Rejected
  }

  /** handleExport writes `JSON.stringify(projects, null, 2)`; importing that
      document gives back the same projects, field for field. */
  lemma ExportImportRoundTrip(codec: JsonCodec, ps: seq<Project>, saveOk: bool)
    requires RoundTrips(codec)
    ensures Import(codec.parse(codec.stringify(ProjectsToJson(ps), 2)), saveOk)
            == Replaced(ProjectsToJson(ps).items, saveOk)
    ensures forall i :: 0 <= i < |ps| ==> ProjectFromJson(ProjectsToJson(ps).items[i]) == Some(ps[i])
  {
    var doc := codec.stringify(ProjectsToJson(ps), 2);
    assert codec.parse(doc) == Some(ProjectsToJson(ps));
    forall i | 0 <= i < |ps|
      ensures ProjectFromJson(ProjectsToJson(ps).items[i]) == Some(ps[i])
    {
      ProjectJsonRoundTrip(ps[i]);
    }
  }

  // ---------------------------------------------------------------------------
  // Loading the working set
  // ---------------------------------------------------------------------------

  datatype Notice = Cleared | NoProjectsOnServer | ServerOffline | LoadError(message: string)

  const TimeoutError: JsError := JsError("Error", "Request timeout")

  /** The working set and the banner after authorization changes: an
      unauthorized console shows the defaults; an authorized one shows the
      server's list, or the defaults (with a notice) when that list is empty
      or loading failed. `None` leaves the banner as it was. */
  function AdminLoad(authorized: bool, result: LoadResult): (r: (seq<Project>, Option<Notice>))
    ensures !authorized ==> r == (DefaultProjects, None)
    ensures authorized && result.ServerList? && result.items != [] ==> r == (result.items, Some(Cleared))
    ensures authorized && !(result.ServerList? && result.items != []) ==> r.0 == DefaultProjects && r.1.Some?
    ensures authorized && result.LoadThrew? ==>
      (r.1 == Some(ServerOffline) <==>
       (Contains(result.error.message, "timeout") || Contains(result.error.message, "not available")))
  {
    if !authorized then (DefaultProjects, None)
    else
      match result
      case ServerList(items) =>
        if |items| > 0 then (items, Some(Cleared)) else (DefaultProjects, Some(NoProjectsOnServer))
      case LoadThrew(e) =>
        var msg := if e.message != "" then e.message else "Unknown error";
        UnknownErrorNotOffline();
        if Contains(msg, "timeout") || Contains(msg, "not available") then (DefaultProjects, Some(ServerOffline))
        else (DefaultProjects, Some(LoadError(msg)))
  }

  /** The fallback message reads as neither a timeout nor an unreachable
      server. */
  lemma UnknownErrorNotOffline()
    ensures !Contains("Unknown error", "timeout") && !Contains("Unknown error", "not available")
  {
    MissingChar("Unknown error", "timeout", 'i');
    MissingChar("Unknown error", "not available", 'v');
  }

  /** The timer and an unreachable server both read as "server offline". */
  lemma OfflineNotices()
    ensures AdminLoad(true, LoadThrew(TimeoutError)).1 == Some(ServerOffline)
    ensures AdminLoad(true, LoadThrew(JsError("Error", UnavailableMessage))).1 == Some(ServerOffline)
  {
    assert OccursAt(TimeoutError.message, "timeout", 8);
    OccursInMiddle("Server is ", "not available", ". Make sure backend is running on port 3005.");
  }
}
