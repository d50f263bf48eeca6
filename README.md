# Portfolio site core, modelled in Dafny

The site is a personal portfolio with a public gallery and a PIN-protected admin console. This project models the logic behind it:

- **Admin console** (`admin.dfy`): the working set of projects in the admin console. This covers adding, patching and deleting entries, the "Videos to bottom" reordering, the bulk upload loop that counts successes and failures and numbers new entries after the largest id, the import format check, and loading with its fallback banner.
- **Public gallery** (`gallery.dfy`): the type filter and the lightbox selection. Keys, buttons and filter clicks step a small state machine.
- **Repository** (`database.dfy`): the PostgreSQL-backed repository. A class holds the `projects` table, kept in descending id order, and the `projects_id_seq` sequence. It covers the transactional replace-all save, single inserts, updates and deletes.
- **Server** (`server.dfy`): the Express server's decisions. These are reading the admin PIN from the headers, verifying it, the `requireAdmin` gate, the CORS origin rule and its environment list, multer's upload filter, and the body checks of the project, upload and delete routes.
- **Client data layer** (`api.ts` in `api.dfy`): how each fetch wrapper classifies what `fetch` produced, the JSON form of a project, and `getImageFilename`.
- **Cloudinary URL rewriting** (`cloudinary.dfy`): building the poster-frame URL and the iOS playback URL for a Cloudinary video.
- **Browser persistence** (`storage.dfy`): `localStorage`, modelled as a class holding a key-value map. It covers the project and skill keys, the write-then-read-back check, and export and import.

`common.dfy` holds the shared vocabulary:

- JSON values, and an uninterpreted `JSON.stringify`/`JSON.parse` pair whose only assumed property is the round trip (`RoundTrips`).
- The JavaScript string operations the sources use: `includes`, `trim`, `split`/`join` and ASCII `toLowerCase`.
- Order-preserving filtering.

`defaults.dfy` transcribes the built-in gallery content.

Some things are not modelled directly:

- The network, clocks, randomness and foreign libraries (Cloudinary, scrypt, base64, `new URL`) are never modelled. Each is a parameter holding the value it produced.
- Integers are unbounded, except where the source's storage bounds them. PostgreSQL `integer` columns and the `SERIAL` sequence are bounded explicitly by `MinInt4`/`MaxInt4`.

## Model

| member | source | states |
|---|---|---|
| Admin.MaxId | src/admin/Admin.tsx:173 | `Math.max` over the ids: no id exceeds it and some entry has it |
| Admin.AddProject | src/admin/Admin.tsx:172-182 | exactly one entry ("New project", "", the year, "Uncategorized", no media) goes in front of the unchanged list; its id is the largest id plus one, or 1 for an empty list, so it is not already in use and unique ids stay unique |
| Admin.UpdateProject | src/admin/Admin.tsx:184-188 | same length and order; entries with another id are untouched; each entry with the id becomes the old entry with the patch's present properties laid over it, where an optional property present as `undefined` removes the entry's value |
| Admin.UpdateKeepsIds | src/admin/Admin.tsx:184-188 | a patch without an id leaves every id in place, so unique ids stay unique |
| Admin.UpdateIdempotent | src/admin/Admin.tsx:184-188 | applying the same id-free patch twice is the same as applying it once |
| Admin.FailedImageUploadRestores | src/admin/Admin.tsx:636-675 | the placeholder patch followed by `{ image: originalImage }` gives back the list as it was, also when the entry had no image |
| Admin.FailedVideoUploadRestores | src/admin/Admin.tsx:575-605 | the placeholder patch followed by `{ video: originalVideo }` gives back the list as it was, also when the entry had no video |
| Admin.DeleteProject | src/admin/Admin.tsx:190-192 | no entry with the id remains; every entry with another id keeps its number of occurrences and entries with the id have none; the rest keep their relative order; an absent id leaves the list as it was |
| Admin.VideosToBottom | src/admin/Admin.tsx:457-462 | exactly the entries typed as images (type missing, empty or "image") or as videos ("video") remain, so the list never grows |
| Admin.VideosToBottomDropsOthers | src/admin/Admin.tsx:457-462 | what the button keeps together with the entries of any other type is the whole list, each entry as often as before |
| Admin.VideosToBottomPermutes | src/admin/Admin.tsx:457-462 | when every entry's type is missing, empty, "image" or "video", the reordered list is a permutation of the list |
| Admin.VideosToBottomLosesUnknownKind | src/admin/Admin.tsx:457-462 | an entry typed "Video" is removed by the button |
| Admin.VideosToBottomKeepingAll | src/admin/Admin.tsx:457-462 | the corrected button: always a permutation of the list, and the same list as the button's when every type is known |
| Admin.VideosToBottomOrdered | src/admin/Admin.tsx:457-462 | no image entry (type missing, empty or "image") follows a video entry |
| Admin.VideosToBottomStable | src/admin/Admin.tsx:457-462 | images keep their relative order, and so do videos |
| Admin.VideosToBottomIdempotent | src/admin/Admin.tsx:457-462 | pressing the button twice gives the same list as pressing it once |
| Admin.TitleFromName | src/admin/Admin.tsx:310 | the title is non-empty and has no '.'; it is "New Project" when the name is empty or starts with '.', and otherwise the part of the name before its first '.' (the whole name when it has none) |
| Admin.UploadedUrl | src/admin/Admin.tsx:289-325 | a file yields a url exactly when it is a video or its image was prepared, and the upload returned a non-empty url; that url is the one yielded |
| Admin.Draft | src/admin/Admin.tsx:308-317 | a "video/" MIME type gives type "video" with `video` = url and no image; anything else gives type "image" with `image` = url and no video; the title comes from the file name |
| Admin.DraftsStep | src/admin/Admin.tsx:283-326 | each file processed adds its entry at the end of the collected list exactly when it yields a url |
| Admin.CurrentMaxId | src/admin/Admin.tsx:330-334 | 0 for an empty list; otherwise at least every current id and equal to one of them |
| Admin.BulkUpload | src/admin/Admin.tsx:271-366 | successful + failed is the number of files; successful is the number of collected entries; when any succeeded, the numbered entries go in front of the current list, otherwise it is unchanged; the final banner by case |
| Admin.BulkIdsFresh | src/admin/Admin.tsx:328-344 | every new id is above every current id, and unique ids stay unique after the new entries are prepended |
| Admin.DraftsCount | src/admin/Admin.tsx:306-321 | the number of successes is the number of files that yield a url |
| Admin.Import | src/admin/Admin.tsx:237-261 | the working set is replaced exactly when the parsed value is an array or an object whose `projects` is an array, by that array; the saved flag is what saveProjects answered |
| Admin.ExportImportRoundTrip | src/admin/Admin.tsx:217-239 | importing an exported document replaces the working set by the same projects, field for field, given the JSON round trip |
| Admin.AdminLoad | src/admin/Admin.tsx:112-170 | unauthorized: the defaults and no banner; authorized: the server list when non-empty, otherwise the defaults with a banner; a thrown error gives "server offline" exactly when its message mentions "timeout" or "not available" |
| Admin.UnknownErrorNotOffline | src/admin/Admin.tsx:156-157 | an error without a message, read as "Unknown error", is not taken for an offline server |
| Admin.OfflineNotices | src/admin/Admin.tsx:131-160 | both the five-second timer's error and the "not available" error give the "server offline" banner |
| Api.ProjectToJson | src/lib/api.ts:7-16 | the JSON object of a project carries its id as a number |
| Api.ProjectJsonMembers | src/lib/api.ts:7-16 | every required property is written, and each optional one is written exactly when present |
| Api.ProjectJsonRoundTrip | src/lib/api.ts:7-16 | reading a project back from its JSON object gives the same project |
| Api.StatusError | src/lib/api.ts:37-43 | a non-ok 404 or 5xx gives "Server error: <status>", any other non-ok status "Failed to fetch projects: <statusText>" |
| Api.Reclassify | src/lib/api.ts:53-73 | an abort, a TypeError, or a message mentioning "fetch" or "NetworkError" becomes "Server is not available…"; any other error passes through unchanged |
| Api.StatusFailureMasked | src/lib/api.ts:37-72 | as written, every non-ok status other than 404 and 5xx ends as "Server is not available…" |
| Api.UnauthorizedReadsAsUnavailable | src/lib/api.ts:37-72 | as written, a 401 answer reads as an unreachable server |
| Api.FetchProjectsAsWritten | src/lib/api.ts:19-74 | the list for an ok answer with an array body and [] for another body; a non-ok 404 or 5xx answer fails with exactly the status error "Server error: <status>"; any other non-ok answer fails with "Server is not available…"; a thrown error is classified as by Reclassify |
| Api.ServerErrorKept | src/lib/api.ts:37-72 | "Server error: <status>" mentions neither "fetch" nor "NetworkError", so the `catch` passes it through |
| Api.FetchProjects | src/lib/api.ts:19-74 | the list when the body is an array and [] for any other body; a status error as such; thrown errors classified as above |
| Api.FetchProjectsAgreesExceptOnStatus | src/lib/api.ts:19-74 | the corrected and the as-written fetchProjects agree on every input except non-ok answers |
| Api.SaveProjects | src/lib/api.ts:77-101 | never throws; true exactly when the server answered with a 2xx status |
| Api.UploadImage | src/lib/api.ts:105-126 | the `url` member of an ok JSON answer; null on a failed status, an unreadable body, a thrown fetch or a missing or null url |
| Api.DeleteImage | src/lib/api.ts:129-140 | `response.ok`, and false when fetch threw |
| Api.ImageFilename | src/lib/api.ts:143-147 | null for ""; otherwise a non-empty, slash-free name such that the URL ends in "/images/" + name, and null exactly when no such name exists |
| Cloudinary.Seek | src/lib/cloudinary.ts:11 | `max(0, floor(seconds))`: the largest whole number not above a non-negative input, 0 below 1 |
| Cloudinary.InsertAfterFirst | src/lib/cloudinary.ts:12-15 | the segment is inserted right after the first "/video/upload/", and a path without it is unchanged |
| Cloudinary.SourceSuffix | src/lib/cloudinary.ts:16 | the index of an ending the path has in any letter case, or none when it has none of them |
| Cloudinary.ForceExtension | src/lib/cloudinary.ts:16-20 | the result ends in the target ending in any letter case; a path with a source ending has that ending replaced by the target; a path without one keeps an ending that already matches the target in any case and otherwise gets the target appended |
| Cloudinary.ForceExtensionKeepsStem | src/lib/cloudinary.ts:16-20 | only the extension changes: all but the last five characters of the path are kept |
| Cloudinary.ForceExtensionKeepsPrefix | src/lib/cloudinary.ts:16-20 | the extension rule never reaches back past a '/' of the path |
| Cloudinary.ForceExtensionIdempotent | src/lib/cloudinary.ts:16-20 | rewriting the extension a second time changes nothing when the target cannot be mistaken for a source ending |
| Cloudinary.PosterEndingsDistinguishable | src/lib/cloudinary.ts:16-18 | ".jpg" differs from each of .mp4/.webm/.mov/.ogg in a way letter case cannot hide |
| Cloudinary.IOSEndingsDistinguishable | src/lib/cloudinary.ts:38-40 | ".mp4" differs from each of .webm/.mov/.ogg in a way letter case cannot hide |
| Cloudinary.CloudinaryUrl | src/lib/cloudinary.ts:5-10 | a URL exactly when the input is present, non-blank after trimming, parses, and has a host containing "res.cloudinary.com" |
| Cloudinary.VideoPoster | src/lib/cloudinary.ts:1-25 | a result exactly when the guards pass; it differs from the parsed URL only in its path, which is the poster path of the parsed path with seek `max(0, floor(seconds))` and ends in ".jpg" |
| Cloudinary.IOSVideoSrc | src/lib/cloudinary.ts:27-47 | a result exactly when the guards pass; it differs from the parsed URL only in its path, which is the iOS path of the parsed path and ends in ".mp4" |
| Cloudinary.PosterPath | src/lib/cloudinary.ts:12-20 | the poster path ends in ".jpg" in any letter case; without the upload marker it is at most five characters shorter than the path |
| Cloudinary.IOSPath | src/lib/cloudinary.ts:34-42 | the iOS path ends in ".mp4" in any letter case; without the upload marker it is at most five characters shorter than the path |
| Cloudinary.PosterPathEndsInJpg | src/lib/cloudinary.ts:12-20 | rewriting the extension of a poster path again changes nothing |
| Cloudinary.IOSPathEndsInMp4 | src/lib/cloudinary.ts:34-42 | rewriting the extension of an iOS path again changes nothing |
| Cloudinary.InsertedSegmentKept | src/lib/cloudinary.ts:12-20 | the path up to the first marker, the marker and the inserted segment survive the extension rule |
| Cloudinary.PosterKeepsTransformation | src/lib/cloudinary.ts:12-20 | the poster path starts with the original path up to the first marker, the marker and "so_<seek>,f_jpg,q_auto/" |
| Cloudinary.IOSKeepsTransformation | src/lib/cloudinary.ts:34-42 | the iOS path starts with the original path up to the first marker, the marker and "f_mp4,vc_h264,ac_aac/" |
| Cloudinary.PathWithoutMarker | src/lib/cloudinary.ts:12-42 | a path without "/video/upload/" changes only in its last five characters, for both rewrites |
| Database.OrDefault | server/database.js:99-101 | `v \|\| fallback`: the value when present and non-empty, otherwise the fallback |
| Database.OrNull | server/database.js:102-103 | `v \|\| null`: NULL exactly for an absent or empty value |
| Database.Defaulted | server/database.js:96-105 | description, year and category default to '', image and video to NULL, type to 'image'; the title passes as it is |
| Database.Column | server/database.js:38-45 | storing a text in a VARCHAR(n) column: a text at most n long is kept; a longer one is cut to exactly n characters when only spaces follow, and refused exactly when a non-space follows |
| Database.PaddedValueTruncated | server/database.js:38-45 | a value that fits once its trailing spaces are cut is stored without them |
| Database.MakeRow | server/database.js:93-106 | the stored row keeps the id, the description and both media URLs as sent |
| Database.MakeRowColumns | server/database.js:93-106 | title, year, category and type are stored as prefixes of the values sent, within their column widths, and unchanged when they fit |
| Database.IntegerInputOfNumber | server/database.js:97 | the text a number is sent as is read back as that number by the `integer` column |
| Database.DropLeadingPad | server/database.js:97 | the white space the `integer` input skips in front of a text is exactly the leading white space |
| Database.DropTrailingPad | server/database.js:97 | the white space the `integer` input skips after a text is exactly the trailing white space |
| Database.IntegerInputPadded | server/database.js:97 | digits with a '+' sign and any surrounding white space, such as " +7\n", are read as the digits' value |
| Database.IntegerInputRejects | server/database.js:97 | a text with a non-digit between digits, such as "7.5", is not an integer |
| Database.InsertRow | server/database.js:93-106 | the table stays in descending id order and gains exactly the new row |
| Database.Without | server/database.js:195 | exactly the rows with other ids remain, in order, and nothing changes when no row has the id |
| Database.Replaced | server/database.js:164-179 | same ids in the same order; only the rows with the id take the new values |
| Database.InsertAll | server/database.js:92-107 | the batch inserted into an empty table gives a table in descending id order |
| Database.InsertAllContents | server/database.js:86-107 | a batch that goes in leaves exactly one row per element, with the caller's ids, and nothing else |
| Database.InsertAllSucceeds | server/database.js:92-107 | the batch goes in exactly when every element has an in-range id, a title and fitting columns, and no two elements share an id |
| Database.InsertAllFailurePersists | server/database.js:118-121 | a failing INSERT part-way through fails the whole batch |
| Database.MaxIdOf | server/database.js:111 | `Math.max(...ids)`: no id exceeds it and some element has it |
| Database.SetvalBound | server/database.js:109-113 | after the batch goes in, `setval` succeeds exactly when the largest id is at least 1, and every row's id is at most that id |
| Database.Repository.constructor | server/database.js:9-26 | a pool exists exactly when `DATABASE_URL` or `NETLIFY_DATABASE_URL` is non-empty; the table starts empty with its sequence at 1 |
| Database.Repository.GetAll | server/database.js:59-74 | the rows in strictly descending id order; [] without a pool or when the query fails |
| Database.Repository.SaveAll | server/database.js:77-125 | commits exactly when a pool exists, the database answers and the batch and `setval` succeed; then the table is the batch and the sequence follows the largest id (an empty batch leaves it alone); otherwise table and sequence are unchanged |
| Database.Repository.ReplaceRows | server/database.js:88-107 | after the DELETE and the INSERT loop the table is exactly the batch inserted into an empty table, and the loop fails exactly when that batch cannot go in; the sequence is untouched |
| Database.Repository.Add | server/database.js:128-154 | a value too long for its column fails the INSERT while it is planned and spends no sequence value; otherwise the new row takes the sequence's value, which is spent even when the INSERT then fails; a row comes back exactly when a pool exists, the database answers, the sequence is not exhausted, the columns fit, the title is present and no row holds that id; the table then gains exactly that row |
| Database.Repository.Update | server/database.js:157-185 | true exactly when a pool exists, the database answers, the id is an `integer` and every value fits its column, with a title required only when a row has the id; so true when no row has the id; only rows with the id change |
| Database.Repository.Delete | server/database.js:188-201 | true even when no row has the id; only rows with the id go |
| Database.SaveThenAdd | server/database.js:109-149 | after a successful non-empty save, the next single insert (with fitting columns) gets the batch's largest id plus one, unless that passes the `integer` maximum |
| Defaults.DefaultProjectsWellFormed | src/data/defaultProjects.ts:3-37 | four built-in projects with distinct ids |
| Gallery.Filtered | src/components/Projects/Projects.tsx:32-35 | with "image" or "video", exactly the entries of that effective type are shown (a missing or empty type counts as "image"); the result is an order-preserving subsequence; "all" returns the list unchanged |
| Gallery.EffectiveKind | src/components/Projects/Projects.tsx:33 | `type \|\| "image"`: a non-empty type is kept, and the result is never empty |
| Gallery.FilterViewsPartition | src/components/Projects/Projects.tsx:32-35 | the image view, the video view and the entries of any other type together hold every entry exactly once |
| Gallery.FilterViewsCover | src/components/Projects/Projects.tsx:32-35 | when every entry's effective type is "image" or "video", the two typed views together hold every entry exactly once |
| Gallery.UnknownKindHidden | src/components/Projects/Projects.tsx:32-35 | an entry typed "Video" appears in neither typed view |
| Gallery.NextIndex | src/components/Projects/Projects.tsx:54 | the result is below k; it is i + 1, except that it wraps from k - 1 to 0 |
| Gallery.PreviousIndex | src/components/Projects/Projects.tsx:49 | the result is below k; it is i - 1, except that it wraps from 0 to k - 1 |
| Gallery.NextPreviousInverse | src/components/Projects/Projects.tsx:47-55 | next then previous, and previous then next, return to the index |
| Gallery.NextCycles | src/components/Projects/Projects.tsx:51-55 | n presses of "next" from i lead to (i + n) mod k |
| Gallery.OnKeyDown | src/components/Projects/Projects.tsx:41-57 | no selection stays none; Escape closes; arrows with an empty list close; arrows otherwise step forward or back; other keys change nothing |
| Gallery.HandleNext | src/components/Projects/Projects.tsx:78-82 | a step forward when something is selected in a non-empty list, otherwise no change |
| Gallery.HandlePrevious | src/components/Projects/Projects.tsx:84-91 | a step back when something is selected in a non-empty list, otherwise no change |
| Gallery.ButtonsMatchKeys | src/components/Projects/Projects.tsx:41-91 | with a selection in a non-empty list, the buttons and the arrow keys agree |
| Gallery.SelectFilter | src/components/Projects/Projects.tsx:98-124 | every filter button sets the filter and clears the selection |
| Gallery.OpenAt | src/components/Projects/Projects.tsx:70-72 | clicking a tile selects its index and changes nothing else |
| Gallery.CloseModal | src/components/Projects/Projects.tsx:74-76 | closing clears the selection and changes nothing else |
| Gallery.PressKey | src/components/Projects/Projects.tsx:40-68 | a key changes only the selection |
| Gallery.ClickNext | src/components/Projects/Projects.tsx:176-185 | the "next" button changes only the selection: none stays none, and a selection inside the filtered list steps forward with wrap-around |
| Gallery.ClickPrevious | src/components/Projects/Projects.tsx:166-175 | the "previous" button changes only the selection: none stays none, and a selection inside the filtered list steps back with wrap-around |
| Gallery.Current | src/components/Projects/Projects.tsx:37-38 | a project is shown exactly when the selection is inside the filtered list, and it is the filtered list's entry at the selection, a loaded project that passes the filter |
| Gallery.NavigationKeepsSelectionValid | src/components/Projects/Projects.tsx:37-91 | from a selection inside the filtered list, every key and button leaves no selection or one inside it |
| Gallery.Load | src/components/Projects/Projects.tsx:18-30 | the server list when non-empty; the defaults when it is empty or loading threw |
| Server.GetAdminPin | server/index.js:36-45 | a "bearer " Authorization header in any case gives its trimmed rest; otherwise the trimmed `x-admin-pin`; otherwise null |
| Server.BearerTakesPrecedence | server/index.js:37-40 | with a bearer credential the `x-admin-pin` header does not matter |
| Server.BearerAnyCase | server/index.js:38-39 | the scheme matches in any letter case |
| Server.PinSentIsPinRead | server/index.js:37-40 | a PIN without surrounding white space, sent as a bearer credential, is read back unchanged |
| Server.PinHeaderIsPinRead | server/index.js:42-43 | such a PIN sent in `x-admin-pin` is read back unchanged |
| Server.VerifyAdminPin | server/index.js:47-62 | true exactly when salt and hash are set, the PIN is a non-empty string, the decoded hash is non-empty and the derived key equals it |
| Server.RequireAdmin | server/index.js:64-80 | "not configured" (503) exactly when salt or hash is unset or empty, whatever the request carries; otherwise "missing credentials" (401) exactly for an absent or empty PIN; the request goes on exactly when verifyAdminPin holds for the PIN read; "invalid credentials" (401) in every other case |
| Server.GateReply | server/index.js:64-80 | not configured: 503 with the not-configured message; missing credentials: 401 "Missing admin credentials"; invalid credentials: 401 "Invalid admin credentials"; never an ok status |
| Server.AdminVerifyRoute | server/index.js:229-231 | 200 exactly when the gate passes |
| Server.EnvCorsOrigins | server/index.js:153-156 | exactly the non-empty trimmed pieces of `CORS_ORIGINS` split on ","; each is comma-free and trimmed; [] when unset or empty |
| Server.EnvCorsOriginsRoundTrip | server/index.js:153-156 | a list of clean origins joined with "," is read back as the same list |
| Server.AllowedOrigins | server/index.js:158 | the union of the built-in origins and the environment's |
| Server.CorsOrigin | server/index.js:163-169 | no Origin header: allowed; "*" in the list or an allowed origin: reflected; anything else: blocked with "CORS blocked for origin: <origin>" |
| Server.DefaultOriginsReflected | server/index.js:143-167 | the built-in origins are reflected whatever the environment holds |
| Server.AllowOriginHeader | server/index.js:180-189 | the header value, when set, is the request's origin |
| Server.HeaderMatchesCors | server/index.js:163-189 | the extra middleware sets the header exactly when the origin callback reflects the origin |
| Server.Extname | server/index.js:212 | `path.extname`: "" exactly when the last segment (trailing slashes ignored) is ".." or has no '.' after its first character; otherwise the segment's end from its last '.', shorter than the segment |
| Server.ExtnameIsSuffix | server/index.js:212 | the extension is the end of the path without its trailing slashes |
| Server.ExtnameWithoutDot | server/index.js:212 | a name without '.' has the empty extension |
| Server.FileFilter | server/index.js:209-221 | accepted exactly when the MIME type contains "image" or "video" and the lowercased extension contains one of the nine tokens; otherwise refused with "Only image and video files are allowed!" |
| Server.NoExtensionRefused | server/index.js:209-221 | a name without '.' is refused whatever its MIME type |
| Server.AcceptedHasExtension | server/index.js:209-221 | an accepted file has an extension of at least four characters (a dot and a token) |
| Server.ExtnameOfFileName | server/index.js:212 | the extension of "base.ext" is ".ext" |
| Server.ExtensionCaseIgnored | server/index.js:211-213 | "photo.JPG" is judged like "photo.jpg", for any base and extension |
| Server.PlainFileNameVerdict | server/index.js:209-221 | for "base.ext" the verdict is accept exactly when the MIME type is allowed and the lowercased ext contains a token, anywhere (the pattern is unanchored) |
| Server.DotPrefixAllowed | server/index.js:210-213 | the leading '.' of an extension never helps complete a token |
| Server.TextMimeRefused | server/index.js:214-220 | a "text/plain" file is refused whatever its name |
| Server.DefaultedParam | server/database.js:99-104 | `value \|\| default`: a missing or falsy value leaves the default; a non-empty string is sent as it is and a non-zero number as its digits; what is sent is never empty |
| Server.IncomingOf | server/database.js:96-105 | a non-object element has no title; the title is the text of its value with no default (a number as its digits, null or missing as NULL); the other properties go through `\|\|`; a numeric id is that number, a string id is what the `integer` column reads from it, a missing or null id is NULL |
| Server.NumericIdRead | server/database.js:97 | a numeric id is sent as its text and read back as the same number |
| Server.TextIdAndNumericTitle | server/database.js:97-98 | `{"id": "7", "title": 42}` inserts id 7 with the title "42" |
| Server.PostProjects | server/index.js:244-261 | gate refusals first; a non-array body is a 400 that touches nothing; 200 exactly when the save commits, and then the table is the batch; otherwise a 500 and the table and sequence are unchanged |
| Server.UploadRoute | server/index.js:264-303 | gate first; no file is a 400; 200 exactly when the filter accepts, the size is within 200 MB and Cloudinary stored the file, and then the answer carries the secure url |
| Server.DeleteImageRoute | server/index.js:306-318 | 200 exactly when the gate passes and the Cloudinary `destroy` call resolved (whatever it reported) |
| Server.UploadRoundTrip | server/index.js:264-303 | with the credential headers a client sends, its uploadImage gets a url exactly when the PIN they carry verifies and the route succeeds, and it is the stored secure url |
| Server.DeleteRoundTrip | server/index.js:306-318 | with the credential headers a client sends, its deleteImage reports true exactly when the PIN they carry verifies and the `destroy` call resolved |
| Server.ClientRequestsRefused | src/lib/api.ts:77-140 | saveProjects, uploadImage and deleteImage send no credential header, so the gate answers 503 or 401 and none of them succeeds, whatever the configuration |
| Server.AuthorizationFor | server/index.js:38-39 | `"Bearer " + pin` is a bearer credential |
| Server.AuthorizedClientRoundTrip | server/index.js:36-80 | a client sending `Authorization: Bearer <pin>` with a PIN that verifies passes the gate; its upload succeeds exactly when the route's own conditions hold and its deletion exactly when `destroy` resolved |
| Storage.Written | src/lib/storage.ts:33 | one `setItem`: a stored write sets the key and nothing else; a dropped or thrown write changes nothing |
| Storage.Read | src/lib/storage.ts:20-28 | `defaults` when the key is absent, empty or unparseable; otherwise the parsed value |
| Storage.ReadAfterWrite | src/lib/storage.ts:30-38 | a value written with `JSON.stringify` reads back as itself, given the JSON round trip |
| Storage.ReadOtherKey | src/lib/storage.ts:17-18 | writing one key leaves what the other key reads unchanged |
| Storage.LocalStore.GetProjects | src/lib/storage.ts:20-28 | the defaults when the projects key is absent, empty or unparseable; otherwise the parsed value |
| Storage.LocalStore.GetSkills | src/lib/storage.ts:48-56 | the defaults when the skills key is absent, empty or unparseable; otherwise the parsed value |
| Storage.Rethrown | src/lib/storage.ts:39-45 | a quota failure (by name or message) becomes "Storage quota exceeded…"; any other error is rethrown unchanged |
| Storage.RethrownIdempotent | src/lib/storage.ts:41-42 | the quota message itself mentions the quota, so a second pass through the catch changes nothing more |
| Storage.MismatchRethrownUnchanged | src/lib/storage.ts:36-44 | the read-back failure is rethrown unchanged |
| Storage.ArrayMember | src/lib/storage.ts:75-76 | `Array.isArray(parsed[key])`: the array exactly when the value is an object whose member is an array |
| Storage.ExportObject | src/lib/storage.ts:65-68 | each list of the exported object is seen as an array by import exactly when it is one |
| Storage.LocalStore.SetProjects | src/lib/storage.ts:30-46 | writes the list; an error exactly when `setItem` threw or the read-back does not find the text; the error is the rethrown one or the mismatch; after a normal return `getProjects` yields the list; skills untouched |
| Storage.LocalStore.SetSkills | src/lib/storage.ts:58-62 | one write whose failure is swallowed; after a stored write `getSkills` yields the list; projects untouched |
| Storage.LocalStore.ExportAll | src/lib/storage.ts:64-70 | the text parses back as the object holding both lists as the getters read them with empty defaults |
| Storage.LocalStore.ImportAll | src/lib/storage.ts:72-81 | false and no change when the text fails to parse or is null; otherwise writes projects only if an array and skills only if an array, false when setProjects throws; importing an export leaves both getters as they were |
| Storage.ExportImportKeepsReads | src/lib/storage.ts:64-81 | writing back each list that reads as an array leaves both reads as they were |

## Left out

- `compressImage` (canvas, image decoding, floating-point scaling and JPEG quality) is an input of the bulk upload: the flag `prepared` says whether it succeeded.
- The network is not modelled: `fetch`, `AbortController`, the ten-second abort and the five-second `Promise.race` timer. Each wrapper receives what `fetch` or the race produced as a value.
- `setTimeout` banner clearing, `console` output, React rendering, effects and the `alive` flag, and `document.body.style.overflow` are not modelled.
- The admin console's authorization flow (`authorize`, the stored PIN, `handleSave`) is not modelled. `handleExport` appears only through the document it writes (Admin.ExportImportRoundTrip).
- `verifyAdminPin` takes base64 decoding and scrypt derivation as parameters. `timingSafeEqual` is sequence equality.
- Rate limiting, the security-header middleware, the JSON body-size limit, static serving, the health route, GET /api/projects, the SPA fallback and `app.listen` are configuration or foreign I/O.
- Cloudinary `upload`/`destroy`, multer's disk storage and file naming, temporary-file unlinking and directory creation are foreign I/O. Each route takes their outcome as a parameter.
- The `pg` pool lifecycle is not modelled: `createProjectsTable`, `closeDatabase` and connection release. The row timestamps are also left out.
- Database.Repository.SaveAll: `pool.connect()` failing is the only rejection modelled. A failing ROLLBACK is not modelled.
- Cloudinary.VideoPoster, Cloudinary.IOSVideoSrc: `new URL` parsing is a parameter, and the result is returned as URL parts. `url.toString()` serialisation and the percent-encoding the `pathname` setter applies are not modelled.
- Cloudinary.Seek: NaN, infinite or negative-zero `seconds` are not modelled, nor the exponent notation JavaScript uses to print whole numbers of 10^21 and above in the poster segment.
- Storage.Read: `localStorage.getItem` throwing (storage disabled) is not modelled. Reads always see the map.
- Common.Json: numbers are integers, and object member order is not kept.
- Server.IncomingOf: a property whose value is an array or an object is taken as missing. The id, the title, the image and the video are then sent as NULL. Description, year and category become '' through their `||` defaults, and the type becomes 'image'. The PostgreSQL driver would instead send an array literal or JSON text for such a value, and `||` would keep it, since arrays and objects are truthy. A fraction cannot occur, because numbers are integers.
- Database.IntegerInput: only decimal digits with an optional sign and surrounding white space are read. The hexadecimal, octal, binary and underscore forms that PostgreSQL 16 also accepts are not modelled.
- Database.Column: a length is counted in characters of the model's strings. Multibyte encodings and the server's character set are not modelled.
- The admin console imports `verifyAdminPin` from src/lib/api.ts, which does not define it. The console's login is not part of this model.
- Common.RoundTrips: `JSON.stringify` and `JSON.parse` are uninterpreted. The round trip is assumed of them, never proved; every property that relies on it names it as a hypothesis.

## Findings

| source | as written | input that shows it | evidently intended | confidence | as-written member | corrected member |
|---|---|---|---|---|---|---|
| src/lib/api.ts:105-140 | uploadImage, deleteImage and saveProjects (lines 77-101) send no `Authorization` or `x-admin-pin` header, while the server puts these routes behind `requireAdmin`. | any upload, deletion or save: with the PIN configured the gate answers 401, without it 503 | the client sends `Authorization: Bearer <pin>` | medium, not executed | Server.ClientRequestsRefused | Server.AuthorizedClientRoundTrip |
| src/admin/Admin.tsx:457-462 | "Videos to bottom" keeps the image entries and the video entries and nothing else, so an entry of any other type is dropped from the list. | an imported entry whose type is "Video" | the button reorders without losing entries | low, not executed | Admin.VideosToBottomLosesUnknownKind | Admin.VideosToBottomKeepingAll |
| src/lib/api.ts:37-72 | For a non-ok status other than 404 or 5xx, `fetchProjects` throws "Failed to fetch projects: …" inside its own `try`. The `catch` sees "fetch" in that message and rethrows "Server is not available…". | a 401 or 403 answer (for example `Response(401, "Unauthorized", …)`) | the status error reaches the caller as thrown, as the comment at line 38 says | high, not executed | Api.StatusFailureMasked | Api.FetchProjects |
