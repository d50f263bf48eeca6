/** Rewriting of Cloudinary video URLs (src/lib/cloudinary.ts): a poster
    frame URL and a URL the iOS player can play. Both work on the pathname
    of the parsed URL; parsing is a parameter and the rewritten URL is
    returned as its parts. */
module Cloudinary {
  import opened Common

  /** The parts of a WHATWG `URL` object the rewrite reads or keeps. */
  datatype UrlParts = UrlParts(protocol: string, hostname: string, port: string,
                               pathname: string, search: string, hash: string)

  const CloudinaryHost: string := "res.cloudinary.com"
  const VideoUpload: string := "/video/upload/"

  /** The endings the poster replaces and those the iOS source replaces. */
  const PosterSources: seq<string> := [".mp4", ".webm", ".mov", ".ogg"]
  const IOSSources: seq<string> := [".webm", ".mov", ".ogg"]

  /** `/\.suffix$/i` for a suffix of ASCII letters and digits. */
  predicate EndsWithCI(s: string, suffix: string)
  {
    |suffix| <= |s| && Lower(s[|s| - |suffix|..]) == Lower(suffix)
  }

  /** `Math.max(0, Math.floor(seconds))` for a finite number. */
  function Seek(seconds: real): (n: nat)
    ensures seconds >= 0.0 ==> n as real <= seconds < n as real + 1.0
    ensures seconds < 1.0 ==> n == 0
  {
    if seconds < 0.0 then 0 else seconds.Floor
  }

  /** `p.replace(marker, marker + segment)`: the segment goes right after the
      first occurrence of the marker, and a path without the marker is left
      alone. */
  function InsertAfterFirst(p: string, marker: string, segment: string): (r: string)
    ensures IndexOf(p, marker).None? ==> r == p
    ensures IndexOf(p, marker).Some? ==>
      var i := IndexOf(p, marker).value;
      r == p[..i + |marker|] + segment + p[i + |marker|..]
  {
    var r := ReplaceFirst(p, marker, marker + segment);
    assert IndexOf(p, marker).Some? ==>
      var i := IndexOf(p, marker).value;
      p[..i] + (marker + segment) + p[i + |marker|..] == p[..i + |marker|] + segment + p[i + |marker|..]
      && p[..i + |marker|] == p[..i] + marker;
    r
  }

  /** The position in `sources` of the first ending of `p`, in any letter
      case. */
  function SourceSuffix(p: string, sources: seq<string>): (m: Option<nat>)
    ensures m.Some? ==> m.value < |sources| && EndsWithCI(p, sources[m.value])
    ensures m.None? ==> forall k :: 0 <= k < |sources| ==> !EndsWithCI(p, sources[k])
  {
    if sources == [] then None
    else if EndsWithCI(p, sources[0]) then Some(0)
    else
      match SourceSuffix(p, sources[1..])
      case None => None
      case Some(k) => Some(k + 1)
  }

  /** The extension rule both functions share: a source ending is replaced
      by `ending`, an `ending` in any case is kept, and anything else gets
      `ending` appended. */
  function ForceExtension(p: string, sources: seq<string>, ending: string): (r: string)
    requires forall k :: 0 <= k < |sources| ==> sources[k] != []
    ensures EndsWithCI(r, ending)
    ensures (exists k :: 0 <= k < |sources| && EndsWithCI(p, sources[k])) ==>
      exists k :: 0 <= k < |sources| && EndsWithCI(p, sources[k]) && r == p[..|p| - |sources[k]|] + ending
    ensures (forall k :: 0 <= k < |sources| ==> !EndsWithCI(p, sources[k])) ==>
      r == if EndsWithCI(p, ending) then p else p + ending
  {
    match SourceSuffix(p, sources)
    case Some(k) =>
      EndsWithAppended(p[..|p| - |sources[k]|], ending);
      p[..|p| - |sources[k]|] + ending
    case None =>
      EndsWithAppended(p, ending);
      if EndsWithCI(p, ending) then p else p + ending
  }

  predicate NonEmptyEndings(sources: seq<string>)
  {
    forall k :: 0 <= k < |sources| ==> sources[k] != []
  }

  lemma EndsWithAppended(p: string, suffix: string)
    ensures EndsWithCI(p + suffix, suffix)
  {
    assert (p + suffix)[|p + suffix| - |suffix|..] == suffix;
  }

  /** Only the extension changes: at most the last five characters of the
      path are dropped, and nothing before them. */
  lemma ForceExtensionKeepsStem(p: string, sources: seq<string>, ending: string)
    requires NonEmptyEndings(sources) && forall k :: 0 <= k < |sources| ==> |sources[k]| <= 5
    ensures var r := ForceExtension(p, sources, ending);
      |p| - 5 <= |r| && forall i :: 0 <= i < |p| - 5 ==> r[i] == p[i]
  {
  }

  /** The extension rule never reaches back past a '/': a prefix of the
      path that ends in '/' is a prefix of the result. */
  lemma ForceExtensionKeepsPrefix(p: string, sources: seq<string>, ending: string, prefix: string)
    requires prefix <= p && prefix != [] && prefix[|prefix| - 1] == '/'
    requires NonEmptyEndings(sources) && forall k :: 0 <= k < |sources| ==> '/' !in sources[k]
    ensures prefix <= ForceExtension(p, sources, ending)
  {
    match SourceSuffix(p, sources)
    case Some(k) =>
      NoSlashInEnding(p, sources[k]);
    case None =>
  }

  /** The characters a slash-free ending matched are not slashes. */
  lemma NoSlashInEnding(p: string, e: string)
    requires EndsWithCI(p, e) && '/' !in e
    ensures forall j :: |p| - |e| <= j < |p| ==> p[j] != '/'
  {
    forall j | |p| - |e| <= j < |p|
      ensures p[j] != '/'
    {
      var m := j - (|p| - |e|);
      assert Lower(p[|p| - |e|..])[m] == LowerChar(p[j]);
      assert Lower(e)[m] == LowerChar(e[m]);
      assert e[m] in e;
    }
  }

  /** Two endings `r` cannot both have, up to letter case: their last
      characters differ, or they are as long and differ. */
  predicate Distinguishable(a: string, b: string)
  {
    a != [] && b != []
    && (LowerChar(a[|a| - 1]) != LowerChar(b[|b| - 1]) || (|a| == |b| && Lower(a) != Lower(b)))
  }

  /** An ending fixes the last character of `r` up to letter case. */
  lemma LastCharCI(r: string, a: string)
    requires EndsWithCI(r, a) && a != []
    ensures LowerChar(r[|r| - 1]) == LowerChar(a[|a| - 1])
  {
    assert Lower(r[|r| - |a|..])[|a| - 1] == LowerChar(r[|r| - 1]);
    assert Lower(a)[|a| - 1] == LowerChar(a[|a| - 1]);
  }

  lemma NotBothEndings(r: string, a: string, b: string)
    requires Distinguishable(a, b) && EndsWithCI(r, a)
    ensures !EndsWithCI(r, b)
  {
    if EndsWithCI(r, b) {
      LastCharCI(r, a);
      LastCharCI(r, b);
    }
  }

  /** Normalising an extension twice is normalising it once, when the
      target ending cannot be mistaken for a source ending. */
  lemma ForceExtensionIdempotent(p: string, sources: seq<string>, ending: string)
    requires NonEmptyEndings(sources)
    requires forall k :: 0 <= k < |sources| ==> Distinguishable(ending, sources[k])
    ensures ForceExtension(ForceExtension(p, sources, ending), sources, ending) == ForceExtension(p, sources, ending)
  {
    var r := ForceExtension(p, sources, ending);
    forall k | 0 <= k < |sources|
      ensures !EndsWithCI(r, sources[k])
    {
      NotBothEndings(r, ending, sources[k]);
    }
  }

  /** `.jpg` cannot be mistaken for an ending the poster replaces. */
  lemma PosterEndingsDistinguishable()
    ensures forall k :: 0 <= k < |PosterSources| ==> Distinguishable(".jpg", PosterSources[k])
  {
    LowerUnchanged(".jpg");
    LowerUnchanged(".ogg");
  }

  /** `.mp4` cannot be mistaken for an ending the iOS source replaces. */
  lemma IOSEndingsDistinguishable()
    ensures forall k :: 0 <= k < |IOSSources| ==> Distinguishable(".mp4", IOSSources[k])
  {
  }

  /** The transformation segment of the poster: seek offset, JPEG, automatic
      quality. */
  function PosterSegment(seek: nat): string
  {
    "so_" + NatToString(seek) + ",f_jpg,q_auto/"
  }

  const IOSSegment: string := "f_mp4,vc_h264,ac_aac/"

  /** The URL both functions start from: none for an absent or blank input,
      a text `new URL` rejects, or a host outside Cloudinary. */
  function CloudinaryUrl(videoUrl: Option<string>, parse: string -> Option<UrlParts>): (u: Option<UrlParts>)
    ensures u.Some? <==> videoUrl.Some? && Trim(videoUrl.value) != "" && parse(Trim(videoUrl.value)).Some?
                         && Contains(parse(Trim(videoUrl.value)).value.hostname, CloudinaryHost)
    ensures u.Some? ==> u == parse(Trim(videoUrl.value))
  {
    if videoUrl.None? then None
    else
      var raw := Trim(videoUrl.value);
      if raw == "" then None
      else match parse(raw)
        case None => None
        case Some(url) => if Contains(url.hostname, CloudinaryHost) then Some(url) else None
  }

  /** The poster's path: the frame-grab transformation after the first
      upload marker, then a `.jpg` ending. */
  function PosterPath(pathname: string, seek: nat): (path: string)
    ensures EndsWithCI(path, ".jpg")
    ensures IndexOf(pathname, VideoUpload).None? ==> |pathname| - 5 <= |path|
  {
    var inserted := InsertAfterFirst(pathname, VideoUpload, PosterSegment(seek));
    assert forall k :: 0 <= k < |PosterSources| ==> |PosterSources[k]| <= 5;
    ForceExtensionKeepsStem(inserted, PosterSources, ".jpg");
    ForceExtension(inserted, PosterSources, ".jpg")
  }

  /** The iOS source's path: the transcoding segment after the first upload
      marker, then an `.mp4` ending. */
  function IOSPath(pathname: string): (path: string)
    ensures EndsWithCI(path, ".mp4")
    ensures IndexOf(pathname, VideoUpload).None? ==> |pathname| - 5 <= |path|
  {
    var inserted := InsertAfterFirst(pathname, VideoUpload, IOSSegment);
    assert forall k :: 0 <= k < |IOSSources| ==> |IOSSources[k]| <= 5;
    ForceExtensionKeepsStem(inserted, IOSSources, ".mp4");
    ForceExtension(inserted, IOSSources, ".mp4")
  }

  /** getCloudinaryVideoPoster: the same URL with only its path rewritten. */
  function VideoPoster(videoUrl: Option<string>, parse: string -> Option<UrlParts>, seconds: real := 3.0): (r: Option<UrlParts>)
    ensures r.Some? <==> CloudinaryUrl(videoUrl, parse).Some?
    ensures r.Some? ==> r.value == CloudinaryUrl(videoUrl, parse).value.(pathname := r.value.pathname)
    ensures r.Some? ==> r.value.pathname == PosterPath(CloudinaryUrl(videoUrl, parse).value.pathname, Seek(seconds))
    ensures r.Some? ==> EndsWithCI(r.value.pathname, ".jpg")
  {
    match CloudinaryUrl(videoUrl, parse)
    case None => None
    case Some(url) => Some(url.(pathname := PosterPath(url.pathname, Seek(seconds))))
  }

  /** getCloudinaryIOSVideoSrc: the same URL with only its path rewritten. */
  function IOSVideoSrc(videoUrl: Option<string>, parse: string -> Option<UrlParts>): (r: Option<UrlParts>)
    ensures r.Some? <==> CloudinaryUrl(videoUrl, parse).Some?
    ensures r.Some? ==> r.value == CloudinaryUrl(videoUrl, parse).value.(pathname := r.value.pathname)
    ensures r.Some? ==> r.value.pathname == IOSPath(CloudinaryUrl(videoUrl, parse).value.pathname)
    ensures r.Some? ==> EndsWithCI(r.value.pathname, ".mp4")
  {
    match CloudinaryUrl(videoUrl, parse)
    case None => None
    case Some(url) => Some(url.(pathname := IOSPath(url.pathname)))
  }

  /** Rewriting the extension of a poster path again changes nothing. */
  lemma PosterPathEndsInJpg(pathname: string, seek: nat)
    ensures var path := PosterPath(pathname, seek);
      ForceExtension(path, PosterSources, ".jpg") == path
  {
    var p := InsertAfterFirst(pathname, VideoUpload, PosterSegment(seek));
    PosterEndingsDistinguishable();
    ForceExtensionIdempotent(p, PosterSources, ".jpg");
  }

  /** Rewriting the extension of an iOS path again changes nothing. */
  lemma IOSPathEndsInMp4(pathname: string)
    ensures var path := IOSPath(pathname);
      ForceExtension(path, IOSSources, ".mp4") == path
  {
    var p := InsertAfterFirst(pathname, VideoUpload, IOSSegment);
    IOSEndingsDistinguishable();
    ForceExtensionIdempotent(p, IOSSources, ".mp4");
  }

  /** The path up to the first upload marker, the marker and the segment
      inserted after it survive the extension rule. */
  lemma InsertedSegmentKept(pathname: string, segment: string, sources: seq<string>, ending: string)
    requires IndexOf(pathname, VideoUpload).Some? && segment != [] && segment[|segment| - 1] == '/'
    requires NonEmptyEndings(sources) && forall k :: 0 <= k < |sources| ==> '/' !in sources[k]
    ensures var i := IndexOf(pathname, VideoUpload).value;
      pathname[..i] + VideoUpload + segment <= ForceExtension(InsertAfterFirst(pathname, VideoUpload, segment), sources, ending)
  {
    var i := IndexOf(pathname, VideoUpload).value;
    var p := InsertAfterFirst(pathname, VideoUpload, segment);
    var prefix := pathname[..i] + VideoUpload + segment;
    assert prefix <= p by {
      assert pathname[..i + |VideoUpload|] == pathname[..i] + VideoUpload;
      assert p == prefix + pathname[i + |VideoUpload|..];
    }
    ForceExtensionKeepsPrefix(p, sources, ending, prefix);
  }

  /** Only the first upload marker gets the poster transformation, and it
      stays in the final path. */
  lemma PosterKeepsTransformation(pathname: string, seek: nat)
    requires IndexOf(pathname, VideoUpload).Some?
    ensures var i := IndexOf(pathname, VideoUpload).value;
      pathname[..i] + VideoUpload + PosterSegment(seek) <= PosterPath(pathname, seek)
  {
    var segment := PosterSegment(seek);
    assert segment[|segment| - 1] == '/';
    InsertedSegmentKept(pathname, segment, PosterSources, ".jpg");
  }

  /** The same for the iOS source and its transcoding segment. */
  lemma IOSKeepsTransformation(pathname: string)
    requires IndexOf(pathname, VideoUpload).Some?
    ensures var i := IndexOf(pathname, VideoUpload).value;
      pathname[..i] + VideoUpload + IOSSegment <= IOSPath(pathname)
  {
    assert IOSSegment[|IOSSegment| - 1] == '/';
    InsertedSegmentKept(pathname, IOSSegment, IOSSources, ".mp4");
  }

  /** A path without the upload marker changes only in its last five
      characters at most, for the poster and for the iOS source. */
  lemma PathWithoutMarker(pathname: string, seek: nat)
    requires IndexOf(pathname, VideoUpload).None?
    ensures var after := PosterPath(pathname, seek);
      |pathname| - 5 <= |after| && forall i :: 0 <= i < |pathname| - 5 ==> after[i] == pathname[i]
    ensures var after := IOSPath(pathname);
      |pathname| - 5 <= |after| && forall i :: 0 <= i < |pathname| - 5 ==> after[i] == pathname[i]
  {
    ForceExtensionKeepsStem(pathname, PosterSources, ".jpg");
    ForceExtensionKeepsStem(pathname, IOSSources, ".mp4");
  }
}
