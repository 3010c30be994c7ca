/** The rules of the two-step upload: which file names are accepted, the
    box a photo is shrunk into, which preview url a user may finalise, the
    name the final file gets, the tags read from the form, and whether the
    post is a photo or a video. The route bodies around them (files,
    images, moves, the session) are not modelled. */
module Upload {
  import opened Common
  import opened Text

  /** `ALLOWED_EXTENSIONS`. */
  const UploadExtensions: set<string> := {"png", "jpg", "jpeg", "gif", "mp4", "mov", "avi"}

  /** The extensions treated as photos. */
  const ImageExtensions: set<string> := {"png", "jpg", "jpeg", "gif"}

  /** `filename.rsplit(".", 1)[1].lower()`, or `None` where the name has no
      dot and the index raises. */
  function Extension(filename: string): (r: Option<string>)
    ensures r.None? <==> '.' !in filename
    ensures r.Some? ==> exists k :: 0 <= k < |filename| && filename[k] == '.'
                                    && '.' !in filename[k + 1..] && r.value == Lower(filename[k + 1..])
  {
    if '.' in filename then
      var k := LastIndexOf(filename, '.').value;
      Some(Lower(filename[k + 1..]))
    else None
  }

  /** `allowed_file` of the upload routes. */
  predicate AllowedFile(filename: string)
  {
    '.' in filename && Extension(filename).value in UploadExtensions
  }

  /** The extension of `stem + "." + ext`, where `ext` has no dot, is `ext`
      lower-cased, whatever dots the stem holds. */
  lemma ExtensionOfName(stem: string, ext: string)
    requires '.' !in ext
    ensures Extension(stem + "." + ext) == Some(Lower(ext))
  {
    AfterLastOfSuffix(stem, '.', ext);
    var s := stem + "." + ext;
    assert s == stem + ['.'] + ext;
    assert s[|stem|] == '.';
  }

  /** A name is accepted exactly when it ends in a dot and one of the seven
      extensions, in any letter case. */
  lemma AllowedFileOfName(stem: string, ext: string)
    requires '.' !in ext
    ensures AllowedFile(stem + "." + ext) <==> Lower(ext) in UploadExtensions
    ensures !AllowedFile(ext)
  {
    ExtensionOfName(stem, ext);
    assert (stem + "." + ext)[|stem|] == '.';
  }

  /** `media_type`: "photo" for the four image extensions, "video" for any
      other; `None` where the name has no dot. */
  function MediaType(filename: string): (r: Option<string>)
    ensures r.None? <==> '.' !in filename
    ensures r == Some("photo") <==> Extension(filename).Some? && Extension(filename).value in ImageExtensions
    ensures r.Some? ==> r.value == "photo" || r.value == "video"
  {
    match Extension(filename)
    case None => None
    case Some(e) => Some(if e in ImageExtensions then "photo" else "video")
  }

  /** The name of the preview file: the temporary id, a dot and the
      extension of the sanitised upload name. */
  function TempFilename(tempId: string, ext: string): string
  {
    tempId + "." + ext
  }

  /** The url the preview answers with. */
  function PreviewUrl(userName: string, tempFilename: string): string
  {
    "/static/images/uploads/temp_uploads/" + userName + "/" + tempFilename
  }

  /** The url check of `finalize_upload`: a non-empty url holding
      `"/<user_name>/"` and `"temp_uploads"`. */
  predicate UrlAuthorised(url: Option<string>, userName: string)
  {
    url.Some? && url.value != "" && Contains(url.value, "/" + userName + "/")
    && Contains(url.value, "temp_uploads")
  }

  /** `url.rsplit("/", 1)[-1]`: the url after its last slash. */
  function FinalFilename(url: string): (r: string)
    ensures '/' !in r
    ensures '/' !in url ==> r == url
    ensures '/' in url ==> exists k :: 0 <= k < |url| && url[k] == '/' && r == url[k + 1..]
  {
    AfterLast(url, '/')
  }

  /** The box a photo is shrunk into: landscape, and square, photos get the
      landscape UHD box, portrait photos the portrait one. */
  function ResizeBox(width: int, height: int): (box: (int, int))
    ensures box == (1920, 1080) || box == (1080, 1920)
    ensures box.0 >= box.1 <==> width >= height
  {
    if width >= height then (1920, 1080) else (1080, 1920)
  }

  /** `[tag.strip() for tag in pieces if tag.strip()]`. */
  function TagList(pieces: seq<string>): (tags: seq<string>)
    ensures |tags| <= |pieces|
    ensures forall k :: 0 <= k < |tags| ==>
              tags[k] != [] && !IsPySpace(tags[k][0]) && !IsPySpace(tags[k][|tags[k]| - 1])
  {
    if pieces == [] then []
    else
      var t := Trim(pieces[0], IsPySpace);
      TrimmedEnds(pieces[0], IsPySpace);
      (if t != [] then [t] else []) + TagList(pieces[1..])
  }

  /** The tags of the upload form: the comma-separated pieces, trimmed, with
      the empty ones dropped, in their order. */
  function UploadTags(text: string): seq<string>
  {
    TagList(Split(text, ","))
  }

  /** No piece `TagList` keeps holds a character the pieces avoid. */
  lemma {:induction false} TagListAvoids(pieces: seq<string>, c: char)
    requires forall k :: 0 <= k < |pieces| ==> c !in pieces[k]
    ensures forall k :: 0 <= k < |TagList(pieces)| ==> c !in TagList(pieces)[k]
  {
    if pieces != [] {
      TrimKeepsOut(pieces[0], c, IsPySpace);
      TagListAvoids(pieces[1..], c);
    }
  }

  /** Every tag read from the form is non-empty, has no whitespace at
      either end and holds no comma. */
  lemma UploadTagsClean(text: string)
    ensures forall k :: 0 <= k < |UploadTags(text)| ==>
              UploadTags(text)[k] != [] && ',' !in UploadTags(text)[k]
              && !IsPySpace(UploadTags(text)[k][0])
              && !IsPySpace(UploadTags(text)[k][|UploadTags(text)[k]| - 1])
  {
    SplitPiecesAvoid(text, ',');
    TagListAvoids(Split(text, ","), ',');
  }

  /** A clean tag: what `UploadTagsClean` says every read tag is. */
  predicate CleanTag(t: string)
  {
    t != [] && ',' !in t && !IsPySpace(t[0]) && !IsPySpace(t[|t| - 1])
  }

  /** `TagList` keeps a list of clean tags as it is. */
  lemma {:induction false} TagListOfClean(tags: seq<string>)
    requires forall k :: 0 <= k < |tags| ==> CleanTag(tags[k])
    ensures TagList(tags) == tags
  {
    if tags != [] {
      TrimUnchanged(tags[0], IsPySpace);
      TagListOfClean(tags[1..]);
    }
  }

  /** Clean tags joined with commas read back as the same tags. */
  lemma UploadTagsOfJoin(tags: seq<string>)
    requires forall k :: 0 <= k < |tags| ==> CleanTag(tags[k])
    ensures UploadTags(Join(tags, ",")) == tags
  {
    if tags == [] {
      assert Split([], ",") == [[]];
    } else {
      SplitJoin(tags, ",");
      TagListOfClean(tags);
    }
  }

  /** Lower-casing a text without a dot gives a text without a dot. */
  lemma LowerKeepsDotOut(x: string)
    requires '.' !in x
    ensures '.' !in Lower(x)
  {
    forall i | 0 <= i < |x| ensures Lower(x)[i] != '.' {
      assert x[i] != '.';
    }
  }

  /** An extension holds no dot and is already lower-case. */
  lemma ExtensionIsLower(filename: string)
    requires '.' in filename
    ensures '.' !in Extension(filename).value
    ensures Lower(Extension(filename).value) == Extension(filename).value
  {
    var k := LastIndexOf(filename, '.').value;
    var x := filename[k + 1..];
    assert Extension(filename).value == Lower(x);
    LowerKeepsDotOut(x);
    LowerIdempotent(x);
  }

  /** The file the preview writes keeps the decision the preview made: it
      is finalised as a photo exactly when the preview took the image
      branch for the extension of the sanitised name. */
  lemma PreviewedMediaType(tempId: string, secureName: string)
    requires '.' in secureName
    ensures MediaType(TempFilename(tempId, Extension(secureName).value))
            == Some(if Extension(secureName).value in ImageExtensions then "photo" else "video")
  {
    var ext := Extension(secureName).value;
    ExtensionIsLower(secureName);
    ExtensionOfName(tempId, ext);
  }

  /** Among the accepted extensions, the ones that are not photos are the
      three video extensions. */
  lemma VideoExtensions(ext: string)
    requires ext in UploadExtensions
    ensures ext !in ImageExtensions <==> ext == "mp4" || ext == "mov" || ext == "avi"
  {
  }

  /** The url the preview answers with passes the finalise check for the
      same user, and the final file keeps the preview file's name. */
  lemma PreviewUrlAccepted(userName: string, tempFilename: string)
    requires '/' !in tempFilename
    ensures UrlAuthorised(Some(PreviewUrl(userName, tempFilename)), userName)
    ensures FinalFilename(PreviewUrl(userName, tempFilename)) == tempFilename
  {
    var head := "/static/images/uploads/temp_uploads";
    var url := PreviewUrl(userName, tempFilename);
    assert url == head + ("/" + userName + "/" + tempFilename);
    assert url[|head|..] == "/" + userName + "/" + tempFilename;
    assert ("/" + userName + "/") <= url[|head|..];
    assert url[|"/static/images/uploads/"|..] == "temp_uploads" + ("/" + userName + "/" + tempFilename);
    assert "temp_uploads" <= url[|"/static/images/uploads/"|..];
    assert url == (head + "/" + userName) + ['/'] + tempFilename;
    AfterLastOfSuffix(head + "/" + userName, '/', tempFilename);
  }
}
