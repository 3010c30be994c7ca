/** Saving a profile picture: which uploads are accepted, the name a
    picture is saved under, and the clean-up of the user's folder that keeps
    one picture per user. The folder is its list of file names. */
module ProfilePictures {
  import opened Common
  import opened Text
  import opened Lists
  import Upload
  import DomainModel

  /** The extensions accepted for a profile picture. */
  const ImageExtensions: set<string> := {"png", "jpg", "jpeg", "gif"}

  /** `allowed_file` of the profile services. */
  predicate AllowedFile(filename: string)
  {
    '.' in filename && Upload.Extension(filename).value in ImageExtensions
  }

  /** A picture the profile accepts is a file the upload accepts, and is
      posted as a photo. */
  lemma AllowedFileIsImage(filename: string)
    requires AllowedFile(filename)
    ensures Upload.AllowedFile(filename)
    ensures Upload.MediaType(filename) == Some("photo")
  {
    var e := Upload.Extension(filename).value;
    assert e in Upload.ImageExtensions;
  }

  /** An upload the posts accept but not as a photo, which is a video, is
      never a profile picture. */
  lemma VideoRefused(filename: string)
    requires Upload.AllowedFile(filename) && Upload.MediaType(filename) == Some("video")
    ensures !AllowedFile(filename)
  {
    assert Upload.Extension(filename).value !in Upload.ImageExtensions;
  }

  /** `f"user_{user.user_id}_"`: the prefix of every picture of a user. */
  function Prefix(id: int): (p: string)
    ensures "user_" <= p && |p| > 6 && p[|p| - 1] == '_'
  {
    "user_" + IntToString(id) + "_"
  }

  /** Where the id and the closing underscore sit in a prefix. */
  lemma PrefixChars(id: int)
    ensures |Prefix(id)| == |IntToString(id)| + 6
    ensures forall k :: 0 <= k < |IntToString(id)| ==> Prefix(id)[5 + k] == IntToString(id)[k]
    ensures Prefix(id)[5 + |IntToString(id)|] == '_'
  {
  }

  /** Another user's picture never starts with this user's prefix, so the
      clean-up of one user cannot remove a picture of another: `user_1_`
      does not match `user_12_cat.png`. */
  lemma PrefixesApart(a: int, b: int, name: string)
    requires a != b && Prefix(b) <= name
    ensures !(Prefix(a) <= name)
  {
    var sa, sb := IntToString(a), IntToString(b);
    var pa, pb := Prefix(a), Prefix(b);
    PrefixChars(a);
    PrefixChars(b);
    if |pa| <= |name| {
      var k: nat;
      if |sa| < |sb| {
        k := |sa|;
        assert pb[5 + k] == sb[k];
      } else if |sa| > |sb| {
        k := |sb|;
        assert pa[5 + k] == sa[k];
      } else {
        IntToStringInjective(a, b);
        k :| k < |sa| && sa[k] != sb[k];
        assert pa[5 + k] == sa[k] && pb[5 + k] == sb[k];
      }
      assert pa[5 + k] != pb[5 + k];
      assert pb[5 + k] == name[5 + k];
      assert pa[5 + k] != name[..|pa|][5 + k];
    }
  }

  /** The files of a user's folder kept by the clean-up. */
  function KeptBy(prefix: string): string -> bool
  {
    (f: string) => !(prefix <= f)
  }

  /** The files of a user's folder that are that user's pictures. */
  function PicturesBy(prefix: string): string -> bool
  {
    (f: string) => prefix <= f
  }

  /** One step of the clean-up loop: with the kept files of the first `i`
      names in front of the unvisited ones, cutting out the visited name when
      it is a picture, or keeping it, gives the same for `i + 1`. */
  lemma RemoveStep(listing: seq<string>, i: nat, prefix: string)
    requires i < |listing|
    ensures var kept := Filter(listing[..i], KeptBy(prefix));
            var names := kept + listing[i..];
            var j := |kept|;
            j < |names|
            && (prefix <= listing[i] ==>
                  names[..j] + names[j + 1..] == Filter(listing[..i + 1], KeptBy(prefix)) + listing[i + 1..])
            && (!(prefix <= listing[i]) ==>
                  names == Filter(listing[..i + 1], KeptBy(prefix)) + listing[i + 1..])
  {
    var kept := Filter(listing[..i], KeptBy(prefix));
    var names := kept + listing[i..];
    var j := |kept|;
    assert listing[i..] == [listing[i]] + listing[i + 1..];
    assert names[..j] == kept && names[j + 1..] == listing[i + 1..];
    FilterSnoc(listing[..i], listing[i], KeptBy(prefix));
    assert listing[..i + 1] == listing[..i] + [listing[i]];
    if !(prefix <= listing[i]) {
      assert names == (kept + [listing[i]]) + listing[i + 1..];
    }
  }

  /** The upload handed to `save_file`: its name and the name
      `secure_filename` makes of it. */
  datatype UploadedFile = UploadedFile(filename: string, secureName: string)

  /** The url `url_for("static", ...)` gives a saved picture. */
  function PictureUrl(username: string, filename: string): Path
  {
    Path("/static/images/uploads/profile_pictures/" + username + "/" + filename)
  }

  /** One user's picture folder, as the list of its file names. */
  class PictureFolder {
    var names: seq<string>

    constructor(names: seq<string>)
      ensures this.names == names
    {
      this.names := names;
    }

    /** The clean-up loop of `save_file`: every file starting with
        `prefix` is removed, one at a time, and the others stay in order. */
    method RemovePictures(prefix: string)
      modifies this`names
      ensures names == Filter(old(names), KeptBy(prefix))
    {
      var listing := names;
      var i := 0;
      while i < |listing|
        invariant 0 <= i <= |listing|
        invariant names == Filter(listing[..i], KeptBy(prefix)) + listing[i..]
      {
        var j := |Filter(listing[..i], KeptBy(prefix))|;
        RemoveStep(listing, i, prefix);
        if prefix <= listing[i] {
          names := names[..j] + names[j + 1..];
        }
        i := i + 1;
      }
      assert listing[..i] == listing;
    }

    /** `save_file`: nothing happens for a missing upload or one that is not
        an image; otherwise every file starting with the user's prefix is
        removed, every other file is kept in its place, the upload is saved
        under the prefix, and the user's picture path points at it. */
    method SaveFile(file: Option<UploadedFile>, user: DomainModel.User)
      modifies this`names, user`profilePicturePath
      ensures file.None? || !AllowedFile(file.value.filename) ==>
                names == old(names) && user.profilePicturePath == old(user.profilePicturePath)
      ensures file.Some? && AllowedFile(file.value.filename) ==>
                names == Filter(old(names), KeptBy(Prefix(user.id))) + [Prefix(user.id) + file.value.secureName]
                && user.profilePicturePath
                   == PictureUrl(user.username, Prefix(user.id) + file.value.secureName)
    {
      if file.None? || !AllowedFile(file.value.filename) {
        return;
      }
      var prefix := Prefix(user.id);
      RemovePictures(prefix);
      var filename := prefix + file.value.secureName;
      names := names + [filename];
      user.profilePicturePath := PictureUrl(user.username, filename);
    }
  }

  /** After a save the folder holds exactly one picture of the user, the
      new one, and every file that was not the user's picture is still
      there, in its order. */
  lemma OnePictureAfterSave(names: seq<string>, id: int, secureName: string)
    ensures Filter(Filter(names, KeptBy(Prefix(id))) + [Prefix(id) + secureName], PicturesBy(Prefix(id)))
            == [Prefix(id) + secureName]
    ensures Filter(Filter(names, KeptBy(Prefix(id))) + [Prefix(id) + secureName], KeptBy(Prefix(id)))
            == Filter(names, KeptBy(Prefix(id)))
  {
    var p := Prefix(id);
    var kept := Filter(names, KeptBy(p));
    FilterSnoc(kept, p + secureName, PicturesBy(p));
    FilterSnoc(kept, p + secureName, KeptBy(p));
    assert p <= p + secureName;
    FilterNoneSelected(kept, PicturesBy(p));
    FilterAll(kept, KeptBy(p));
  }
}
