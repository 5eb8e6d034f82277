/** `save_image` (src-tauri/src/utils/image.rs): accept a cover image only
    when its type is on a fixed, case-sensitive whitelist, and store it
    under the data directory as `images/<uuid>.<type>`. The file system is
    a map from path to contents; the data directory, the fresh uuid and the
    outcome of the write are parameters. */
module Image {
  import opened Wrappers
  import opened AppErrors
  import Strings

  type Byte = b: int | 0 <= b < 256

  /** The file system as far as image storage sees it. */
  type Files = map<string, seq<Byte>>

  /** `VALID_IMAGE_TYPES`, in declared order. */
  const ValidImageTypes: seq<string> := ["png", "jpg", "jpeg", "gif"]

  /** The whitelist test: exact, case-sensitive equality with one entry. */
  predicate IsValidImageType(imageType: string)
  {
    imageType in ValidImageTypes
  }

  /** The rejection message: the whitelist joined with ", " inside a fixed
      sentence. */
  function InvalidTypeMessage(): string
  {
    "Invalid image type, must be one of: " + Strings.Join(ValidImageTypes, ", ") + "."
  }

  lemma InvalidTypeMessageText()
    ensures InvalidTypeMessage() == "Invalid image type, must be one of: png, jpg, jpeg, gif."
  {
    var t := ValidImageTypes;
    assert t[1..] == ["jpg", "jpeg", "gif"];
    assert t[1..][1..] == ["jpeg", "gif"];
    assert t[1..][1..][1..] == ["gif"];
    assert Strings.Join(t, ", ") == "png, jpg, jpeg, gif";
  }

  /** `PathBuf::join` of a relative path onto a directory (Unix separator):
      a separator is added unless the directory is empty or already ends
      with one. */
  function JoinPath(dir: string, relative: string): (p: string)
    ensures |p| == |dir| + |relative| || (|p| == |dir| + 1 + |relative| && p[|dir|] == '/')
    ensures |p| == |dir| + |relative| <==> dir == "" || dir[|dir| - 1] == '/'
    ensures p[..|dir|] == dir && p[|p| - |relative|..] == relative
  {
    if dir == "" || dir[|dir| - 1] == '/' then dir + relative else dir + "/" + relative
  }

  /** Where an image with this uuid and type is stored. */
  function ImagePath(dataDir: string, uuid: string, imageType: string): (p: string)
    ensures var name := "images/" + uuid + "." + imageType;
      |p| >= |dataDir| + |name| && p[..|dataDir|] == dataDir && p[|p| - |name|..] == name
  {
    JoinPath(dataDir, "images/" + uuid + "." + imageType)
  }

  /** Two images of one type stored under different uuids never share a
      path, so no save overwrites an earlier one. */
  lemma ImagePathInjective(dataDir: string, u1: string, u2: string, imageType: string)
    requires u1 != u2
    ensures ImagePath(dataDir, u1, imageType) != ImagePath(dataDir, u2, imageType)
  {
    var r1 := "images/" + u1 + "." + imageType;
    var r2 := "images/" + u2 + "." + imageType;
    var p1, p2 := JoinPath(dataDir, r1), JoinPath(dataDir, r2);
    if |r1| != |r2| {
      assert |p1| != |p2|;
    } else {
      assert r1 != r2 by {
        assert r1[7..7 + |u1|] == u1;
        assert r2[7..7 + |u2|] == u2;
      }
      assert p1[|p1| - |r1|..] == r1 && p2[|p2| - |r2|..] == r2;
    }
  }

  /** What a save returns together with the file system after it. */
  datatype Saved = Saved(result: AppResult<string>, files: Files)

  /** `save_image(image_data, image_type)`. `writeError` is the display
      text of the I/O error `fs::write` fails with, if it fails. */
  function SaveImage(files: Files, dataDir: string, uuid: string, writeError: Option<string>,
                     imageData: seq<Byte>, imageType: string): (s: Saved)
    ensures !IsValidImageType(imageType) ==>
      s.result == Err(Custom("Invalid image type, must be one of: png, jpg, jpeg, gif.")) && s.files == files
    ensures s.result.Ok? <==> IsValidImageType(imageType) && writeError.None?
    ensures IsValidImageType(imageType) && writeError.Some? ==> s.result == Err(Io(writeError.value))
    ensures s.result.Err? ==> s.files == files
    ensures s.result.Ok? ==>
      var path := s.result.value;
      && s.files == files[path := imageData]
      && path == ImagePath(dataDir, uuid, imageType)
      && path[|path| - |imageType| - 1..] == "." + imageType
  {
    if !IsValidImageType(imageType) then
      InvalidTypeMessageText();
      Saved(New(InvalidTypeMessage()), files)
    else
      var path := ImagePath(dataDir, uuid, imageType);
      match writeError
      case Some(e) => Saved(Err(Io(e)), files)
      case None =>
        assert ("images/" + uuid + "." + imageType)[|uuid| + 7..] == "." + imageType;
        Saved(Ok(path), files[path := imageData])
  }

  /** An accepted image can be found again: the returned path holds exactly
      the bytes that were saved, and every other stored file is unchanged. */
  lemma SavedImageReadable(files: Files, dataDir: string, uuid: string, imageData: seq<Byte>, imageType: string)
    requires IsValidImageType(imageType)
    ensures var s := SaveImage(files, dataDir, uuid, None, imageData, imageType);
      && s.result.Ok?
      && s.files[s.result.value] == imageData
      && forall p :: p in files && p != s.result.value ==> p in s.files && s.files[p] == files[p]
  {
  }
}
