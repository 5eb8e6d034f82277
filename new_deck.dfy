/** The "new deck" page (src/app/decks/new/page.tsx): how the form, the
    `parent_id` search parameter and the chosen cover file become the
    `deck` argument of `new_deck`, and what the backend then does with it.
    The image type the page sends is the file name's last dot-separated
    piece. */
module NewDeckPage {
  import opened Wrappers
  import opened AppErrors
  import Strings
  import Json
  import Image
  import Decks

  datatype NewDeckForm = NewDeckForm(name: string, description: Option<Json.Json>, color: string)

  /** A file the user picked: its name and the bytes the reader returns. */
  datatype File = File(name: string, bytes: seq<Image.Byte>)

  /** `cover_image_type`: the text after the name's last '.', or the whole
      name when it has none. The clauses are those of `Strings.LastPiece`
      for the separator '.', stated here in terms of the file name. */
  function CoverImageType(fileName: string): (t: string)
    ensures '.' !in t
    ensures |t| <= |fileName| && fileName[|fileName| - |t|..] == t
    ensures '.' in fileName ==> |t| < |fileName| && fileName[|fileName| - |t| - 1] == '.'
    ensures '.' !in fileName ==> t == fileName
  {
    Strings.LastPiece(fileName, '.')
  }

  /** The `deck` argument. A picked file is always read (a byte array is
      truthy even when empty), so the image and its type are sent together
      or not at all. */
  function DeckPayload(form: NewDeckForm, parentId: Option<string>, coverImage: Option<File>): (d: Decks.NewDeck)
    ensures d.parentId == parentId && d.name == form.name && d.color == form.color
    ensures d.description.Some? <==> form.description.Some?
    ensures form.description.Some? ==> Json.Decode(d.description.value) == form.description
    ensures d.coverImage.Some? <==> coverImage.Some?
    ensures d.coverImageType.Some? <==> coverImage.Some?
    ensures coverImage.Some? ==>
      d.coverImage.value == coverImage.value.bytes
      && d.coverImageType.value == CoverImageType(coverImage.value.name)
  {
    var description := Json.StringifyOptional(form.description);
    match coverImage
    case None => Decks.NewDeck(parentId, form.name, description, form.color, None, None)
    case Some(file) =>
      Decks.NewDeck(parentId, form.name, description, form.color, Some(file.bytes), Some(CoverImageType(file.name)))
  }

  /** Submitting the form: the payload, then `new_deck` up to its INSERT.
      `files`, `dataDir`, `uuid` and `writeError` stand for the file system,
      the application data directory, the generated name and the outcome of
      the write. */
  function Submit(form: NewDeckForm, parentId: Option<string>, coverImage: Option<File>,
                  files: Image.Files, dataDir: string, uuid: string, writeError: Option<string>): (c: Decks.Created)
    ensures c.result.Ok? ==>
      c.result.value.parentId == parentId && c.result.value.name == form.name && c.result.value.color == form.color
      && (c.result.value.coverImage.Some? <==> coverImage.Some?)
    ensures c.result.Err? ==> c.files == files
    ensures coverImage.None? ==> c.result.Ok? && c.files == files
    ensures coverImage.Some? ==>
      (c.result.Ok? <==> Image.IsValidImageType(CoverImageType(coverImage.value.name)) && writeError.None?)
    ensures c.result.Ok? && coverImage.Some? ==>
      var path := Image.ImagePath(dataDir, uuid, CoverImageType(coverImage.value.name));
      c.result.value.coverImage == Some(path) && c.files == files[path := coverImage.value.bytes]
  {
    Decks.NewDeckInsert(DeckPayload(form, parentId, coverImage), files, dataDir, uuid, writeError)
  }

  /** The extension of a name that ends in "." and a dot-free extension is
      that extension. */
  lemma {:induction false} CoverImageTypeOfExtension(base: string, ext: string)
    requires '.' !in ext
    ensures CoverImageType(base + "." + ext) == ext
  {
    var s := base + "." + ext;
    var t := CoverImageType(s);
    assert s[|base|] == '.';
    assert s[|base| + 1..] == ext;
    if |t| != |ext| {
      assert false;
    }
  }

  /** The page never triggers the backend's "Image type not provided"
      error: whenever it sends bytes it sends a type with them. */
  lemma SubmitNeverMissesImageType(form: NewDeckForm, parentId: Option<string>, coverImage: Option<File>,
                                   files: Image.Files, dataDir: string, uuid: string, writeError: Option<string>)
    ensures Submit(form, parentId, coverImage, files, dataDir, uuid, writeError).result
         != Err(Custom(Decks.ImageTypeMissing))
  {
    var d := DeckPayload(form, parentId, coverImage);
    var c := Submit(form, parentId, coverImage, files, dataDir, uuid, writeError);
    if coverImage.Some? && c.result.Err? {
      var saved := Image.SaveImage(files, dataDir, uuid, writeError, coverImage.value.bytes, d.coverImageType.value);
      assert c.result.error == saved.result.error;
      if Image.IsValidImageType(d.coverImageType.value) {
        assert saved.result.error.Io?;
      } else {
        assert |Decks.ImageTypeMissing| == 23;
      }
    }
  }

  /** Without a file the deck has no cover and nothing is stored. */
  lemma SubmitWithoutCover(form: NewDeckForm, parentId: Option<string>,
                           files: Image.Files, dataDir: string, uuid: string, writeError: Option<string>)
    ensures var c := Submit(form, parentId, None, files, dataDir, uuid, writeError);
      c.files == files && c.result.Ok? && c.result.value.coverImage.None?
      && c.result.value.parentId == parentId && c.result.value.name == form.name
  {
  }

  /** A file named "<base>.png" that is written is stored under the images
      directory with the ".png" extension, and the deck row points at it. */
  lemma SubmitPngCover(form: NewDeckForm, parentId: Option<string>, base: string, bytes: seq<Image.Byte>,
                       files: Image.Files, dataDir: string, uuid: string)
    ensures var c := Submit(form, parentId, Some(File(base + ".png", bytes)), files, dataDir, uuid, None);
      && c.result.Ok?
      && c.result.value.coverImage == Some(Image.ImagePath(dataDir, uuid, "png"))
      && c.files == files[Image.ImagePath(dataDir, uuid, "png") := bytes]
  {
    var file := File(base + ".png", bytes);
    CoverImageTypeOfExtension(base, "png");
    assert base + "." + "png" == file.name;
    var d := DeckPayload(form, parentId, Some(file));
    assert d.coverImage == Some(bytes) && d.coverImageType == Some("png");
    assert Image.IsValidImageType("png");
    var saved := Image.SaveImage(files, dataDir, uuid, None, bytes, "png");
    assert saved.result.Ok?;
  }

  /** The whitelist is case-sensitive: "<base>.PNG" is refused with the
      whitelist message and nothing is stored. */
  lemma SubmitUpperCaseExtensionRefused(form: NewDeckForm, parentId: Option<string>, base: string,
                                        bytes: seq<Image.Byte>, files: Image.Files, dataDir: string,
                                        uuid: string, writeError: Option<string>)
    ensures var c := Submit(form, parentId, Some(File(base + ".PNG", bytes)), files, dataDir, uuid, writeError);
      c == Decks.Created(Err(Custom("Invalid image type, must be one of: png, jpg, jpeg, gif.")), files)
  {
    CoverImageTypeOfExtension(base, "PNG");
    assert base + "." + "PNG" == base + ".PNG";
    assert "PNG"[0] != "png"[0] && "PNG"[0] != "jpg"[0] && "PNG"[0] != "jpeg"[0] && "PNG"[0] != "gif"[0];
    assert !Image.IsValidImageType("PNG");
  }
}
