/**
 * One upload of `images/events/original-{guid}.jpg` followed through the
 * model: the name splits into a GUID stem and `.jpg`, the default list
 * holds `(512, 384)`, and the single resized image is written to
 * `images/events/{guid}.512-384..jpg`.
 */
module Scenario {
  import opened Wrappers
  import opened Int32Text
  import opened Text
  import opened BlobNames
  import opened ResolutionConfig
  import opened ImageResize

  const STEM: string := "3fa85f64-5717-4562-b3fc-2c963f66afa6"

  lemma ExampleStemIsGuid()
    ensures IsGuid(STEM)
  {
    assert IsHyphenatedGuid(STEM);
  }

  lemma ExampleNameParts()
    ensures GetFileNameWithoutExtension(STEM + ".jpg") == STEM
    ensures GetExtension(STEM + ".jpg") == ".jpg"
  {
    var name := STEM + ".jpg";
    ExampleStemIsGuid();
    GuidHasNoDot(STEM);
    assert forall j :: 0 <= j < 36 ==> name[j] == STEM[j];
    assert name[36..] == ".jpg";
    LastIndexOfUnique(name, '.', 36);
    LastIndexOfUnique(name, SEPARATOR, -1);
    assert GetFileName(name) == name;
    assert name[..36] == STEM;
  }

  lemma ExamplePath()
    ensures DestinationPath("events", STEM, 512, 384, ".jpg") == "images/events/" + STEM + ".512-384..jpg"
  {
    var w, h := Int32ToString(512), Int32ToString(384);
    assert w == "512" by { assert NatToString(51) == "51"; }
    assert h == "384" by { assert NatToString(38) == "38"; }
    assert SizeTag(512, 384) == "512-384";
    assert Directory("events") == "images/events/";
    assert DerivedFileName(STEM, 512, 384, ".jpg") == STEM + ".512-384..jpg";
  }

  /** With the default list and a library that encodes, exactly one image is written, to the double-dot path. */
  lemma ExampleUploads(source: seq<byte>, codec: Codec, bytes: seq<byte>)
    requires codec(source, 512, 384) == Encoded(bytes) && |bytes| > 0
    ensures Uploads(DEFAULT_RESOLUTIONS, TargetPath("events", STEM, ".jpg"), source, codec)
      == [Upload("images/events/" + STEM + ".512-384..jpg", bytes)]
  {
    ExamplePath();
    assert DEFAULT_RESOLUTIONS[..0] == [];
  }

  /**
   * A fresh trigger with no `ResizeResolutions` setting, given the blob
   * `name`, which `ExampleNameParts` shows `{guid}.jpg` to be: one resize
   * of the whole stream and one upload.
   */
  method ExampleRun(name: string, source: seq<byte>, codec: Codec, bytes: seq<byte>) returns (uploads: seq<Upload>)
    requires GetFileNameWithoutExtension(name) == STEM && GetExtension(name) == ".jpg"
    requires codec(source, 512, 384) == Encoded(bytes) && |bytes| > 0
    ensures uploads == [Upload("images/events/" + STEM + ".512-384..jpg", bytes)]
  {
    var trigger := new ImageResizeTrigger();
    var outcome := trigger.TryGetResolutionsFromConfig(None);
    var blob := new Blob(source);
    ExampleStemIsGuid();
    trigger.RunAsync(blob, name, "events", codec);
    ExampleUploads(source, codec, bytes);
    uploads := trigger.uploads;
  }

  /** `photo.jpg` has the stem `photo`, which is no GUID: such a blob is left alone. */
  lemma ExampleNotGuid()
    ensures GetFileNameWithoutExtension("photo.jpg") == "photo"
    ensures !IsGuid(GetFileNameWithoutExtension("photo.jpg"))
  {
    LastIndexOfUnique("photo.jpg", SEPARATOR, -1);
    LastIndexOfUnique("photo.jpg", '.', 5);
    assert GetFileName("photo.jpg") == "photo.jpg";
  }
}
