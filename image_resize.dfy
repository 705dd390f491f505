/**
 * The function `ImageResizeTrigger`: the static resolution list and the
 * loop that reads it from configuration, and `RunAsync`, which resizes one
 * new blob to every listed size and uploads each non-empty result.
 */
module ImageResize {
  import opened Wrappers
  import opened Text
  import opened Int32Text
  import opened BlobNames
  import opened ResolutionConfig

  newtype byte = b: int | 0 <= b < 256

  /**
   * What the image library does with one decode-resize-encode: the encoded
   * bytes, or the exception it throws.
   */
  datatype Resized = Encoded(bytes: seq<byte>) | Threw(message: string)

  /** The image library, as a function of the bytes it reads and the target box. */
  type Codec = (seq<byte>, int32, int32) -> Resized

  /**
   * `GetResizedImage`'s result: the encoded bytes, or an empty array when the
   * library threw. An empty result is all a caller sees, so a library that
   * throws and one that encodes to nothing look the same; a non-empty result
   * is always exactly what the library encoded.
   */
  function ResizedBytes(codec: Codec, input: seq<byte>, width: int32, height: int32): (image: seq<byte>)
    ensures |image| == 0 <==> codec(input, width, height).Threw? || codec(input, width, height).bytes == []
    ensures |image| != 0 ==> codec(input, width, height) == Encoded(image)
  {
    match codec(input, width, height)
    case Encoded(bytes) => bytes
    case Threw(_) => []
  }

  /** One blob written through the output binding. */
  datatype Upload = Upload(path: string, content: seq<byte>)

  /** One call of the image library: the box asked for and where the stream stood. */
  datatype ResizeCall = ResizeCall(width: int32, height: int32, position: nat)

  /** Where the loop writes the image for one target size. */
  type PathFor = (int32, int32) -> string

  /** The paths `RunAsync` writes to, for one source blob. */
  function TargetPath(subfolder: string, stem: string, extension: string): PathFor
  {
    (width: int32, height: int32) => DestinationPath(subfolder, stem, width, height, extension)
  }

  /** What the loop uploads for one resolution: its resized image at its path, or nothing when the image is empty. */
  function UploadFor(r: Resolution, target: PathFor,
                     source: seq<byte>, codec: Codec): seq<Upload>
  {
    var image := ResizedBytes(codec, source, r.width, r.height);
    if |image| == 0 then [] else [Upload(target(r.width, r.height), image)]
  }

  /**
   * The uploads the loop makes for `resolutions`, in order: one per
   * resolution whose resized image is not empty.
   */
  function Uploads(resolutions: seq<Resolution>, target: PathFor,
                   source: seq<byte>, codec: Codec): seq<Upload>
  {
    if |resolutions| == 0 then []
    else
      Uploads(resolutions[..|resolutions| - 1], target, source, codec)
        + UploadFor(resolutions[|resolutions| - 1], target, source, codec)
  }

  /** The library calls the loop makes: one per resolution, each with the stream at its start. */
  function ResizeCalls(resolutions: seq<Resolution>): (calls: seq<ResizeCall>)
    ensures |calls| == |resolutions|
    ensures forall i :: 0 <= i < |resolutions| ==>
      calls[i] == ResizeCall(resolutions[i].width, resolutions[i].height, 0)
  {
    seq(|resolutions|, i requires 0 <= i < |resolutions| => ResizeCall(resolutions[i].width, resolutions[i].height, 0))
  }

  /** The trigger's input stream: the blob's bytes and a read position that `Position` sets. */
  class Blob {
    const data: seq<byte>
    var position: nat

    constructor (data: seq<byte>)
      ensures this.data == data && position == 0
    {
      this.data := data;
      position := 0;
    }

    /** The bytes a reader sees from the current position on. */
    function Unread(): seq<byte>
      reads this
    {
      if position <= |data| then data[position..] else []
    }
  }

  class ImageResizeTrigger {
    /** Stands for the static `ResolutionList`, which the code shares across instances; here each object has its own. */
    var resolutionList: seq<Resolution>
    /** Every blob written through the output binding, oldest first. */
    var uploads: seq<Upload>
    /** Every call of the image library, oldest first. */
    ghost var resizeCalls: seq<ResizeCall>

    /** The static initialiser: the list holds the single default `(512, 384)`. */
    constructor ()
      ensures resolutionList == DEFAULT_RESOLUTIONS
      ensures uploads == [] && resizeCalls == []
    {
      resolutionList := DEFAULT_RESOLUTIONS;
      uploads := [];
      resizeCalls := [];
    }

    /**
     * `TryGetResolutionsFromConfig`, given the value of `ResizeResolutions`
     * (`None` when it is not set). It throws exactly when some entry has no
     * comma, and the list is then left as far as the loop got.
     */
    method TryGetResolutionsFromConfig(resolutions: Option<string>) returns (outcome: Outcome<string>)
      modifies this`resolutionList
      ensures resolutionList == ListAfter(old(resolutionList), resolutions)
      ensures outcome.Fail? <==> ConfigThrows(resolutions)
    {
      if IsNullOrEmpty(resolutions) {
        return Pass;
      }
      resolutionList := [];
      var resolutionsList := Split(resolutions.value, ';');
      ghost var outcomes := ParseAll(resolutionsList);
      var i := 0;
      while i < |resolutionsList|
        invariant 0 <= i <= |resolutionsList|
        invariant !Run(outcomes[..i]).failed
        invariant resolutionList == Run(outcomes[..i]).resolutions
      {
        var resolution := resolutionsList[i];
        var splittedResolution := Split(resolution, ',');
        if |splittedResolution| < 2 {
          ThrowsAt(resolutionsList, i);
          return Fail("IndexOutOfRangeException");
        }
        var width := ParseInt32(splittedResolution[0]);
        var height := ParseInt32(splittedResolution[1]);
        ParseEntryOfParts(resolution, splittedResolution);
        assert outcomes[i] == ParseEntry(resolution);
        if width.Some? && height.Some? {
          RunStepAccepted(outcomes, i, Resolution(width.value, height.value));
          resolutionList := resolutionList + [Resolution(width.value, height.value)];
        } else {
          RunStepDropped(outcomes, i);
        }
        i := i + 1;
      }
      assert outcomes[..i] == outcomes;
      ThrowsIffEntryWithoutComma(resolutionsList);
      outcome := Pass;
    }

    /**
     * `GetResizedImage`: the library reads the stream from where it stands
     * and consumes it; an exception becomes an empty array.
     */
    method GetResizedImage(blob: Blob, width: int32, height: int32, codec: Codec) returns (image: seq<byte>)
      modifies this`resizeCalls, blob`position
      ensures image == ResizedBytes(codec, old(blob.Unread()), width, height)
      ensures blob.position == |blob.data|
      ensures resizeCalls == old(resizeCalls) + [ResizeCall(width, height, old(blob.position))]
    {
      image := ResizedBytes(codec, blob.Unread(), width, height);
      resizeCalls := resizeCalls + [ResizeCall(width, height, blob.position)];
      blob.position := |blob.data|;
    }

    /**
     * `RunAsync` for the blob `images/{subfolder}/original-{name}`. A stem
     * that is not a GUID means no work at all; otherwise every resolution is
     * tried in list order, on the whole stream, and every non-empty result
     * is uploaded.
     */
    method RunAsync(blob: Blob, name: string, subfolder: string, codec: Codec)
      modifies this`uploads, this`resizeCalls, blob`position
      ensures var stem, extension := GetFileNameWithoutExtension(name), GetExtension(name);
        if IsGuid(stem) then
          && resizeCalls == old(resizeCalls) + ResizeCalls(resolutionList)
          && uploads == old(uploads) + Uploads(resolutionList, TargetPath(subfolder, stem, extension), blob.data, codec)
          && blob.position == (if |resolutionList| == 0 then old(blob.position) else |blob.data|)
        else
          && resizeCalls == old(resizeCalls)
          && uploads == old(uploads)
          && blob.position == old(blob.position)
    {
      var fileExtension := GetExtension(name);
      var fileNameWithoutExtension := GetFileNameWithoutExtension(name);
      if IsGuid(fileNameWithoutExtension) {
        ResizeAll(blob, subfolder, fileNameWithoutExtension, fileExtension, codec);
      }
    }

    /**
     * The loop of `RunAsync`: for each resolution in list order, rewind the
     * stream, resize, and upload the result unless it is empty.
     */
    method ResizeAll(blob: Blob, subfolder: string, stem: string, extension: string, codec: Codec)
      modifies this`uploads, this`resizeCalls, blob`position
      ensures resizeCalls == old(resizeCalls) + ResizeCalls(resolutionList)
      ensures uploads == old(uploads) + Uploads(resolutionList, TargetPath(subfolder, stem, extension), blob.data, codec)
      ensures blob.position == (if |resolutionList| == 0 then old(blob.position) else |blob.data|)
    {
      var resolutions := resolutionList;
      ghost var startPosition := blob.position;
      var i := 0;
      while i < |resolutions|
        invariant 0 <= i <= |resolutions|
        invariant resizeCalls == old(resizeCalls) + ResizeCalls(resolutions[..i])
        invariant uploads == old(uploads)
          + Uploads(resolutions[..i], TargetPath(subfolder, stem, extension), blob.data, codec)
        invariant blob.position == if i == 0 then startPosition else |blob.data|
      {
        ResizeOne(blob, subfolder, stem, extension, resolutions[i], codec);
        FanOutStep(resolutions, i, TargetPath(subfolder, stem, extension), blob.data, codec);
        i := i + 1;
      }
      assert resolutions[..i] == resolutions;
    }

    /** One pass of the loop: rewind the stream, resize, and upload the result unless it is empty. */
    method ResizeOne(blob: Blob, subfolder: string, stem: string, extension: string,
                     resolution: Resolution, codec: Codec)
      modifies this`uploads, this`resizeCalls, blob`position
      ensures resizeCalls == old(resizeCalls) + [ResizeCall(resolution.width, resolution.height, 0)]
      ensures uploads == old(uploads)
        + UploadFor(resolution, TargetPath(subfolder, stem, extension), blob.data, codec)
      ensures blob.position == |blob.data|
    {
      blob.position := 0;
      assert blob.Unread() == blob.data;
      var resizedImage := GetResizedImage(blob, resolution.width, resolution.height, codec);
      if |resizedImage| != 0 {
        var path := DestinationPath(subfolder, stem, resolution.width, resolution.height, extension);
        uploads := uploads + [Upload(path, resizedImage)];
      }
    }
  }

  /** One more resolution through the fan-out loop. */
  lemma FanOutStep(resolutions: seq<Resolution>, i: nat, target: PathFor,
                   source: seq<byte>, codec: Codec)
    requires i < |resolutions|
    ensures var r := resolutions[i];
      && ResizeCalls(resolutions[..i + 1]) == ResizeCalls(resolutions[..i]) + [ResizeCall(r.width, r.height, 0)]
      && Uploads(resolutions[..i + 1], target, source, codec)
         == Uploads(resolutions[..i], target, source, codec)
            + UploadFor(r, target, source, codec)
  {
    assert resolutions[..i + 1][..i] == resolutions[..i];
  }

  /**
   * The loop skips a resolution exactly when the library threw or encoded to
   * nothing; otherwise it writes the library's bytes to that resolution's path.
   */
  lemma UploadForEmpty(r: Resolution, target: PathFor, source: seq<byte>, codec: Codec)
    ensures UploadFor(r, target, source, codec) == []
      <==> codec(source, r.width, r.height).Threw? || codec(source, r.width, r.height).bytes == []
    ensures UploadFor(r, target, source, codec) != [] ==>
      codec(source, r.width, r.height).Encoded? &&
      UploadFor(r, target, source, codec) == [Upload(target(r.width, r.height), codec(source, r.width, r.height).bytes)]
  {
  }

  /** `u` is the upload the loop makes for resolution `r`: its image is not empty and it goes to `r`'s path. */
  predicate MadeFor(u: Upload, r: Resolution, target: PathFor,
                    source: seq<byte>, codec: Codec)
  {
    var image := ResizedBytes(codec, source, r.width, r.height);
    |image| != 0 && u == Upload(target(r.width, r.height), image)
  }

  /**
   * One resolution's outcome does not depend on the others: the uploads
   * for a list are those for its first part followed by those for the rest.
   */
  lemma {:induction false} UploadsAppend(a: seq<Resolution>, b: seq<Resolution>, target: PathFor, source: seq<byte>, codec: Codec)
    ensures Uploads(a + b, target, source, codec)
      == Uploads(a, target, source, codec) + Uploads(b, target, source, codec)
    decreases |b|
  {
    if |b| == 0 {
      assert a + b == a;
    } else {
      var init, last := b[..|b| - 1], b[|b| - 1];
      UploadsAppend(a, init, target, source, codec);
      UploadsAppendLast(a, b, target, source, codec);
      var ua, ui, ul := Uploads(a, target, source, codec), Uploads(init, target, source, codec),
        UploadFor(last, target, source, codec);
      assert (ua + ui) + ul == ua + (ui + ul);
    }
  }

  /** The last resolution of `a + b` is the last one of `b`. */
  lemma UploadsAppendLast(a: seq<Resolution>, b: seq<Resolution>, target: PathFor, source: seq<byte>, codec: Codec)
    requires |b| > 0
    ensures Uploads(a + b, target, source, codec)
      == Uploads(a + b[..|b| - 1], target, source, codec) + UploadFor(b[|b| - 1], target, source, codec)
  {
    var ab, init := a + b, a + b[..|b| - 1];
    assert ab[..|ab| - 1] == init;
    UploadsLast(ab, init, b[|b| - 1], target, source, codec);
  }

  /** Uploads of a non-empty list, split at its last resolution. */
  lemma UploadsLast(rs: seq<Resolution>, init: seq<Resolution>, last: Resolution,
                    target: PathFor, source: seq<byte>, codec: Codec)
    requires |rs| > 0 && rs[..|rs| - 1] == init && rs[|rs| - 1] == last
    ensures Uploads(rs, target, source, codec) == Uploads(init, target, source, codec) + UploadFor(last, target, source, codec)
  {
  }

  /** Appending one resolution to the list appends only that resolution's upload, if any. */
  lemma UploadsSnoc(resolutions: seq<Resolution>, r: Resolution, target: PathFor, source: seq<byte>, codec: Codec)
    ensures Uploads(resolutions + [r], target, source, codec)
      == Uploads(resolutions, target, source, codec) + UploadFor(r, target, source, codec)
  {
    UploadsAppendLast(resolutions, [r], target, source, codec);
    assert resolutions + [r][..0] == resolutions;
  }

  /** An upload is made exactly when some resolution's image is not empty, and it is that image at that resolution's path. */
  lemma {:induction false} UploadsMembers(resolutions: seq<Resolution>, target: PathFor,
                                          source: seq<byte>, codec: Codec, u: Upload)
    ensures u in Uploads(resolutions, target, source, codec)
      <==> exists i :: 0 <= i < |resolutions| && MadeFor(u, resolutions[i], target, source, codec)
  {
    if |resolutions| > 0 {
      var init, last := resolutions[..|resolutions| - 1], resolutions[|resolutions| - 1];
      UploadsMembers(init, target, source, codec, u);
      if u in Uploads(resolutions, target, source, codec) {
        if u in Uploads(init, target, source, codec) {
          var i :| 0 <= i < |init| && MadeFor(u, init[i], target, source, codec);
          assert resolutions[i] == init[i];
        } else {
          assert MadeFor(u, resolutions[|resolutions| - 1], target, source, codec);
        }
      }
      if exists i :: 0 <= i < |resolutions| && MadeFor(u, resolutions[i], target, source, codec) {
        var i :| 0 <= i < |resolutions| && MadeFor(u, resolutions[i], target, source, codec);
        if i < |init| {
          assert init[i] == resolutions[i];
        }
      }
    }
  }

  /** At most one upload per resolution. */
  lemma {:induction false} UploadsAtMostOnePerResolution(resolutions: seq<Resolution>, target: PathFor, source: seq<byte>, codec: Codec)
    ensures |Uploads(resolutions, target, source, codec)| <= |resolutions|
  {
    if |resolutions| > 0 {
      UploadsAtMostOnePerResolution(resolutions[..|resolutions| - 1], target, source, codec);
    }
  }

  /** When every resize gives bytes, there is one upload per resolution, in list order. */
  lemma {:induction false} AllResizedAllUploaded(resolutions: seq<Resolution>, target: PathFor, source: seq<byte>, codec: Codec)
    requires forall i :: 0 <= i < |resolutions| ==>
      |ResizedBytes(codec, source, resolutions[i].width, resolutions[i].height)| != 0
    ensures var ups := Uploads(resolutions, target, source, codec);
      && |ups| == |resolutions|
      && forall i :: 0 <= i < |resolutions| ==> MadeFor(ups[i], resolutions[i], target, source, codec)
  {
    if |resolutions| > 0 {
      var init := resolutions[..|resolutions| - 1];
      AllResizedAllUploaded(init, target, source, codec);
      var ups := Uploads(resolutions, target, source, codec);
      forall i | 0 <= i < |resolutions|
        ensures MadeFor(ups[i], resolutions[i], target, source, codec)
      {
        if i < |init| {
          assert resolutions[i] == init[i];
        }
      }
    }
  }

  /** When every resize throws, nothing is uploaded. */
  lemma NoneResizedNoneUploaded(resolutions: seq<Resolution>, target: PathFor, source: seq<byte>, codec: Codec)
    requires forall i :: 0 <= i < |resolutions| ==>
      codec(source, resolutions[i].width, resolutions[i].height).Threw?
    ensures Uploads(resolutions, target, source, codec) == []
  {
    var ups := Uploads(resolutions, target, source, codec);
    if |ups| > 0 {
      UploadsMembers(resolutions, target, source, codec, ups[0]);
      assert false;
    }
  }

  /**
   * A list without repeated resolutions is uploaded to pairwise different
   * paths: no resized image overwrites another.
   */
  lemma {:induction false} DistinctResolutionsDistinctPaths(resolutions: seq<Resolution>, subfolder: string, stem: string,
                                                          extension: string, source: seq<byte>, codec: Codec)
    requires forall i, j :: 0 <= i < j < |resolutions| ==> resolutions[i] != resolutions[j]
    ensures var ups := Uploads(resolutions, TargetPath(subfolder, stem, extension), source, codec);
      forall i, j :: 0 <= i < j < |ups| ==> ups[i].path != ups[j].path
  {
    var target := TargetPath(subfolder, stem, extension);
    if |resolutions| > 0 {
      var init, last := resolutions[..|resolutions| - 1], resolutions[|resolutions| - 1];
      DistinctResolutionsDistinctPaths(init, subfolder, stem, extension, source, codec);
      var before := Uploads(init, target, source, codec);
      var ups := Uploads(resolutions, target, source, codec);
      if |ups| > |before| {
        var lastPath := DestinationPath(subfolder, stem, last.width, last.height, extension);
        assert ups == before + [Upload(lastPath, ResizedBytes(codec, source, last.width, last.height))];
        forall i | 0 <= i < |before| ensures before[i].path != lastPath {
          UploadsMembers(init, target, source, codec, before[i]);
          var k :| 0 <= k < |init| && MadeFor(before[i], init[k], target, source, codec);
          assert init[k] == resolutions[k];
          if before[i].path == lastPath {
            PathInjective(subfolder, stem, extension, init[k].width, init[k].height, last.width, last.height);
            assert false;
          }
        }
      }
    }
  }

  /**
   * No uploaded image has a GUID stem, so none of them would be resized
   * again; the extension `GetExtension` returns never holds a separator.
   */
  lemma UploadsNotReprocessed(resolutions: seq<Resolution>, subfolder: string, name: string,
                              source: seq<byte>, codec: Codec)
    requires IsGuid(GetFileNameWithoutExtension(name))
    ensures var stem, extension := GetFileNameWithoutExtension(name), GetExtension(name);
      forall u :: u in Uploads(resolutions, TargetPath(subfolder, stem, extension), source, codec) ==>
        !IsGuid(GetFileNameWithoutExtension(u.path))
  {
    var stem, extension := GetFileNameWithoutExtension(name), GetExtension(name);
    var target := TargetPath(subfolder, stem, extension);
    ExtensionShape(name);
    forall u | u in Uploads(resolutions, target, source, codec)
      ensures !IsGuid(GetFileNameWithoutExtension(u.path))
    {
      UploadsMembers(resolutions, target, source, codec, u);
      var i :| 0 <= i < |resolutions| && MadeFor(u, resolutions[i], target, source, codec);
      DerivedNameNotReprocessed(subfolder, stem, resolutions[i].width, resolutions[i].height, extension);
    }
  }
}
