# ImageResizeTrigger, modelled in Dafny

`ImageResizeTrigger` is an Azure Function. A blob is uploaded as
`images/{subfolder}/original-{name}`. If the stem of `name` is a GUID, the
function resizes the image to every pair in a process-wide resolution list,
in list order. It writes each non-empty result to
`images/{subfolder}/{stem}.{width}-{height}.{extension}`. The list starts as
`[(512, 384)]`. `TryGetResolutionsFromConfig` rebuilds it from the
`ResizeResolutions` environment variable (`W,H;W,H;...`).

The project models these parts:

- **The trigger instance.** `ImageResize.ImageResizeTrigger` is a class.
  - `resolutionList` stands for the static `ResolutionList`. In the code that
    list is shared by every instance; the model gives each object its own copy
    (see "## Left out").
  - `uploads` logs every blob written through the output binding.
  - `resizeCalls` is a ghost log of every call into the image library, with
    the stream position at that moment.
  - `TryGetResolutionsFromConfig` is its loop, with invariants. It is proved
    against the specification function `ResolutionConfig.ListAfter`, and the
    loop's throw against `ConfigThrows`.
  - `RunAsync`, `ResizeAll` and `ResizeOne` are the fan-out loop. They are
    proved against `Uploads` and `ResizeCalls`.
- **The input stream.** `ImageResize.Blob` holds the blob's bytes and a
  mutable `position`. `RunAsync` rewinds the stream before each resize, and
  the image library reads it to the end.
- **The image library.** `Codec` is an arbitrary function from (bytes,
  width, height) to encoded bytes or an exception. `GetResizedImage` turns
  an exception into an empty array.
- **Configuration parsing.** `ResolutionConfig` describes, entry by entry,
  what the loop does:
  - `Accepted`: both parts parse;
  - `Dropped`: one part does not parse;
  - `MissingHeight`: no comma, so reading `splittedResolution[1]` throws.

  `Run` folds these outcomes the way the loop does. `RunCharacterised` and
  the lemmas beside it state the result in its own terms.
- **Library functions.** `Text` models `String.Split(char)` and
  `IndexOf`/`LastIndexOf`. `Int32Text` models `Int32.TryParse` and
  `Int32.ToString()` in the invariant culture. `BlobNames` models
  `Path.GetExtension`, `Path.GetFileNameWithoutExtension`, the
  `Guid.TryParse` test and the destination path.
- **A worked example.** `Scenario` follows one upload,
  `3fa85f64-5717-4562-b3fc-2c963f66afa6.jpg` in `events`, through the model.

Where the code and the system's documented behaviour disagree, the model
follows the code:

- **Double dot in the path.** `Path.GetExtension` keeps its leading dot, and
  the path template adds another. A `.jpg` source is written to
  `{stem}.512-384..jpg`, not `{stem}.512-384.jpg` (`Scenario.ExamplePath`).
- **Any 32-bit size is accepted.** This includes zero and negatives
  (`ResolutionConfig.ZeroAndNegativeAccepted`); there is no positivity check.
- **An entry without a comma throws.** `IndexOutOfRangeException` is raised
  after the list was cleared and partly refilled
  (`ResolutionConfig.ThrowingConfigKeepsEarlierPairs`). A trailing `;` is
  such an entry (`ResolutionConfig.TrailingSemicolonThrows`). Such entries
  are not skipped. The call runs in the instance constructor (line 27), so
  with such an entry every construction throws and `RunAsync` never runs: no
  invocation ever uses the partly refilled list.
- **An empty list gets no notice of its own.** The loop runs zero times, and
  the only entry logged is the one line 58 writes for every invocation.
- **Upload failures are not caught.**

## Model

Every source cell refers to
`IndexCatalog.ImageResize/IndexCatalog.ImageResize/ImageResizeTrigger.cs`.

| member | source | states |
|---|---|---|
| ImageResize.ImageResizeTrigger.constructor | IndexCatalog.ImageResize/IndexCatalog.ImageResize/ImageResizeTrigger.cs:19-22 | the list starts as the single pair (512, 384); nothing has been uploaded or resized yet |
| ImageResize.ImageResizeTrigger.TryGetResolutionsFromConfig | IndexCatalog.ImageResize/IndexCatalog.ImageResize/ImageResizeTrigger.cs:30-49 | the new list is `ListAfter(old list, setting)`; the call fails exactly when `ConfigThrows(setting)` |
| ResolutionConfig.ParseEntry | IndexCatalog.ImageResize/IndexCatalog.ImageResize/ImageResizeTrigger.cs:39-47 | one entry split at `,`: `MissingHeight` when it has fewer than two parts (reading `[1]` throws), `Accepted` with both values when parts 0 and 1 both parse, `Dropped` otherwise; facts in `MissingHeightIffNoComma`, `ParseEntryOfParts`, `ExtraPartsIgnored` |
| ResolutionConfig.IsNullOrEmpty | IndexCatalog.ImageResize/IndexCatalog.ImageResize/ImageResizeTrigger.cs:33 | `string.IsNullOrEmpty` on the setting: unset (`None`) or the empty string; see `AbsentConfigKeepsList`, `ConfigReplacesList` |
| ResolutionConfig.Run | IndexCatalog.ImageResize/IndexCatalog.ImageResize/ImageResizeTrigger.cs:37-48 | the `foreach` over the entries' outcomes: an accepted pair is appended, a dropped entry changes nothing, and the first entry without a comma stops the loop with the list as it stands and marks the throw; see `RunStep`, `FailureIsFinal`, `RunCharacterised` |
| ResolutionConfig.ListAfter | IndexCatalog.ImageResize/IndexCatalog.ImageResize/ImageResizeTrigger.cs:30-49 | the list after the call: the old list for a missing or empty setting, otherwise the pairs the loop adds after `Clear`, up to any throw; characterised by `RunCharacterised`, `WellFormedConfig`, `ThrowingConfigKeepsEarlierPairs` |
| ResolutionConfig.ConfigThrows | IndexCatalog.ImageResize/IndexCatalog.ImageResize/ImageResizeTrigger.cs:30-49 | the call throws exactly when the setting is present and some `;`-entry has no comma; see `ThrowsIffEntryWithoutComma` |
| ResolutionConfig.AbsentConfigKeepsList | IndexCatalog.ImageResize/IndexCatalog.ImageResize/ImageResizeTrigger.cs:32-33 | a missing or empty setting leaves the list unchanged and does not throw |
| ResolutionConfig.ConfigReplacesList | IndexCatalog.ImageResize/IndexCatalog.ImageResize/ImageResizeTrigger.cs:35-36 | with a present setting the new list does not depend on the old one (it is cleared first) |
| ResolutionConfig.ReadTwiceSameAsOnce | IndexCatalog.ImageResize/IndexCatalog.ImageResize/ImageResizeTrigger.cs:24-28 | reading the same setting again, as every new instance does, gives the same list as reading it once |
| ResolutionConfig.WellFormedConfig | IndexCatalog.ImageResize/IndexCatalog.ImageResize/ImageResizeTrigger.cs:35-48 | when every entry has a comma, the list is exactly the accepted pairs in entry order, and the call does not throw |
| ResolutionConfig.AllMalformedEmptiesList | IndexCatalog.ImageResize/IndexCatalog.ImageResize/ImageResizeTrigger.cs:35-47 | a present setting with no parseable pair leaves an empty list, not the default, without throwing |
| ResolutionConfig.ThrowingConfigKeepsEarlierPairs | IndexCatalog.ImageResize/IndexCatalog.ImageResize/ImageResizeTrigger.cs:35-42 | if entry k is the first without a comma, the call throws, and the list holds the accepted pairs of entries 0..k-1 |
| ResolutionConfig.TrailingSemicolonThrows | IndexCatalog.ImageResize/IndexCatalog.ImageResize/ImageResizeTrigger.cs:36-42 | a setting ending in `;` throws, because its empty last entry has no comma |
| ResolutionConfig.ThrowsIffEntryWithoutComma | IndexCatalog.ImageResize/IndexCatalog.ImageResize/ImageResizeTrigger.cs:37-42 | the loop fails if and only if some entry has no comma |
| ResolutionConfig.RunCharacterised | IndexCatalog.ImageResize/IndexCatalog.ImageResize/ImageResizeTrigger.cs:37-48 | the loop's list is the accepted pairs of the entries before the first failing entry; it fails if and only if such an entry exists |
| ResolutionConfig.FailureIsFinal | IndexCatalog.ImageResize/IndexCatalog.ImageResize/ImageResizeTrigger.cs:42 | once an entry has thrown, later entries change nothing |
| ResolutionConfig.RunStep | IndexCatalog.ImageResize/IndexCatalog.ImageResize/ImageResizeTrigger.cs:39-47 | one more entry appends its pair, changes nothing, or stops the loop, as its outcome says |
| ResolutionConfig.MissingHeightIffNoComma | IndexCatalog.ImageResize/IndexCatalog.ImageResize/ImageResizeTrigger.cs:39-42 | an entry makes `splittedResolution[1]` throw if and only if it holds no comma |
| ResolutionConfig.ParseEntryOfParts | IndexCatalog.ImageResize/IndexCatalog.ImageResize/ImageResizeTrigger.cs:39-47 | an entry with two or more parts is accepted if and only if both of its first two parts parse, and its pair is their values |
| ResolutionConfig.ParseEntryPair | IndexCatalog.ImageResize/IndexCatalog.ImageResize/ImageResizeTrigger.cs:39-47 | `w,h` is accepted as (w, h) when both parse, and dropped otherwise |
| ResolutionConfig.ExtraPartsIgnored | IndexCatalog.ImageResize/IndexCatalog.ImageResize/ImageResizeTrigger.cs:39-42 | parts after the second do not change an entry's outcome |
| ResolutionConfig.FormattedEntryAccepted | IndexCatalog.ImageResize/IndexCatalog.ImageResize/ImageResizeTrigger.cs:41-46 | any pair written as decimal `w,h` is read back as exactly (w, h) |
| ResolutionConfig.ZeroAndNegativeAccepted | IndexCatalog.ImageResize/IndexCatalog.ImageResize/ImageResizeTrigger.cs:41-46 | `0,-5` is accepted as (0, -5): there is no positivity check |
| ResolutionConfig.MalformedEntriesDropped | IndexCatalog.ImageResize/IndexCatalog.ImageResize/ImageResizeTrigger.cs:35-48 | `abc,384;512,xyz;800,600` leaves exactly [(800, 600)], whatever the list held before, without throwing |
| ResolutionConfig.TwoDroppedThenAccepted | IndexCatalog.ImageResize/IndexCatalog.ImageResize/ImageResizeTrigger.cs:37-48 | two dropped entries followed by an accepted one leave only the last pair |
| Int32Text.ParseInt32 | IndexCatalog.ImageResize/IndexCatalog.ImageResize/ImageResizeTrigger.cs:41-42 | `Int32.TryParse` in the invariant culture: surrounding white space, an optional sign, ASCII digits, the 32-bit range, `None` on failure; facts in `ParseUnsigned`, `ParseNegative`, `ParseFormatRoundTrip` |
| Int32Text.Int32ToString | IndexCatalog.ImageResize/IndexCatalog.ImageResize/ImageResizeTrigger.cs:77 | decimal text of an int as string interpolation writes it: a `-` for negatives, then the digits with no leading zero; no leading zero by `NatToStringShape`; shape in `Int32ToStringShape`, digit values in `DigitsOfNat` |
| Int32Text.ParseFormatRoundTrip | IndexCatalog.ImageResize/IndexCatalog.ImageResize/ImageResizeTrigger.cs:41-42 | `TryParse` reads back what `ToString` writes, also with white space around it |
| Int32Text.ParseRejectsOverflow | IndexCatalog.ImageResize/IndexCatalog.ImageResize/ImageResizeTrigger.cs:41-42 | the shortest decimal text of a value outside the 32-bit range is rejected, with or without a leading `-` (digit strings with leading zeros are covered by `ParseUnsigned` and `ParseNegative`) |
| Int32Text.ParseAcceptsSignsAndWhite | IndexCatalog.ImageResize/IndexCatalog.ImageResize/ImageResizeTrigger.cs:41-42 | `0`, `-5` and ` +512 ` parse as 0, -5 and 512 |
| Int32Text.ParseRejectsMalformed | IndexCatalog.ImageResize/IndexCatalog.ImageResize/ImageResizeTrigger.cs:41-42 | the empty string, `- 5` and `abc` do not parse |
| Int32Text.ParseUnsigned | IndexCatalog.ImageResize/IndexCatalog.ImageResize/ImageResizeTrigger.cs:41-42 | unsigned digits parse as their value exactly when it is at most 2^31-1 |
| Int32Text.ParseNegative | IndexCatalog.ImageResize/IndexCatalog.ImageResize/ImageResizeTrigger.cs:41-42 | digits after `-` parse as the negated value exactly when it is at least -2^31 |
| Int32Text.DigitsOfNat | IndexCatalog.ImageResize/IndexCatalog.ImageResize/ImageResizeTrigger.cs:77 | the decimal text of a number is all digits and has that number as its value |
| Int32Text.NatToStringShape | IndexCatalog.ImageResize/IndexCatalog.ImageResize/ImageResizeTrigger.cs:77 | the decimal text of every nat is at least one digit, all digits, with no leading zero unless it is `0` itself |
| Int32Text.Int32ToStringShape | IndexCatalog.ImageResize/IndexCatalog.ImageResize/ImageResizeTrigger.cs:77 | a formatted `int` is an optional `-` followed by digits only |
| Text.Split | IndexCatalog.ImageResize/IndexCatalog.ImageResize/ImageResizeTrigger.cs:36-39 | `String.Split(char)`: the pieces between separators, empty ones kept, at least one piece; facts in `SplitPieces`, `SplitJoin`, `SplitSingle` |
| Text.SplitPieces | IndexCatalog.ImageResize/IndexCatalog.ImageResize/ImageResizeTrigger.cs:36-39 | `Split` returns at least one piece; no piece holds the separator; joining the pieces gives back the input |
| Text.SplitJoin | IndexCatalog.ImageResize/IndexCatalog.ImageResize/ImageResizeTrigger.cs:36-39 | splitting undoes joining separator-free pieces |
| Text.SplitSingle | IndexCatalog.ImageResize/IndexCatalog.ImageResize/ImageResizeTrigger.cs:39-42 | a string splits into a single piece exactly when it holds no separator |
| Text.SplitTrailingSeparator | IndexCatalog.ImageResize/IndexCatalog.ImageResize/ImageResizeTrigger.cs:36 | a trailing separator adds an empty last piece (empty pieces are kept) |
| BlobNames.GetExtension | IndexCatalog.ImageResize/IndexCatalog.ImageResize/ImageResizeTrigger.cs:60 | `Path.GetExtension`: from the last `.` of the file name on, or empty when there is none or it ends the name; see `ExtensionShape`, `FileNameParts` |
| BlobNames.GetFileNameWithoutExtension | IndexCatalog.ImageResize/IndexCatalog.ImageResize/ImageResizeTrigger.cs:61 | `Path.GetFileNameWithoutExtension`: the file name after the last `/`, cut at its last `.`; see `FileNameParts` |
| BlobNames.IsGuid | IndexCatalog.ImageResize/IndexCatalog.ImageResize/ImageResizeTrigger.cs:64 | `Guid.TryParse` success for the "D", "N", "B" and "P" forms; see `GuidHasNoDot` |
| BlobNames.DestinationPath | IndexCatalog.ImageResize/IndexCatalog.ImageResize/ImageResizeTrigger.cs:77 | `images/{subfolder}/{stem}.{width}-{height}.{extension}`, the sizes in decimal; see `PathInjective`, `DerivedNameNotReprocessed` |
| BlobNames.FileNameParts | IndexCatalog.ImageResize/IndexCatalog.ImageResize/ImageResizeTrigger.cs:60-61 | stem followed by extension is the file name again; a name ending in a bare `.` loses that dot |
| BlobNames.ExtensionShape | IndexCatalog.ImageResize/IndexCatalog.ImageResize/ImageResizeTrigger.cs:60 | an extension is empty, or one `.` followed by characters that are neither dots nor separators |
| BlobNames.GuidHasNoDot | IndexCatalog.ImageResize/IndexCatalog.ImageResize/ImageResizeTrigger.cs:64 | a stem that passes the GUID test holds no `.` and no `/` |
| BlobNames.SizePartInjective | IndexCatalog.ImageResize/IndexCatalog.ImageResize/ImageResizeTrigger.cs:77 | the `{width}-{height}` text determines both numbers |
| BlobNames.PathInjective | IndexCatalog.ImageResize/IndexCatalog.ImageResize/ImageResizeTrigger.cs:77 | two sizes of one source get the same path only when they are the same size |
| BlobNames.DerivedNameNotReprocessed | IndexCatalog.ImageResize/IndexCatalog.ImageResize/ImageResizeTrigger.cs:77 | the stem of a written path is never a GUID, so a written image would not be resized again |
| ImageResize.Blob.constructor | IndexCatalog.ImageResize/IndexCatalog.ImageResize/ImageResizeTrigger.cs:53 | a new stream holds the blob's bytes at position 0 |
| ImageResize.ImageResizeTrigger.GetResizedImage | IndexCatalog.ImageResize/IndexCatalog.ImageResize/ImageResizeTrigger.cs:87-106 | the library reads from the current position; the result is the encoded bytes, or empty when it throws; the stream is left at its end and the call is logged |
| ImageResize.ImageResizeTrigger.RunAsync | IndexCatalog.ImageResize/IndexCatalog.ImageResize/ImageResizeTrigger.cs:60-84 | a non-GUID stem changes nothing; otherwise one resize per listed pair, in order, each from position 0, and the uploads are exactly `Uploads` of the list |
| ImageResize.ImageResizeTrigger.ResizeAll | IndexCatalog.ImageResize/IndexCatalog.ImageResize/ImageResizeTrigger.cs:66-83 | the loop appends `ResizeCalls(list)` to the call log and `Uploads(list, …)` to the upload log |
| ImageResize.ImageResizeTrigger.ResizeOne | IndexCatalog.ImageResize/IndexCatalog.ImageResize/ImageResizeTrigger.cs:68-82 | one pass: the stream is rewound, one call is logged at position 0, and the upload is made only if the image is non-empty |
| ResolutionConfig.ThrowsAt | IndexCatalog.ImageResize/IndexCatalog.ImageResize/ImageResizeTrigger.cs:39-42 | at the first entry without a comma, the whole parse fails with the list as it stood |
| ImageResize.ResizedBytes | IndexCatalog.ImageResize/IndexCatalog.ImageResize/ImageResizeTrigger.cs:87-106 | `GetResizedImage`'s value: the library's bytes, or empty when it threw; an empty result is exactly a throw or an empty encoding, and a non-empty one is what the library encoded |
| ImageResize.UploadFor | IndexCatalog.ImageResize/IndexCatalog.ImageResize/ImageResizeTrigger.cs:70-82 | one pass of the loop body: nothing for an empty image, otherwise one upload of the image to that size's path; see `UploadForEmpty` |
| ImageResize.ResizeCalls | IndexCatalog.ImageResize/IndexCatalog.ImageResize/ImageResizeTrigger.cs:66-70 | the library calls the loop makes: exactly one per listed pair, in list order, each with the stream rewound to position 0; see `FanOutStep` |
| ImageResize.Uploads | IndexCatalog.ImageResize/IndexCatalog.ImageResize/ImageResizeTrigger.cs:66-83 | the uploads of the whole loop, in list order; see `UploadsMembers`, `UploadsAppend`, `UploadsAtMostOnePerResolution` |
| ImageResize.FanOutStep | IndexCatalog.ImageResize/IndexCatalog.ImageResize/ImageResizeTrigger.cs:66-83 | one more pair adds one call at position 0 and that pair's upload, if any |
| ImageResize.UploadsMembers | IndexCatalog.ImageResize/IndexCatalog.ImageResize/ImageResizeTrigger.cs:70-82 | an upload is made if and only if some pair's image is non-empty; it is that image at that pair's path |
| ImageResize.UploadsAppend | IndexCatalog.ImageResize/IndexCatalog.ImageResize/ImageResizeTrigger.cs:66-83 | the uploads for a concatenated list are the uploads for each part, in order |
| ImageResize.UploadForEmpty | IndexCatalog.ImageResize/IndexCatalog.ImageResize/ImageResizeTrigger.cs:70-72 | a resolution is skipped exactly when the library threw or encoded to nothing, since `GetResizedImage` (lines 100-105) turns a throw into an empty array; otherwise its upload is the library's bytes at its path |
| ImageResize.UploadsSnoc | IndexCatalog.ImageResize/IndexCatalog.ImageResize/ImageResizeTrigger.cs:66-83 | appending one pair appends only that pair's upload, if any |
| ImageResize.UploadsAtMostOnePerResolution | IndexCatalog.ImageResize/IndexCatalog.ImageResize/ImageResizeTrigger.cs:72 | there are never more uploads than listed pairs |
| ImageResize.AllResizedAllUploaded | IndexCatalog.ImageResize/IndexCatalog.ImageResize/ImageResizeTrigger.cs:70-82 | when every resize gives bytes, upload i is pair i's image at pair i's path |
| ImageResize.NoneResizedNoneUploaded | IndexCatalog.ImageResize/IndexCatalog.ImageResize/ImageResizeTrigger.cs:72 | when every resize throws, nothing is uploaded |
| ImageResize.DistinctResolutionsDistinctPaths | IndexCatalog.ImageResize/IndexCatalog.ImageResize/ImageResizeTrigger.cs:77 | a list without repeated pairs writes to pairwise different paths |
| ImageResize.UploadsNotReprocessed | IndexCatalog.ImageResize/IndexCatalog.ImageResize/ImageResizeTrigger.cs:60-77 | no written path has a GUID stem |
| Scenario.ExampleStemIsGuid | IndexCatalog.ImageResize/IndexCatalog.ImageResize/ImageResizeTrigger.cs:64 | `3fa85f64-5717-4562-b3fc-2c963f66afa6` passes the GUID test |
| Scenario.ExampleNameParts | IndexCatalog.ImageResize/IndexCatalog.ImageResize/ImageResizeTrigger.cs:60-61 | `{guid}.jpg` has the stem `{guid}` and the extension `.jpg` |
| Scenario.ExampleNotGuid | IndexCatalog.ImageResize/IndexCatalog.ImageResize/ImageResizeTrigger.cs:61-64 | `photo.jpg` has the stem `photo`, which fails the GUID test |
| Scenario.ExamplePath | IndexCatalog.ImageResize/IndexCatalog.ImageResize/ImageResizeTrigger.cs:77 | (512, 384) for `{guid}` with `.jpg` in `events` is written to `images/events/{guid}.512-384..jpg` |
| Scenario.ExampleUploads | IndexCatalog.ImageResize/IndexCatalog.ImageResize/ImageResizeTrigger.cs:66-83 | with the default list and a library that encodes, exactly one image is written, to that path |
| Scenario.ExampleRun | IndexCatalog.ImageResize/IndexCatalog.ImageResize/ImageResizeTrigger.cs:24-83 | a new trigger with no setting, given `{guid}.jpg`, makes exactly that one upload |

## Left out

- Logging through `ILogger` (lines 26, 58 and 102) is left out; it changes no state the model observes.
- ImageMagick is not modelled. `Codec` is any function, so decoding, `IgnoreAspectRatio = false` and encoding are not described, and no property depends on them.
- The async binder and stream copy (lines 80-82) become one entry in `uploads`. Binding or upload failures are not modelled; the code does not catch them.
- The blob-trigger path pattern (line 53) is not modelled. `name` and `subfolder` are inputs as the host passes them.
- `ImageResize.ImageResizeTrigger.constructor`: models only the static initialiser (lines 19-22). The instance constructor's call to `TryGetResolutionsFromConfig` (line 27) is a separate method call, as in `Scenario.ExampleRun`. `ReadTwiceSameAsOnce` covers repeated calls.
- `TryGetResolutionsFromConfig` receives the environment variable's value as a parameter (`None` when unset). The exception becomes a `Fail` result.
- `Int32Text.ParseInt32`: models `Int32.TryParse` in the invariant culture with ASCII digits only. It does not model culture-specific signs or trailing NUL characters.
- `BlobNames.IsGuid`: accepts the "D", "N", "B" and "P" forms. It does not model the "X" form or the white space `Guid.TryParse` trims. Nor does it model the `+` and `0x`/`0X` prefixes that `Guid.TryParse` tolerates at the same total width: inside a component of the "D" form (such as `0x123456-1234-1234-1234-123456789abc`) and inside an 8-character chunk of the "N" form (such as `+` followed by 31 hex digits). `IsGuid` rejects these strings.
- `BlobNames.GetFileName`: treats only `/` as a directory separator, not `\` or a volume separator.
- `ImageResize.ImageResizeTrigger.GetResizedImage`: treats the stream position after a read as the end of the data. What ImageMagick actually reads is not modelled. Every call, the first one too, is made at position 0 after the rewind at line 68, so no resize depends on this; what does is the final `blob.position == |blob.data|` in the contracts of `RunAsync`, `ResizeAll` and `ResizeOne`.
- Concurrency on the shared list is not modelled. `ResolutionList` is one `private static` list (line 19) shared by every instance. Each instance constructor (line 27) clears and refills it when the setting is present (lines 35 and 46). Another invocation's `foreach` (line 66) may be part-way through the same list, across the awaits at lines 80-82. Such a construction can make that loop's enumerator throw `InvalidOperationException`, or let it run on a cleared or partial list. The model gives each `ImageResizeTrigger` its own `resolutionList` field and runs one call at a time, so these interleavings cannot arise in it.
- Startup.cs (dependency injection and the `BlobServiceClient`) is not part of this model.
