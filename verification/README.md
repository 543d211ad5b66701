# CAFF webshop core in Dafny

A model of the byte- and string-level core of a small CAFF image webshop. It has four parts:

- **CIFF decoder** (`Ciff`). This is `ciff.cifftopng` up to the hand-off to the PNG encoder.
  - It reads a 36-byte header: a magic and four 8-byte fields, of which only the low four bytes are read, as a little-endian `int32`.
  - It slices the content `[headerSize, headerSize + contentSize)`.
  - It rebuilds a row-major raster whose pixels take their RGB triplets from the running content index, with alpha 255.
  - The exceptions the C# can raise before the encoder is reached form an error datatype, in the order they can occur.
- **CAFF to CIFF extractor** (`CaffToCiff`). This is `generateCiff` of the native transcoder, without its file streams.
  - A 9-byte block preamble is consumed unchecked.
  - A 20-byte header follows, whose magic must be "CAFF".
  - Then comes a loop over 9-byte block headers: type-0x2 blocks are skipped, and the first type-0x3 block has its payload written out after an 8-byte skip. Any other type, or the end of the input, stops the loop.
- **Upload gate** (`UploadGate`). This is the decision logic of `VerifyAndUploadCaffFileAsync` in the file controller:
  - an extension allow-list;
  - the magic bytes at offset 9;
  - a size range;
  - the two stored paths built from one random name;
  - the paths `DeleteConfirmed` removes, including the "CAFF" to "CIFF" rewriting;
  - `GetContentType`.
- **Login validator** (`Login`). The `Required` and `RegularExpression("^[A-Za-z0-9_-]{5,40}$")` attributes of the login view model, evaluated the way the framework and its regular-expression engine evaluate them.

`Bytes` holds the fixed-width little-endian integers. `Results` holds `Option` and `Result`.

Three facts about the file controller's code shape the gate model:

- **The upload checks do not short-circuit.** For a ".caff" name both remaining checks run after the extension check. The failure left for the view is the last one that failed: size beats signature, and signature beats extension.
- **A non-".caff" extension throws.** The signature dictionary is indexed with that extension at line 135 and has no entry for it. The gate raises `KeyNotFoundException` before the size check, and returns no list.
- **The CIFF path is only derived at deletion time.** It is the stored CAFF path with "CAFF" replaced by "CIFF". It therefore lies in `\Uploads\CIFF\` and keeps the ".caff" extension.

The extractor's type-0x2 skip is modelled twice:
- `Scan` and `Extract` skip forward by the unsigned block size.
- `ScanAsWritten` and `ExtractAsWritten` pass the size to `seekg` as the signed offset it becomes.

The two agree while every type-0x2 size the loop meets is below 2^63 (`AsWrittenAgrees`). The properties stated about `Scan` and `Extract` hold of the program as written only within that range (see "## Findings").

## Model

| member | source | states |
|---|---|---|
| Bytes.Int32RoundTrip | Ciff/Class1.cs:48 | the little-endian `int32` read of the four bytes a writer produces for any 32-bit value is that value |
| Bytes.Int32BytesRoundTrip | Ciff/Class1.cs:48 | any four bytes are the writer's bytes of the value `BitConverter.ToInt32` reads from them |
| Bytes.ToInt32 | Ciff/Class1.cs:48 | the value read is a 32-bit signed integer, and it is negative exactly when the top bit of the fourth byte is set |
| Bytes.UInt64RoundTrip | src/CaffToCiff.cpp:24 | the packed `uint64_t` read of the eight bytes written for a size below 2^64 is that size |
| Bytes.UInt64BytesRoundTrip | src/CaffToCiff.cpp:24 | any eight bytes are the writer's bytes of the `uint64_t` read from them |
| Ciff.Decode | Ciff/Class1.cs:42-89 | decoding succeeds exactly when the buffer has 36 bytes, a non-negative content size and header size, a content range inside the buffer, and 3·width·height content bytes; each failure is the exception the first failing step raises, exactly when that step fails: the truncated-header error when the buffer is under 36 bytes (lines 43-59), the negative-size error when the content size is negative (line 62), the out-of-range error when the header size is negative or the content runs past the buffer (line 63), and the index error when fewer than 3·width·height content bytes remain (lines 83-85); on success the raster has the header's width and height and width·height pixels (none when either is not positive), all with alpha 255, and pixel (x, y) is the triplet at headerSize + 3·(y·width + x) |
| Ciff.RasterFromContent | Ciff/Class1.cs:75-89 | the pixels rebuilt from the content slice take pixel (x, y) from the triplet at base + 3·(y·width + x) of the whole buffer |
| Ciff.RowMajorInRange | Ciff/Class1.cs:78-87 | every (x, y) the nested loops visit is a row-major position below width·height |
| Ciff.ReadTriplet | Ciff/Class1.cs:83-86 | three post-incremented reads give one opaque pixel when three bytes remain; otherwise the read past the end raises the index error |
| Ciff.RebuildRow | Ciff/Class1.cs:80-88 | the inner loop over one row succeeds exactly when the content holds the row's triplets, and then extends the pixels and the running index by exactly that row |
| Ciff.RebuildPixels | Ciff/Class1.cs:75-89 | the nested y-outer, x-inner loop succeeds exactly when 3·width·height content bytes exist; then it yields the pixels of the first width·height triplets and leaves the index at 3·width·height; otherwise it raises the index error |
| Ciff.Cifftopng | Ciff/Class1.cs:42-89 | the imperative decoder, with its header reads, content copy and loops, computes exactly `Decode` |
| Ciff.DecodeEncode | Ciff/Class1.cs:42-89 | a buffer written with header size 36, content size 3·pixels and the raster's dimensions decodes back to that raster, for any magic |
| Ciff.DecodedReencodes | Ciff/Class1.cs:42-89 | every decoded raster is expressible by a CIFF writer, and re-encoding it yields a buffer that decodes to the same raster |
| Ciff.OnlyLowWordsMatter | Ciff/Class1.cs:42-63 | when the content starts after the header, two buffers that agree on the four low words and on everything after byte 36 decode alike, whatever their magic and high words hold |
| Ciff.ContentPastPixelsIgnored | Ciff/Class1.cs:62-89 | content bytes past the 3·width·height that the pixels use have no effect on the raster |
| Ciff.DecodeUsesPixelBytes | Ciff/Class1.cs:62-89 | a decodable buffer decodes to the pixels of the bytes `[headerSize, headerSize + 3·width·height)` alone |
| Ciff.RgbRoundTrip | Ciff/Class1.cs:83-86 | rebuilding pixels from the RGB triplets of opaque pixels gives those pixels back |
| CaffToCiff.MetaOfEncoded | src/CaffToCiff.cpp:22-25 | a packed 9-byte block header written for a block reads back as that block's type and body length |
| CaffToCiff.CopyAnimation | src/CaffToCiff.cpp:53-56 | the 0x3 case is undefined exactly when the size is below 8 or the copy runs past the end of the input; otherwise it writes exactly blockSize − 8 bytes, taken verbatim from 8 bytes past the block header |
| CaffToCiff.Scan | src/CaffToCiff.cpp:45-62 | with the unsigned skip, whatever the loop writes is a slice of the input starting at least 17 bytes past the block header it starts from; when it writes nothing, the end of the input or an invalid block type stopped it |
| CaffToCiff.Extract | src/CaffToCiff.cpp:39-62 | with the unsigned skip, output is written only when the stream has 29 bytes and bytes 9..12 are "CAFF", and it is a slice of the input at or after offset 29; a stream under 29 bytes fails the header read, and a wrong magic stops before any block |
| CaffToCiff.ScanReadsOnlyFrom | src/CaffToCiff.cpp:45-62 | with the unsigned skip, the block loop started at or after `start` reads nothing before `start` |
| CaffToCiff.HeaderFieldsIgnored | src/CaffToCiff.cpp:39-45 | with the unsigned skip, the preamble's type and size and the header's `h_size` and `count` never affect the output: only the magic and the bytes from offset 29 on do |
| CaffToCiff.ScanSkipStep | src/CaffToCiff.cpp:50-52 | with the unsigned skip, a type-0x2 block moves the scan forward by exactly 9 + blockSize bytes |
| CaffToCiff.ScanOverChain | src/CaffToCiff.cpp:45-52 | a run of type-0x2 blocks, each skipping to the next, is passed over without effect |
| CaffToCiff.EncodedChain | src/CaffToCiff.cpp:22-25 | written type-0x2 blocks, each declaring its body length, form such a run over exactly their bytes |
| CaffToCiff.ExtractEmitsFirstAnimation | src/CaffToCiff.cpp:45-56 | for a stream of any preamble and header fields, type-0x2 blocks, then a type-0x3 block, the output is that block's payload minus its first 8 bytes; whatever follows, further 0x3 blocks included, is ignored |
| CaffToCiff.ExtractStopsOnUnknownType | src/CaffToCiff.cpp:57-60 | a block of any type other than 0x2 or 0x3 after the type-0x2 blocks stops the loop, and nothing is written |
| CaffToCiff.ExtractWithoutAnimation | src/CaffToCiff.cpp:46 | a stream holding only type-0x2 blocks ends with a failed metadata read, and nothing is written |
| CaffToCiff.ExtractNeedsMagic | src/CaffToCiff.cpp:43 | a stream whose bytes 9..12 are not "CAFF" produces nothing, whatever its blocks hold |
| CaffToCiff.AsStreamOffset | src/CaffToCiff.cpp:51 | the `uint64_t` size passed to `seekg` becomes a signed 64-bit offset, equal to the size exactly when the size is below 2^63 |
| CaffToCiff.ScanAsWritten | src/CaffToCiff.cpp:45-62 | the loop as written, with signed skips: whatever it writes is a slice of the input at or after offset 17 (the header included); when it writes nothing, the end of the input or an invalid block type stopped it; it needs at least one iteration to stop |
| CaffToCiff.ExtractAsWritten | src/CaffToCiff.cpp:39-62 | `generateCiff` as written: output only with 29 bytes and the "CAFF" magic, and then a slice of the input at or after offset 17; a stream under 29 bytes fails the header read, and a wrong magic stops before any block |
| CaffToCiff.AsWrittenFuelMonotone | src/CaffToCiff.cpp:45-62 | once the loop as written has stopped, more iterations change nothing, so running out of iterations means it did not stop |
| CaffToCiff.BackwardSeekEmitsHeader | src/CaffToCiff.cpp:50-56 | as written, a type-0x2 size of 2^64 − 38 seeks back to offset 0, the preamble is read as a 0x3 block, and header bytes 17..20 are written out; the unsigned skip writes nothing for the same stream |
| CaffToCiff.AsWrittenAgrees | src/CaffToCiff.cpp:45-62 | with enough iterations, the loop as written (signed skips) computes `Scan` on every input whose type-0x2 sizes stay below 2^63 |
| CaffToCiff.SelfSeekNeverHalts | src/CaffToCiff.cpp:50-52 | as written, a type-0x2 block of size 2^64 − 9 seeks back onto its own header, and the loop never ends |
| CaffToCiff.SelfSeekHalts | src/CaffToCiff.cpp:50-52 | skipping forward by the unsigned size, the same stream stops at once with nothing written |
| UploadGate.GetExtension | Webshop/Controllers/CaffFileController.cs:123 | when the last path segment has a '.' that is not its final character, the extension is the suffix from the last such '.'; otherwise it is empty |
| UploadGate.LowerExtensionIsCaff | Webshop/Controllers/CaffFileController.cs:123-125 | the lower-cased extension is ".caff" exactly when the name ends in ".caff" in any letter case |
| UploadGate.ReadHeaderWindow | Webshop/Controllers/CaffFileController.cs:136-144 | reading 13 bytes and copying those past index 8 yields slot j = stream byte 9 + j, or 0 where the stream is shorter |
| UploadGate.SignatureCheckIsCaffMagic | Webshop/Controllers/CaffFileController.cs:135-147 | the magic-bytes check passes exactly when the stream has 13 bytes and bytes 9..12 are 43 41 46 46; bytes 0..8 are ignored |
| UploadGate.Stem | Webshop/Controllers/CaffFileController.cs:162 | `Split(".")[0]` is the longest prefix without '.' |
| UploadGate.RandomStem | Webshop/Controllers/CaffFileController.cs:161-162 | the stem of a random file name is its first 8 characters, all from the random alphabet |
| UploadGate.CombineRandomStem | Webshop/Controllers/CaffFileController.cs:166 | `Path.Combine` of the CAFF directory and the stem plus ".caff" is plain concatenation |
| UploadGate.UploadPathsOfRandomName | Webshop/Controllers/CaffFileController.cs:161-171 | the two stored paths are `\Uploads\CAFF\<stem>.caff` and `\images\uploads\<stem>.png`, with one stem |
| UploadGate.VerifyAndUpload | Webshop/Controllers/CaffFileController.cs:120-189 | the gate throws exactly when the lower-cased extension is not ".caff"; otherwise it returns two paths exactly when bytes 9..12 are "CAFF" and 0 < length ≤ 20,480,000, and those paths are the CAFF and PNG paths of one stem; the failure reported is that of the size check if it failed, otherwise that of the signature check, otherwise none |
| UploadGate.CaffToCiffPointwise | Webshop/Controllers/CaffFileController.cs:284 | replacing "CAFF" by "CIFF" keeps the length, and changes only 'A's, to 'I's |
| UploadGate.CaffToCiffLeavesNoCaff | Webshop/Controllers/CaffFileController.cs:284 | no "CAFF" is left after the replacement |
| UploadGate.ReplaceSkipsPrefix | Webshop/Controllers/CaffFileController.cs:284 | a prefix without 'C' passes through the replacement unchanged |
| UploadGate.CiffPathOfCaffPath | Webshop/Controllers/CaffFileController.cs:284 | the stored CAFF path of a stem without 'C' becomes `\Uploads\CIFF\<stem>.caff`: the lower-case ".caff" is kept |
| UploadGate.DeletionOfUpload | Webshop/Controllers/CaffFileController.cs:282-287 | for an upload, deletion removes the PNG under `\wwwroot`, the CAFF file, and its sibling in `\Uploads\CIFF\` named with the same stem and ".caff" |
| UploadGate.ContentTypeMatchesGate | Webshop/Controllers/CaffFileController.cs:324-336 | `GetContentType` has a type exactly for the names the gate does not throw on, and that type is "text/plain" |
| UploadGate.StoredFileContentType | Webshop/Controllers/CaffFileController.cs:324-336 | a file the gate stored is served as "text/plain" |
| Login.IsNullOrWhiteSpace | Webshop/ViewModels/AccountViewModels/LoginViewModel.cs:7-13 | a value is blank exactly when `Required` rejects it: missing, or made only of white space (the empty string included) |
| Login.GreedyRun | Webshop/ViewModels/AccountViewModels/LoginViewModel.cs:8 | `{5,40}` first takes the longest run of name characters, at most 40 |
| Login.Backtrack | Webshop/ViewModels/AccountViewModels/LoginViewModel.cs:8 | giving back characters finds the longest count, between 5 and the run, after which `$` holds, or none |
| Login.MatchIff | Webshop/ViewModels/AccountViewModels/LoginViewModel.cs:8 | the pattern matches with length n exactly when the first n characters are 5 to 40 name characters followed by the end or a final line feed |
| Login.RegexOkIff | Webshop/ViewModels/AccountViewModels/LoginViewModel.cs:8 | a present, non-empty user name passes the attribute exactly when it has 5 to 40 characters, all in A-Z, a-z, 0-9, '_' or '-' |
| Login.TrailingLineFeedRejected | Webshop/ViewModels/AccountViewModels/LoginViewModel.cs:8 | "alice\n" matches the pattern but is rejected because the match is not the whole value; "alice" is accepted |
| Login.WellFormedIsNotBlank | Webshop/ViewModels/AccountViewModels/LoginViewModel.cs:7-8 | a user name the pattern accepts is never blank for `Required` |
| Login.ValidLoginIff | Webshop/ViewModels/AccountViewModels/LoginViewModel.cs:7-16 | the form is valid exactly when the user name is present and well formed, and the password is present and not only white space |
| Login.MissingUserName | Webshop/ViewModels/AccountViewModels/LoginViewModel.cs:7-8 | a missing user name is reported as required and not as invalid |
| Login.RememberMeUnconstrained | Webshop/ViewModels/AccountViewModels/LoginViewModel.cs:15-16 | the "remember me" flag plays no part in validation |

## Left out

- File and stream I/O is not modelled: reading the CIFF file, the `ifstream`/`ofstream` of the transcoder, `exit(1)` and `main`. Inputs and outputs are byte sequences. The transcoder's diagnostics on standard error appear only as the reason it stopped.
- PNG encoding (`image.Save`) is not modelled. It belongs to the ImageSharp library.
- Ciff.Decode: does not model the check the `Image<Rgba32>` constructor applies to its dimensions. It is library code not visible here, so a header with a non-positive width or height decodes to an empty raster.
- The random file name is a parameter, constrained to the 8 + '.' + 3 shape of `Path.GetRandomFileName` over its 32-letter alphabet.
- UploadGate.VerifyAndUpload: does not model the call of `cifftopng` on the fixed file "something.ciff" (line 174), or `File.Create` with the un-awaited `CopyToAsync` (lines 176-179). Both run on the success path and can throw: on a missing or undecodable file, or a missing directory. The gate then returns no paths. The model assumes both return, and its "throws exactly when" holds under that assumption.
- `File.Delete` of the three deletion paths is left out. The model stops at the paths themselves.
- The other controller actions are left out: Index, List, Create, Edit, Delete, Download and the entity-framework glue. `AccountController` is not part of this model.
- UploadGate.ToLowerInvariant: lower-cases only ASCII letters, because the model only needs it on ".caff" names. Other letters keep their case, unlike .NET's invariant culture.
- UploadGate.GetExtension: models `Path.GetExtension` as .NET Core does it on Windows. '\\' and '/' are separators, and the drive colon is not treated specially.
- UploadGate.Combine: models `Path.Combine` as .NET does it on Windows, where '\\' and '/' are separators and a leading separator or drive letter roots a path. On other platforms '\\' is an ordinary character, and `CombineRandomStem`'s plain concatenation would not follow.
- UploadGate.SignatureCheck: models a signature list whose first entry fixes the window size. The controller's only extension has exactly one signature.
- The byte order is fixed as little-endian for both `BitConverter.ToInt32` and the packed `uint64_t` fields. The host's byte order is not modelled.
- Undefined behaviour of the transcoder is an `UndefinedRead` outcome rather than a value: a type-0x3 size below 8 (whose `blockSize - 8` wraps) or a copy past the end of the input.
- Login.IsWhiteSpace: follows `Char.IsWhiteSpace` for the Unicode space separators and the controls U+0009 to U+000D and U+0085. The regular expression is modelled for this one pattern only, not as a general engine.
- CaffToCiff.Scan: skips type-0x2 blocks forward by the unsigned size. It agrees with the loop as written only while every type-0x2 size it meets is below 2^63 (`AsWrittenAgrees`). A larger size seeks backwards, and can then write bytes before pos + 17.
- CaffToCiff.Extract: "a slice at or after offset 29" holds only for the unsigned skip. As written, a backward skip can write header bytes 17..20 (`BackwardSeekEmitsHeader`). It agrees with the loop as written only below 2^63 (`AsWrittenAgrees`).
- CaffToCiff.ScanReadsOnlyFrom: holds for the unsigned skip. As written, a type-0x2 size of 2^63 or more seeks back before `start`. It agrees with the loop as written only below 2^63 (`AsWrittenAgrees`).
- CaffToCiff.HeaderFieldsIgnored: holds for the unsigned skip. As written, after a backward seek the preamble's type and size and the header's bytes decide the output (`BackwardSeekEmitsHeader`). It agrees with the loop as written only below 2^63 (`AsWrittenAgrees`).
- CaffToCiff.ScanSkipStep: holds for the unsigned skip. As written, a size of 2^63 or more moves the scan backwards by 2^64 − blockSize − 9 (`AsStreamOffset`). It agrees with the loop as written only below 2^63 (`AsWrittenAgrees`).
- CaffToCiff.ScanAsWritten: counts loop iterations with a fuel parameter. Running out of fuel is `None`, which is how the endless loop is stated.

## Findings

| source | as written | input that shows it | evidently intended | confidence | as-written member | corrected member |
|---|---|---|---|---|---|---|
| src/CaffToCiff.cpp:50-52 | the type-0x2 skip passes the `uint64_t` block size to `seekg`, whose offset is a signed 64-bit `streamoff`; a size of 2^63 or more seeks backwards | 9 zero bytes, 43 41 46 46, 16 zero bytes, then the block header 02 F7 FF FF FF FF FF FF FF (size 2^64 − 9): the seek lands back on that header, and the loop reads it forever | skip forward by the unsigned size; the same input stops at once with nothing written | not executed | CaffToCiff.SelfSeekNeverHalts | CaffToCiff.SelfSeekHalts |
| src/CaffToCiff.cpp:50-56 | the same signed seek can land before the CAFF header, so bytes of the preamble and header are read as blocks and written out | 03, size 12, then "CAFF", 00 00 00 00 AA BB CC DD, eight zero bytes, then 02 with size 2^64 − 38: the seek lands on offset 0, the preamble is read as a 0x3 block, and AA BB CC DD is written | output only from the blocks after offset 29; the same stream ends with a failed metadata read and nothing written | not executed | CaffToCiff.BackwardSeekEmitsHeader | CaffToCiff.Extract |
