# Image forensics tool — verified model of the analysis core

The repository is a small desktop tool (`main.py`) that checks an uploaded
image for signs of tampering. This project models its analysis core in Dafny
and proves what each detector computes:

- **Magic-number classifier** (`Signature`): the ordered chain of byte-prefix
  tests on the first 10 bytes of the file, returning `jpg`, `png`, `gif`,
  `bmp`, `tiff` or nothing.
- **Signature verdict** (`Signature`): the declared extension
  (`path.split('.')[-1].lower()`) compared verbatim with the detected format,
  giving valid, invalid (with both strings) or unknown format.
- **Chunked hashing** (`Hashing`): the loop that reads the file 8192 bytes at
  a time into an incremental SHA-1 (FIPS 180-4) state.
- **Error Level Analysis** (`Ela`): the per-sample absolute difference between
  the original and the recompressed image and the binary threshold at 30.
- **Steganography heuristic** (`Stego`): the image is flagged when its mean
  sample exceeds 128.
- **EXIF report** (`Exif`): the parser's tag/value pairs folded into one
  `tag: value` line each, or `No EXIF data found.`.
- **The tool object** (`Forensics.ForensicsTool`): the `image_path` field set
  by `upload_image`, and the five handlers. Each handler shows only the
  "Please upload an image first." warning while no image is loaded.

Files: `common.dfy` (bytes, `Option`, prefixes), `signature.dfy`,
`hashing.dfy`, `ela.dfy`, `stego.dfy`, `exif.dfy`, `forensics.dfy`.

What a handler shows in a message box is modelled as its result (`Dialog`).
Whatever a handler would read from the file at the loaded path is a
parameter: the file's bytes, the decoded pixels, the recompressed pixels, and
the EXIF parser's output.

The upload dialog offers `.jpeg` and `.tif` (main.py:46), but the signature
comparison is verbatim: there is no `jpeg`-to-`jpg` or `tif`-to-`tiff`
normalisation. The model keeps this: a JPEG named `.jpeg` and a TIFF named
`.tif` are reported invalid (`Signature.JpegNamedJpegIsInvalid`).
`extract_exif` has no path that tells an unparseable file from one without
tags: it reports whatever pairs the parser returns, and so does the model.

## Model

| member | source | states |
|---|---|---|
| Common.Take | main.py:101-116 | Python's slice `s[:n]`: the first min(n, len(s)) elements, a prefix of `s` |
| Common.TakeEqualsIffStartsWith | main.py:104-116 | a slice `s[:len(p)]` equals the pattern `p` iff `s` starts with `p`; a header shorter than a pattern never matches it |
| Signature.Extension | main.py:103-117 | the string returned for each format is non-empty and has no dot |
| Signature.ExtensionInjective | main.py:103-117 | different formats are reported with different strings |
| Signature.ClassifyHeader | main.py:103-119 | the if/elif chain on the header: `jpg` exactly when the header starts FF D8 FF (the first rule wins unconditionally), and no result for a header shorter than two bytes |
| Signature.DetectFileSignature | main.py:98-119 | the result is `Some(f)` exactly when the content starts with one of `f`'s magic patterns, and `None` exactly when it starts with none of them |
| Signature.HeaderStartsWith | main.py:101 | reading only 10 bytes loses nothing: a pattern of at most 10 bytes prefixes the header iff it prefixes the file |
| Signature.MatchesUnfold | main.py:103-117 | each format's patterns: FF D8 FF; 89 50 4E 47 0D 0A 1A 0A; GIF87a or GIF89a; BM; II*\0 or MM\0* |
| Signature.MagicsExclusive | main.py:103-117 | no content matches patterns of two different formats, so the order of the chain is irrelevant |
| Signature.DetectLooksAtEightBytes | main.py:101-117 | two files with the same first 8 bytes (or the same shorter content) get the same result |
| Signature.EmptyFileIsUnknown | main.py:100-119 | an empty file is not recognised |
| Signature.OneByteIsUnknown | main.py:101-119 | a one-byte file is too short for every pattern and is not recognised |
| Signature.Split | main.py:85 | `split('.')` gives at least one piece, no piece holds the separator, and exactly one piece iff there is no separator |
| Signature.JoinSplit | main.py:85 | joining the pieces with the separator gives back the original string |
| Signature.LowerChar | main.py:85 | each ASCII capital maps to its own lower-case letter; every other character is unchanged |
| Signature.Lower | main.py:85 | `lower()` keeps the length and maps each character by `LowerChar` |
| Signature.LowerKeepsDots | main.py:85 | lowercasing neither adds nor removes a dot |
| Signature.DeclaredExtension | main.py:85 | the declared extension never holds a dot and is no longer than the path |
| Signature.NoDotDeclaresWholePath | main.py:85 | a path without a dot declares the whole path, lowercased |
| Signature.DeclaredExtensionOfSuffix | main.py:85 | for `stem + "." + ext` with no dot in `ext`, the extension is `ext` lowercased, whatever dots the stem holds |
| Signature.LastPieceAfterDot | main.py:85 | the last piece of `split('.')` on `stem + "." + ext` is `ext` |
| Signature.SplitWithoutSep | main.py:85 | a string without the separator splits into itself alone |
| Signature.CheckSignature | main.py:83-96 | valid iff a format is detected and its string equals the declared extension; unknown iff no format is detected; invalid carries the detected string and the declared extension, and they differ |
| Signature.VerdictMessage | main.py:90-94 | the invalid text is "Signature is invalid: expected .X but found .Y" with the two strings |
| Signature.ValidMessageOnlyForValid | main.py:89-92 | "Signature is valid." is the text of the valid verdict and of no other |
| Signature.InvalidMessageDeterminesStrings | main.py:92 | the invalid text determines both strings it carries |
| Signature.PngNamedPngIsValid | main.py:85-90 | a PNG named `.png` or `.PNG` is valid |
| Signature.JpegNamedPngIsInvalid | main.py:85-92 | a JPEG named `.png` is invalid, expected `jpg`, found `png` |
| Signature.JpegNamedJpegIsInvalid | main.py:85-92 | a JPEG named `.jpeg` and a TIFF named `.tif` are invalid: there is no normalisation |
| Signature.UnknownIgnoresExtension | main.py:88-94 | unrecognised content gives the unknown-format result whatever the path |
| Hashing.Sha1New | main.py:64 | a fresh state, once updated with some bytes, has absorbed exactly those bytes |
| Hashing.Sha1Update | main.py:67 | an update keeps everything absorbed so far and appends exactly the chunk |
| Hashing.Chunks | main.py:66 | the reads of the loop: no chunk for an empty file, and every chunk non-empty and at most 8192 bytes |
| Hashing.AbsorbIsOneUpdate | main.py:64-68 | feeding any split of a message chunk by chunk leaves the same SHA-1 state as feeding it in one update |
| Hashing.Read | main.py:66 | `f.read(n)` returns the next `n` bytes, fewer only at the end of the file |
| Hashing.ChunksCoverContent | main.py:66-67 | the chunks are non-empty and at most 8192 bytes, all but the last are exactly 8192, there are ceil(len/8192) of them, and together they are the file |
| Hashing.ChunksStep | main.py:66-67 | one turn of the loop: the chunks left are the chunk just read followed by the chunks after it |
| Hashing.HashImage | main.py:63-68 | the loop reads exactly the 8192-byte chunks of the file, and the final state is that of hashing the whole content in one call |
| Hashing.HashImageIsAbsorbOfChunks | main.py:63-68 | feeding the file's chunks one by one gives the state of hashing the whole file |
| Ela.AbsDiffImage | main.py:137 | the difference has the images' shape, and each pixel is the channel-wise absolute difference |
| Ela.AbsDiffInRange | main.py:137 | the difference of two 8-bit images is an 8-bit image |
| Ela.AbsDiffSymmetric | main.py:137 | the difference does not depend on the order of the images |
| Ela.AbsDiffZeroIffEqual | main.py:137 | a difference pixel is zero exactly where the images agree; the whole difference is zero exactly when the images are equal |
| Ela.ThresholdBinary | main.py:140 | the threshold keeps the grid's shape |
| Ela.ThresholdIsMask | main.py:140 | the mask has the input's shape, holds only 0 and 255, and is 255 exactly where the input exceeds 30 |
| Ela.ThresholdIdempotent | main.py:140 | thresholding a mask again changes nothing |
| Ela.ThresholdOfQuietGridIsZero | main.py:139-140 | an input never above 30 gives an all-zero mask |
| Ela.ElaMessage | main.py:145-147 | the text begins "ELA result saved as " exactly for a saved mask, followed by the path it was saved to |
| Ela.ElaAnalysis | main.py:128-147 | the mask is saved to `ela_result.png` exactly when the two images have the same shape; it is binary, has the normalised grid's shape, and is 255 exactly where that grid exceeds 30 |
| Ela.ElaOfUnchangedImage | main.py:137-140 | an image that recompresses with no difference is saved with an all-zero mask, given only that grayscale keeps a black image all zero and normalisation keeps an all-zero grid all zero (its max == min case) |
| Stego.DetectSteganography | main.py:77-81 | flagged iff the image has samples and their mean exceeds 128 |
| Stego.StegoMessage | main.py:73 | "Steganography detected!" exactly when the image is flagged |
| Stego.Mean | main.py:81 | `img_data.mean()`: the mean times the number of samples is their sum |
| Stego.MeanAboveIffSumAbove | main.py:81 | mean > 128 iff sum > 128 · count for a non-empty image; an empty image is never flagged |
| Stego.SumConstant | main.py:80-81 | `n` samples of value `v` sum to `n · v` |
| Stego.BlackClearWhiteFlagged | main.py:81 | an all-black image is clear and a non-empty all-white image is flagged |
| Stego.SumPermutation | main.py:80-81 | the sum, and so the flag, does not depend on the order of the samples |
| Stego.RemoveAt | main.py:80-81 | taking out one sample takes it out of the multiset and of the sum |
| Stego.SumSplit | main.py:80-81 | the sum of a concatenation is the sum of the sums |
| Exif.LineText | main.py:161 | the line is the tag, then ": ", then the value; it holds no newline when neither part does |
| Exif.Lines | main.py:159-161 | the folded report is empty exactly when there are no pairs, and otherwise ends with a newline |
| Exif.LinesSnoc | main.py:160-161 | appending a pair appends its `tag: value` line |
| Exif.ExtractExif | main.py:156-162 | with no pairs the report is exactly "No EXIF data found."; otherwise it is the pairs' lines, one per pair, in order |
| Exif.LineTexts | main.py:161 | one line text per pair |
| Exif.TakeLine | main.py:161 | reading a line consumes at least one character of a non-empty text |
| Exif.TakeLineOf | main.py:161 | a line followed by a newline is read back whole, with the rest left over |
| Exif.ReportLinesArePairs | main.py:159-161 | when no tag or value holds a newline, splitting the report at newlines gives back exactly the line of each pair, in order |
| Exif.NoExifIffNoTags | main.py:162 | the "no data" text is shown exactly when there are no pairs |
| Forensics.ForensicsTool.constructor | main.py:18 | a new tool has no image path and no image loaded |
| Forensics.ForensicsTool.Loaded | main.py:47 | the guard `if self.image_path:` holds only for a set, non-empty path; `None` and the empty string both fail it. The same test opens every handler (main.py:57, 71, 84, 122, 150) |
| Forensics.ForensicsTool.UploadImage | main.py:45-48 | the dialog's answer becomes the path; an image is loaded iff that answer is non-empty |
| Forensics.ForensicsTool.CalculateHash | main.py:56-61 | with no image, only the upload warning; otherwise the "Hash (SHA-1)" box with the SHA-1 state of the whole file |
| Forensics.ForensicsTool.CheckSteganography | main.py:70-75 | with no image, only the upload warning; otherwise "Steganography detected!" iff the mean sample exceeds 128 |
| Forensics.ForensicsTool.CheckSignature | main.py:83-96 | with no image, only the upload warning; otherwise the verdict's text, unknown format as a warning; "Signature is valid." iff the detected format's string equals the declared extension |
| Forensics.ForensicsTool.PerformEla | main.py:121-126 | with no image, only the upload warning; otherwise the ELA text, "ELA result saved as ela_result.png" when the images have the same shape |
| Forensics.ForensicsTool.GetExifData | main.py:149-154 | with no image, only the upload warning; otherwise "No EXIF data found." for no pairs and the pairs' lines for some |

## Left out

- The Tkinter window, widgets, message boxes, file dialog and the
  `display_image` thumbnail (main.py:12-54, 164-167). These are user-interface
  plumbing. Message boxes are modelled as the `Dialog` a handler returns.
- Opening and reading files. File content is a byte-sequence parameter, so a
  missing or unreadable file is not modelled. In `calculate_hash`,
  `check_steganography`, `check_signature` and `get_exif_data` that error
  would escape the handler.
- The image decoding of `detect_steganography` (`Image.open` and `np.array`,
  main.py:79-80) is library code. It raises on a missing or non-image file,
  and `check_steganography` (main.py:70-75) does not catch that. The decoded
  samples are the input `samples` of `Stego.DetectSteganography`.
- Forensics.ForensicsTool.CalculateHash: the hash box keeps its title
  "Hash (SHA-1)", but its text "SHA-1 Hash: " followed by the hexadecimal
  digest (main.py:59) is not modelled. The box carries the digest state
  instead.
- Hashing.Sha1Update: SHA-1's compression function and `hexdigest` are not
  modelled. A state stands for the message it has absorbed, which is all the
  digest depends on. So "changing a byte changes the digest" (collision
  resistance) cannot be stated.
- Image decoding, the JPEG re-encode at quality 90 and the temporary file
  `temp_recompressed.jpg` (main.py:130-132) belong to a foreign library. The
  decoded original and the recompressed image are inputs.
- The RGB-to-gray reduction and the min-max normalisation (main.py:138-139)
  are floating-point library code. They are function parameters of
  `Ela.ElaAnalysis`.
- Ela.ElaAnalysis: the only failure modelled is a shape mismatch in
  `absdiff`. Decoding and codec exceptions happen before the modelled stages.
  Writing `ela_result.png` (main.py:143) is not modelled.
- Ela.ElaMessage: the failure text is modelled as the fixed words
  "Error performing ELA" only. The source's text goes on with ": " and the
  exception's own message (`str(e)`), which comes from library code.
- Stego.Mean: the exact rational mean of the integer samples stands for
  numpy's float64 `img_data.mean()`, which equals it only up to rounding.
- Stego.DetectSteganography: numpy computes the mean in floating point. The
  model compares exactly over integers, which agrees for 8-bit samples.
  numpy's mean of an empty array is NaN, and `NaN > 128` is false; the model
  gives false for an empty image.
- The EXIF parser (main.py:158) is foreign. Its output is an input sequence of
  (tag, value) strings in iteration order. `str(value)` rendering is part of
  that input.
- Signature.LowerChar: only the ASCII capitals A-Z are mapped to lower case.
  Every other character is returned unchanged, although Python's
  `str.lower` also lowercases non-ASCII capitals (`'É'` to `'é'`).
- Signature.Lower: only ASCII capitals are lowercased. Python's `str.lower`
  also maps non-ASCII capitals.
