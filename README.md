# Image merge service: verified model of its core

The service takes two uploaded images and a mix ratio, blends the images
pixel by pixel and writes the result as PNG, JPEG and BMP. Underneath the
Flask handler sit four pieces of logic, and this project models each one as
pure Dafny functions with proved properties:

- **FileTypes** (`file_types.dfy`): `allowed_file` and `ALLOWED_EXT`. A name
  is accepted when it contains a `.` and the lower-cased text after its last
  `.` is `png`, `jpg`, `jpeg`, `bmp` or `gif`.
- **MixRatio** (`mix_ratio.dfy`): the `leftPct` form field. It is read with
  default `"50"` and parsed as a signed decimal integer. The result is clamped
  to [0, 100], and text that does not parse gives 50.
- **Blend** (`blend.dfy`): `merge_images`. Images are RGBA pixel grids. The
  right image is resampled to the left image's size only when the two sizes
  differ. Every channel, alpha included, becomes `l*a + r*(1-a)` with
  `a = pct/100`, clipped to [0, 255] and truncated to an integer. The LANCZOS
  resampler is a function parameter. The only thing assumed of it
  (`Blend.IsResampler`) is that it returns an image of the requested size.
- **MergeEndpoint** (`merge_endpoint.dfy`): `merge_endpoint` as a function
  from the request to a response. The response holds the HTTP status, the
  JSON body and the ordered list of files the handler writes. Validation runs
  in a fixed order: missing field, then empty name, then file type. The three
  outputs share one identifier and fixed suffixes, and every URL is
  `/static/outputs/` plus a name.

`wrappers.dfy` holds the `Option` type used for absent fields and failed
parses.

Arithmetic in the blend is exact (`real` with `Floor`), where the source uses
float32. The properties that also hold under float32 are the image size, the
channel bounds and the two endpoints: pct = 100 gives the left image and
pct = 0 gives the size-matched right image. The other blend lemmas
(between-ness, swap symmetry, the red/blue example) are statements about the
exact-arithmetic model.

Two facts about the code that the model keeps:

- `astype(np.uint8)` truncates, so opaque red and opaque blue at 50 give
  (127, 0, 127, 255) (`Blend.MergeRedBlue`).
- `merge_images` has no size or decode checks of its own. Those failures come
  from PIL and are not modelled.

## Model

| member | source | states |
|---|---|---|
| FileTypes.LastDot | project.py:19 | The split point of `rsplit('.', 1)`. None exactly when there is no dot. Otherwise the index of a dot with no dot after it. |
| FileTypes.LastDotUnique | project.py:19 | A dot with no later dot is the one `LastDot` returns, so the last dot is unique. |
| FileTypes.LowerChar | project.py:19 | Lower-cases one character: `A`-`Z` move up by 32, everything else is unchanged, and no upper-case ASCII letter remains. |
| FileTypes.Lower | project.py:19 | `lower()` keeps the length and lower-cases each character independently. |
| FileTypes.AllowedExtWellFormed | project.py:16 | `ALLOWED_EXT` (`FileTypes.AllowedExt`) holds five extensions, each non-empty, dot-free and already lower-case, so comparing the lower-cased suffix against it is meaningful. |
| FileTypes.Extension | project.py:19 | The extension is absent exactly when there is no dot. When present it contains no dot and is the whole text after some dot. |
| FileTypes.AllowedFile | project.py:16-19 | True exactly when some dot in the name has no later dot and the lower-cased text after it is in the five-element set. |
| FileTypes.AllowedFileAt | project.py:19 | Once the last dot is known, only the lower-cased suffix after it decides the verdict. |
| FileTypes.AllowedFileIgnoresCase | project.py:19 | Two names that differ only in letter case get the same verdict. |
| FileTypes.AllowedFileUpper | project.py:19 | Corollary of `AllowedFileIgnoresCase`: upper-casing a name never changes its verdict. |
| FileTypes.AllowedFileLastExtension | project.py:16-19 | `x.tar.PNG` is accepted: the last extension decides, in any case. |
| FileTypes.AllowedFileDotOnly | project.py:16-19 | `.png` is accepted. |
| FileTypes.AllowedFileRejections | project.py:16-19 | `png`, `x.`, `payload.exe` and the empty name are refused. |
| MixRatio.DigitsValue | project.py:62 | Value of a digit string. A leading zero does not change it. |
| MixRatio.ParseInt | project.py:62 | `int()` on an optional sign plus ASCII digits: fails exactly on text that is not `IsIntText`. A digit string gives its value, `-` followed by digits the negated value, `+` followed by digits the value. No limit on the number of digits. |
| MixRatio.FormatNat | project.py:62 | Decimal rendering: non-empty, all digits, no leading zero. |
| MixRatio.FormatInt | project.py:62 | Signed decimal rendering is never empty. |
| MixRatio.DigitsValueFormatNat | project.py:62 | Reading back a rendered natural number gives the number. |
| MixRatio.ParseFormatRoundTrip | project.py:62 | `ParseInt(FormatInt(n)) == Some(n)` for every integer n. |
| MixRatio.Clamp | project.py:63 | `max(0, min(100, n))`: lies in [0, 100]. Identity inside the range, 100 above it, 0 below it. |
| MixRatio.NormalizeRatio | project.py:61-65 | Result in [0, 100]. 50 for an unparsable value. Otherwise the clamp of the parsed integer, case by case. |
| MixRatio.NormalizeRatioIdempotent | project.py:61-65 | Normalising a normalised ratio changes nothing. |
| MixRatio.LeftPct | project.py:62-65 | The ratio taken from the form field is in [0, 100]. An absent field gives 50. |
| MixRatio.LeftPctInRange | project.py:61-65 | Every in-range integer written in decimal reaches the blend unchanged. |
| MixRatio.LeftPctOfInteger | project.py:61-65 | For the decimal rendering of any integer, the ratio is exactly the clamp of that integer (no limit on the number of digits). |
| MixRatio.LeftPctAbove | project.py:61-65 | `"150"` gives 100. |
| MixRatio.LeftPctBelow | project.py:61-65 | `"-10"` gives 0. |
| MixRatio.LeftPctUnparsable | project.py:61-65 | `"abc"` and `""` give 50. |
| MixRatio.LeftPctNonInteger | project.py:61-65 | Every text that is not an optionally signed digit string gives 50. |
| MixRatio.LeftPctSigned | project.py:61-65 | `"-05"` gives 0 and `"+7"` gives 7. `"5x"`, `"-"` and `"1.5"` give 50. |
| Blend.MatchSize | project.py:24-27 | Result is valid and has the left image's size. The right image is kept unchanged when the sizes agree, and resampled to the left size only when they differ. |
| Blend.SameSize | project.py:26 | `right.size != left.size` compares (width, height); predicate with no contract of its own. |
| Blend.Alpha | project.py:29 | `alpha` lies in [0, 1] for a ratio in [0, 100]. It is 1 at 100 and 0 at 0. |
| Blend.Mix | project.py:33 | The weighted sum `l*a + r*(1-a)`. It is `l` at pct = 100 and `r` at pct = 0. |
| Blend.Clip | project.py:34 | `np.clip` to [0, 255]: identity inside the range, the nearer bound outside it. |
| Blend.ToByte | project.py:34 | The 8-bit value is the floor of the clipped value. |
| Blend.MixChannel | project.py:29-34 | Each output channel is in [0, 255] and is the floor of `clip(l*a + r*(1-a))`. |
| Blend.MixPixel | project.py:33-34 | All four channels, alpha included, get the same per-channel mix. |
| Blend.MixImages | project.py:33-35 | The result has the left size, and each pixel is the mix of the two pixels at that position. |
| Blend.MergeImages | project.py:21-39 | The blend is a valid image with exactly the left image's size, whatever the right image's size. |
| Blend.MixChannelEndpoints | project.py:29-34 | pct = 100 returns the left channel value and pct = 0 the right one. |
| Blend.MixBetween | project.py:29-33 | For pct in [0, 100] the weighted sum lies between the two input values. |
| Blend.MixChannelBetween | project.py:29-34 | For pct in [0, 100] the clip never changes the weighted sum, and the output lies between the two inputs. |
| Blend.MixSwap | project.py:29-33 | The weighted sum is unchanged when the inputs are swapped and the ratio complemented. |
| Blend.MixChannelSwap | project.py:29-34 | The same symmetry holds for the clipped, truncated channel. |
| Blend.MixChannelSame | project.py:29-34 | Equal inputs blend to themselves at any ratio in [0, 100]. |
| Blend.MixChannelHalf | project.py:33-34 | 255 and 0 at 50 give 127, because the code truncates. |
| Blend.MergeImagesChannels | project.py:29-34 | Each channel of each output pixel is in [0, 255] and is the floor of the clipped weighted sum of the left and size-matched right channels. |
| Blend.MergeImagesAllLeft | project.py:29-35 | With pct = 100 the blend is the left image, pixel for pixel. |
| Blend.MergeImagesAllRight | project.py:26-35 | With pct = 0 the blend is the size-matched right image. It is the right image itself when the sizes agree. |
| Blend.MergeImagesSwap | project.py:26-35 | For images of one size, `blend(A, B, p)` equals `blend(B, A, 100 - p)`. At p = 50 this is plain symmetry. |
| Blend.MergeRedBlue | project.py:29-35 | Opaque red and opaque blue of any one size, at 50, give (127, 0, 127, 255) at every pixel. |
| MergeEndpoint.MessagesDistinct | project.py:47-54 | The three rejection messages are pairwise different. |
| MergeEndpoint.Rejection.Message | project.py:48-54 | The `error` texts `Missing files`, `No selected file` and `Unsupported file type`; no contract of its own, told apart by `MessagesDistinct`. |
| MergeEndpoint.Validate | project.py:47-54 | A missing field is reported first, then an empty name, then an unsupported type, each exactly under its condition. Validation proceeds, with the two fields, exactly when both are present and allowed. |
| MergeEndpoint.EmptyNameBeforeType | project.py:51-54 | An empty name is reported as `No selected file`, although it would also fail the type check. |
| MergeEndpoint.NamesFor | project.py:77-80 | Each output name is the uid followed by `_merged.png`, `_merged.jpg` or `_merged.bmp`. |
| MergeEndpoint.UrlFor | project.py:108-113 | Each URL is `/static/outputs/` followed by the name. |
| MergeEndpoint.NamesDistinct | project.py:77-80 | The three names of one request are pairwise different. |
| MergeEndpoint.NamesInjective | project.py:77-80 | Different uids never produce a shared output name. |
| MergeEndpoint.DropAlpha | project.py:85 | `convert('RGB')` keeps the size and each pixel's R, G and B, and drops alpha. |
| MergeEndpoint.FormGet | project.py:62 | `form.get` returns a value exactly when the key is present, and that value is the form's entry. |
| MergeEndpoint.Handle | project.py:45-113 | Status 400 exactly when validation rejects. A rejection carries its message and writes nothing. An accepted request answers 200 with URLs and performs five writes. |
| MergeEndpoint.RejectionsWriteNothing | project.py:47-59 | Any request that is not accepted gets 400 and an error body, and no file is written, since the saves come only after validation. |
| MergeEndpoint.UrlsOfUid | project.py:108-111 | Each URL is `/static/outputs/` followed by the uid and the fixed suffix. |
| MergeEndpoint.AcceptedRequestWrites | project.py:56-86 | An accepted request saves both uploads first, leftFile then rightFile. It then writes the PNG, the JPEG (quality 90, alpha dropped) and the BMP, all named from one uid and all built from one blend at the ratio taken from the form. |
| MergeEndpoint.AcceptedRequestUrls | project.py:108-113 | An accepted request answers 200 with the three URLs of its outputs, and `preview_url` equals `png_url`. |
| MergeEndpoint.OutputsShareOneImage | project.py:84-88 | The three written rasters have the same size, which is the left image's size. |

## Left out

- Flask routing, `request.files` and `request.form` objects, `jsonify`, and the `index` and `demo` endpoints. The demo endpoint returns two constants. The request is modelled as two maps, and the response as status, body and a list of writes.
- Writing to disk, `os.makedirs`, `os.path.join` with the base directory, `os.path.getsize`, and the size and timing `print` lines. A save is only recorded as an `Effect`. The elapsed time that `merge_images` also returns, and `time.time()`, are not modelled.
- `uuid.uuid4()`: the three identifiers are parameters of `MergeEndpoint.Handle`. Their form (36-character random text) is not modelled.
- `secure_filename`: foreign code. `SaveUpload` records the uid and the client file name it is applied to.
- PIL decoding, `convert('RGBA')`, the LANCZOS kernel and the PNG, JPEG and BMP encoders. `Handle` receives the two decoded RGBA images. The resampler is only required to return the requested size. A write records the format and the pixels handed to the encoder.
- Decode failures after the uploads are saved. An upload with an allowed name but unreadable content raises inside PIL, after both uploads were written, and Flask answers 500. That path is not modelled.
- Blend.MixChannel: float32 rounding of `l*a + r*(1-a)` is not modelled, because the arithmetic is exact. Only size, bounds and the pct = 0 and pct = 100 endpoints are claimed to match float32. Intermediate ratios are not claimed bit-exact.
- MixRatio.ParseInt: accepts only an optional sign followed by ASCII digits, with no limit on their number. Python's `int()` also strips surrounding whitespace and accepts `_` between digits and non-ASCII decimal digits; those inputs give 50 here instead of their value. From Python 3.11 on, `int()` also raises `ValueError` on text with more than 4300 digits (leading zeros included), which line 64 turns into 50; the model gives the clamp of the value instead (0 or 100).
- FileTypes.Lower: lower-cases ASCII letters only. The allowed extensions are pure ASCII. No non-ASCII character lower-cases to a single ASCII letter of `p n g j e b m i f` (U+0130 becomes `i` plus a combining dot). So this decides set membership the same way as Python's `str.lower()`.
