# Thumbnail time selection and timestamp-in-filename, in Dafny

A model of the logic in the `thumbnail` Django app. The app downloads a video, takes one frame as a
300×140 JPEG thumbnail and lists the stored videos with the time each thumbnail was taken at.
The model covers two parts:

- **Choosing the screenshot time** (`capture_screenshot` in `thumbnail/utils.py`, module `Screenshot`).
  A duration of exactly zero raises an error. A requested timestamp in the closed range
  `[0, duration]` is used unchanged. Any other real value, or no request, falls back to `random.uniform(0, duration)`.
  Here that draw is a parameter `draw`, constrained to the range `random.uniform` can return.
  The frame is then stretched to the constant 300×140, whatever its own size.
- **The timestamp carried in the file name** (`thumbnail/views.py`, modules `Strings`, `Decimal` and
  `Views`). `upload_video` reads the optional `timestamp` form field: absent or empty means no
  timestamp, and a non-numeral is a 400 response before anything is downloaded. It saves the
  thumbnail as `thumbnail_{t:.2f}.jpg`. `video_list` recovers the time from each stored name:
  it splits on `_`, takes the last token, deletes every `.jpg` and calls `float()`. A failure
  gives `None`.

Times in names are whole numbers of hundredths of a second (`FormatFixed2`). The parser
(`ParseNumber`) returns the exact decimal value as a `real`. The proved round trip is that decoding
the name made for `h` hundredths gives `h / 100`, whatever text precedes the name, such as the
`thumbnails/` storage directory. End to end, the time `video_list` shows for a fresh upload
is within 0.005 s of the chosen screenshot time (`UploadThenList`). Two failure modes of the
name encoding are proved as well:

- a last token that is not a numeral decodes to `None`;
- a storage suffix made only of digits is read as the time.

The code has no midpoint default, no rounding to whole seconds, no clamp and no crop. It falls
back to a random draw, passes an in-range request through exactly and stretches the frame to
300×140. The model follows the code.

Files: `wrappers.dfy` (Option, Result), `screenshot.dfy`, `strings.dfy` (Python's `str.split`,
`str.replace`), `decimal.dfy` (`:.2f` and `float()` on decimal numerals), `views.dfy`.

## Model

| member | source | states |
|---|---|---|
| Screenshot.ScreenshotTime | thumbnail/utils.py:36-49 | fails exactly when the duration is 0; an in-range request `0 <= t <= duration` (both ends included) is returned unchanged; no request or an out-of-range one returns the random draw; for a positive duration the time always lies in `[0, duration]` |
| Screenshot.DrawIrrelevantIffInRange | thumbnail/utils.py:41-49 | for a positive duration, the result is the same for every draw if and only if an in-range timestamp was requested |
| Screenshot.NegativeDurationNotRejected | thumbnail/utils.py:38-45 | only exactly zero is rejected: a negative duration passes the guard, the request is never used, and the time is the draw in `[duration, 0]` |
| Screenshot.ResizeToThumbnail | thumbnail/utils.py:57 | the thumbnail is 300×140 whatever the frame's size |
| Screenshot.CaptureScreenshot | thumbnail/utils.py:36-66 | fails exactly on a zero duration; otherwise returns a 300×140 thumbnail, the decoder's duration unchanged, and the time `ScreenshotTime` chose |
| Strings.Split | thumbnail/views.py:71 | `split('_')` yields at least one part (so `parts[-1]` never raises `IndexError`), no part contains `_`, and joining the parts with `_` gives the name back |
| Strings.SplitWithoutSep | thumbnail/views.py:71 | a string without `_` splits into itself alone |
| Strings.LastTokenIsSuffix | thumbnail/views.py:71 | `parts[-1]` is a suffix of the name without `_`, and the character before it, if any, is `_`: it is the longest `_`-free suffix |
| Strings.LastTokenAfterSep | thumbnail/views.py:71 | `parts[-1]` is exactly the text after the last `_`, whatever precedes it |
| Strings.LastTokenAt | thumbnail/views.py:71 | when the character at position `k` is `_` and none follows it, `parts[-1]` is the text after position `k` |
| Strings.RemoveAll | thumbnail/views.py:72 | `replace('.jpg', '')` never lengthens the text; what it removes is stated by the four lemmas below |
| Strings.RemoveAllAbsent | thumbnail/views.py:72 | text without an occurrence of the pattern is left unchanged |
| Strings.RemoveAllFirst | thumbnail/views.py:72 | the scan keeps the text before the first occurrence, deletes that occurrence and carries on after it |
| Strings.RemoveAllSinglePass | thumbnail/views.py:72 | the replacement is one left-to-right pass: an occurrence formed only by a deletion (`x.j` + `.jpg` + `pg`) is not removed again |
| Strings.RemoveJpgSuffix | thumbnail/views.py:72 | a trailing `.jpg` after text without the letter `j` is removed and that text is left as it was |
| Decimal.NatToDigits | thumbnail/views.py:38 | the whole seconds are written as decimal digits whose value is the number, without leading zeros: zero is the single digit `0`, and no other number starts with `0` |
| Decimal.FormatFixed2 | thumbnail/views.py:38 | the `:.2f` text holds only digits, signs and dots, ends in a dot and exactly two digits, and starts with `-` exactly for a negative time |
| Decimal.RoundHundredths | thumbnail/views.py:38 | the two-decimal rounding picks the hundredth nearest to the time (within half a hundredth) |
| Decimal.ParseUnsigned | thumbnail/views.py:73 | an accepted unsigned numeral denotes a non-negative value |
| Decimal.ParseNumber | thumbnail/views.py:73 | the empty string is rejected; a string of digits parses to its integer value |
| Decimal.ParseUnsignedAccepts | thumbnail/views.py:73 | the unsigned reader accepts a string if and only if it is an unsigned numeral (digits and at most one dot, with at least one digit) |
| Decimal.ParseNumberAccepts | thumbnail/views.py:73 | `ParseNumber` (the modelled `float()`) succeeds if and only if the text is a numeral (an unsigned numeral after at most one `+` or `-`); every other text is the modelled `ValueError` |
| Decimal.NumeralChars | thumbnail/views.py:73 | a numeral holds only digits, signs and dots |
| Decimal.ParseSigned | thumbnail/views.py:73 | a leading `+` or `-` applies its sign to the value of the unsigned numeral after it |
| Decimal.ParseFractionValue | thumbnail/views.py:73 | `sign whole.frac` reads as `±(whole + frac / 10^len(frac))` |
| Decimal.ParseIntegerValue | thumbnail/views.py:73 | `sign digits` reads as `±digits` |
| Decimal.FormatThenParse | thumbnail/views.py:38 | parsing the `:.2f` text written for `h` hundredths gives back exactly `h / 100` |
| Views.ParseRequestTimestamp | thumbnail/views.py:20-27 | an absent or empty field means no timestamp and is not an error; a non-empty field is rejected exactly when `ParseNumber` (the modelled `float()`) fails on it (by `ParseNumberAccepts`, when it is not a numeral), and otherwise gives its value |
| Views.ThumbnailName | thumbnail/views.py:38 | the file name is `thumbnail_`, the `:.2f` time and `.jpg`, and has no `_` after the prefix |
| Views.ThumbnailNameLastToken | thumbnail/views.py:71 | under any storage prefix, the last `_`-token of the name is the formatted time followed by `.jpg` |
| Views.FormattedTimeWithoutJpg | thumbnail/views.py:72 | removing `.jpg` from that token leaves exactly the formatted time |
| Views.UploadVideo | thumbnail/views.py:18-49 | a bad request happens exactly when the field is a non-empty non-numeral, whatever the form or download; a valid form then crashes exactly when `requests.get` raises, and is saved otherwise; a thumbnail name is produced exactly when a video was downloaded and its duration is not 0; a saved upload reports a processing error exactly when a downloaded video has duration 0 |
| Views.UploadSavesName | thumbnail/views.py:35-41 | a valid upload of a video with a non-zero duration is saved, without a processing error, under the name made for its screenshot time rounded to hundredths |
| Views.ThumbnailTimestamp | thumbnail/views.py:64-79 | a missing or empty thumbnail name gives no timestamp |
| Views.VideoList | thumbnail/views.py:60-80 | exactly one `(video, timestamp)` entry per video, in the query's order, each timestamp decoded from that video's thumbnail name |
| Views.DecodeThumbnailName | thumbnail/views.py:67-73 | decoding `prefix + "thumbnail_" + FormatFixed2(h) + ".jpg"` returns `h / 100` for every `h` and every prefix |
| Views.NonNumericLastTokenDecodesToNone | thumbnail/views.py:69-75 | a name whose last `_`-token, after removing `.jpg`, holds a character other than a digit, sign or dot decodes to `None` instead of raising (see the `Decimal.ParseNumber` line under "Left out" for the texts Python also accepts) |
| Views.DigitSuffixMisread | thumbnail/views.py:71-73 | a name ending in `_<digits>.jpg`, such as one with a numeric storage suffix, decodes to `<digits>` seconds |
| Views.UploadThenList | thumbnail/views.py:35-38 | for a saved upload with a non-zero duration, the listed time of its thumbnail, under any storage prefix, is the chosen screenshot time rounded to hundredths, within 0.005 s of it |

## Left out

- `download_video` (HTTP through `requests`) is not modelled. Its outcome is the parameter `download` of `UploadVideo`: the fetched video, `NotOk` for a status other than 200 (the function returns `None`), or `Raised` for an exception from `requests.get`. `upload_video` calls it outside its `try`, so that exception escapes and nothing is saved.
- Views.UploadVideo: which download outcome occurs is a free parameter. Read as written, the form declares a `video_path` field and the `Video` model a `video_url` field (thumbnail/forms.py:12-25, thumbnail/models.py:5-7), so `form.save(commit=False)` leaves `video_url` empty and `requests.get('')` raises. By that reading every valid POST ends in the `Crashed` outcome; the model does not fix the outcome to it.
- Writing the temporary file, opening it with `VideoFileClip` and `clip.get_frame` are file I/O and a foreign decoder. A frame is known only by its size. Decoder, PIL and storage exceptions other than the zero-duration error are not modelled; the code catches them the same way and saves the video without a thumbnail, so in the code a processing error can also come from those.
- Screenshot.ScreenshotTime: times are reals, so there is no NaN. In the code, a `timestamp` field of `nan` passes `float()` (thumbnail/views.py:25). Both `nan < 0` and `nan > duration` are false at thumbnail/utils.py:43, so `nan` is used as the screenshot time and handed to `clip.get_frame`. The promise that the time lies in `[0, duration]` for a positive duration therefore holds in the code only for non-NaN requests. A guard written as `not (0 <= timestamp <= duration)` would reject NaN.
- A duration the decoder cannot determine (`None` in Python) is not modelled; durations are reals. In the code it passes the `== 0` guard and then raises `TypeError`: from the comparison `timestamp > duration` when a timestamp of at least 0 was requested, and from `random.uniform(0, None)` when there is no timestamp or a negative one. `upload_video` catches it as a processing error.
- PIL's `Image.fromarray`, Lanczos resampling and JPEG encoding into a `BytesIO` are not modelled; only the 300×140 output size is kept.
- `random.uniform` is a parameter `draw` in the closed range between its two arguments. Its distribution is not modelled.
- Decimal.RoundHundredths: rounds the exact real value with ties going up. Python's `:.2f` rounds the binary float, half to even. A negative time that rounds to zero is written `0.00` here, while Python writes `-0.00`; both read back as zero.
- Decimal.ParseNumber: accepts only `[+|-]digits[.digits]` and `[+|-].digits`. Python's `float()` also accepts surrounding whitespace, exponents (`1e3`, and a storage suffix such as `1e00000` would read as 1.0), `inf`, `nan`, `_` digit separators and non-ASCII digits, and the model rejects those. It also returns the exact decimal value instead of the nearest binary float.
- Views.ParseRequestTimestamp: inherits the narrower grammar of `ParseNumber`, so a field such as `1e3` is a bad request here but accepted by the code.
- The GET branch, form rendering, redirects, `ContentFile`, `video.thumbnail.save`, `video.save()`, the debug `print` and the text of the processing error message are Django plumbing. `UploadVideo` reports a processing error as a flag.
- Storage may rename a saved file by adding a directory or a random suffix. The model does not choose the name. Instead, the lemmas take any prefix (`DecodeThumbnailName`) or any suffix token (`NonNumericLastTokenDecodesToNone`, `DigitSuffixMisread`) as a parameter.
- The `order_by('-id')` query is the database's job. `VideoList` takes the videos in the order the query returns them and keeps that order.
- `thumbnail/admin.py` and the rest of `thumbnail/forms.py` and `thumbnail/models.py` are declarative Django definitions without logic. The form's `aspect_ratio` field is never read by the views.
