/** The logic of thumbnail/views.py: reading the optional `timestamp` form field
    in `upload_video`, naming the thumbnail after the chosen time, and recovering
    that time from each stored name in `video_list`. Django's form handling,
    storage, redirects and templates are not modelled. */
module Views {
  import opened Wrappers
  import opened Screenshot
  import opened Strings
  import opened Decimal

  const BadTimestampMessage: string := "Invalid timestamp format."

  /** The `timestamp` POST field: absent or empty means no timestamp, a numeral
      is the requested time, anything else is a bad request. */
  function ParseRequestTimestamp(field: Option<string>): (r: Result<Option<real>, string>)
    ensures field.None? || field == Some("") ==> r == Success(None)
    ensures field.Some? && field.value != "" ==>
              (r.Failure? <==> ParseNumber(field.value).None?) &&
              (r.Success? ==> r.value == ParseNumber(field.value))
  {
    match field
    case None => Success(None)
    case Some(s) =>
      if s == "" then Success(None)
      else match ParseNumber(s)
        case None => Failure(BadTimestampMessage)
        case Some(t) => Success(Some(t))
  }

  /** The name a thumbnail is saved under: `thumbnail_{t:.2f}.jpg`, for a time of
      `h` hundredths of a second. */
  function ThumbnailName(h: int): (name: string)
    ensures |name| >= 14 && name[..10] == "thumbnail_" && name[10..] == FormatFixed2(h) + Jpg
    ensures '_' !in name[10..]
  {
    var digits := FormatFixed2(h);
    var name := "thumbnail_" + (digits + Jpg);
    assert name[..10] == "thumbnail_" && name[10..] == digits + Jpg;
    assert '_' !in digits + Jpg by {
      assert forall i :: 0 <= i < |digits| ==> IsNumeralChar(digits[i]);
    }
    name
  }

  /** How `download_video` ends: the video, as the decoder sees it (its frame
      size and duration); `None` for a response whose status is not 200; or an
      exception raised by `requests.get` (a connection error, a URL it cannot
      use), which `upload_video` does not catch. */
  datatype Download =
    | Fetched(frame: Image, duration: real)
    | NotOk
    | Raised

  /** How a POST to `upload_video` ends: a 400 response, the form shown again,
      an uncaught exception (Django answers with a server error and nothing is
      saved), or the video saved, with the thumbnail name when one was made. */
  datatype UploadOutcome =
    | BadRequest(message: string)
    | FormRedisplayed
    | Crashed
    | Saved(thumbnailName: Option<string>, processingError: bool)

  /** The POST branch of `upload_video`. `formValid` is the form's verdict,
      `download` is what `download_video` did, and `draw` is the random
      fallback time `capture_screenshot` would draw. */
  function UploadVideo(field: Option<string>, formValid: bool, download: Download, draw: real): (out: UploadOutcome)
    requires download.Fetched? ==> UniformRange(0.0, download.duration, draw)
    ensures out.BadRequest? <==> field.Some? && field.value != "" && ParseNumber(field.value).None?
    ensures out.Crashed? <==> !out.BadRequest? && formValid && download.Raised?
    ensures out.Saved? <==> !out.BadRequest? && formValid && !download.Raised?
    ensures out.Saved? && out.thumbnailName.Some? ==> download.Fetched? && download.duration != 0.0
    ensures out.Saved? && download.Fetched? && download.duration != 0.0 ==> out.thumbnailName.Some?
    ensures out.Saved? ==> (out.processingError <==> download.Fetched? && download.duration == 0.0)
  {
    match ParseRequestTimestamp(field)
    case Failure(message) => BadRequest(message)
    case Success(timestamp) =>
      if !formValid then FormRedisplayed
      else match download
        case Raised => Crashed
        case NotOk => Saved(None, false)
        case Fetched(frame, duration) =>
          match CaptureScreenshot(frame, duration, timestamp, draw)
          case Failure(_) => Saved(None, true)
          case Success(capture) => Saved(Some(ThumbnailName(RoundHundredths(capture.time))), false)
  }

  /** A stored video: its id, its URL and the stored thumbnail name (`None` for
      a null field). */
  datatype Video = Video(id: int, url: string, thumbnail: Option<string>)

  /** The timestamp `video_list` shows for a stored thumbnail name: `None` when
      there is no name, otherwise the last '_'-separated token with ".jpg"
      removed, read as a number (`None` where `float()` fails). */
  function ThumbnailTimestamp(thumbnail: Option<string>): (t: Option<real>)
    ensures thumbnail.None? || thumbnail == Some("") ==> t.None?
  {
    match thumbnail
    case None => None
    case Some(name) =>
      if name == "" then None else ParseNumber(RemoveAll(LastToken(name, '_'), Jpg))
  }

  /** `video_list`: one `(video, timestamp)` pair per video, in the order the
      query returned them. */
  method VideoList(videos: seq<Video>) returns (videoData: seq<(Video, Option<real>)>)
    ensures |videoData| == |videos|
    ensures forall i :: 0 <= i < |videos| ==> videoData[i] == (videos[i], ThumbnailTimestamp(videos[i].thumbnail))
  {
    videoData := [];
    for i := 0 to |videos|
      invariant |videoData| == i
      invariant forall j :: 0 <= j < i ==> videoData[j] == (videos[j], ThumbnailTimestamp(videos[j].thumbnail))
    {
      var video := videos[i];
      var timestamp: Option<real>;
      // `if video.thumbnail:` is false for a null field and for an empty name
      // alike, so `if filename:` below never sees an empty name; modelling the
      // empty name at either test gives the same timestamp
      if video.thumbnail.Some? {
        var filename := video.thumbnail.value;
        if filename != "" {
          var parts := Split(filename, '_');
          var timestampStr := RemoveAll(parts[|parts| - 1], Jpg);
          timestamp := ParseNumber(timestampStr);
        } else {
          timestamp := None;
        }
      } else {
        timestamp := None;
      }
      videoData := videoData + [(video, timestamp)];
    }
  }

  /** The last '_'-token of a thumbnail name, under any prefix, is the
      formatted time followed by ".jpg". */
  lemma ThumbnailNameLastToken(prefix: string, h: int)
    ensures LastToken(prefix + ThumbnailName(h), '_') == FormatFixed2(h) + Jpg
  {
    var name := ThumbnailName(h);
    var k := |prefix| + 9;
    assert (prefix + name)[k + 1..] == name[10..];
    LastTokenAt(prefix + name, '_', k);
  }

  /** Removing ".jpg" from the formatted time followed by ".jpg" leaves the
      formatted time. */
  lemma FormattedTimeWithoutJpg(h: int)
    ensures RemoveAll(FormatFixed2(h) + Jpg, Jpg) == FormatFixed2(h)
  {
    var digits := FormatFixed2(h);
    assert 'j' !in digits by {
      forall i | 0 <= i < |digits| ensures digits[i] != 'j' {
        assert IsNumeralChar(digits[i]);
      }
    }
    RemoveJpgSuffix(digits);
  }

  /** Decoding the name made for a time gives that time back, whatever storage
      directory (or other text) precedes the name. */
  lemma DecodeThumbnailName(prefix: string, h: int)
    ensures ThumbnailTimestamp(Some(prefix + ThumbnailName(h))) == Some(h as real / 100.0)
  {
    ThumbnailNameLastToken(prefix, h);
    FormattedTimeWithoutJpg(h);
    FormatThenParse(h);
  }

  /** A name whose last '_'-token, once ".jpg" is removed, holds a character
      other than a digit, sign or dot shows no timestamp. Python's `float()`
      also reads exponents, `inf` and `nan`, which `ParseNumber` rejects. */
  lemma {:induction false} NonNumericLastTokenDecodesToNone(prefix: string, token: string, i: nat)
    requires '_' !in token
    requires i < |RemoveAll(token, Jpg)| && !IsNumeralChar(RemoveAll(token, Jpg)[i])
    ensures ThumbnailTimestamp(Some(prefix + "_" + token)) == None
  {
    var t := RemoveAll(token, Jpg);
    LastTokenAfterSep(prefix, '_', token);
    ParseNumberAccepts(t);
    if IsNumeral(t) {
      NumeralChars(t);
      assert false;
    }
  }

  /** A storage suffix made only of digits is read as a time: the name
      `thumbnail_12.34_<digits>.jpg` shows `<digits>` seconds, not 12.34. */
  lemma {:induction false} DigitSuffixMisread(prefix: string, digits: string)
    requires |digits| > 0 && AllDigits(digits)
    ensures ThumbnailTimestamp(Some(prefix + "_" + digits + Jpg)) == Some(DigitsValue(digits) as real)
  {
    assert '_' !in digits + Jpg by {
      forall i | 0 <= i < |digits + Jpg| ensures (digits + Jpg)[i] != '_' {
        if i < |digits| { assert IsDigit(digits[i]); }
      }
    }
    assert 'j' !in digits by {
      forall i | 0 <= i < |digits| ensures digits[i] != 'j' {
        assert IsDigit(digits[i]);
      }
    }
    assert prefix + "_" + digits + Jpg == prefix + ['_'] + (digits + Jpg);
    LastTokenAfterSep(prefix, '_', digits + Jpg);
    RemoveJpgSuffix(digits);
  }

  /** A valid upload of a video with a non-zero duration is saved under the
      name made for its screenshot time, rounded to hundredths. */
  lemma {:induction false} UploadSavesName(field: Option<string>, video: Download, draw: real)
    requires video.Fetched? && UniformRange(0.0, video.duration, draw)
    requires video.duration != 0.0 && ParseRequestTimestamp(field).Success?
    ensures UploadVideo(field, true, video, draw)
         == Saved(Some(ThumbnailName(RoundHundredths(
              ScreenshotTime(video.duration, ParseRequestTimestamp(field).value, draw).value))), false)
  {
    var timestamp := ParseRequestTimestamp(field).value;
    var time := ScreenshotTime(video.duration, timestamp, draw).value;
    assert CaptureScreenshot(video.frame, video.duration, timestamp, draw)
        == Success(Capture(Image(ThumbWidth, ThumbHeight), video.duration, time));
  }

  /** The time shown for a freshly uploaded thumbnail is the chosen screenshot
      time to within half a hundredth of a second, wherever it is stored. */
  lemma {:induction false} UploadThenList(field: Option<string>, video: Download, draw: real, prefix: string)
    requires video.Fetched? && UniformRange(0.0, video.duration, draw)
    requires video.duration != 0.0 && ParseRequestTimestamp(field).Success?
    ensures var out := UploadVideo(field, true, video, draw);
            var time := ScreenshotTime(video.duration, ParseRequestTimestamp(field).value, draw).value;
            out.Saved? && out.thumbnailName.Some? &&
            ThumbnailTimestamp(Some(prefix + out.thumbnailName.value)) == Some(RoundHundredths(time) as real / 100.0) &&
            time - 0.005 < RoundHundredths(time) as real / 100.0 <= time + 0.005
  {
    var time := ScreenshotTime(video.duration, ParseRequestTimestamp(field).value, draw).value;
    UploadSavesName(field, video, draw);
    DecodeThumbnailName(prefix, RoundHundredths(time));
  }
}
