# CCTV twitter bot — a Dafny model of its camera pipeline

The bot picks a random public camera from a directory site's sitemap,
fetches the camera's page, takes the still-image URL and the location text
from it, downloads the image, drops it if it is a single colour, and posts
it with a caption such as `Seattle, Washington 🇺🇸`. This project models the
logic of `twitterbot.py` that sits between the network calls:

- `py_str.dfy` (module `PyStr`): the pieces of Python's `str` the bot relies
  on, with Python's own edge cases. `find` returns -1 on a miss. A slice bound
  that is negative counts from the end, a bound past either end is clamped,
  and a start at or past the stop gives `""`. `replace` works the way CPython
  does it: find, keep the prefix, substitute, continue after the match.
  `strip()` removes exactly the characters `str.isspace()` accepts.
- `camera_fields.dfy` (module `CameraFields`): the camera id, the stream URL,
  `_url_is_valid`, the flattened details text and the label-anchored
  location fields.
- `caption.dfy` (module `Caption`): `create_tweet_text`.
- `flag.dfy` (module `Flag`): `assemble_flag_emoji`.
- `bot.dfy` (module `Bot`): the imperative part. It has the `Camera` class
  (built from a fetched page) and a `FileSystem` class holding a map from
  paths to bytes. It has the retry loops of `_save_image` and
  `load_cameras`, the write-then-maybe-delete of `save_and_validate_image`,
  and the rejection sampling of `get_random_valid_camera`.
- `wrappers.dfy` (module `Wrappers`): `Option`.

The outside world enters only as parameters:

- `outcome(a)`: the response to HTTP attempt `a`, either an exception or a
  status and a body. For the sitemap, the body is already reduced to its
  `loc` texts.
- A `PageResponse`: a failed fetch, or the body together with what the two
  XPath queries return on it.
- `pick(d)`: the index `random.choice` draws on draw `d`.
- `isSolidColor`: the result of the OpenCV / NumPy test, as a function of
  the image bytes.

The model follows what the code does, including where that differs from
what the names, docstrings and type hints suggest:

- **Details and info.** A page whose details text flattens to `""` still
  gets an `info` with four empty fields (`CameraFields.ParseEmptyDetails`).
  Info is not limited to a non-empty text.
- **Missing labels.** A missing label does not give `"-"`. `find` returns
  -1 and the slice wraps around (`CameraFields.ParseWithoutLatitude`).
- **Sitemap errors.** `load_cameras` does not catch transport exceptions:
  they propagate (`Bot.RequestRaised`).
- **Sitemap with no attempts.** With `retries <= 0`, `load_cameras` falls off
  its loop and returns `None` (`Bot.NoneReturned`). It does not raise.
- **Page status code.** The page fetch ignores the status code. Any response
  body is parsed as long as it is non-empty.
- **Stream URL validity.** `_url_is_valid` itself would raise on a missing
  stream URL. The selection loop tests for presence first, and so does the
  model.

## Model

| member | source | states |
|---|---|---|
| PyStr.FindFrom | twitterbot.py:83-86 | the result is -1 or an index at or after the start where the pattern occurs, with no occurrence between the start and the result |
| PyStr.Find | twitterbot.py:83-86 | `str.find`: -1 exactly when the pattern occurs nowhere; otherwise an occurrence with none before it |
| PyStr.ContainsIsInfix | twitterbot.py:67-68 | `sub in s` (tested through `find`) holds exactly when `sub` occurs at some index of `s` |
| PyStr.SliceBound | twitterbot.py:83-86 | a slice bound in range is kept, a negative one within range counts from the end, one above the length is clamped to the length and one below minus the length to 0 |
| PyStr.Slice | twitterbot.py:83-86 | `s[a:b]` is a piece of `s`; it is `s[a..b]` for in-range bounds in order, `""` when the stop is at or before the start, and for a negative stop such as the -1 of a failed `find` it runs to that many characters before the end |
| PyStr.FindAt | twitterbot.py:83-86 | an occurrence with none before it is the index `find` returns |
| PyStr.Replace | twitterbot.py:61 | `str.replace` never lengthens the text when the replacement is no longer than the pattern |
| PyStr.ReplaceAbsent | twitterbot.py:61 | with no occurrence of the pattern, `replace` returns the string unchanged |
| PyStr.ReplaceAbsentChar | twitterbot.py:188-193 | a pattern holding a character that the text lacks leaves the text unchanged |
| PyStr.ReplaceCharIsRemoval | twitterbot.py:75-76 | replacing a one-character pattern by `""` deletes exactly that character everywhere, the same as an independent filter |
| PyStr.RemoveAllKeepsMissing | twitterbot.py:75-76 | deleting one character never brings in another, so the text after both `replace` calls holds neither a newline nor a tab |
| PyStr.LeadingSpace | twitterbot.py:76 | the number of leading whitespace characters: all of them are whitespace and the next one is not |
| PyStr.TrailingSpace | twitterbot.py:76 | the same for the trailing whitespace |
| PyStr.IsSpaceListed | twitterbot.py:76 | the whitespace test `strip()` uses holds exactly for the 29 characters of Python's `str.isspace()`, listed one by one |
| PyStr.Strip | twitterbot.py:76 | `strip()` returns the piece of the text that is left after all-whitespace runs before and after it, and that piece neither starts nor ends with whitespace |
| CameraFields.IsDigit | twitterbot.py:47 | a character counts as a digit exactly when it is one of "0" to "9" |
| CameraFields.CameraId | twitterbot.py:45-47 | the id is no longer than the URL, holds only digits, and is empty exactly when the URL holds no digit |
| CameraFields.CameraIdAppend | twitterbot.py:45-47 | the id of a concatenation is the concatenation of the ids, so the id is the URL's digits in order |
| CameraFields.CameraIdOfDigits | twitterbot.py:45-47 | a string of digits is its own id |
| CameraFields.CameraIdIdempotent | twitterbot.py:45-47 | taking the id of an id changes nothing |
| CameraFields.FindCameraUrl | twitterbot.py:58-61 | the stream URL exists exactly when the page has an image source; it is no longer than the first source, and is that source when it holds no "?COUNTER" |
| CameraFields.CounterNotStraddling | twitterbot.py:61 | in a marker-free prefix followed by "?COUNTER", the first occurrence `replace` finds is the one right after the prefix |
| CameraFields.DropFirstCounter | twitterbot.py:61 | deleting every "?COUNTER" keeps the marker-free prefix, drops the first marker and carries on with the rest, so every marker is deleted from left to right |
| CameraFields.FirstCounterSplit | twitterbot.py:61 | every source holding "?COUNTER" is a marker-free prefix, the marker and a rest, so the previous row covers every source that holds the marker |
| CameraFields.DropCounterWithoutMarker | twitterbot.py:61 | a source without "?COUNTER" is kept as it is |
| CameraFields.FindCameraUrlDropsCounter | twitterbot.py:58-61 | a first source of the form prefix, "?COUNTER", rest yields the prefix and the rest with its markers deleted; one ending in a single "?COUNTER" yields the source without it |
| CameraFields.ValidStreamUrl | twitterbot.py:63-69 | valid exactly when the URL is not "/static/no.jpg", has no "?stream" and has ".jpg" |
| CameraFields.CleanFragment | twitterbot.py:75-76 | a cleaned fragment is the fragment with every newline and every tab deleted, then stripped; it holds no newline or tab and neither starts nor ends with whitespace |
| CameraFields.CleanFragmentNoBreaks | twitterbot.py:75-76 | the two `replace` calls followed by `strip()` leave no newline and no tab |
| CameraFields.StripKeeps | twitterbot.py:76 | `strip()` keeps a text free of newlines and tabs |
| CameraFields.FlattenDetails | twitterbot.py:71-77 | the joined details text holds no newline or tab |
| CameraFields.FlattenDetailsSingle | twitterbot.py:74-77 | one text flattens to its cleaned form, so with the next row the details are the cleaned texts joined in document order |
| CameraFields.FlattenDetailsAppend | twitterbot.py:74-77 | flattening two runs of fragments is flattening each and concatenating |
| CameraFields.Field | twitterbot.py:83-86 | every field, whatever the text, is a piece of the details text |
| CameraFields.ParseCameraDetails | twitterbot.py:79-88 | each of the four fields is a piece of the details text |
| CameraFields.FieldBetween | twitterbot.py:83-86 | when the start label ends before the first end label, the field is the text in between and holds no end label |
| CameraFields.ParseInOrder | twitterbot.py:79-88 | with the labels in the order Country:, Country code:, Region:, City:, Latitude:, each field is exactly the text between its labels and holds no copy of its end label |
| CameraFields.ParseEmptyDetails | twitterbot.py:79-88 | an empty details text gives four empty fields |
| CameraFields.ParseWithoutLatitude | twitterbot.py:83 | without "Latitude:" the city runs to the last character but one |
| Caption.OrUnknown | twitterbot.py:186-187 | a field reads as "Unknown" exactly when it is "-" or already "Unknown"; any other field is kept, and the result is never "-" |
| Caption.CountryOf | twitterbot.py:188-193 | the sentinel gives "Unknown"; any other name goes through the chain and gets no longer |
| Caption.CountryOfPlainName | twitterbot.py:188-193 | a country name with no comma and no 'F' reaches the caption unchanged |
| Caption.NormalizeCountry | twitterbot.py:188-193 | the five `replace` calls never lengthen the country name |
| Caption.NormalizeKeepsPlainName | twitterbot.py:188-193 | a name holding none of the five patterns is unchanged |
| Caption.NormalizeKeepsNameWithout | twitterbot.py:188-193 | a name with no comma and no 'F' (such as "United States" or "Canada") is unchanged |
| Caption.NormalizeByLastStep | twitterbot.py:188-193 | a name without 'r', 'R', 'I' and 'F' is changed only by the last `replace` |
| Caption.RussianFederationStep | twitterbot.py:192 | "n Federation" is deleted from "Russian Federation" |
| Caption.NormalizeRussia | twitterbot.py:188-193 | "Russian Federation" becomes "Russia" |
| Caption.PalestineStep | twitterbot.py:193 | "ian, State Of" becomes "e" in "Palestinian, State Of" |
| Caption.NormalizePalestine | twitterbot.py:188-193 | "Palestinian, State Of" becomes "Palestine" |
| Caption.Location | twitterbot.py:195-200 | the location starts with the city and ", "; it ends with the country for every country but the United States, and for the United States the rest is the region |
| Caption.CreateTweetText | twitterbot.py:184-207 | `create_tweet_text`: the caption is "Unknown Location" exactly when the substituted city and the normalised country are "Unknown", and every other caption ends in a space and the flag |
| Caption.ComposeCaption | twitterbot.py:195-207 | every caption other than "Unknown Location" ends in a space and the flag |
| Caption.UnknownPairSplit | twitterbot.py:204 | a location `a, b` equal to "Unknown, Unknown" has both parts "Unknown" |
| Caption.NotUnknownLocation | twitterbot.py:205 | nothing of the form `x, y` equals "Unknown Location" |
| Caption.CaptionForUnitedStates | twitterbot.py:195-207 | United States: city and region, with no country; city and region both unknown give "Unknown, United States " and the flag, never "Unknown Location", since that case is tested first |
| Caption.CaptionForCanada | twitterbot.py:197-207 | Canada: city, region and ", Canada", then the flag |
| Caption.CaptionForOtherCountry | twitterbot.py:199-207 | other countries: city and country, then the flag; city and country both unknown give "Unknown Location" with no flag |
| Caption.CanadaNeverUnknown | twitterbot.py:197-207 | a Canadian caption is never "Unknown Location" |
| Caption.OtherCountryUnknownIff | twitterbot.py:199-207 | outside the US and Canada, the caption is "Unknown Location" exactly when city and country are "Unknown" |
| Caption.UnknownLocationIff | twitterbot.py:195-207 | the caption is "Unknown Location" exactly when the city and the country are "Unknown" |
| Caption.TweetTextForUnitedStates | twitterbot.py:184-207 | for a US camera, "-" fields read as "Unknown", then the US case above holds |
| Caption.TweetTextForCanada | twitterbot.py:184-207 | for a Canadian camera, "-" fields read as "Unknown", then city, province, ", Canada" and the flag |
| Caption.CaptionUnknownInUnitedStates | twitterbot.py:186-203 | a US camera with city and region "-" gets "Unknown, United States " and the flag |
| Caption.CaptionNothingKnown | twitterbot.py:186-205 | a camera with every field "-" gets "Unknown Location" |
| Flag.RegionalIndicator | twitterbot.py:212-239 | an upper-case letter maps to a character in U+1F1E6..U+1F1FF |
| Flag.SymbolsTable | twitterbot.py:212-239 | the table's keys are exactly 'A'..'Z', and each maps to U+1F1E6 plus its offset from 'A' |
| Flag.Symbol | twitterbot.py:240 | `symbols.get(c, c)`: the regional indicator for an upper-case letter, the character itself otherwise |
| Flag.AssembleFlagEmoji | twitterbot.py:210-240 | the flag has the code's length, and each position holds the regional indicator of an upper-case letter or the unchanged character |
| Flag.FlagRoundTrip | twitterbot.py:210-240 | a code without regional indicators can be read back from its flag |
| Flag.FlagExamples | twitterbot.py:210-240 | "US" gives U+1F1FA U+1F1F8; "-" and "" pass through |
| Bot.FirstStop | twitterbot.py:92-107 | under the stop rule `Bot.StopsAt`, the attempt a retry loop stops at lies in 1..retries and answered 200, or raised where exceptions propagate; every earlier attempt answered non-200 (and did not raise, where exceptions propagate); no attempt at all when `retries <= 0` |
| Bot.FirstIn | twitterbot.py:92 | the first index in a range where a test holds: within range, the test holds there and nowhere before; None exactly when it holds nowhere in range |
| Bot.SaveStopIff | twitterbot.py:90-108 | the save loop succeeds exactly when some attempt within the budget answers 200, and the attempt it stops at answered 200 |
| Bot.LoadStopNoneIff | twitterbot.py:151-168 | the sitemap loop runs out exactly when every attempt in the budget is answered, and none with 200 |
| Bot.RetryExample | twitterbot.py:90-108 | an exception, then a 503, then a 200: saving needs three attempts and fails with two, and a loop that lets exceptions through stops at the first |
| Bot.Camera.constructor | twitterbot.py:35-43 | the id is the URL's digits; the stream URL and the details exist only for a fetched, non-empty page (`Bot.HasTree`, the truthiness test of line 40); the info exists exactly when the details do |
| Bot.Camera.SaveImage | twitterbot.py:90-108 | succeeds exactly when some attempt within the budget answers 200; then the first such body is written to the path and nothing else changes; otherwise no file changes and all `retries` attempts were made (none when `retries <= 0`) |
| Bot.Camera.SaveAndValidateImage | twitterbot.py:126-141 | without a 200, fails and leaves the disk unchanged; with one, succeeds exactly when the image is not a single colour, and either keeps the written file or removes the path |
| Bot.LoadCameras | twitterbot.py:151-168 | returns the first 200 body's `loc` texts if that response comes before any exception; otherwise passes the exception on; raises FetchCamerasError with its message exactly when `retries >= 1` and every attempt answered non-200; returns None exactly when `retries <= 0` |
| Bot.Acceptable | twitterbot.py:176 | a draw is accepted only for a fetched, non-empty page with an image source; for a first source without "?COUNTER" it is accepted exactly when that source passes `_url_is_valid` |
| Bot.FirstAcceptedIff | twitterbot.py:171-181 | some draw is accepted exactly when one of the drawn pages is acceptable, and the one taken is the earliest |
| Bot.GetRandomValidCamera | twitterbot.py:171-181 | an empty pool fails at once; otherwise a camera is returned exactly when some draw in the budget is acceptable; it is the first such draw's camera: its URL is the drawn one, and its page content, stream URL, details and info are the ones that draw's page gives; it has page content, a non-empty valid stream URL and location info |

## Left out

- HTTP through `requests` (twitterbot.py:52, 94-95, 154): every response is an oracle value. The request headers and the timeout are plumbing.
- HTML and XML parsing with `lxml` (twitterbot.py:39-40, 60, 73-74, 157-159): the XPath results come with the page response, and the sitemap body is already its `loc` texts. Parser errors on malformed input, and a `loc` element whose `text` is `None`, are not modelled.
- `_image_is_solid_color` (twitterbot.py:110-124): image decoding and a floating-point standard deviation. It is the oracle `isSolidColor` applied to the bytes just written.
- File-system errors: an `OSError` from `open` or `write` in `_save_image`, or from `os.remove` in `save_and_validate_image`, is not modelled. `_save_image` does not catch these errors.
- Tweepy authentication and posting (twitterbot.py:144-148, 243-259), `main` with its endless loop, `time.sleep`, `os.makedirs` and the image-path naming (twitterbot.py:262-291), and all logging.
- `random.choice`: an index oracle `pick`, reduced modulo the pool size.
- Bot.GetRandomValidCamera: the source resamples forever. The model stops after `fuel` draws and reports `Exhausted`, so it says nothing about a run that needs more draws.
- Bot.Camera.SaveImage: the `camera_url` parameter is not modelled; the outcome oracle stands for the responses to fetching it. The default `retries=RETRIES` from settings.py is not part of this model; `retries` is a parameter.
- CameraFields.IsDigit, CameraFields.CameraId: only the ASCII digits count. Python's `str.isdigit()` also accepts other Unicode digits, such as superscripts and other scripts' digits.
- PyStr.Replace: its own contract states only the length bound. What it computes is stated by `PyStr.ReplaceAbsent`, `PyStr.ReplaceCharIsRemoval` and the country-name lemmas.
- PyStr.Replace: requires a non-empty pattern. Every pattern the bot passes is a non-empty literal, and Python's special behaviour for an empty pattern is not modelled.
- Caption.NormalizeCountry: the chain is proved on its general properties and on two names. It is not classified for every official name. For example, "Taiwan, Province Of China" becomes "Taiwan China".
- The `page_tree` attribute is not a field. The predicate `Bot.HasTree` says when the tree would be built.
- settings.py, credentials.py, src/constants.py and src/exceptions.py are not part of this model. They hold configuration, secrets, a duplicate of the flag table and an unused exception class.
