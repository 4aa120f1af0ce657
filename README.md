# Stonka Hunter decision rules in Dafny

Stonka Hunter is a Streamlit helper for potato growers. It photographs a leaf, counts the orange blobs of Colorado potato beetles ("stonka") with OpenCV, fetches the current temperature from Open-Meteo and shows spray-timing advice. Saved detections can be browsed in a history tab. Almost all of the work is done by libraries. This project models the rule logic between those library calls and proves its properties:

- `recommendations.dfy` (module `Recommendations`): `generate_recommendations`. It turns a beetle count and an optional temperature into an ordered advice list, built append by append, with an early return when the count is zero.
- `location.dfy` (module `Location`): the coordinate choice in `script.py`. A truthy GPS latitude wins. Otherwise the coordinates of the city picked from `CITY_COORDS` are used.
- `weather.dfy` (module `Weather`): the advice branch of `get_live_weather`, and its fallback when the fetch fails.
- `detection.dfy` (module `Detection`): the contour size filter. It keeps contours of area over 150 and draws one red box per kept contour on the image in place. Also the alert-versus-clear branch on the count.
- `text.dfy` (module `Text`): the Python `str` behaviour the history tab relies on. This is code-point ordering, `lower()`, `endswith()` and `replace(pat, "")`, which deletes every non-overlapping occurrence from left to right.
- `sorting.dfy` (module `Sorting`): `files.sort(reverse=True)`. An insertion sort runs in place on an `array`. It is proved equal to a reference sort, and that sort is proved to be the only non-increasing permutation.
- `history.dfy` (module `History`): `show_history_tab`. It covers the extension filter, the sort, the total, and the per-file loop that decodes `detection_YYYYMMDD_HHMMSS.jpg` into `YYYY-MM-DD HH:MM`, with `Unknown time` as the fallback.
- `wrappers.dfy` (module `Wrappers`): `Option`, for Python's `None`.

Inputs that come from outside are parameters:
- the temperature the weather fetch produced, or `None` when any step of it raised;
- what the geolocation widget reported;
- the selected city, as an index into the select box;
- each contour's area and bounding rectangle, as OpenCV computes them;
- the names `os.listdir` returned, or `None` when the save directory is missing.

Temperatures and areas are `real`: the code only compares them with integer thresholds.

Two behaviours of the code worth noting:
- With a count of 0, `generate_recommendations` returns only its two messages. It returns before the photo-record reminder is appended, so the list has 2 entries.
- The count is not checked to be non-negative. Any nonzero count up to 3, negatives included, gets the hand-pick tier.

## Model

| member | source | states |
|---|---|---|
| Recommendations.GenerateRecommendations | recommendations.py:3-35 | count 0 gives exactly the no-action and crop-rotation messages, ignoring the temperature and leaving out the reminder. A nonzero count up to 3, negatives included, starts hand-pick then natural predators. 4..7 starts biological treatment then crop rotation. 8 and above starts the three high-infestation messages in order. For a nonzero count the temperature note sits right after the tier block, the photo reminder is last, and the length is 3 to 5. The list equals the composition `Advice` |
| Recommendations.TierAdvice | recommendations.py:12-25 | the tier block has two messages, or three exactly above 7. Hand-pick starts it exactly for counts up to 3, biological treatment exactly for 4..7, the high-infestation notice exactly above 7. It never holds the no-action message or the photo reminder |
| Recommendations.TemperatureAdvice | recommendations.py:28-32 | at most one note: the low-temperature note exactly below 15, the high-temperature note exactly above 25, none for 15..25 inclusive or an absent temperature |
| Recommendations.LowTemperatureNoteIff | recommendations.py:28-30 | for a nonzero count, the low-temperature message is in the list if and only if the temperature is present and below 15 |
| Recommendations.HighTemperatureNoteIff | recommendations.py:31-32 | for a nonzero count, the high-temperature message is in the list if and only if the temperature is present and above 25 |
| Recommendations.ZeroCountIgnoresTemperature | recommendations.py:6-9 | with count 0 any two temperatures give the same list, and the photo reminder is not in it |
| Location.CityOptions | script.py:13-27 | the select box offers the seven keys of `CITY_COORDS`, each once, and nothing else |
| Location.SelectedCity | script.py:27-34 | whatever option the select box returns is a key of `CITY_COORDS`, so the lookup at line 34 cannot fail |
| Location.LatitudeTruthy | script.py:30 | `location.get('latitude')` is falsy exactly when the latitude is missing or 0 |
| Location.ResolvePosition | script.py:30-35 | the GPS label is shown exactly when the latitude is truthy, and then the GPS latitude and longitude are used. Otherwise the selected city's table coordinates are used under the city's own name |
| Location.ZeroLatitudeFallsBack | script.py:30 | a latitude of exactly 0 is falsy. It gives the same position as no fix at all, named after the selected city |
| Weather.SprayAdvice | script.py:45-50 | "too hot for pyrethroids" exactly above 20, "too cold" exactly below 5, "conditions OK" exactly for 5..20 inclusive. The three texts are distinct, so exactly one applies, and none is the connection-error text |
| Weather.LiveWeather | script.py:38-53 | the returned temperature is the fetched one. The connection-error message is returned exactly when the fetch failed. Otherwise the advice is `SprayAdvice` of the fetched temperature, one of the three texts |
| Detection.RealPests | script.py:96-99 | the kept contours, in input order. Its own contract is only the bound "no more than the input". What it keeps is stated by `RealPestsMembers`, `RealPestsAppend` and `RealPestsCount` |
| Detection.RealPestsMembers | script.py:96-99 | a contour is kept if and only if it is one of the input contours and its area is strictly greater than 150 |
| Detection.RealPestsAppend | script.py:96-99 | filtering distributes over concatenation, so kept contours keep their input order |
| Detection.RealPestsCount | script.py:95-104 | `detected_count` equals the number of input positions whose contour area exceeds 150 |
| Detection.BoundaryAreaNotCounted | script.py:98 | a contour of area exactly 150 adds nothing to the kept list |
| Detection.Boxes | script.py:100-102 | one box per kept contour, in the same order, each red, 3 pixels wide, spanning the contour's bounding rectangle |
| Detection.FilterContours | script.py:95-104 | the loop returns exactly the filtered contours. It appends to the image exactly one box per kept contour and changes nothing else |
| Detection.ResultBranch | script.py:110-118 | the alert is chosen if and only if the count is positive, and it carries the count and the current temperature. Otherwise the all-clear is chosen |
| Detection.AlertIffLargeContour | script.py:104-110 | the alert is raised if and only if some contour has area above 150 |
| Text.LexLe | history_view.py:24 | Python's `<=` on strings: code-point order, a proper prefix first. It is defined by its body. `LexLeTotal`, `LexLeAntisymmetric` and `LexLeTransitive` prove that it is a total order, which is the order `sort` uses |
| Text.LexLeTotal | history_view.py:24 | any two names are comparable |
| Text.LexLeAntisymmetric | history_view.py:24 | two names each `<=` the other are equal |
| Text.LexLeTransitive | history_view.py:24 | the order is transitive |
| Text.Lower | history_view.py:17 | `str.lower()`: same length, each ASCII capital replaced by its lower-case letter, every other character kept |
| Text.RemoveAll | history_view.py:31 | `str.replace(pat, "")`. Its own contract is only that the result is no longer than the input. What it deletes and keeps is stated by `RemoveAllFront`, `RemoveAllSkips` and `RemoveAllKeepsSuffix` |
| Text.RemoveAllFront | history_view.py:31 | an occurrence of the pattern at the front is deleted |
| Text.RemoveAllSkips | history_view.py:31 | text that cannot start an occurrence is kept unchanged in front of the rest |
| Text.RemoveAllKeepsSuffix | history_view.py:31 | an ending in which no occurrence of the pattern can end survives the replace, as `.jpeg` and `.png` do for `.jpg` |
| Sorting.SortDescending | history_view.py:24 | the reference sort is non-increasing in Python string order and a permutation of its input |
| Sorting.SortedUnique | history_view.py:24 | two non-increasing lists with the same elements are equal, so a reverse sort's result is fully determined |
| Sorting.SortDescendingCharacterized | history_view.py:24 | a list is a non-increasing permutation of the input if and only if it is the reference sort |
| Sorting.SortReverse | history_view.py:24 | sorting the array in place leaves exactly the reference sort of its old contents |
| History.IsImageName | history_view.py:17 | the extension test, defined by its body: the lowercased name ends in `.jpg`, `.jpeg` or `.png`. `ExtensionCaseIgnored` and `SavedNameIsImage` are stated about it |
| History.SavedNameIsImage | history_view.py:17 | every `detection_<moment>.jpg` name passes the extension test |
| History.ImageFiles | history_view.py:15-18 | every kept name's lowercased form ends in `.jpg`, `.jpeg` or `.png`, and no more names are kept than listed |
| History.ImageFilesMultiplicity | history_view.py:15-18 | each image name is kept exactly as often as it is listed, and every other name is dropped |
| History.ImageFilesAppend | history_view.py:15-18 | the filter distributes over concatenation, so survivors keep their listing order |
| History.ExtensionCaseIgnored | history_view.py:17 | any name whose ending lowercases to one of the three extensions passes, `.JPG` and `.Png` included |
| History.ParseTimestamp | history_view.py:32 | a successful parse returns a valid moment whose `%Y%m%d_%H%M%S` text is exactly the input |
| History.ParseCompact | history_view.py:32 | every valid moment's text parses back to that moment, the inverse direction of `ParseTimestamp` |
| History.DisplayLabel | history_view.py:32 | `strftime("%Y-%m-%d %H:%M")`: the 16-character label reads the year, month, day, hour and minute digit groups of the moment's `%Y%m%d_%H%M%S` text, in order, joined by `-`, `-`, a space and `:`. It is never `Unknown time` |
| History.DisplayDropsSeconds | history_view.py:32 | the label keeps year to minute and ignores the seconds |
| History.Stem | history_view.py:31 | both literal markers removed, with the result never longer than the name. `DecodeDetectionName` and `NonJpgImagesUnknown` state what it leaves for saved names and for other image names |
| History.TimeLabel | history_view.py:30-34 | the label is `Unknown time` exactly when the stripped stem is not a valid timestamp. Otherwise it is `DisplayLabel` of a valid moment whose text is the stem |
| History.TimeLabelOfStem | history_view.py:30-34 | any file whose stem after both replaces is the text of a valid moment, saved name or not (`20250101_090000.jpg`, `detection_20250101_090000.jpg.jpg`), is labelled with that moment |
| History.DecodeDetectionName | history_view.py:31-32 | a name `detection_<moment>.jpg` always decodes to the label of that moment |
| History.DecodeExample | history_view.py:31-32 | `detection_20250101_090000.jpg` is shown as `2025-01-01 09:00` |
| History.NonJpgImagesUnknown | history_view.py:30-34 | an image name that does not end in exactly `.jpg` (`.png`, `.jpeg`, `.JPG`, ...) keeps its extension through the case-sensitive replace and is shown as `Unknown time` |
| History.NameOrderIsTimeOrder | history_view.py:24 | for saved detection names, string order is time order. Because the timestamp fields have fixed width, the reverse sort puts the newest first |
| History.HistoryOf | history_view.py:11-34 | a missing directory gives the no-history notice. A directory without images gives the no-images notice. Otherwise the total equals the number of image names, and the entries are those names as a non-increasing permutation, each titled with its decoded time |
| History.ShowHistory | history_view.py:8-34 | the imperative tab (filter, in-place sort, labelling loop) produces exactly `HistoryOf` of the listing |
| History.LabelFiles | history_view.py:27-34 | the display loop yields one entry per file, in order, each with that file's decoded time |
| History.ListingNewestFirst | history_view.py:24-27 | in a listing, a saved detection is never shown after one taken earlier |
| History.TwoDetectionsListed | history_view.py:15-34 | two saved detections are listed newer first, with total 2 and each with its own label |
| History.ListingExample | history_view.py:15-34 | a listing of `detection_20250101_090000.jpg` and `detection_20250315_120000.jpg` shows the March file first as `2025-03-15 12:00`, then the January file as `2025-01-01 09:00` |

## Left out

- Streamlit presentation is not modelled: page setup, sidebar, radio, camera and upload widgets, `st.info`/`st.error`/`st.write`, expanders, images and buttons (including the weather banner at script.py:57-60).
- The alert and all-clear panels are modelled as a `Verdict` value carrying the count and temperature. Their text is not rendered, because it formats a Python float.
- The Open-Meteo HTTP request and the JSON lookup (script.py:41-43) are network I/O. Their outcome is a parameter: a temperature, or `None` when anything in them raised.
- The geolocation widget (script.py:25) is a parameter. NaN latitudes, which are truthy in Python, do not exist in `real`.
- OpenCV work is foreign library code and is not modelled: decoding, HSV conversion, `inRange`, morphology, `findContours`, `contourArea`, `boundingRect`, `cvtColor`, `imread`. Contours arrive with their area and bounding rectangle. `cv2.rectangle` is modelled only as a recorded stroke on the image.
- File-system access is I/O and is not modelled: `os.path.exists`, `os.listdir`, `cv2.imread`, and the delete button with `os.remove` and the rerun (history_view.py:37-44). The listing arrives as a parameter. An image that `cv2.imread` cannot read makes `cv2.cvtColor` at history_view.py:38 raise outside the `try`. The tab then stops, and later files get no entry, while `History.LabelFiles` and `History.ShowHistory` always list every file.
- History.ParseTimestamp: decodes only fixed-width fields of ASCII digits (eight digits, `_`, six digits). CPython's `strptime` is more lenient in three ways. It accepts single-digit month, day, hour, minute and second fields, and a space-padded day. Its `\d` patterns match any Unicode decimal digit, such as fullwidth digits. The model shows `Unknown time` for such names, where CPython would decode some of them.
- History.ImageFiles: names that `os.listdir` returns with lone surrogates, from undecodable bytes, cannot be held in a Dafny `char` and are outside the model.
- History.DisplayLabel: always prints the year as the four digits it was parsed from. Whether CPython's `strftime("%Y")` zero-pads years below 1000 depends on the CPython version and the platform C library. Where it does not, CPython prints fewer digits for such years than the model does.
- Text.Lower: lowercases ASCII letters only. No other character lowercases to a character of `.jpg`, `.jpeg` or `.png`, so the extension test is unaffected. The model does not carry the rest of Unicode case mapping.
- Float semantics (NaN, infinities, rounding) of temperatures and areas are not modelled. Only comparisons with the integer thresholds matter.
- Determinism of `generate_recommendations` needs no lemma: every Dafny function and this method is a deterministic function of its inputs.
- train.py and resume.py only call the YOLO training library and have no logic of their own.
