# raduga-server, modelled in Dafny

raduga-server predicts where rainbows can be seen. It reads the GFS half-degree
forecasts of precipitable water, one folder per forecast run named `YYYYMMDDHH`.
It turns each forecast into a black-and-white rainbow mask and looks the Russian
cities up in that mask. It pushes a notification for every city under a
predicted rainbow, and it serves the URLs of the latest forecast's files.

This project models the core of that pipeline. The modules are:

- `Geo` (`geo.dfy`) models the grid projection of `geo.py`. Its 720 x 361 grid has
  its origin at 0.0E, 90.0N, and `int()` truncates toward zero.
- `DbCities` (`db_cities.dfy`) models the city table of `db_cities.py`:
  - the longitude-wrapping projection and its `"%dx%d"` cell key;
  - the insert-if-absent `save`, as a class over its rows;
  - `fill_db` (world cities of at least 50000 inhabitants) and `fill_db_ru`.
- `Raster` (`raster.dfy`) models the Pillow operations the analysis uses:
  - `putdata`, `point` with threshold 191, `ImageOps.invert`, `ImageChops.offset`;
  - the masked `paste`, with Pillow's integer blend;
  - `putpixel`, on a `Canvas` class over a two-dimensional array.
- `Water` (`water.dfy`) models `find_rainclouds` and the `__main__` block of `water.py`:
  - the grey image and the cloud threshold;
  - the solar-altitude loop and the sun window mask;
  - the sun's cell, moving the sun into the middle column, and the barrel distortion;
  - the final mask, blanked where the sun mask is black;
  - the files written, and the scans (command-line slugs, or newest first until a processed folder).
- `Listing` (`listing.dfy`) models the directory scans shared by `settings.py`,
  `water.py` and `cities.py`:
  - Python's string order and `sorted(..., reverse=True)`;
  - the `\d{10}` prefix test;
  - the "newest first, stop at the first processed folder" walk;
  - what a second run of that walk visits.
- `Settings` (`settings.dfy`) models `get_latest_gfs_folder`, `get_forecast_info` with
  `strptime("%Y%m%d%H")` and the comparison with the current UTC time, the three
  `get_latest_*_url` builders and `get_latest_elektro_l_url`.
- `Cities` (`cities.dfy`) models `cities.py`: `send_push`, `find_rainbow_cities` and the
  `__main__` scan. Pixel reads follow Pillow's rules: a negative index counts once from
  the end, and an index still out of range raises `IndexError`.
- `Text` (`text.dfy`) holds the string helpers: decimal digits, `"%d"`,
  fixed-width digits and `join`.

Every operation is an explicit parameter of the model when it lies outside the
core: the file system listing, the clock, pysolar's altitude function, Pillow's
contrast enhancement, the ImageMagick barrel distortion, `utils.city_id` and the
md5 id of `db_cities.py`.

## Model

| member | source | states |
|---|---|---|
| Geo.Trunc | geo.py:40 | Python `int()` on a float: the result lies within one of the value, on the side of zero |
| Geo.PointToPosition | geo.py:39-40 | `point_to_position` gives whole degrees, each within one degree of half the column and of 90 minus half the row |
| Geo.PositionToPoint | geo.py:42-43 | `position_to_point` lies within one unit of twice the longitude and of twice the distance south of 90N, and never beyond them from zero: `int()` truncates toward zero; a negative longitude gives a column at or left of 0 |
| Geo.PositionToPointInGrid | geo.py:42-43 | every position with longitude in [0, 360) and latitude in [-90, 90] maps into the 720 x 361 grid |
| Geo.EvenPointRoundTrip | geo.py:39-43 | a point with even coordinates survives point -> position -> point |
| Geo.LonRoundTripIsFloor | geo.py:39-43 | for a non-negative longitude, position -> point -> position gives the whole degree below it |
| Geo.LatRoundTripWithinOneDegree | geo.py:39-43 | on the globe, the latitude comes back within one degree |
| Geo.WestIsNotWrapped | geo.py:42-43 | a longitude west of Greenwich gives a column at or left of 0; geo.py does not wrap |
| DbCities.Wrapped | db_cities.py:13-15 | the wrapped longitude is never negative, and below 360 when the input was negative |
| DbCities.WrapLongitude | db_cities.py:13-15 | the `while lng < 0: lng += 360` loop computes the wrapped longitude |
| DbCities.PositionToPoint | db_cities.py:12-16 | db_cities' `position_to_point` is the wrapped projection |
| DbCities.WrapIsPeriodic | db_cities.py:12-16 | a western longitude and the same longitude plus 360 give the same point |
| DbCities.WrappedAgreesWithGeo | db_cities.py:12-16 | for non-negative longitudes the two projections agree |
| DbCities.WrappedPointInGrid | db_cities.py:12-16 | every longitude below 360 lands inside the 720 x 361 grid |
| DbCities.ProjectionsDisagreeWest | db_cities.py:12-16 | at longitude -0.7 the wrapped column is 718, while geo.py gives -1 |
| DbCities.Key | db_cities.py:20 | the `"%dx%d"` rendering of a point; KeyInjective shows it determines the point |
| DbCities.Xy | db_cities.py:19-20 | `xy(lat, lng)` is the key of the wrapped point of `(lng, lat)`, arguments swapped; XySameCell states when two keys agree |
| DbCities.KeyInjective | db_cities.py:19-20 | two points with the same `"%dx%d"` key are the same point |
| DbCities.XySameCell | db_cities.py:19-20 | two cities share an `xy` key exactly when they fall in the same grid cell |
| DbCities.Inserted | db_cities.py:34-36 | after the insert the id is present, and the table grew exactly when the id was absent |
| DbCities.InsertedKeepsIdsUnique | db_cities.py:34-36 | the insert-if-absent keeps ids unique, keeps the old rows as a prefix and leaves the id present |
| DbCities.InsertedIdempotent | db_cities.py:34-36 | saving the same city twice is the same as saving it once |
| DbCities.CityTable.Save | db_cities.py:34-36 | the table's rows become the insert-if-absent of the city; they are unchanged when the id exists |
| DbCities.InsertAllSnoc | db_cities.py:41-51 | saving a batch and then one more city is the same as saving the longer batch |
| DbCities.WorldRecords | db_cities.py:41-50 | the records are exactly the rows with at least 50000 inhabitants, each with `name_en == name`, its `xy` key and its id |
| DbCities.FillDb | db_cities.py:39-52 | the table becomes the old table with the qualifying world cities saved in file order |
| DbCities.RuRecords | db_cities.py:56-58 | one record per Russian city, in order: country `ru`, the Russian name as name, the English name, its `xy` key and its id |
| DbCities.FillDbRu | db_cities.py:54-60 | the table becomes the old table with every Russian city saved in file order |
| DbCities.InsertAllContainsBatch | db_cities.py:54-60 | after a batch, ids are still unique, every city of the batch has a row, and the old rows are a prefix |
| Text.NatToStringRoundTrip | db_cities.py:20 | `"%d"` of a natural number reads back as that number |
| Text.IntToStringInjective | db_cities.py:20 | `"%d"` is injective on integers |
| Text.PaddedDigitsRoundTrip | settings.py:44 | the zero-padded digits of a number that fits read back as that number |
| Text.PaddedDigitsOfValue | settings.py:44 | a digit string is the zero-padded digits of its own value |
| Raster.Threshold | water.py:130-131 | each pixel becomes 255 above 191 and 0 otherwise, and the shape is kept |
| Raster.ThresholdIsBinary | water.py:130-131 | a thresholded image is black and white, with white exactly above 191 |
| Raster.Invert | water.py:177 | each pixel p becomes 255 - p, and the shape is kept |
| Raster.InvertInvolution | water.py:177 | inverting twice gives the image back, and inverting keeps an image black and white |
| Raster.Offset | water.py:157 | `ImageChops.offset` keeps the shape; OffsetMoves and OffsetRoundTrip state where pixels go |
| Raster.OffsetMoves | water.py:175 | `ImageChops.offset` moves pixel c of a row to column (c + dx) mod width |
| Raster.OffsetRoundTrip | water.py:175-196 | offsetting by dx and then by -dx gives the image back |
| Raster.Blend | water.py:193 | Pillow's per-pixel paste blend, a value in 0..255; BlendSelects states it on a black-and-white mask |
| Raster.BlendSelects | water.py:193 | Pillow's blend keeps the destination under a black mask pixel and takes the source under a white one |
| Raster.Div255Exact | water.py:193 | Pillow's rounded division by 255 is exact on multiples of 255 |
| Raster.Pasted | water.py:193 | the masked paste keeps the shape; PastedSelects states it per pixel |
| Raster.PastedSelects | water.py:193 | a paste through a black-and-white mask picks, per pixel, the destination or the source |
| Raster.PasteSelfMask | water.py:133 | pasting a black-and-white image through itself whitens exactly its white pixels |
| Raster.PutData | water.py:116 | `putdata` keeps the shape; PutDataFull states it fills row-major |
| Raster.PutDataFull | water.py:116 | with a full data list, pixel (x, y) is element y * width + x |
| Raster.WithPixel | water.py:167 | `putpixel` changes exactly one pixel |
| Raster.Canvas.New | water.py:115 | a new image of the given size, all black |
| Raster.Canvas.PutDataIn | water.py:116 | the image's content becomes `putdata` of the old content |
| Raster.Canvas.PutPixel | water.py:167 | the image's content becomes the old content with one pixel set |
| Raster.Canvas.Paste | water.py:133 | the image's content becomes the masked paste onto the old content |
| Water.CallOfRowAndColumn | water.py:139-144 | call i of row j gets latitude ph0 + j*dph; its longitude advances with every call and never resets |
| Water.SolarAltitudes | water.py:139-144 | the nested loop yields ni * nj altitudes, call k at the latitude and longitude of call k |
| Water.SunColor | water.py:146-150 | `altitude2colors` is black or white |
| Water.SunColors | water.py:146-155 | a cell is white exactly when its altitude is strictly between 0 and 42 degrees |
| Water.IndexOfMax | water.py:163 | `altitudes.index(max(altitudes))`: the first index holding the maximum |
| Water.SunCellOnGrid | water.py:163-165 | the sun's cell lies on the grid, and its x is offset by half the width |
| Water.TranslationCentresSun | water.py:169-175 | moving by `translate_x` puts the sun's column at the middle column |
| Water.SunMaskMeaning | water.py:152-167 | a sun-mask pixel is white exactly at the sun's cell or where the altitude of the cell half a width to the west is strictly between 0 and 42 |
| Water.SunMaskIsBinary | water.py:146-167 | the sun mask is black and white |
| Water.SunMaskOf | water.py:152-167 | computes the sun's index (the first maximum), its cell and the sun mask |
| Water.SunMask | water.py:152-167 | the sun mask has the grid's size; SunMaskMeaning states each pixel |
| Water.RainbowMask | water.py:191-201 | the final mask keeps the image's shape; RainbowPixel states each pixel |
| Water.RainbowMaskAt | water.py:175-201 | a final pixel is white where the sun mask is black or the distorted image is white at the centred column; otherwise it is the centred cloud pixel |
| Water.RainbowPixel | water.py:127-201 | a final pixel is black exactly where the sun mask is white, the enhanced cloud value there is above 191 and the distorted image is not white |
| Water.RainbowMaskIsBinary | water.py:127-201 | the final mask is black and white |
| Water.Composite | water.py:191-201 | the paste, offset back and sun-mask steps compute the rainbow mask |
| Water.CloudsOf | water.py:114-133 | builds the grey image, the thresholded cloud image, and the grey image with the clouds pasted in |
| Water.Distort | water.py:169-213 | no distorted image exactly when the distortion yields none; otherwise the final mask, and the greyscale masked by the sun mask |
| Water.FindRainclouds | water.py:33-216 | a slug that is not a date raises first; then a missing GRIB returns, a failed conversion exits; otherwise the analysis crashes exactly when the distortion of the clouds centred on the sun yields no image, and finishes otherwise; the files written in order, and the finished analysis in terms of its inputs |
| Water.AnalyseConverted | water.py:81-213 | past the conversion, the analysis either crashes at the distortion, having found the sun, or finishes with the mask of its inputs |
| Water.FinishesWhenDistortionYields | water.py:163-213 | past the date, the GRIB check and the conversion, the analysis finishes exactly when the distortion around the first maximum of the altitudes yields an image |
| Water.Analyse | water.py:222 | one analysis of a slug's inputs behaves as FindRainclouds promises |
| Water.MainScan | water.py:218-236 | analyses a prefix of the command-line slugs, or of the listing's targets; it stops early only when an analysis raises on a non-date slug, exits or crashes |
| Water.ArgsScan | water.py:219-222 | analyses the given slugs in order, stopping after the first that raises on its date, exits or crashes |
| Water.ListingScan | water.py:227-236 | analyses the newest-first unprocessed GRIB folders up to the first folder holding a pwat.png; a folder whose ten-digit-prefixed name is not a date ends the scan |
| Water.AnalysisMarksFolder | water.py:52-231 | any analysis past the conversion leaves a `pwat.png` file, so the next scan stops there; a crashed one lacks the final image cities.py opens |
| Listing.LexLeRefl | settings.py:31 | Python's string order is reflexive |
| Listing.LexLeTotal | settings.py:31 | Python's string order is total |
| Listing.LexLeTrans | settings.py:31 | Python's string order is transitive |
| Listing.LexLeAntisymmetric | settings.py:31 | Python's string order is antisymmetric |
| Listing.InsertDescCorrect | settings.py:31 | inserting into a descending list keeps it descending and adds exactly that element |
| Listing.SortDescendingCorrect | settings.py:31 | `sorted(reverse=True)` is descending and a permutation of the listing |
| Listing.SortDescending | settings.py:31 | `sorted(..., reverse=True)` keeps the length; SortDescendingCorrect states the order and the permutation |
| Listing.TenDigitPrefix | water.py:230 | `re.match(r'\d{10}', name)`: the first ten characters are digits, whatever follows |
| Listing.Targets | water.py:227-236 | the slugs the scan acts on, no more than the listing has; TargetsSound and TargetsComplete characterise them |
| Listing.TargetsSound | water.py:227-236 | every slug the walk visits is an eligible GRIB folder with no processed eligible folder up to it |
| Listing.TargetsComplete | water.py:227-236 | every eligible GRIB folder before the first processed one is visited |
| Listing.TargetsAppend | water.py:227-236 | the walk over a part that does not stop, followed by the rest, is the two walks joined |
| Listing.TargetsDescending | water.py:227-236 | on a sorted listing the visited slugs come newest first |
| Listing.WithMarker | water.py:231 | marking a folder as processed keeps its name, eligibility and GRIB file |
| Listing.PrefixUntilKeeps | cities.py:96-105 | cutting the visit list at the first processed slug keeps a prefix, and keeps exactly the slugs with no processed slug up to them |
| Listing.RerunTargets | cities.py:96-105 | after the folders in a set are marked processed, the next walk visits this walk's slugs up to the first one in the set |
| Settings.PathJoin | settings.py:33 | the joined path starts with the folder and ends with the name, with at most one `/` between them |
| Settings.FirstTargetIsGreatest | settings.py:31-35 | the first eligible GRIB folder in the sorted listing has the greatest name among them |
| Settings.GetLatestGfsFolder | settings.py:29-35 | None exactly when no eligible GRIB folder exists; otherwise (path, slug) with the greatest eligible slug |
| Settings.ParseSlugDate | settings.py:44 | a parsed slug is ten digits and a valid calendar date and hour |
| Settings.ParseSlugOf | settings.py:44 | parsing the slug of a valid date gives that date back |
| Settings.SlugOfParse | settings.py:44 | a slug that parses is the canonical slug of its date |
| Settings.DateLessIsKeyLess | settings.py:50 | the datetime comparison is the order of the hour count yyyymmddhh |
| Settings.SlugValueIsHourKey | settings.py:44 | a parsed slug's decimal value is its date's hour count |
| Settings.LexLeDigits | settings.py:40 | on equal-length digit strings, the string order is the numeric order |
| Settings.SlugOrderIsDateOrder | settings.py:40-44 | for parseable slugs, the name order is the date order |
| Settings.GetForecastInfo | settings.py:38-57 | the loop yields the forecast list of the sorted listing, or the ValueError of an unparseable slug |
| Settings.ForecastInfo | settings.py:38-57 | the forecast list has at most one entry per listing entry; ForecastInfoShape and ForecastInfoDescending state its entries |
| Settings.ForecastInfoShape | settings.py:38-57 | every entry carries its slug's parsed date; `future` holds exactly when that date is after now; all but the last are future |
| Settings.ForecastInfoBounded | settings.py:38-57 | every listed slug is bounded by any bound of the listing's names |
| Settings.ForecastInfoDescending | settings.py:38-57 | on a sorted listing, the forecasts come newest first in both slug and date |
| Settings.ForecastHeadIsLatest | settings.py:40-56 | a future first entry is the newest of the list |
| Settings.LatestUrlDefined | settings.py:60-62 | the URL exists exactly when the forecast list is defined and not empty |
| Settings.LatestUrl | settings.py:60-72 | the URL starts with `/static/gfs/` and ends with the suffix |
| Settings.LatestRainbowsUrl | settings.py:60-62 | the URL ends with `.rainbows.json` |
| Settings.LatestCloudsUrl | settings.py:65-67 | the URL ends with `.clouds.json` |
| Settings.LatestRainbowCitiesUrl | settings.py:70-72 | the URL ends with `.rainbow_cities.json` |
| Settings.LatestUrlNamesCurrentForecast | settings.py:60-72 | the URL names the last forecast listed: the oldest slug and date of the list, the only one that may be past |
| Settings.LatestElektroUrl | settings.py:75-78 | None exactly for an empty folder; otherwise a `/static/elektro/` URL |
| Settings.LatestElektroUrlIsGreatest | settings.py:75-78 | None exactly for an empty folder; otherwise the URL of the greatest file name |
| Cities.Format | cities.py:50 | `format` on a template ending in `{}` is the template without its `{}`, followed by the argument |
| Cities.LanguagePush | cities.py:47-50 | the push of one language; LanguagePushShape states its channels and message |
| Cities.LanguagePushShape | cities.py:46-50 | a language's push goes to the city's channel, then each nearby city's, all suffixed `-lang`, and names the city in that language |
| Cities.SendPush | cities.py:43-50 | one push per language, English then Russian, each as LanguagePush describes |
| Cities.AllPushes | cities.py:85 | two pushes per city; AllPushesAt states which |
| Cities.AllPushesAt | cities.py:85 | city k's English and Russian pushes are pushes 2k and 2k + 1 |
| Cities.DebugPush | cities.py:83-86 | the debug push goes to `debug` and starts with `Rainbow cities: ` |
| Cities.PixelAt | cities.py:79 | with current Pillow's PixelAccess indexing, the read succeeds exactly for -width <= x < width and -height <= y < height; a non-negative index reads that pixel |
| Cities.WestCitiesReadEastNeighbour | cities.py:77-79 | west of Greenwich the lookup reads the cell just east of the wrapped projection's cell, unless the longitude is a whole half degree |
| Cities.Matches | cities.py:74-80 | the matched cities are no more than the cities; MatchesMeaning states which |
| Cities.MatchesAppend | cities.py:74-80 | the lookup of a joined list is the two lookups joined, so the city order is kept |
| Cities.MatchesSingle | cities.py:77-80 | a single city is kept exactly when its pixel is black, and fails when its pixel is out of range |
| Cities.MatchesMeaning | cities.py:74-80 | the lookup fails exactly when some city lies outside the image; otherwise it keeps exactly the black-pixel cities |
| Cities.LookUpCities | cities.py:70-80 | the loop computes the lookup |
| Cities.PushEach | cities.py:85 | `send_push` for each rainbow city in turn |
| Cities.FindRainbowCities | cities.py:53-92 | a missing image returns early; an out-of-range city raises; otherwise the JSON holds the matches, and the pushes are those of the cities then one debug push, none when nothing matched |
| Cities.FindRainbowCitiesAsWritten | cities.py:43-92 | the run as written under Python 3: a missing image returns, a city outside the image raises IndexError, no match writes an empty list with no push, and any match raises in `send_push` |
| Cities.AsWrittenRaisesOnEveryMatch | cities.py:46-92 | as written, the run raises exactly when some city matched; otherwise it agrees with the corrected find_rainbow_cities |
| Cities.PushCount | cities.py:82-86 | with matches there are 2n + 1 pushes, the debug push last; a single match is named alone |
| Cities.CitiesMain | cities.py:94-105 | visits a prefix of the newest-first unprocessed GRIB folders, each with the outcome find_rainbow_cities gives for its image: nothing for a missing image, IndexError when a city lies outside it, else the matched cities and their pushes; it stops early only on that IndexError |
| Cities.NextRunRetries | cities.py:96-105 | the next scan visits this scan's folders up to the first one it wrote, and no other |

## Left out

- Floating point: coordinates, altitudes and grid spacings are exact reals. `int()` is modelled as truncation toward zero, but float rounding of `lon * 2` and of the accumulated `longitude += dl` is not.
- `prec2color`, the alpha layer and its `LA` image: the grey values enter as data already clipped to 0..255. The alpha file is only a name in the list of files written.
- `ImageEnhance.Contrast(...).enhance(80)`, pysolar's `get_altitude_fast` and ImageMagick's barrel distortion (`convert ... -distort Barrel`) are opaque parameters. The model assumes only that they keep the image size; the distortion may produce no image.
- grib2json and `vector.sh` run as external processes. The conversion is a success flag, and `vector.sh` is not modelled.
- `Water.FindRainclouds`: the dead `if not THIS_GFS_FOLDER` branch (a joined path is never empty) is not modelled.
- Water.FindRainclouds: requires at least one row and one column. On an empty grid `max(altitudes)` (water.py:163) raises ValueError; GFS headers give 720 x 361.
- Water.SunMaskOf: requires a non-empty grid, for the same reason.
- Water.IndexOfMax: requires a non-empty list; `max([])` raises ValueError.
- Raster.PutData: data beyond width * height is ignored, where Pillow's `putdata` raises ValueError ("too many data entries"). The analysis passes exactly width * height values.
- Raster.Canvas.PutDataIn: the same as Raster.PutData.
- `Water.FindRainclouds`: failing to open `data/russia.png` is not modelled, and neither is a malformed JSON file. The header is an input, and the grey data is assumed to fill the grid.
- `Water.FindRainclouds`: a stale extruded file left by an earlier run, read when `convert` fails, is not distinguished. The distortion's result is whatever image is there.
- The HTTPS request of `_push`, and its response, are left out. Pushes are returned as values in the order they are sent; a failing request is not modelled.
- Cities.SendPush: sends English, then Russian, the order of the dict literal, which `items()` keeps from Python 3.7 on. CPython 2 iterates `ru` first (the keys hash to slots 1 and 3 of an 8-slot table); there the byte-string templates of cities.py:44-45 and cities.py:49 raise UnicodeEncodeError on a Cyrillic name.
- Cities.CitiesMain: uses the corrected find_rainbow_cities. As written, under Python 3 the first matched city raises AttributeError (see Findings); that ends the scan before the JSON file is written, so every later run retries the same folder.
- Cities.DebugPush: joins the English names as text. cities.py:83 encodes the joined names to bytes before formatting them, which Python 3 renders as `b'...'`.
- `utils.city_id` and the md5 id of `db_cities.py` are uninterpreted functions.
- Settings.ForecastInfo: reads the clock once per call, where settings.py:50 calls `datetime.now(pytz.utc)` again for every entry. The two differ only when the loop runs across an hour boundary.
- Water.ArgsScan: returns BadSlug and stops for a command-line slug that is not ten digits, such as `201402211`, which strptime accepts and water.py analyses.
- Cities.PixelAt: assumes the PixelAccess indexing of current Pillow releases, where a negative index counts once from the far edge and an index still outside raises IndexError. Older releases treated negative indices differently.
- The SQL schema, cursor and commit are modelled as a list of rows. The `WHERE NOT EXISTS` insert is the only behaviour kept.
- The CSV and JSON parsing of the city files is left out: rows arrive already split and converted. A malformed row, which raises in the source, is not modelled.
- `\d` in `re.match` also matches non-ASCII digits in Python 3; the model accepts ASCII digits only.
- `Listing.SortDescending`: equal names cannot occur in one directory, so the model does not state which of two equal keys comes first.
- `Settings.ParseSlugDate`: accepts years 1..9999. strptime's acceptance of fewer digits inside a field is covered only for the canonical ten-digit form, since `%Y%m%d%H` on ten digits must use them all. For `Water.ArgsScan` this means a short command-line slug such as `201402211`, which strptime reads as 2014-02-21 01:00 and water.py goes on to analyse, ends the model's scan as BadSlug.
- `settings.py:81` unpacks `get_latest_gfs_folder()` at import time, which raises `TypeError` when no GRIB folder exists. The model returns None instead.
- `get_latest_elektro_l_url` returns the first name of the sorted listing without any filter; the model does the same on a list of names.
- Module-level state (`GFS_FOLDER`, `DEBUG`, `local_settings`, the logger) and the Flask app are not modelled.

## Behaviour of the code worth knowing

- Projection: `geo.py:42-43` truncates toward zero and does not wrap negative longitudes; only `db_cities.py:13-15` wraps them into [0, 360). `Geo.WestIsNotWrapped`, `DbCities.ProjectionsDisagreeWest` and `Cities.WestCitiesReadEastNeighbour` state the consequences.
- City matching: `cities.py:74-80` reads each city's own pixel, in list order, and keeps every city whose pixel is black. It does not use the `xy` keys of the city table, and it does not remove duplicate cities. A city outside the image raises IndexError.
- Push channels: `cities.py:43-50` sends one push per language, to `<id>-<lang>` and to the same channel of every nearby city.
- Debug push: `cities.py:82-86` sends it only when some city matched.
- Processed folders: the scan in `water.py:227-236` stops at any `*pwat.png`, and the first greyscale intermediate (`water.py:120`) already matches that pattern. `Water.AnalysisMarksFolder` states it.

## Findings

| source | as written | input that shows it | evidently intended | confidence | as-written member | corrected member |
|---|---|---|---|---|---|---|
| cities.py:46 | `send_push` calls `messages.iteritems()`, which Python 3 dicts lack; the module imports `http.client` (cities.py:16), so it runs on Python 3 | any image in which some city's pixel is black: AttributeError at the first matched city, before any push and before the JSON file of cities.py:91-92 | iterate `messages.items()`: two pushes per matched city, one debug push, then the JSON file | not executed | Cities.AsWrittenRaisesOnEveryMatch | Cities.FindRainbowCities |
