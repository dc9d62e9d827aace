# San Pedro population map: the rules behind the map, verified

`scripts/mapa_san_pedro_v4.py` draws a web map of the urban population of
San Pedro by AGEB (the census tract of Mexico's statistics office). Most of
the script is glue around geopandas, jenkspy and folium. This project models
the self-contained rules inside it and proves what they promise:

- **Join key.** `format_ageb` normalises an AGEB code. The CVEGEO key is then
  built from the zero-padded entity, municipality and locality codes
  followed by the formatted AGEB code (module `Ageb`).
- **Classes and colours.** The number of population classes comes from the
  number of distinct values. The palette prefix, the class breaks and
  `assign_color`, which picks the colour of a population value, follow from
  it (module `Classes`).
- **Legend rows.** One row per interval between consecutive breaks. Each row
  is a colour swatch and a "low - high" label written with thousands
  separators (module `Legend`).
- **Post-processing of the saved page.** Three regular-expression lookups
  cut out the head, the body and the map script. A filter drops the page's
  own viewport and charset metas. The rebuilt page then writes its sections
  in a fixed order and wraps the map script in code that waits for Leaflet
  (module `Rebuild`).

The Python string operations these rules use are in module `PyStr`, for
ASCII text: `strip`, `upper`, `lower`, `isdigit`, `zfill`, `in`, `str(n)`
and `f"{n:,}"`. `Wrappers` holds an `Option` type.

Some sources of the script's data are library calls, and they become inputs:

- the Jenks breaks (`bins` when there are several classes);
- the tag lists that `re.findall` finds in the head;
- the population column, as integers.

The loops stay loops. `AssignColor`, `LegendRows`, `AppendLines`,
`AppendKeptMetas` and `RebuildHtml` are methods. Each is proved equal to a
function (`ColorIndex`, `Rows`, `Lines`, `KeptMetas`, `RebuiltHtml`), and
the properties are proved as lemmas about that function.

## Model

All source paths are in `scripts/mapa_san_pedro_v4.py`.

| member | source | states |
|---|---|---|
| PyStr.Strip | scripts/mapa_san_pedro_v4.py:80 | the result is the input from its first to its last non-whitespace character; everything dropped at either end is whitespace; a non-empty result neither starts nor ends with whitespace; text without whitespace at its ends is unchanged |
| PyStr.Upper | scripts/mapa_san_pedro_v4.py:80 | same length, each character upper-cased, no lower-case letter left, text without lower-case letters unchanged |
| PyStr.Lower | scripts/mapa_san_pedro_v4.py:348 | same length, each character lower-cased, no upper-case letter left, text without upper-case letters unchanged |
| PyStr.Contains | scripts/mapa_san_pedro_v4.py:348 | `w in s`: w occurs in s at some index; the empty text is in every text, and a text longer than s is never in it |
| PyStr.ZFill | scripts/mapa_san_pedro_v4.py:75-77 | length is max(len, width); text at least `width` long is unchanged; zeros go after a leading '+' or '-', otherwise in front |
| PyStr.ZFillDigits | scripts/mapa_san_pedro_v4.py:84 | zfill of a digit string is a digit string; the input is its suffix and only zeros precede it |
| PyStr.Decimal | scripts/mapa_san_pedro_v4.py:75-77 | `str(n)` of a natural is all digits and has no leading zero unless it is "0" |
| PyStr.DecimalRoundTrip | scripts/mapa_san_pedro_v4.py:75-77 | `str(n)` reads back as n |
| PyStr.PaddedDecimalRoundTrip | scripts/mapa_san_pedro_v4.py:75-77 | `str(n).zfill(w)` is all digits and reads back as n |
| PyStr.PaddedDecimalLength | scripts/mapa_san_pedro_v4.py:75-77 | `str(n).zfill(w)` is exactly w characters when n < 10^w |
| PyStr.GroupedChars | scripts/mapa_san_pedro_v4.py:273 | the grouped form of a natural is non-empty and holds only digits and ',' |
| PyStr.GroupedRoundTrip | scripts/mapa_san_pedro_v4.py:273 | dropping the ',' separators from the grouped form leaves digits that read back as n |
| PyStr.GroupedLayout | scripts/mapa_san_pedro_v4.py:273 | for a natural with d digits, the grouped form has d + (d - 1) / 3 characters, and a character is ',' exactly when the number of characters from it to the end is a multiple of 4, so the commas split the digits into threes from the right |
| PyStr.ThousandsRoundTrip | scripts/mapa_san_pedro_v4.py:179 | `f"{n:,}"` holds only digits, ',' and a leading '-', and reads back as n for every integer n |
| PyStr.Thousands | scripts/mapa_san_pedro_v4.py:179 | `f"{n:,}"` is non-empty and starts with '-' exactly when n is negative |
| PyStr.ThousandsLayout | scripts/mapa_san_pedro_v4.py:179 | after the sign, `f"{n:,}"` is the grouped form of abs(n): d + (d - 1) / 3 characters for d digits, with ',' exactly at the places that split the digits into threes from the right |
| Ageb.Normalize | scripts/mapa_san_pedro_v4.py:80 | `strip().upper()` leaves no lower-case letter and no whitespace at either end, keeps ASCII text ASCII, is no longer than its input, and leaves already-normal text unchanged |
| Ageb.FormatCode | scripts/mapa_san_pedro_v4.py:81-91 | length max(4, len); blank or "NAN" gives "0000"; digits get left-padded with '0' and stay a suffix; a letter followed by digits keeps the letter first with the digits padded to three; anything else becomes `zfill(4)` |
| Ageb.FormatAgeb | scripts/mapa_san_pedro_v4.py:79-91 | for ASCII input the result is never shorter than 4, is ASCII, and is the case split applied to the normalised text |
| Ageb.FormatCodeChars | scripts/mapa_san_pedro_v4.py:81-91 | every output character is a '0' or comes from the normalised input; the output's ends are not whitespace when the input's are not |
| Ageb.FormatCodeFixes | scripts/mapa_san_pedro_v4.py:83-91 | a normalised code of four or more characters comes out unchanged, whichever branch it takes |
| Ageb.FormatAgebIdempotent | scripts/mapa_san_pedro_v4.py:79-91 | formatting a formatted code changes nothing: f(f(x)) == f(x) |
| Ageb.NotDigitsAfterPadding | scripts/mapa_san_pedro_v4.py:91 | a short code that is not all digits stays non-numeric after `zfill(4)` and starts with '0' or its sign |
| Ageb.LoneLetterExample | scripts/mapa_san_pedro_v4.py:86-91 | a lone letter falls through to `zfill(4)`: "A" gives "000A" |
| Ageb.LetterCodeExample | scripts/mapa_san_pedro_v4.py:86-89 | a letter and a digit keep the letter first: "A7" gives "A007" |
| Ageb.Cvegeo | scripts/mapa_san_pedro_v4.py:94 | the key is at least 13 characters long |
| Ageb.CvegeoSplit | scripts/mapa_san_pedro_v4.py:75-94 | with entity < 100, municipality < 1000, locality < 10000 and a four-character AGEB code, the key has length 13; its slices at 2, 5 and 9 give back the padded parts; the first nine characters are digits, and the three numeric slices read back as the original numbers |
| Classes.Distinct | scripts/mapa_san_pedro_v4.py:128 | `nunique`: the number of distinct values is at most the number of rows, and at least 1 when there is a row |
| Classes.DistinctOne | scripts/mapa_san_pedro_v4.py:128 | a non-empty column has at least one distinct value, and exactly one if and only if every row holds the same value |
| Classes.NClasses | scripts/mapa_san_pedro_v4.py:128 | `min(6, max(1, d))` lies in [1, 6], equals d when d is in range, and is 1 for 0 and 6 above 6 |
| Classes.Colors | scripts/mapa_san_pedro_v4.py:139 | the palette prefix has n colours, the first n of the palette |
| Classes.MinOf | scripts/mapa_san_pedro_v4.py:135 | the minimum is in the column and is at most every value |
| Classes.MaxOf | scripts/mapa_san_pedro_v4.py:136 | the maximum is in the column and is at least every value |
| Classes.Classify | scripts/mapa_san_pedro_v4.py:122-139 | no rows stops the script (None); otherwise the class count is in [1, 6] and comes from the distinct count; the colours are the palette prefix; several classes take the Jenks breaks; a single class takes two breaks that are a column value at most every row and a column value at least every row |
| Classes.ClassifyShape | scripts/mapa_san_pedro_v4.py:128-139 | with at least one row there are one or more colours and exactly one break more than colours; a single class happens if and only if every row holds the same value, and its breaks are that value twice |
| Classes.ScanFrom | scripts/mapa_san_pedro_v4.py:142-144 | the first interval at or after `from` that holds the value, or the last interval when none does |
| Classes.ColorIndex | scripts/mapa_san_pedro_v4.py:141-145 | the index is a valid colour index; no earlier half-open interval holds the value; the interval at the index holds it, or none does and the index is the last |
| Classes.AssignColor | scripts/mapa_san_pedro_v4.py:141-145 | the loop returns colour `ColorIndex(bins, value)`, always a member of the colour list |
| Classes.ColorIndexAbove | scripts/mapa_san_pedro_v4.py:141-145 | on non-decreasing breaks, a value at or above the first break is at or above the lower break of its colour |
| Classes.TopValueGetsLastColor | scripts/mapa_san_pedro_v4.py:145 | on non-decreasing breaks, a value at or above the last break, the maximum included, gets the last colour |
| Classes.ColorIndexMonotone | scripts/mapa_san_pedro_v4.py:141-145 | on non-decreasing breaks, for values from the first break on, a larger value never gets an earlier colour |
| Classes.BreakGetsItsColor | scripts/mapa_san_pedro_v4.py:142-144 | on strictly increasing breaks, each break below the last gets the colour of the interval it opens |
| Classes.SingleClassColor | scripts/mapa_san_pedro_v4.py:134-145 | with the single-class breaks [m, m], every value gets the one colour |
| Legend.Rows | scripts/mapa_san_pedro_v4.py:266 | the legend has exactly len(bins) - 1 rows (none for fewer than two breaks) |
| Legend.LegendRows | scripts/mapa_san_pedro_v4.py:265-275 | the loop's text is the rows joined in interval order |
| Legend.LegendRowAt | scripts/mapa_san_pedro_v4.py:266-275 | row i sits in the legend right after rows 0 to i-1 and shows colour i with bounds bins[i] and bins[i+1] |
| Legend.RowCarries | scripts/mapa_san_pedro_v4.py:267-274 | a row opens with the swatch text, shows its colour right after it, and its label right after the swatch |
| Legend.Label | scripts/mapa_san_pedro_v4.py:273 | the label is `f"{lo:,}"`, then " - ", then `f"{hi:,}"`; the text before " - " reads back as the lower bound and the text after it as the upper bound |
| Legend.RowColorMatchesMap | scripts/mapa_san_pedro_v4.py:266-273 | on strictly increasing breaks, row i shows exactly the colour `assign_color` gives to its lower bound |
| Rebuild.FindFrom | scripts/mapa_san_pedro_v4.py:326 | the first occurrence at or after an index, or None when there is none |
| Rebuild.SkipSpace | scripts/mapa_san_pedro_v4.py:332 | the greedy `\s*`: the run from k is all whitespace and is followed by a non-whitespace character or the end |
| Rebuild.MatchAt | scripts/mapa_san_pedro_v4.py:326-333 | a match at i has the lead at i, only whitespace (for `\s*`) or nothing up to the opening text, and a closing text right after its group; no closing text starts inside the group |
| Rebuild.MatchAtComplete | scripts/mapa_san_pedro_v4.py:326-333 | conversely, whenever the lead, the whitespace, the opening text and a closing text line up from i, a match starts at i; its group starts right after that opening text and stops at the first closing text, no later than the given one |
| Rebuild.MatchFound | scripts/mapa_san_pedro_v4.py:326-333 | the group of a match lies inside the page, right after the opening text and right before a closing text, with no closing text inside it |
| Rebuild.SearchFrom | scripts/mapa_san_pedro_v4.py:326-333 | the match found is at the leftmost start from which the pattern matches; None means no start matches |
| Rebuild.Extract | scripts/mapa_san_pedro_v4.py:326-333 | `m.group(1) if m else ''`: when some index starts a match, no earlier index does, and the text returned stands right after the opening text and right before a closing text, with no closing text inside it; otherwise no index starts a match and the text is empty |
| Rebuild.ExtractMissing | scripts/mapa_san_pedro_v4.py:326-333 | when the lookup finds nothing, the pieces of the pattern are laid out nowhere in the page |
| Rebuild.GreedySpaceOnly | scripts/mapa_san_pedro_v4.py:332 | an opening text that starts with a non-whitespace character cannot occur inside the whitespace run, so the greedy run is the only one that can match |
| Rebuild.ExtractTagAt | scripts/mapa_san_pedro_v4.py:326-330 | a tag lookup returns the text from the first opening tag to the first closing tag after it |
| Rebuild.ExtractTagFinds | scripts/mapa_san_pedro_v4.py:326-330 | for a page `pre + open + c + close + post`, where the opening tag does not occur before pre ends and the closing tag does not start inside c, the lookup gives back exactly c |
| Rebuild.ExtractHeadFinds | scripts/mapa_san_pedro_v4.py:326-327 | `<head>(.*?)</head>` on `pre + "<head>" + c + "</head>" + post` gives back exactly c when `<head>` does not occur before pre ends and `</head>` does not start inside c |
| Rebuild.ExtractBodyFinds | scripts/mapa_san_pedro_v4.py:329-330 | `<body>(.*?)</body>` gives back exactly the body text c under the same conditions |
| Rebuild.ExtractSkipAt | scripts/mapa_san_pedro_v4.py:332-333 | a lookup with `\s*` returns the text after the opening that follows the first lead and its whitespace, up to the next closing text |
| Rebuild.ExtractSkipFinds | scripts/mapa_san_pedro_v4.py:332-333 | for a page `pre + lead + ws + open + c + close + post`, where ws is whitespace, this holds: if the lead does not occur before pre ends and the closing text does not start inside c, the lookup gives back exactly c |
| Rebuild.ExtractMapScriptFinds | scripts/mapa_san_pedro_v4.py:332-333 | the same for `</body>\s*<script>(.*?)</script>`: the map script is given back exactly |
| Rebuild.KeptMetas | scripts/mapa_san_pedro_v4.py:347-349 | every copied meta passes the viewport/charset test and comes from the input; no more metas come out than went in |
| Rebuild.KeptMetasSnoc | scripts/mapa_san_pedro_v4.py:347-349 | one more meta adds itself at the end if it passes, and nothing otherwise |
| Rebuild.KeptMetasAppend | scripts/mapa_san_pedro_v4.py:347-349 | filtering commutes with concatenation, so the copied metas keep their original order |
| Rebuild.KeptMetasComplete | scripts/mapa_san_pedro_v4.py:347-349 | every meta that passes the test is copied |
| Rebuild.KeptMetasAllKept | scripts/mapa_san_pedro_v4.py:347-349 | a list whose metas all pass is copied whole |
| Rebuild.KeptMetasIdempotent | scripts/mapa_san_pedro_v4.py:347-349 | filtering twice is filtering once |
| Rebuild.DropsViewport | scripts/mapa_san_pedro_v4.py:348 | a meta naming "viewport" is dropped |
| Rebuild.DropsCharsetAnyCase | scripts/mapa_san_pedro_v4.py:348 | a meta with "CharSet" in mixed case is dropped |
| Rebuild.Indented | scripts/mapa_san_pedro_v4.py:349 | a head line is four spaces, then the tag whole, then a newline |
| Rebuild.Indent | scripts/mapa_san_pedro_v4.py:352-353 | one line per tag of the list |
| Rebuild.LinesSnoc | scripts/mapa_san_pedro_v4.py:352-353 | one more tag adds one more line, `'    ' + tag + '\n'`, at the end |
| Rebuild.WrapKeepsScript | scripts/mapa_san_pedro_v4.py:405-415 | the wrapped map script holds the script whole, right after the Leaflet-polling code |
| Rebuild.Sections | scripts/mapa_san_pedro_v4.py:343-416 | the rebuilt page has exactly eleven sections |
| Rebuild.SectionsInOrder | scripts/mapa_san_pedro_v4.py:343-416 | the rebuilt page's sections follow one another in the fixed order: doctype/charset/viewport, kept metas, CSS links, styles, mobile CSS, inline scripts, external scripts, head close and body open, body, wrapped map script, page end; section k occupies exactly the text from where section k-1 ends |
| Rebuild.AppendLines | scripts/mapa_san_pedro_v4.py:352-356 | the loop over a tag list appends the indented lines of that list |
| Rebuild.KeptLinesStep | scripts/mapa_san_pedro_v4.py:347-349 | one more meta adds its indented line exactly when it passes the test |
| Rebuild.AppendKeptMetas | scripts/mapa_san_pedro_v4.py:347-349 | the meta loop appends the indented lines of the kept metas, in order |
| Rebuild.RebuildHtml | scripts/mapa_san_pedro_v4.py:343-416 | the `new_html` built step by step is the rebuilt page |

## Left out

- File I/O is not modelled: loading the shapefiles and the spreadsheet, `m.save`, and reading and writing `index.html`. The model starts from the page text.
- pandas is not modelled: the merge, `to_numeric(...).fillna(0)` and the population sum. `nunique` is the size of the set of values.
- The geometry is not modelled: reprojection, the buffer around the reference point and the intersection test. These are floating-point library calls.
- The Jenks natural-breaks fit is not modelled. It is a foreign library; its breaks are an input.
- All floating-point work is left out: the degree-minute-second conversions, `f"{urban_population:,.0f}"`, and the `int(...)` applied to float breaks in the legend. Populations and breaks are integers here.
- The folium map, the GeoJson features and tooltips, the markers, the layer control, and the fixed legend box around the rows are not modelled. This is UI built through a library.
- The `re.findall` lists of links, scripts, styles and metas found in the head are inputs. The head lookup (`HeadPattern`) is modelled, but the head text only feeds those calls.
- `PartsOf` gathers the parts of the rebuilt page: the body and the map script come from the page through the lookups, and the tag lists are taken as given.
- Regular-expression matching is modelled only for the three lookup patterns. `MatchAt` does not give back whitespace to the `\s*` run. That matches Python when the opening text does not start with whitespace, as `<script>` does not (`GreedySpaceOnly`); `MatchAtComplete` requires it.
- `print` and `exit()` are not modelled. The exit on an empty table is the `None` of `Classify`.
- Only ASCII text is modelled. `FormatAgeb` requires ASCII input. Whitespace is the ASCII part of Python's `isspace` and of the regular-expression `\s`; the other Unicode whitespace characters are not.
- `Upper` and `Lower` only map ASCII letters. For the charset test this loses nothing: no non-ASCII character lower-cases to one of the letters of "charset".
- `str(ageb_val)` of non-text cells is not modelled. The model takes the text that `str` produced, so a float cell's "123.0" is just text.
- The entity, municipality and locality columns are naturals rendered by `str`. Text in those columns is not modelled.
- The seven `+=` statements before the map script are one append of their concatenation (`MapScriptOpen`). The three after it are likewise one (`MapScriptClose`).
- Ageb.Cvegeo: its own contract only bounds the key's length. The layout of the key is proved in `CvegeoSplit`, for codes in range.
