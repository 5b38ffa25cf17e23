# NOAA aurora map: a Dafny model of the grid parser and the renderer's pixel logic

`noaa-aurora-map` turns the NOAA OVATION aurora forecast into a PNG map. The forecast is a text file with a header, a `#`-comment block and one line per latitude band. Each line holds a row label and then activity values, separated by runs of whitespace. The program works in four steps:

- it parses the text into a grid of cells, one row per latitude band, with the rows in reverse order;
- it gives each cell a latitude and a longitude;
- it shades the cells that are in darkness at the forecast instant;
- it mixes a green–yellow–red heat colour, whose opacity grows with the activity, onto the matching pixel of a base map.

The model has eight modules, one file each:

- `text.dfy` (`Text`) covers the JavaScript string operations the parser uses:
  - `split` on a one-character separator, with `join` as its inverse in the proofs (the parser calls no `join`);
  - `replace(/\n/, '')`, which deletes only the first line feed;
  - `replace(/\s{2,}/g, ',')`, which turns every maximal run of two or more ECMAScript whitespace characters into one comma.
- `grid_parser.dfy` (`GridParser`) is `parseAuroraActivityData`: payload after the last `#`, first line feed deleted, lines, at most 512 kept, each line collapsed, split on commas and stripped of its label, rows reversed. Cells stay strings.
- `parser_example.dfy` (`ParserExample`) is a worked input, generic in its characters, showing the empty first row that a trailing line feed produces when fewer than 512 lines precede it.
- `color_model.dfy` (`ColorModel`) holds `Math.round`, the RGB part of `heatMapColorCalculator`, `colorMix` and the night overlay `{0, 0, 0, 127.5}`. The arithmetic is exact rational arithmetic on `real`.
- `geo.dfy` (`Geo`) maps a row index to a latitude and a column index to a longitude. It also defines the inverse maps, from a degree back to its band.
- `solar_mask.dfy` (`SolarMask`) is the night test `t < nightEnd || t > night`. The test compares `getTime()` values, and a NaN value (an invalid date) makes every comparison false.
- `numbers.dfy` (`Numbers`) holds the integer minimum and maximum used by the other modules.
- `map_renderer.dfy` (`MapRenderer`) composes one pixel: night overlay first, heat colour last. It also models the in-place pass of `generateMap` over a flat pixel buffer, addressed `y * width + x` and read from the image being painted.

Three things are inputs to the model rather than code in it:

- the solar-position library (`SolarTimes`, a function of instant, latitude and longitude);
- the easing function that gives the heat colour its opacity (`ease`);
- the forecast instant (`Instant`).

The renderer takes numeric cells.

Two behaviours of the parser are easy to misread, and the model keeps both:

- A trailing line feed leaves an empty last line. When fewer than 512 lines precede it, that line becomes the first, empty row after the reversal. Otherwise the 512-line cap drops it, and the first row comes from line 512.
- Only the first line feed of the payload is deleted, wherever it is.

## Model

| member | source | states |
|---|---|---|
| Text.IsJsSpace | index.js:50 | the `\s` class holds the ASCII blanks (space, tab, line feed, carriage return) and never a comma, a `#`, a digit, a sign or a decimal point |
| Text.Split | index.js:46 | `split` on one character always gives at least one piece, and no piece holds the separator |
| Text.SplitCount | index.js:46 | the number of pieces is the number of separators plus one |
| Text.JoinSplit | index.js:50 | joining the pieces with the separator gives back the original string |
| Text.SplitJoin | index.js:50 | splitting a join of separator-free pieces gives back the pieces, so split and join are inverse |
| Text.SplitFirstIsPrefix | index.js:44 | the first piece is a prefix of the string |
| Text.SplitLastIsSuffix | index.js:44-45 | the last piece is the suffix after the last separator, or the whole string when there is none |
| Text.SplitPiecesNoDoubleSpace | index.js:50 | splitting a string with no two adjacent whitespace characters gives pieces with none either |
| Text.SplitPiecesChars | index.js:50 | every character of a piece occurs in the string |
| Text.DeleteFirst | index.js:45 | `replace(/\n/, '')` shortens the string by one when the character occurs, and otherwise leaves it unchanged |
| Text.DeleteFirstCount | index.js:45 | exactly one occurrence goes, when there is one, and every other character count stays the same |
| Text.DeleteFirstAt | index.js:45 | the occurrence deleted is the first: the text before it and the text after it are both kept as they are |
| Text.DeleteFirstKeepsAbsent | index.js:45 | deleting adds no character that was not there |
| Text.SpaceRun | index.js:50 | the whitespace run at the start of a string is maximal |
| Text.Collapse | index.js:50 | the collapsed line has no two adjacent whitespace characters, keeps its first non-space character, and holds only commas and characters of the line |
| Text.CollapseFixedPoints | index.js:50 | a line is left unchanged by the collapse exactly when it has no two adjacent whitespace characters |
| Text.CollapseIdempotent | index.js:50 | collapsing twice is collapsing once |
| Text.CollapseRun | index.js:50 | a run of two or more whitespace characters, followed by a non-whitespace character or the end, becomes one comma |
| Text.CollapseSingleSpace | index.js:50 | a lone whitespace character is kept as it is |
| Text.CollapseKeeps | index.js:50 | a non-whitespace character is kept as it is |
| Text.CollapseKeepsWord | index.js:50 | a prefix without whitespace is kept as it is |
| Text.CollapseSpaced | index.js:50 | a line of whitespace-free words separated by runs of two or more whitespace characters collapses to the words joined by commas |
| Text.CollapseKeepsData | index.js:50 | the characters that are neither whitespace nor commas come out of the collapse unchanged and in order: none is dropped, added or reordered |
| GridParser.Payload | index.js:44-45 | the payload is the suffix after the last `#`: it holds no `#`, is preceded by a `#` when there is one, and is the whole text when there is none |
| GridParser.Lines | index.js:45-46 | there is at least one line, and no line holds a line feed or a `#` |
| GridParser.LineCount | index.js:45-46 | the line count is the payload's line-feed count, but at least 1, because the first line feed is deleted before splitting |
| GridParser.Truncate | index.js:47 | `splice(512, length)` keeps the first `min(n, 512)` lines unchanged |
| GridParser.ParseRow | index.js:50-52 | no cell of a row holds a comma |
| GridParser.RowWidth | index.js:50-51 | a row has one cell per comma of the collapsed line, that is one fewer than its field count |
| GridParser.ParseRowCells | index.js:50 | no cell has two adjacent whitespace characters, and every cell character occurs in the line |
| GridParser.Reverse | index.js:54 | the reversal has the input's length |
| GridParser.ReverseIndex | index.js:54 | element `i` of the reversed list is element `n - 1 - i` of the original |
| GridParser.ReverseReverse | index.js:54 | reversing twice gives the original list |
| GridParser.Parse | index.js:43-55 | the grid has `min(lines, 512)` rows |
| GridParser.ParseReversesLines | index.js:47-54 | grid row `i` is parsed from kept line `n - 1 - i`, so the last kept line becomes the first row |
| GridParser.ParseRowCount | index.js:44-47 | the row count is `min(max(line feeds of the payload, 1), 512)`, and exactly 512 when there are more line feeds; extra lines are dropped silently |
| GridParser.RowCellsClean | index.js:50-52 | the cells of a line with no `#` or line feed hold neither, and have no double whitespace |
| GridParser.ParseCells | index.js:44-52 | no cell of the grid holds `#`, a comma, a line feed or two adjacent whitespace characters |
| GridParser.SingleFieldLineIsEmptyRow | index.js:50-52 | a line with a single field, such as the empty line after a trailing line feed, gives an empty row |
| GridParser.ParseRowJoined | index.js:50-51 | a label and cells joined by commas, with no double whitespace, parse back to the same cells |
| GridParser.ParseRowSpaced | index.js:50-52 | a label and non-empty cells, none holding whitespace or a comma, separated by runs of two or more whitespace characters, parse to exactly the cells, so a line of `n` fields gives `n - 1` cells |
| GridParser.RowRejoin | index.js:50-51 | the label plus the row's cells, joined by commas, give back the collapsed line |
| ParserExample.Example | index.js:43-55 | for a header, a `#` line and two labelled lines with a trailing line feed, the grid is `[[], second line's cells, first line's cells]` |
| ColorModel.Round | index.js:21 | `Math.round` gives the integer nearest its argument, with halves going up |
| ColorModel.RoundWhole | index.js:21 | whole numbers round to themselves |
| ColorModel.RoundMonotone | index.js:21 | rounding preserves order |
| ColorModel.RoundBetween | index.js:81-83 | a value between two integers rounds to a value between them |
| ColorModel.HeatColor | index.js:14-34 | blue is 0 and alpha is passed through; on (0, 50] green is 255 and red is a byte; otherwise red is 255; on (50, 100] green is a byte; at 50 the colour is yellow and at 100 green is 0; at 0 or below green is at least 510, and above 100 it is at most 0 |
| ColorModel.HeatRedNonDecreasing | index.js:20-22 | on (0, 50] red does not decrease as activity grows |
| ColorModel.HeatGreenNonIncreasing | index.js:23-27 | above 50 green does not increase as activity grows |
| ColorModel.HeatInByteRange | index.js:14-34 | every activity in (0, 100] gives a byte colour |
| ColorModel.HeatIsRamp | index.js:14-34 | on (0, 100] the heat colour equals an independent reference: straight-line interpolation between green at 0, yellow at 50 and red at 100 |
| ColorModel.BlendChannel | index.js:81-83 | one channel of the mix: weight 0, or equal channel values, leave the pixel's channel unchanged |
| ColorModel.Mix | index.js:79-91 | the result alpha is the larger alpha; an overlay with alpha 0 changes no channel; with a non-negative overlay alpha every channel lies between the two inputs |
| ColorModel.BlendBetween | index.js:81-83 | a channel blended with a non-negative weight lies between its two inputs |
| ColorModel.WeightedMeanBetween | index.js:81-83 | `(u + o·p) / (1 + p)` with `p ≥ 0` lies between `u` and `o` |
| ColorModel.BlendIsLerp | index.js:80-83 | a channel blend is interpolation a fraction `alpha / (255 + alpha)` of the way from the pixel's value to the overlay's |
| ColorModel.MixIsInterpolation | index.js:79-91 | all three channels of the mix are that interpolation |
| ColorModel.MixInByteRange | index.js:79-91 | mixing byte colours with a non-negative overlay alpha gives a byte colour |
| ColorModel.MixOpaqueIsMean | index.js:80-83 | an opaque overlay (alpha 255) gives the rounded mean of the channels, not the overlay colour |
| ColorModel.NightShadeScales | index.js:137 | the night overlay scales each channel to two thirds, rounded, and makes the pixel at least half opaque |
| ColorModel.NightShadeDarkens | index.js:137 | the night overlay never brightens a byte colour and keeps it a byte colour |
| Geo.LatDegree | index.js:119-120 | every row's latitude lies in `[-90 + 90/R, 90 - 90/R]` |
| Geo.LonDegree | index.js:122-123 | every column's longitude lies in `[-180 + 180/C, 180 - 180/C]` |
| Geo.LatDecreasing | index.js:119-120 | latitude strictly decreases from row to row, by exactly `180/R` per row |
| Geo.LonIncreasing | index.js:122-123 | longitude strictly increases from column to column, by exactly `360/C` per column |
| Geo.LatMirror | index.js:119-120 | rows `lat` and `R - 1 - lat` have opposite latitudes; row 0 is at `90 - 90/R` and row `R - 1` at `-(90 - 90/R)` |
| Geo.LonMirror | index.js:122-123 | columns `lon` and `C - 1 - lon` have opposite longitudes, and column 0 is at `-180 + 180/C` |
| Geo.LatRowOfLatDegree | index.js:119-120 | a row's latitude lies inside that row's band, so mapping it back gives the row |
| Geo.LonColumnOfLonDegree | index.js:122-123 | a column's longitude lies inside that column's band, so mapping it back gives the column |
| SolarMask.IsNightShaded | index.js:133-136 | a place is shaded only at a valid instant, and exactly when a valid `nightEnd` lies after it or a valid `night` lies before it |
| SolarMask.ShadedOutsideWindow | index.js:133-136 | with valid dates, a place is shaded exactly when the instant lies outside `[nightEnd, night]` |
| SolarMask.InvalidNeverShades | index.js:133-136 | an invalid instant is never shaded, an invalid boundary never shades on its side, and two invalid boundaries shade nothing |
| MapRenderer.ComposePixel | index.js:133-142 | no shading and no positive activity leave the colour unchanged; alpha is the largest participating alpha; the result is a byte colour for byte input and activity up to 100; shading alone never brightens |
| MapRenderer.OrderMatters | index.js:137-141 | mixing the heat colour last, as the renderer does, differs from mixing it first: for a white pixel at night with activity 100 the red channel is 210 rather than 170 |
| MapRenderer.ShadedIsDarkened | index.js:133-138 | shading alone scales each channel to two thirds, rounded, and sets the alpha to the larger of the pixel's and 127.5 |
| MapRenderer.HeatAfterNight | index.js:133-141 | for a positive activity, the heat colour is mixed onto the pixel as it stands after the night test |
| MapRenderer.CellColor | index.js:119-142 | the cell's colour never lowers the pixel's alpha and is a byte colour for a byte pixel and activity up to 100. With no positive activity it is the pixel's own colour when the cell's centre is lit, and the pixel scaled to two thirds with alpha at least 127.5 when it is dark. With a positive activity it is the heat colour mixed onto the night-tested pixel |
| MapRenderer.PaintCell | index.js:124-143 | painting one cell keeps the raster's width and size |
| MapRenderer.PaintRow | index.js:121-144 | painting a row keeps the raster's width and size |
| MapRenderer.PaintRows | index.js:118-145 | painting the rows keeps the raster's width and size |
| MapRenderer.Render | index.js:118-145 | the rendered raster has the base map's width and size |
| MapRenderer.IndexRowColumn | index.js:124 | the flat index `lat * width + lon` with `lon < width` gives back `lat` and `lon` |
| MapRenderer.PaintCellStep | index.js:124-143 | when every row fits the width, painting one cell adds exactly that cell's pixel to the painted ones |
| MapRenderer.PaintRowPaintsCells | index.js:121-144 | when every row fits the width, painting a row paints exactly that row's cells |
| MapRenderer.PaintRowsPaintsCells | index.js:118-145 | when every row fits the width, painting the remaining rows paints exactly their cells |
| MapRenderer.RenderPointwise | index.js:118-145 | when every row fits the width, each cell's pixel gets the colour computed from the base map's pixel, and every other pixel keeps its colour |
| MapRenderer.RenderCell | index.js:124-143 | when every row fits the width, cell `(lat, lon)` lands on pixel `lat * width + lon`, coloured from that pixel of the base map |
| MapRenderer.PaintCellKeepsBytes | index.js:124-143 | painting one cell over a byte raster, with activities up to 100, leaves a byte raster |
| MapRenderer.PaintRowKeepsBytes | index.js:121-144 | so does painting the rest of a row |
| MapRenderer.PaintRowsKeepBytes | index.js:118-145 | so does painting the remaining rows |
| MapRenderer.RenderInByteRange | index.js:118-145 | for a grid of any shape, a byte-coloured base map stays byte-coloured when no activity exceeds 100 |
| MapRenderer.QuietDayAllowsDarkness | index.js:133-136 | only the cell centres are tested for darkness: a one-cell grid with a lit centre is quiet although every other place is dark |
| MapRenderer.PaintCellQuiet | index.js:124-143 | on a quiet day (no cell centre in darkness, no positive activity) painting a cell changes nothing |
| MapRenderer.PaintRowQuiet | index.js:121-144 | on a quiet day painting a row changes nothing |
| MapRenderer.PaintRowsQuiet | index.js:118-145 | on a quiet day painting the rows changes nothing |
| MapRenderer.QuietDayKeepsMap | index.js:118-145 | for a grid of any shape, with no cell centre in darkness and no positive activity, the output equals the base map, whatever the darkness between the centres |

## Left out

- PNG input and output are not modelled: reading the base map, the 1024×512 size check, copying the image, writing the file and the callback wrapper (index.js:103-114, 146-150). These are calls into an image library and the file system.
- The byte storage of `setAt` is not modelled. The model's raster holds the colours as computed, with a real alpha such as 127.5; the image library's conversion to stored bytes is not part of this model.
- `SunCalc.getTimes` (index.js:131) is an external solar-position library. It is the parameter `solar`, and the model uses only the `nightEnd` and `night` instants it returns.
- The forecast instant is the parameter `t`. Parsing the "Product Valid At" line with `new Date(string)` and re-reading its local fields as UTC (index.js:115-116) depend on the implementation and the time zone. An unparsable date is the `Invalid` instant.
- `easeOutExpo` (index.js:36-39) is floating-point exponentiation. Its value is the heat colour's alpha, passed in. The renderer requires only that it is non-negative for positive activity, which `225·(1 − 2^(−activity/10))` is.
- IEEE floating point is not modelled: all arithmetic is exact. For whole activities this changes four heat colours. In binary arithmetic `2.55 * 2 * 25` is `127.49999999999999`, so the program's red at activity 25 is 127 where the model's is 128; at activity 45 the program's red is 229 against the model's 230. Activities 75 and 55 give the same two differences in green.
- `getUTCDateString` and `getFileSystemSafeUTCDateString` (index.js:57-77) read the wall clock and only format file names.
- `colorForActivity` (index.js:93-100) is never called, and it reads an undefined table.
- `version` (index.js:41) reads `package.json`.
- The conversion of string cells to numbers in `activity > 0` (index.js:139) is not modelled. The parser returns strings and the renderer takes numbers, as two separate models.
- MapRenderer.RenderPointwise: states the per-pixel result only when every row fits the raster's width. A longer row runs into the next row of pixels, and a later cell then reads a pixel that was already painted. `Render` itself models that case as the code does.
- MapRenderer.PaintCellStep: states which pixels are painted only when every row fits the raster's width; a wrapped row paints pixels of the next pixel row.
- MapRenderer.PaintRowPaintsCells: the same premise, for the same reason.
- MapRenderer.PaintRowsPaintsCells: the same premise, for the same reason.
- MapRenderer.RenderCell: states the pixel's colour only when every row fits the raster's width. When a row runs into the next pixel row, a wrapped cell may paint the pixel first, so the later cell reads a painted pixel rather than the base map's.
- MapRenderer.ComposePixel: the byte-range guarantee assumes a non-negative heat alpha. The only alpha the function excludes is -255, where `colorMix` divides by zero.
