# bmpgrep, modelled in Dafny

bmpgrep finds every top-left corner at which a small RGB bitmap occurs inside
a big one, either exactly or within a per-channel tolerance, and prints the
corners as `x,y,x,y,...` on one line. This project models its matching
engine, which is all inlined in `main`:

- `Raster`: the decoded pixel grid (`Image`, `Pixel`, channels 0..255).
- `Compare`: the per-pixel comparator. The exact path is taken when no
  tolerance is positive. Otherwise the red, green and blue bounds are
  checked in that order, with a short circuit.
- `Search`: the four nested loops (`big_y`, `big_x`, `small_y`, `small_x`)
  with their early exits, as methods proved against the pure functions
  `Occurs`, `Hit`, `Hits` and `Matches`.
- `Render`: the text written to standard output. `Decode` reads that text
  back, and a round-trip lemma connects the two.

The program itself is `Search.Scan`. It returns the list of reported corners
and the exact output text. Candidate corners use exclusive bounds
`x < big_width - small_width` and `y < big_height - small_height`, as the
code has them. A window is reported only when its last small pixel is
reached, so a small image with no pixels is never reported.

## Model

| member | source | states |
|---|---|---|
| Raster.At | bmpgrep.cpp:105-107 | a pixel read inside the image has byte-valued channels |
| Compare.Abs | bmpgrep.cpp:38-43 | the result is non-negative and equals n or -n |
| Compare.ComparePixel | bmpgrep.cpp:103-134 | the short-circuit chain R, then G, then B, on either path, yields exactly `PixelMatches`: the exact path is all channels equal, and the tolerance path is all three bounds together |
| Compare.ExactPathAgrees | bmpgrep.cpp:58-61 | for non-negative tolerances the exact path accepts the same pairs as the tolerance test with zero tolerances, so the accept test is always `abs(dR) <= tr && abs(dG) <= tg && abs(dB) <= tb` |
| Compare.PixelMatchesMonotone | bmpgrep.cpp:121-134 | raising any tolerance never rejects a pair that was accepted |
| Compare.PixelMatchesItself | bmpgrep.cpp:109-134 | a pixel is accepted for an identical pixel under any non-negative tolerances |
| Search.CheckWindow | bmpgrep.cpp:78-159 | the row-major pixel loops with breaks on the first mismatch report the window iff the small image is non-empty and every small pixel is accepted for the big pixel at the same offset; the big image is read through the counters `big_offset_x`/`big_offset_y`, reset and incremented where the source does, which stay equal to `small_x`/`small_y` so every big-pixel access is in range |
| Search.ScanWindows | bmpgrep.cpp:58-167 | the outer loops yield the hits over the candidate range in row-major order, and the text written is `Output` of exactly those hits, built one corner at a time |
| Search.Scan | bmpgrep.cpp:71-167 | the program's result is `Matches` (bounds `big - small`, exclusive) and its output text is `Output(Matches)` |
| Search.RowHitsMembers | bmpgrep.cpp:93-149 | a corner is listed in a row's hits iff it is in that row, left of the bound, and its window is a hit |
| Search.HitsMembers | bmpgrep.cpp:92-149 | a corner is listed iff it lies in the candidate range and its window is a hit |
| Search.MatchesIff | bmpgrep.cpp:87-159 | (x,y) is reported iff x < big_width - small_width, y < big_height - small_height, the small image is non-empty and every small pixel matches the big pixel at its offset |
| Search.FlushColumnNeverReported | bmpgrep.cpp:88-93 | the corner whose window is flush with the right edge is never reported |
| Search.FlushRowNeverReported | bmpgrep.cpp:87-92 | the corner whose window is flush with the bottom edge is never reported |
| Search.NoRoomNoMatches | bmpgrep.cpp:87-93 | if the big image is not strictly larger in both dimensions, nothing is reported |
| Search.CopyIsFound | bmpgrep.cpp:92-149 | a literal copy of the small image at a candidate corner is reported, for any non-negative tolerances |
| Search.HitMonotone | bmpgrep.cpp:96-143 | raising any tolerance never turns an accepted window into a rejected one |
| Search.HitsMonotone | bmpgrep.cpp:92-149 | over any candidate range, raising any tolerance never removes a listed corner |
| Search.MatchesMonotone | bmpgrep.cpp:122-133 | raising any tolerance never removes a reported corner |
| Search.RowHitsAscending | bmpgrep.cpp:93 | a row's hits are strictly ascending in x and all lie in that row |
| Search.HitsAscending | bmpgrep.cpp:92-93 | the hits are strictly ascending in row-major order and lie above the row bound |
| Search.MatchesInScanOrder | bmpgrep.cpp:92-149 | reported corners come in row-major order (y outer, x inner), and no corner is reported twice |
| Search.SelfSearchMissed | bmpgrep.cpp:87-93 | an image searched inside itself occurs at (0,0) but nothing is reported |
| Search.ScanContained | bmpgrep.cpp:81-88 | the search with inclusive bounds returns `Containments` and its output text |
| Search.ContainmentsIff | bmpgrep.cpp:81-93 | with inclusive bounds, a corner is reported iff the small image fits there, is non-empty and every pixel matches |
| Search.ContainmentsMonotone | bmpgrep.cpp:81-93 | with inclusive bounds too, raising any tolerance never removes a reported corner |
| Search.SelfSearchFound | bmpgrep.cpp:81-88 | with inclusive bounds, an image searched inside itself is found exactly at (0,0) |
| Render.Decimal | bmpgrep.cpp:147 | a coordinate is written as a non-empty string of decimal digits, with no leading zero unless the coordinate is 0 |
| Render.LineAppend | bmpgrep.cpp:144-148 | writing one more corner adds a comma only if something was written before, then `x,y` |
| Render.DecodeOutput | bmpgrep.cpp:144-167 | decoding the written text gives back exactly the reported corners, in order |
| Render.OutputShape | bmpgrep.cpp:144-167 | nothing is written when no corner is reported; otherwise the line starts and ends with a digit (no leading or trailing separator) and ends in one newline |

## Left out

- Command-line parsing with `atoi` (bmpgrep.cpp:47-56): the tolerances are parameters. They are modelled as unbounded integers, and `HasTolerance` is the code's flag exactly, negative values included.
- Compare.ExactPathAgrees: stated for non-negative tolerances only. The usage text allows 0-255. With a negative tolerance such as (-1,0,0), the exact path accepts equal pixels, but the tolerance path rejects every pixel once another tolerance is raised.
- Compare.PixelMatchesMonotone: stated for non-negative tolerances only, for the reason above.
- Search.HitMonotone: stated for non-negative tolerances only, for the reason above.
- Search.HitsMonotone: stated for non-negative tolerances only, for the reason above.
- Search.MatchesMonotone: stated for non-negative tolerances only, for the reason above.
- Search.ContainmentsMonotone: stated for non-negative tolerances only, for the reason above.
- BMP decoding through the EasyBMP library (`BMP`, `ReadFromFile`, `TellWidth`, `TellHeight`, the pixel accessor) is not part of this model. Both images are given as in-memory grids.
- Writing to `cout` is modelled as building the returned output string. `endl` is a plain newline, and flushing is not modelled.
- `Abs` takes a `double` in the source. Its arguments are differences of byte channels, which are exact, so the model uses `int`.
- The alpha channel of a pixel is never compared, so it is not modelled.
- The reduced sample pattern, its capacity failure and a cap on the number of matches are described for other revisions of the program. The code modelled here compares every small pixel and reports every match, so none of these exist in the model.

## Findings

| source | as written | input that shows it | evidently intended | confidence | as-written member | corrected member |
|---|---|---|---|---|---|---|
| bmpgrep.cpp:87-93 | candidate corners use `big_y < big_height - small_height` and `big_x < big_width - small_width` | big and small the same 1x1 image: it occurs at (0,0), but nothing is reported | inclusive bounds. The comment at :81-85 says a 100-pixel-wide small image can only skip the 99 right-most columns, but the loop skips 100 | high; not executed | Search.SelfSearchMissed | Search.ContainmentsIff |

`Search.Scan` stays the model of the program as written. `Search.ScanContained` is the corrected search with inclusive bounds. It runs the same loops and produces the same output format. The membership, order and monotonicity lemmas (`HitsMembers`, `HitsAscending`, `HitsMonotone`) are proved about `Hits` for any candidate range, so they cover both searches.
