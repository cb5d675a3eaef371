# E-paper display toolkit: dithering, cropping, Wi-Fi configuration, greetings

This project models the computational core of a small e-paper photo and
movie frame, and proves properties of the model in Dafny.

- **Jarvis–Judice–Ninke dithering** (`toolkit/jarvis_dither.py`). The
  in-place raster pass turns a grayscale buffer into pure black and white.
  Each cell is clamped to [0, 255] and thresholded at 128. The quantisation
  error is spread over twelve later neighbours with weights 7 5 / 3 5 7 5 3 /
  1 3 5 3 1, out of 48. Taps that fall outside the buffer are skipped. The
  pass is specified on values in `DitherSpec` (`dither_spec.dfy`):
  - `Step` is one visit;
  - `StateAt` is the buffer when a given cell is reached;
  - `Dither` is the whole pass.

  `JarvisDither` (`jarvis_dither.dfy`) holds the in-place method over an
  `array2<real>` and the 8-bit wrapper. Both are proved to compute `Dither`.
- **Centre crop** (`crop_box.dfy`). This is the box the frame cuts from a
  source image so that it has the display's 800:480 shape. The comparison
  and the two roundings are written in exact integer arithmetic.
- **Supplicant configuration rewrite** (`wifi_config.dfy`). This is the part
  of the setup service's `connect_wifi` that edits
  `wpa_supplicant.conf`, one line per string:
  - it finds the first line mentioning `ssid="S"`;
  - it finds the nearest `network={` line at or above that line and the
    nearest `}` line at or below it;
  - it replaces that range with a fresh four-line block, or else appends the
    block, after one empty line when needed.

  The same file also models the clean-up `scan_wifi` applies to the SSIDs it
  finds: drop empty names, remove duplicates, sort.
- **Greeting** (`greet_time.dfy`). This covers the hour-to-period mapping
  and the greeting table.
- `text.dfy` holds the string operations this code uses: `strip`,
  `startswith`, `in`, and Python's string order. `wrappers.dfy` holds
  `Option` and `Result`.

Two behaviours of the code that the model reproduces as they are:
- **Crop only fails on a zero height.** The crop computes `width / height`,
  so only a zero height raises (`ZeroDivisionError`). A zero width gives an
  empty box and does not raise. `CenterCropBox` returns `Err(ZeroHeight)`
  exactly when the height is 0.
- **A Wi-Fi change can duplicate or remove lines.** The rewrite does not
  check that the opening and closing lines it finds belong to one block. The
  model reproduces what the code does (see `RewriteReplaces` and the notes
  under "Left out").

## Model

| member | source | states |
|---|---|---|
| `DitherSpec.Clamp` | toolkit/jarvis_dither.py:25 | the clamped value lies in [0, 255]; in-range values are kept, values below 0 become 0 and values above 255 become 255 |
| `DitherSpec.Threshold` | toolkit/jarvis_dither.py:26 | the result is 0 or 255, and it is 255 exactly when the clamped value is at least 128 |
| `DitherSpec.Quantize` | toolkit/jarvis_dither.py:24-28 | a visited cell becomes 0 or 255; a cell that already holds 0 or 255 keeps its value |
| `DitherSpec.Error` | toolkit/jarvis_dither.py:27 | the error spread to the neighbours lies in [-127, 128); written value plus error equals the clamped value; a 0 or 255 cell has error 0 |
| `DitherSpec.WeightAt` | toolkit/jarvis_dither.py:30-59 | a non-zero kernel weight only occurs at offsets within two rows below and two columns to either side, strictly after the visited cell in raster order |
| `DitherSpec.Share` | toolkit/jarvis_dither.py:30-59 | an offset outside the kernel, or a zero error, gets no share |
| `DitherSpec.ShareIsWeighted` | toolkit/jarvis_dither.py:33-59 | each tap receives error × weight / 48 |
| `DitherSpec.Step` | toolkit/jarvis_dither.py:24-59 | one visit keeps the buffer's shape, sets the visited cell to its quantised value and leaves every earlier cell unchanged; what a visit means is stated by `JarvisDither.VisitCell` (the literal guarded taps equal `Step`), `DitherSpec.StepTouches` and `DitherSpec.PassedShareInterior` |
| `DitherSpec.StepTouches` | toolkit/jarvis_dither.py:32-59 | a visit writes only to the visited cell and to in-bounds cells after it, at most two rows down and two columns to either side; its converse `DitherSpec.StepTap` states that every in-bounds tap does receive its share of the error |
| `DitherSpec.StepBinaryIdentity` | toolkit/jarvis_dither.py:24-59 | visiting a cell that holds 0 or 255 changes nothing |
| `DitherSpec.RunRow` | toolkit/jarvis_dither.py:23-59 | the inner `for x` loop: the buffer after the first x visits of row y, of the same shape; its properties are `RowFrozen`, `RowVisitedBinary` and `RowBinaryIdentity` |
| `DitherSpec.RunRows` | toolkit/jarvis_dither.py:22-59 | the outer `for y` loop: the buffer after the first y rows, of the same shape; its properties are `RowsFrozen`, `RowsVisitedBinary` and `RowsBinaryIdentity` |
| `DitherSpec.StateAt` | toolkit/jarvis_dither.py:22-59 | the buffer, of the same shape, at the moment cell (y, x) is visited; `VisitedAreFinal` and `NeverWrittenAgain` say what it holds |
| `DitherSpec.Dither` | toolkit/jarvis_dither.py:18-60 | the whole raster pass, keeping the h × w shape; `DitherBinary`, `DitherThreshold` and `DitherIdempotent` carry its properties |
| `DitherSpec.RowFrozen` | toolkit/jarvis_dither.py:23-59 | within a row, later visits never change cells the scan has passed |
| `DitherSpec.RowsFrozen` | toolkit/jarvis_dither.py:22-59 | visiting later rows never changes finished rows |
| `DitherSpec.RowVisitedBinary` | toolkit/jarvis_dither.py:23-28 | every cell the row scan has passed holds 0 or 255 |
| `DitherSpec.RowsVisitedBinary` | toolkit/jarvis_dither.py:22-28 | every cell of a finished row holds 0 or 255 |
| `DitherSpec.VisitedAreFinal` | toolkit/jarvis_dither.py:22-59 | when a cell is reached, each earlier cell holds 0 or 255 and already has its final value |
| `DitherSpec.DitherBinary` | toolkit/jarvis_dither.py:18-60 | every cell of the dithered buffer is 0 or 255 |
| `DitherSpec.DitherThreshold` | toolkit/jarvis_dither.py:24-28 | a cell's final value is the quantisation of its accumulated value at the moment it was visited: 255 iff the clamped value is ≥ 128 |
| `DitherSpec.NeverWrittenAgain` | toolkit/jarvis_dither.py:22-59 | after a cell is visited, its value at every later point of the pass is its final value |
| `DitherSpec.RowBinaryIdentity` | toolkit/jarvis_dither.py:23-59 | a row scan over a black-and-white buffer changes nothing |
| `DitherSpec.RowsBinaryIdentity` | toolkit/jarvis_dither.py:22-59 | scanning rows of a black-and-white buffer changes nothing |
| `DitherSpec.DitherBinaryFixpoint` | toolkit/jarvis_dither.py:18-60 | a buffer already all 0 or 255 comes back unchanged |
| `DitherSpec.DitherIdempotent` | toolkit/jarvis_dither.py:18-60 | dithering a dithered buffer gives the same buffer |
| `DitherSpec.DitherUniformExtremes` | toolkit/jarvis_dither.py:18-60 | an all-white buffer stays all-white and an all-black one stays all-black |
| `DitherSpec.RowSharesClosed` | toolkit/jarvis_dither.py:32-59 | the shares one row receives are the shares of the five taps in that row whose columns lie inside the buffer |
| `DitherSpec.BufferSharesClosed` | toolkit/jarvis_dither.py:37-59 | only the visited row and the two rows below it receive shares, and only when they exist |
| `DitherSpec.RowStepTotal` | toolkit/jarvis_dither.py:24-59 | a visit changes a row's sum by the quantisation change (visited row) plus the shares landing in the row |
| `DitherSpec.GridStepTotal` | toolkit/jarvis_dither.py:24-59 | a visit changes the sum of the first m rows by the quantisation change plus the shares landing there |
| `DitherSpec.PassedShareInterior` | toolkit/jarvis_dither.py:32-59 | the twelve weights sum to 48: what a visit passes on lies between 0 and the error, and equals the whole error exactly when all taps are in bounds |
| `DitherSpec.StepTotal` | toolkit/jarvis_dither.py:24-59 | a visit changes the buffer's total by the quantisation change plus the part of the error that stays inside the buffer |
| `DitherSpec.InteriorStepConserves` | toolkit/jarvis_dither.py:24-59 | an interior visit passes on exactly its error, changing the total only by the clamping; for an in-range cell the total is unchanged |
| `JarvisDither.Contents` | toolkit/jarvis_dither.py:18 | the buffer as a grid of its shape, cell for cell |
| `JarvisDither.SpreadSameLine` | toolkit/jarvis_dither.py:31-35 | the two same-row taps in bounds get their share; nothing else changes |
| `JarvisDither.SpreadNextLine` | toolkit/jarvis_dither.py:37-47 | the five next-row taps in bounds get their share; nothing else changes |
| `JarvisDither.SpreadLinePlusTwo` | toolkit/jarvis_dither.py:49-59 | the five taps two rows down in bounds get their share; nothing else changes |
| `JarvisDither.VisitCell` | toolkit/jarvis_dither.py:24-59 | one visit in place turns the buffer into `Step` of the old buffer |
| `JarvisDither.JarvisDitherCore` | toolkit/jarvis_dither.py:18-60 | the in-place pass leaves the buffer equal to `Dither` of its old contents, every cell 0 or 255 |
| `JarvisDither.Widened` | toolkit/jarvis_dither.py:65 | the 8-bit image as a grid of its shape, each cell its value |
| `JarvisDither.Narrow` | toolkit/jarvis_dither.py:68 | the conversion to 8 bits truncates: the byte is the integer part of the value |
| `JarvisDither.Widen` | toolkit/jarvis_dither.py:65 | a fresh working buffer of the image's shape holding the image's values |
| `JarvisDither.NarrowAll` | toolkit/jarvis_dither.py:68 | a fresh 8-bit image of the buffer's shape with the same value in every cell, each 0 or 255, when every cell of the buffer is 0 or 255 |
| `JarvisDither.JarvisDitherImage` | toolkit/jarvis_dither.py:63-68 | a new image of the same shape, equal cell for cell to `Dither` of the input's values, every pixel 0 or 255 |
| `CropBox.TargetW` | toolkit/jarvis_dither.py:12 | the display width, 800 pixels |
| `CropBox.TargetH` | toolkit/jarvis_dither.py:12 | the display height, 480 pixels; `TooWide` compares against their ratio 800/480 |
| `CropBox.RoundedWidth` | toolkit/jarvis_dither.py:77 | the integer nearest 5h/3 (within 1/3) |
| `CropBox.RoundedHeight` | toolkit/jarvis_dither.py:80 | the integer nearest 3w/5 (within 2/5) |
| `CropBox.TooWide` | toolkit/jarvis_dither.py:74-75 | for a non-zero height, holds exactly when width / height exceeds 800 / 480 as exact reals |
| `CropBox.CenterCropBox` | toolkit/jarvis_dither.py:72-85 | fails exactly when the height is 0; otherwise the box lies inside the image; a too-wide source keeps its full height and a rounded 5h/3 width; otherwise it keeps its full width and a rounded 3w/5 height; the margins differ by at most one (floor centring); the box is 5:3 within rounding |
| `CropBox.CropOfTargetShape` | toolkit/jarvis_dither.py:72-85 | a source of the display's 5:3 shape is kept whole |
| `CropBox.CropExamples` | toolkit/jarvis_dither.py:72-85 | 800×480 → (0, 0, 800, 480); 1600×480 → (400, 0, 1200, 480); 800×960 → (0, 240, 800, 720); 640×0 → error |
| `Text.IsSpace` | wifi_setup.py:72 | the characters `str.strip()` removes: ASCII whitespace and the separators 0x1C–0x1F (the non-ASCII rest is under "Left out"); `StripLeftRemovesSpaces` and `StripRightRemovesSpaces` state that exactly these are removed |
| `Text.StartsWith` | wifi_setup.py:72-76 | `str.startswith`: the prefix of the string's own length equals the given prefix; `StartsWithStripRight` and `LinePredicates` use it to characterise the block tests |
| `Text.StripLeftRemovesSpaces` | wifi_setup.py:72 | left stripping removes a maximal all-whitespace prefix and nothing else |
| `Text.StripRightRemovesSpaces` | wifi_setup.py:86 | right stripping removes a maximal all-whitespace suffix and nothing else |
| `Text.Strip` | wifi_setup.py:72 | `str.strip()`: right stripping after left stripping; `StripRemovesSpaces` carries its properties |
| `Text.StripRemovesSpaces` | wifi_setup.py:72 | the stripped line is an infix of the line with only whitespace before and after it, and it neither starts nor ends with whitespace |
| `Text.StartsWithStripRight` | wifi_setup.py:72 | for a prefix ending in a non-space character, right stripping does not change whether a string starts with it |
| `Text.Contains` | wifi_setup.py:69 | `pattern in s`; `ContainsAt` characterises it |
| `Text.ContainsAt` | wifi_setup.py:69 | `pattern in s` holds iff the pattern occurs at some index of s |
| `Text.ContainsInfix` | wifi_setup.py:69 | a string contains each of its infixes |
| `Text.NotContainsWithout` | wifi_setup.py:69 | a string without the pattern's first character does not contain the pattern |
| `Text.Less` | wifi_setup.py:26 | Python's `<` on strings, code-point order with a proper prefix first; the four lemmas below prove it a strict total order |
| `Text.LessIrreflexive` | wifi_setup.py:26 | no string sorts before itself |
| `Text.LessTransitive` | wifi_setup.py:26 | string order is transitive |
| `Text.LessTotal` | wifi_setup.py:26 | of two different strings one sorts before the other |
| `Text.LessAsymmetric` | wifi_setup.py:26 | two strings never sort before each other |
| `WifiConfig.NetworkBlock` | wifi_setup.py:59-64 | the new block is four lines: `network={`, the ssid line, the psk line, `}` |
| `WifiConfig.SsidPattern` | wifi_setup.py:69 | the text searched for starts with `s` and is seven characters longer than the SSID |
| `WifiConfig.IsBlockStart` | wifi_setup.py:72 | the stripped line starts with `network={`; `LinePredicates` characterises it |
| `WifiConfig.IsBlockEnd` | wifi_setup.py:76 | the stripped line starts with `}`; `LinePredicates` characterises it |
| `WifiConfig.IsBlank` | wifi_setup.py:86 | the stripped line is empty; `LinePredicates` characterises it |
| `WifiConfig.LinePredicates` | wifi_setup.py:72-86 | a line opens (closes) a block iff it starts with `network={` (`}`) after its leading whitespace; a line is blank iff it is whitespace only |
| `WifiConfig.FirstMatch` | wifi_setup.py:68-69 | none iff no line mentions the SSID; otherwise the least index of such a line |
| `WifiConfig.LastStartAtOrBefore` | wifi_setup.py:71-74 | none iff no line at or above i opens a block; otherwise the greatest such index ≤ i |
| `WifiConfig.FirstEndFrom` | wifi_setup.py:75-78 | none iff no line at or below i closes a block; otherwise the least such index ≥ i |
| `WifiConfig.Located` | wifi_setup.py:66-79 | the pair (start_idx, end_idx) the search leaves; `LocatedFacts` carries its properties |
| `WifiConfig.LocatedFacts` | wifi_setup.py:66-79 | a reported start opens a block and a reported end closes one, start ≤ end, both lie around the first line that mentions the SSID, and nothing is reported unless some line mentions it |
| `WifiConfig.PlanEdit` | wifi_setup.py:81-83 | a replaced range lies inside the file, start before end |
| `WifiConfig.FindBlockStart` | wifi_setup.py:71-74 | the backward scan finds the greatest opening line at or above i, if any |
| `WifiConfig.FindBlockEnd` | wifi_setup.py:75-78 | the forward scan finds the least closing line at or below i, if any |
| `WifiConfig.Rewrite` | wifi_setup.py:66-88 | the configuration after the rewrite; `RewriteReplaces` and `RewriteAppends` state both cases exactly |
| `WifiConfig.LocateBlock` | wifi_setup.py:66-79 | the search loop ends with exactly the boundaries `Located` describes |
| `WifiConfig.UpdateNetworkConfig` | wifi_setup.py:59-88 | the search and edit leave exactly the rewritten configuration `Rewrite` describes |
| `WifiConfig.RewriteReplaces` | wifi_setup.py:66-83 | with the first mention at i, the nearest opening line s ≤ i and the nearest closing line t ≥ i, lines s..t are replaced by the block; the length becomes old − (t − s + 1) + 4 |
| `WifiConfig.RewriteAppends` | wifi_setup.py:84-88 | with no complete block found, the old lines stay a prefix and the block comes last; one `"\n"` line is inserted iff the file is empty or its last line is not blank; the length grows by 5 or 4 |
| `WifiConfig.UnknownSsidAppends` | wifi_setup.py:66-88 | an SSID no line mentions is appended |
| `WifiConfig.ReplacedRangeHoldsMention` | wifi_setup.py:66-83 | the replaced range contains the first line that mentions the SSID |
| `WifiConfig.BlockLineFacts` | wifi_setup.py:59-64 | in the new block only the first line opens a block, only the last closes one, and the ssid line mentions the SSID while the first line does not |
| `WifiConfig.StripStartsWithFirst` | wifi_setup.py:72 | stripping an indented line gives a string that starts with the line's first non-space character |
| `WifiConfig.StripLeftSkips` | wifi_setup.py:72 | left stripping removes exactly a leading run of spaces |
| `WifiConfig.LocatesWrittenBlock` | wifi_setup.py:66-79 | a written block is found again at its own position when nothing before it mentions the SSID |
| `WifiConfig.RewriteStableAfterReplace` | wifi_setup.py:59-88 | after a replacement, writing the same network again changes nothing |
| `WifiConfig.RewriteStableAfterAppend` | wifi_setup.py:59-88 | after appending an SSID the file did not mention, writing it again changes nothing |
| `WifiConfig.Insert` | wifi_setup.py:26 | inserting into a strictly sorted list keeps it strictly sorted and adds exactly the new name |
| `WifiConfig.DistinctSsids` | wifi_setup.py:26 | the reported list is strictly sorted and holds exactly the non-empty names found |
| `WifiConfig.SortedSetUnique` | wifi_setup.py:26 | two strictly sorted lists with the same names are equal |
| `WifiConfig.DistinctSsidsCanonical` | wifi_setup.py:26 | the reported list is the only strictly sorted list of the non-empty names found |
| `WifiConfig.DistinctSsidsIdempotent` | wifi_setup.py:26 | cleaning a cleaned list changes nothing |
| `WifiConfig.DistinctSsidsSameNames` | wifi_setup.py:26 | the order and repetition of the names found do not matter |
| `GreetTime.TimePeriod` | greet_time.py:13-21 | "morning" iff 5 ≤ hour < 11, "noon" iff 11 ≤ hour < 14, "afternoon" iff 14 ≤ hour < 18, "evening" otherwise |
| `GreetTime.Choose` | greet_time.py:54 | a choice succeeds iff the list is non-empty and then returns one of its entries |
| `GreetTime.RandomGreeting` | greet_time.py:23-54 | an unknown period fails (the dictionary lookup); otherwise the greeting comes from that period's list |
| `GreetTime.Greetings` | greet_time.py:24-53 | the table's keys are exactly the four periods, each with five messages, so no list is empty |
| `GreetTime.GreetingAlwaysFound` | greet_time.py:13-54 | every hour's period is in the table, so a greeting is always produced, from that period's list |
| `GreetTime.EveryGreetingReachable` | greet_time.py:54 | every message of a period is returned for some draw |
| `GreetTime.PeriodChanges` | greet_time.py:13-21 | over a day the period changes exactly at 5, 11, 14 and 18 o'clock, and 23 o'clock and midnight share the evening |

## Left out

- `process_frame_to_1bpp` (`toolkit/jarvis_dither.py:88-114`) is not modelled. It is PIL work: colour conversion, cropping, Lanczos resizing and 1-bit BMP encoding.
- JarvisDither.JarvisDitherCore: the buffer holds exact reals, not float32. Rounding of `error * k / 48` and of the sums is not modelled, so the proved values are the exact-arithmetic ones.
- CropBox.TooWide: the float comparison `width / height > 800 / 480` is modelled as the exact comparison `480·width > 800·height`. The two agree unless the height is above about 2^50.
- CropBox.RoundedWidth: Python's float `round(RATIO * h)` is modelled as the exact nearest integer. `5h/3` and `3w/5` are never halfway, so round-half-even never applies.
- Text.IsSpace: `str.strip()` also removes non-ASCII whitespace (for example U+00A0 and U+3000). The model strips only the ASCII whitespace and the four separators 0x1C–0x1F.
- `scan_wifi` (`wifi_setup.py:21-29`): running `iwlist` and the regular expression that extracts the `ESSID:"..."` names are not modelled. The model starts from the list of names found. The exception fallback to `[]` is not modelled either.
- `connect_wifi` (`wifi_setup.py`, lines 36-58 and from line 89 on): status updates, `iwgetid`, `ping`, `chmod`, reading and writing the file, `wpa_cli`, the connection polling loop and `systemctl` are I/O and process control. Only the in-memory rewrite of the lines read from the file is modelled.
- WifiConfig.RewriteStableAfterReplace: stability is proved only after a replacement or after appending a new SSID. It does not hold in general:
  - If a line mentions the SSID but no `network={` line precedes it, each run appends another block.
  - If no `}` line follows the mention, the first run appends, and the next run replaces everything from the opening line to the end of the new block.
- GreetTime.RandomGreeting: `random.choice` is modelled by a `pick` parameter reduced modulo the list length. Which pick is drawn, and its distribution, are not modelled.
- `greet_time.py` `main`, `toolkit/functions.py`, `display_img.py`, `display_movie.py`, `lmdb_epaper_player.py`, `server.py` and `static/script.js` are not part of this model. They are device drivers, HTTP handlers, process control and the browser front end. `display_movie.py`'s `main` assigns `current_frame` without a `global` declaration; that frame-counter code is not part of this model either.
