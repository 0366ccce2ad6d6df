# MFSimToOpenDrop translation core in Dafny

This project models the translation pipeline of `main.py`. The pipeline turns
an MFSim activation program into the frames an OpenDrop digital-microfluidics
board consumes.

- **Parsing** (`parse_input`): lines `ts:(x,y)(x,y)...` are read into an
  insertion-ordered dictionary. It maps each timestep to the set of raw
  coordinates written on its line. Raw coordinates are tuples of strings.
  Reading stops at the first line with an empty coordinate list.
- **Grid translation** (`translate_grid`): every raw coordinate is converted
  to integers and moved from the 14 x 8 logical grid onto the 16 x 8 physical
  electrode array.
  - Normal columns shift right by one.
  - Off-grid x values are I/O-port requests. They go to column 0 (west) or
    column 15 (east), on a row chosen by a tier rule.
- **Bit-packing** (`coord_to_bytemap`): each timestep becomes a 16-entry
  frame. Entry c accumulates `1 << y` for every coordinate (c, y).
- **JSON description** (the loop in `main`): each timestep becomes eight
  16-character `0`/`1` row strings and its frame number.
- **`.od` lines and payload**: frames are written as space-separated decimal
  lines. For transmission, the 16 frame values are followed by a 16-entry
  control word, and every value is converted to one byte.

Module by module:

- `common.dfy`: the error cases, `Result`, the dictionary as a sequence of
  entries, and a total `Map` with its permutation lemma.
- `grid.dfy`: the per-coordinate translation and an independent tier
  description of the port rows.
- `text.dfy`: the Python string operations the parser relies on. These are
  `strip`, `split`, `''.join`, removing `(`, and `int()` on decimal text.
- `parser.dfy`: `parse_input` as a method with loops, proved against the
  function `Parse`. It also writes programs in the input format, with or
  without white space in front of each `(x,y)` (the form
  `TS: <space-separated list of coords>`). It shows that such text parses
  back to its table, and it covers the stop rule.
- `translator.dfy`: `translate_grid` as methods with loops.
  - Python's set iteration order is an unspecified choice, reported as a
    ghost `order`.
  - `TranslateSeqPermutation` shows the order only permutes the output.
- `encoder.dfy`: `coord_to_bytemap` as written (the sum `Frame`) and the
  bit-mask reading (`MaskFrame`), with its decoding.
  - It proves when the two agree.
  - It gives the inputs where they do not (see Findings), and a corrected
    encoder.
- `description.dfy`: the JSON rows, built in a two-dimensional array. It
  covers Python's negative-index wrap-around, reading the rows back, and
  agreement with the frames.
- `payload.dfy`: the control word, the 32-value message, and the per-value
  `int.to_bytes(_, 1)` conversion with its round trip.
- `pipeline.dfy`: the `.od` line format with its round trip through
  split-and-parse, and the whole translation branch of `main` chained.
  The chain packs with the corrected encoder (see Findings). The as-written
  packer `Encoder.CoordToBytemap` is modelled and proved on its own.

A timestep written on two lines is not merged. The code adds two sets with
`ts_to_coords[int(ts)] += coords`, which raises TypeError in Python, so the
model gives `Err(RepeatedTimestep(ts))`. A line that does not split into
exactly two pieces at `:` fails to unpack, a blank line included, and the
model gives `Err(MalformedLine(i))`.

## Model

| member | source | states |
|---|---|---|
| Grid.Translate | main.py:164-187 | The column is always in 0..15. A grid x in 0..13 goes to (x+1, y) with the row unchanged. x < 0 goes to column 0 and x > 13 to column 15. Off-grid rows are in 0..3 when y < 4 and in 4..7 when y >= 4. |
| Grid.PortRowIsMirroredTier | main.py:165-185 | The port row equals an independent description. The tier is 3 at distance 3 and 2 at distance 2. Otherwise it is 1, except 0 when y is 1 or 6. The row is the tier in the top half and 7 - tier below. |
| Grid.PortSidesAgree | main.py:166-185 | The west and east edges use the same row for the same distance from the grid. West goes to column 0 and east to column 15. |
| Grid.VerticalMirror | main.py:164-187 | Flipping the logical row (y to 7 - y) flips the physical row and keeps the column. |
| Grid.GridCellsInjective | main.py:186-187 | Grid cells land on columns 1..14. Two grid cells land on the same electrode exactly when they are equal. |
| Grid.GridCellsOnto | main.py:186-187 | Every non-port electrode of rows 0..7 is the translation of a grid cell. |
| Grid.TranslateInPhysicalGrid | main.py:164-187 | Any coordinate with a row in 0..7, on the grid or off it, lands on the 16 x 8 electrode array. |
| Grid.PortsAlias | main.py:166-185 | Ports are many-to-one. Distances of 4 or more reach the same electrode as distance 1. (14,4) and (14,5) share electrode (15,6), and (-1,0) and (-1,2) share (0,1). |
| Text.TrimStartSpec | main.py:201 | `lstrip` removes exactly the leading white space. What remains is a suffix that does not start with white space. |
| Text.TrimEndSpec | main.py:201 | `rstrip` removes exactly the trailing white space. What remains is a prefix that does not end with white space. |
| Text.SplitSpec | main.py:201 | No piece of `split(sep)` contains the separator, and joining the pieces gives the string back. |
| Text.SplitJoin | main.py:206 | Splitting the join of separator-free pieces gives the pieces back. |
| Text.RemoveCharSpec | main.py:202 | `re.sub('[(]', '', s)` removes every `(` and keeps every other character as often as before. |
| Text.RemoveCharConcat | main.py:202 | Removing `(` works piece by piece over a concatenation, so the characters kept stay in their order. |
| Text.RemoveCharAbsent | main.py:202 | A string without `(` is left unchanged. |
| Text.ParseShowInt | main.py:164 | `int()` reads back the decimal text of every integer. |
| Text.TrimStartBlank | main.py:164 | `lstrip` removes white space in front of text that starts with something else. |
| Text.ParseIntPadded | main.py:164 | `int()` skips white space in front of a decimal text: `int(' 1') == 1`. |
| Parser.CollectCoords | main.py:205-209 | The inner loop's set is the set of the groups' comma-split tuples, taken up to the first empty group. |
| Parser.LeadingGroupsAt | main.py:206-208 | The groups read are exactly the pieces before the first empty one. |
| Parser.ReadOneLine | main.py:201-213 | One line reads as the function `ReadLine` says. Not exactly one `:` gives malformed. An empty coordinate list stops reading, even before the timestep is converted. A bad timestep gives BadTs. Otherwise it gives the timestep and its set. |
| Parser.Scan | main.py:212-215 | The dictionary being built never repeats a key, and it has at most one entry per line read. |
| Parser.ParseInput | main.py:193-216 | The loop with its early `break` returns exactly `Parse(lines)`: the dictionary, or the first exception raised. |
| Parser.ReadNextLine | main.py:200 | Lines are read one after another. |
| Parser.ScanSettled | main.py:203-204 | Once reading has stopped or failed, later lines change nothing. |
| Parser.StopLineEndsProgram | main.py:203-204 | A line with an empty coordinate list ends the program. Nothing after it is read. |
| Parser.RepeatedTimestepFails | main.py:212-215 | A timestep already in the dictionary makes `set += set` raise TypeError. The result is Err(RepeatedTimestep), not a union. |
| Parser.WrittenGroupShape | main.py:206-209 | The group left by a coordinate with white space in front has no parenthesis or colon. It splits at `,` into two fields: the white space and the decimal x, then the decimal y. |
| Parser.RemoveParen | main.py:202 | Removing `(` from a written coordinate leaves its white space, its group and its `)`. |
| Parser.WrittenTextGroups | main.py:202-206 | Removing `(` from written coordinates leaves their groups joined by `)`, with an empty last piece. |
| Parser.LeadingWrittenGroups | main.py:206-208 | All written groups are read; the empty last piece stops the loop. |
| Parser.GroupSetOfWritten | main.py:206-209 | The set read from the groups is the set of the raw coordinates written, white space included. |
| Parser.ReadWrittenLine | main.py:193-213 | A line `ts:` followed by at least one coordinate, each with only white space in front, reads as that timestep and the raw coordinates written. The white space stays in the first field of each. |
| Parser.PlainText | main.py:206 | `(x,y)(x,y)...` is the list written with no white space in front. |
| Parser.PlainRawSet | main.py:209 | With no white space in front, the raw coordinates are the decimal pairs of the coordinates. |
| Parser.ReadProgramLine | main.py:201-213 | A written line `ts:(x,y)...` with at least one coordinate reads as that timestep and the raw coordinates written. |
| Parser.ReadProgramLines | main.py:200-213 | Every line of a written program reads as its own item. |
| Parser.ScanProgramKinds | main.py:212-213 | Items with distinct timesteps build the dictionary in line order. |
| Parser.ParseProgram | main.py:193-216 | A program written as lines `ts:(x,y)...`, with distinct timesteps and non-empty lines, parses to exactly its table. |
| Parser.ProgramThenStop | main.py:203-204 | A written program, then a line `ts:` with no coordinates, then arbitrary further lines, parses to the program's table alone. |
| Parser.ReadStopLine | main.py:203-204 | A line `ts:` reads as the stop marker. |
| Parser.ExampleProgram | main.py:203-204 | An example program: `0:(1,2)(3,4)`, then the line `1:` with no coordinates, then `2:(5,6)`. The result holds only timestep 0, with its two raw coordinates. |
| Parser.ExampleLines | main.py:194-197 | Shows the text of the example program's lines: `0:(1,2)(3,4)`, `1:` and `2:(5,6)`. |
| Parser.ExampleRawSet | main.py:209 | The example's coordinates are the string tuples ("1","2") and ("3","4"). |
| Parser.DuplicateGroupsCollapse | main.py:205-209 | A group written twice on one line gives the same set as writing it once. |
| Translator.ToLogicalRawOf | main.py:164 | Converting a written raw coordinate gives back the coordinate. |
| Translator.ToLogicalWritten | main.py:164 | A raw coordinate read from a coordinate with white space in front converts back to that coordinate. |
| Translator.ReadWrittenCoords | main.py:193-213 | A line with white space in front of each coordinate reads as its timestep and raw coordinates that all convert, to exactly the coordinates written. |
| Translator.ReadSpacedLine | main.py:194-197 | The docstring form `TS: <space-separated list of coords>`, one space before each `(x,y)`, reads as raw coordinates that convert to exactly the coordinates written. |
| Translator.TranslateSeqAt | main.py:163-188 | Entry k of the translated list is the translation of raw coordinate k. |
| Translator.TranslateSeqColumns | main.py:163-188 | Every translated column is in 0..15. |
| Translator.TranslateSeqPermutation | main.py:163-188 | Walking the set in another order gives the same success or failure, and a permutation of the same translated list. |
| Translator.TranslateCoords | main.py:162-188 | The inner loop succeeds exactly when every raw coordinate converts. The list is then the translations of the set in the order walked, one per element. Otherwise it raises for this timestep. |
| Translator.TranslateGrid | main.py:158-190 | The same keys in the same order, each set replaced by its translated list. It succeeds exactly when every set converts; otherwise the first bad timestep raises. |
| Translator.TranslatedShape | main.py:161-189 | Whatever the order, each list is as long as its set, and every column is in 0..15. |
| Encoder.EncodeFrame | main.py:150-153 | The loop gives `Frame(coords)`: entry c is the sum of 2^y over the coordinates in column c, repetitions included. It raises exactly when some row is negative. |
| Encoder.CoordToBytemap | main.py:144-155 | One frame per timestep, in the dictionary's order. The first timestep with a negative row raises. |
| Encoder.ColumnSumPermutation | main.py:151-153 | The column sums do not depend on the order of the coordinates. |
| Encoder.FramePermutation | main.py:151 | The in-place sort does not change the frame. |
| Encoder.FrameExample | main.py:147-149 | `[[0,3],[0,2],[1,1]]` gives `[12, 2, 0, ..., 0]`. |
| Encoder.MaskFrameBytes | main.py:119 | Every entry of a bit-mask frame is in 0..255. |
| Encoder.MaskBit | main.py:153 | Bit r of a column's mask says whether electrode (c, r) is on. |
| Encoder.DecodeMaskFrame | main.py:150-153 | Decoding the bits of a mask frame gives back exactly the electrodes of the physical grid it was built from. |
| Encoder.MaskFrameOfDecode | main.py:150-153 | Every 16-entry frame of bytes is the mask frame of the electrodes it decodes to. |
| Encoder.MaskAdd | main.py:153 | Adding an electrode not yet present adds its bit to the column. |
| Encoder.ColumnSumIsMask | main.py:150-153 | For pairwise distinct coordinates with rows 0..7, the sum the code computes equals the bit mask. |
| Encoder.FrameIsMask | main.py:150-153 | For such coordinates, the frame as written is the mask frame. |
| Encoder.DistinctFrameBytes | main.py:150-153 | For such coordinates, every frame entry is in 0..255 (the bound line 119 checks), and the frame decodes to exactly those electrodes. |
| Encoder.SetBitMask | main.py:153 | `v \|= 1 << y` on a column's mask gives the mask of the set with the electrode added. |
| Encoder.MaskFrameSetBit | main.py:153 | One corrected loop step turns the mask frame of s into that of s plus the electrode. |
| Encoder.EncodeMaskFrame | main.py:150-153 | The corrected loop gives the mask frame of the electrodes, however often each is named. It fails exactly when a row is outside 0..7. A negative row raises as `1 << y` does; a row above 7 is refused. |
| Encoder.CoordToMaskBytemap | main.py:144-155 | The corrected packer gives one mask frame per timestep, in the dictionary's order. The first timestep with a row outside 0..7 raises. |
| Encoder.PortCollisionOverflow | main.py:176-185 | (14,6) and (17,6) both go to (15,7). Line 153 adds both bits, so the frame as written holds 256 in column 15; the mask holds 128. |
| Encoder.DoubledElectrode | main.py:153 | An electrode (x, y) with y below 7 named twice sums to the bit of (x, y + 1). The frame as written switches on (x, y + 1) instead; the mask switches on (x, y). |
| Encoder.PortCollisionWrongElectrode | main.py:166-175 | (-1,0) and (-1,2) both go to (0,1). With line 153 adding both bits, column 0 sums to 4, which decodes to electrode (0,2); the mask decodes to (0,1). |
| Description.RowIndex | main.py:45 | `ys[y]` succeeds exactly for y in -8..7. It reaches the row congruent to y modulo 8. |
| Description.IndexableRows | main.py:45 | A row in 0..7 indexes the row list, and a row that indexes it is below 8. |
| Description.Describe | main.py:43-47 | Eight strings of 16 characters over `0`/`1`. Character c of row r is `1` exactly when (c, r) is switched on. |
| Description.DescribeFrame | main.py:42-49 | One record: the description of the cells the coordinates light, and the timestep. It raises exactly when a row is outside -8..7. |
| Description.DescribeFrames | main.py:40-50 | One record per timestep, in the dictionary's order. The first timestep with a row outside -8..7 raises. |
| Description.ReadDescribe | main.py:43-47 | Reading the rows back gives exactly the described cells of the electrode array. |
| Description.DescribeRead | main.py:43-47 | Row strings of `0`/`1` of the right shape are the description of what they read as. |
| Description.LightsInGrid | main.py:44-45 | Every lit cell is an electrode of the 16 x 8 array. |
| Description.DescriptionAgreesWithMask | main.py:43-47 | For rows 0..7, the description lights exactly the listed electrodes, the same cells the mask frame decodes to. |
| Description.DescriptionAgreesWithFrame | main.py:43-47 | Without repeated coordinates, the frame as written decodes to the cells the description shows. |
| Description.NegativeRowWraps | main.py:44-45 | Row -1 lights row 7 in the description, while `1 << -1` raises in the packer (line 153). |
| Description.CollisionDescriptionDisagrees | main.py:44-45 | For (-1,0) and (-1,2), the description shows (0,1), but the frame as written switches on (0,2). |
| Payload.ControlData | main.py:80-84 | Sixteen entries, 25 at indices 10, 11 and 12, and 0 elsewhere. |
| Payload.MessageLayout | main.py:113-118 | The payload of a frame is 32 values: the 16 frame values, then the control word. |
| Payload.ToBytesSpec | main.py:118-122 | The conversion succeeds exactly when every value is in 0..255, and the bytes then stand for the values. Otherwise it reports the first value that is not. |
| Payload.ToBytesValues | main.py:122 | Bytes converted to values convert back to the same bytes. |
| Payload.Transmit | main.py:118-126 | The send loop converts and writes the values of `byte_ts + control_data` in order. It stops at the first one that raises. |
| Payload.ByteFrameSends | main.py:118-122 | A frame of bytes is always sent whole, control word included. |
| Payload.MaskFrameSends | main.py:118-122 | A mask frame is always sent whole. |
| Payload.CollisionFrameRefused | main.py:118-122 | For (14,6) and (17,6), the frame as written fails at value 15; the corrected frame is sent. |
| Pipeline.OdLineRoundTrip | main.py:55-56 | An `.od` line splits at its spaces into the decimal texts of the frame values, which read back as the values. |
| Pipeline.OdLines | main.py:54-56 | One `.od` line per frame, in order. |
| Pipeline.RenderFrames | main.py:40-56 | It succeeds exactly when every row is in 0..7. Then each timestep gets one JSON record, one frame and one `.od` line, in order. The record describes the lit cells, the frame is their mask, and the line is the frame's text. Record and frame name the same electrodes, and the frame is made of bytes. Otherwise the first timestep with a row outside -8..7 raises from the JSON loop; with none, the first timestep with a negative row raises. |
| Pipeline.TranslateProgram | main.py:30-57 | Parse errors pass through. If a coordinate does not convert, the first such timestep raises. Otherwise the translated dictionary has the parsed keys in order, each set walked in some order and translated, and the result is RenderFrames on it: success exactly when every translated row is in 0..7. |
| Pipeline.TwoWritingsTranslate | main.py:162-188 | Two writings of one coordinate, with different white space in front, translate to its electrode twice in either order. |
| Pipeline.MixedSpacingLine | main.py:201-209 | The line `0:(1,2) (1,2)` reads as timestep 0 with two different raw coordinates, ("1","2") and (" 1","2"). |
| Pipeline.MixedSpacingDoubles | main.py:153 | For `0:(1,2) (1,2)`, the translated list is electrode (2,2) twice in either order. The frame as written decodes to (2,3), while the mask decodes to (2,2). |

## Left out

- Serial port discovery, `serial.Serial`, the reads and writes, `time.sleep`, the handshake replies and `KeyboardInterrupt` (main.py:86-110, main.py:123-141). These are hardware I/O and timing. `Payload.Transmit` models only the bytes produced, in order. The bytes written before a value raises are not modelled.
- The warning logged at main.py:119-120 for a value above 255. Logging has no effect on the result.
- argparse, output-directory creation, `json.dump`, writing the `.od` file, and the `readlines()` branch at main.py:58-59. These are file I/O. `Pipeline.TranslateProgram` returns the records and lines instead of writing them. It does not show that the JSON file is already written when `coord_to_bytemap` later raises.
- The `debug`, `left_mag` and `right_mag` globals and the logging configuration (main.py:10, 21, 27-28). They are unused or diagnostic only.
- `coords.sort()` (main.py:151) is not performed. `Encoder.FramePermutation` shows that it cannot change the frame. The sort's effect on the dictionary's lists is not modelled.
- Translator.TranslateGrid: the dictionary is rebuilt as a new value rather than overwritten in place, so aliasing of `ts_to_coords` between the caller and the function is not modelled.
- Text.ParseShowInt: `int()` is modelled for an optional sign followed by ASCII decimal digits, with surrounding white space. Underscore separators and non-ASCII digits, which Python also accepts, are not modelled.
- A file the parser cannot open, and lines that are not valid text: file I/O.

## Findings

| source | as written | input that shows it | evidently intended | confidence | as-written member | corrected member |
|---|---|---|---|---|---|---|
| main.py:153, main.py:166-185 | `this_ts[x] += 1 << y` adds the bit once per coordinate. `translate_grid` sends several distinct port requests to the same electrode, so deduplication in the parser does not prevent a repeated electrode. | Timestep `0:(14,6)(17,6)`: both go to electrode (15,7). Column 15 becomes 256, and `int.to_bytes(256, 1)` raises OverflowError. | Each electrode sets its bit once (`this_ts[x] \|= 1 << y`). Column 15 is 128, and the frame is sent. | not executed | Encoder.PortCollisionOverflow, Payload.CollisionFrameRefused | Encoder.EncodeMaskFrame, Encoder.CoordToMaskBytemap, Payload.MaskFrameSends |
| main.py:153, main.py:166-175 | Same addition. Two port requests on one electrode carry into the next bit. | Timestep `0:(-1,0)(-1,2)`: both go to electrode (0,1). Column 0 becomes 4, which switches on electrode (0,2), while the JSON description shows (0,1). | Column 0 is 2 (electrode (0,1) only). | not executed | Encoder.PortCollisionWrongElectrode, Description.CollisionDescriptionDisagrees | Encoder.EncodeMaskFrame, Description.DescriptionAgreesWithMask, Pipeline.TranslateProgram |
| main.py:153, main.py:205-209 | Same addition. The parser keeps the white space in front of a group, so one coordinate written with and without a space gives two raw tuples in the set. | Timestep `0:(1,2) (1,2)`: tuples ("1","2") and (" 1","2") both go to electrode (2,2). Column 2 becomes 8, which switches on electrode (2,3). | Column 2 is 4 (electrode (2,2) only). | not executed | Pipeline.MixedSpacingDoubles, Encoder.DoubledElectrode | Encoder.EncodeMaskFrame, Pipeline.RenderFrames |
