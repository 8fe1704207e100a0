# Breath controller: a Dafny model

The breath controller is a USB-MIDI device. A pressure sensor samples the
player's breath. The firmware turns each sample into a 7-bit MIDI value
through a zero offset, an input gain and a 128-entry curve. It sends that
value as a control change, a channel pressure, or a pitch bend up or down.
The firmware is configured over SysEx messages with manufacturer id 0x7d.
A desktop tool (a Tk window) edits the settings and the curve, sends them
as SysEx messages, and saves and loads them as preset files.

The model covers three source files:

- `firmware/common.hpp` (module `Common`): the generic helpers. These are
  `size`, `set_bits`, `abs`, `min`, `max`, `clamp` and the `concat`
  functions. The AVR's 16-bit `int` and the fixed-width unsigned types are
  subsets of `int`.
- `firmware/breath-controller.cpp` (module `Firmware`):
  - the settings record and its power-up defaults;
  - `process_sysex` as a function `Apply` on the settings;
  - the SysEx receive buffer of `midi_receive`, with its 8-bit `pos`;
  - the packet `midi_send` builds, including the bit expressions of the
    pitch bends;
  - `zero_adjust`, `input_gain` and one pass of the main loop.

  The mutable state is a class `Device`. It has the settings fields, the
  curve as an `array`, the EEPROM copy, the receive buffer (an `array`),
  `pos` and `previous_value`. Its methods are proved against the functions
  of the module.
- `software/breath-controller.py` (modules `Text`, `Curve`, `Protocol`,
  `Preset` and `Tool`):
  - `Text`: the Python string operations the tool relies on.
  - `Curve`: the curve editor. This covers `fix_curve`, `curve_table`,
    `event_to_point` and the point-selection rules of the canvas handlers.
  - `Protocol`: the SysEx frames of `apply_settings` and `save_settings`.
  - `Preset`: the preset file codec.
  - `Tool`: the window's state as class `App`, whose handler methods update
    the curve list and the widget values.

Module `Link` joins the two sides. It proves that the five messages
`apply_settings` sends, arriving in the device's buffer one after another,
leave the device configured as the panel shows. It also proves that the
tool's initial panel stands for the EEPROM defaults.

Some units of the model:

- The input gain is kept in tenths (10..40), as the firmware stores it.
- Canvas events are pixel coordinates.
- A MIDI port is the number of messages it accepts before it raises.
- A preset file is its list of lines.

Where the code and its description differ, the model follows the code.
There are two exceptions, where the model carries the corrected behaviour
and also models the code as written apart (see "## Findings"): the channel
line of a preset file, and the firmware's end-of-message test, which the
model makes only when a byte was stored (`pos > 0`). The code as written
reads `buffer[pos-1]` even when `pos` is 0. Otherwise the model follows the
code, also where it departs from its description:

- The left-click and right-click distance threshold is 8 plot units.
- A curve left with a single point is not reset to the identity curve. Only
  an empty curve is, and `Curve.FixedSingleEndpoint` and
  `Curve.RightClickOnTwoPoints` show the flat curve that results.
- An `int()` or `float()` error in a preset line ends the whole load,
  because the exception leaves the loop. It does not skip just that line.
- A `curve` line with no space between its pairs is ignored.
- `save_settings` sends `save_to_eeprom` even when its apply failed.

## Model

| member | source | states |
|---|---|---|
| Common.Size | firmware/common.hpp:6-9 | the size of an array is its declared length |
| Common.SetBits | firmware/common.hpp:11-14 | the mask bits are all set when `bit` holds and all cleared otherwise; the bits outside the mask keep their values |
| Common.Abs | firmware/common.hpp:16-19 | in 16-bit `int` the result is x or -x and non-negative; at -32768, where C's `-x` is signed overflow, the model takes the two's-complement result -32768 |
| Common.Negate16 | firmware/common.hpp:16-19 | the 16-bit `-x`: x plus the result is 0 modulo 2^16, the result is -x whenever that fits, and -32768 negates to itself |
| Common.Min | firmware/common.hpp:21-24 | the result is one of the two arguments and no larger than either |
| Common.Max | firmware/common.hpp:26-29 | the result is one of the two arguments and no smaller than either |
| Common.Clamp | firmware/common.hpp:31-35 | within [low, high] when low <= high; x itself inside the range; low below it; high above it |
| Common.Concat16 | firmware/common.hpp:37-39 | the or of `a << 8` and `b` is 256a + b, and its high and low bytes give back a and b |
| Common.Concat32 | firmware/common.hpp:41-43 | the or of `a << 16` and `b` is 65536a + b, and its halves give back a and b |
| Common.Concat32Bytes | firmware/common.hpp:45-49 | the four shifted bytes combine to a·2^24 + b·2^16 + c·2^8 + d, and each byte can be read back |
| Text.Split | software/breath-controller.py:437 | every token `str.split()` yields is non-empty and free of whitespace |
| Text.SplitJoin | software/breath-controller.py:478-479 | splitting tokens joined by single spaces gives the same tokens back |
| Text.SplitTrailingNewline | software/breath-controller.py:436-437 | the newline at the end of a line read from a file does not change its tokens |
| Text.JoinSpace | software/breath-controller.py:478-479 | `' '.join` starts with the first token, followed by a space when there is a second |
| Text.FormatNat | software/breath-controller.py:471 | a number is formatted as decimal digits with no leading zero |
| Text.DigitsValue | software/breath-controller.py:441 | the value `int()` gives a run of ASCII digits; a run without a leading zero is positive |
| Text.DigitsValueFormat | software/breath-controller.py:471 | the digits written for n have the value n |
| Text.FormatNatInjective | software/breath-controller.py:471 | two numbers with the same spelling are equal |
| Text.ParseInt | software/breath-controller.py:441 | `int()` of a token gives the value of its ASCII digits, negated after a `-`, and fails exactly when the token is empty, a bare sign, or holds another character |
| Text.ParseFormat | software/breath-controller.py:441 | `int()` reads back any formatted non-negative number |
| Text.FindLabel | software/breath-controller.py:399 | `current()` is the first position of the shown text among the values, or -1 when it is none of them |
| Curve.Clamp | software/breath-controller.py:164-165 | `max(low, min(high, x))`: in range when low <= high; x inside; low wins when the bounds cross |
| Curve.Sort | software/breath-controller.py:322 | the sorted list has the same length and is ordered as Python orders tuples |
| Curve.Insert | software/breath-controller.py:322 | one step of the sort: the list gains exactly one element, and the inserted point is in it |
| Curve.InsertSorted | software/breath-controller.py:322 | inserting into a sorted list keeps it sorted |
| Curve.InsertPermutes | software/breath-controller.py:322 | insertion adds exactly one occurrence of the point |
| Curve.InsertMembers | software/breath-controller.py:322 | the points after insertion are the old ones and the new one |
| Curve.SortPermutes | software/breath-controller.py:322 | `list.sort()` permutes the points: the multiset is unchanged |
| Curve.SortMembers | software/breath-controller.py:322 | sorting neither adds nor loses a point |
| Curve.SortSorted | software/breath-controller.py:322 | a list with strictly ascending x is its own sort |
| Curve.SortAppend | software/breath-controller.py:322 | sorting a strictly ascending list with one point appended inserts that point in place |
| Curve.InsertStrict | software/breath-controller.py:322 | inserting a point with a new x into a strictly ascending list keeps it strictly ascending |
| Curve.Fixed | software/breath-controller.py:318-330 | `fix_curve` leaves at least two points, the first at x = 0 and the last at x = 127 |
| Curve.ClampPoint | software/breath-controller.py:323 | a clamped point lies in [0,127]², and a point already there is unchanged |
| Curve.ClampAll | software/breath-controller.py:323 | each point is clamped in place; the length is kept and all points end up in range |
| Curve.ClampAllKeepsOrder | software/breath-controller.py:322-323 | clamping a sorted list leaves its x non-decreasing |
| Curve.ClampAllInRange | software/breath-controller.py:323 | clamping changes nothing when every point is in range |
| Curve.Dedup | software/breath-controller.py:324-326 | the reduce keeps at most as many points, is empty only on empty input, and keeps only input points |
| Curve.DedupSnoc | software/breath-controller.py:324-326 | one reduce step drops the new point exactly when the last kept point has its x |
| Curve.DedupShape | software/breath-controller.py:324-326 | on x-sorted input the kept points have strictly ascending x, start with the first point and end at the last x |
| Curve.DedupKeepsEveryX | software/breath-controller.py:324-326 | on x-sorted input every x of the input is still present |
| Curve.DedupStrict | software/breath-controller.py:324-326 | a list with strictly ascending x passes through unchanged |
| Curve.FirstWithX | software/breath-controller.py:324-326 | the position of the first point with a given x, or the length when none has it |
| Curve.DedupKeepsFirst | software/breath-controller.py:324-326 | each kept point is the first input point with its x |
| Curve.DedupKeepsFirstAt | software/breath-controller.py:324-326 | a given kept point is the first input point with its x |
| Curve.DedupLastIsNew | software/breath-controller.py:324-326 | the last point is kept only when its x is new, and it is then the first with that x |
| Curve.WithLeftEndpoint | software/breath-controller.py:327-328 | the curve then starts at x = 0, and its last point is unchanged |
| Curve.WithRightEndpoint | software/breath-controller.py:329-330 | the curve then ends at x = 127, and its first point is unchanged |
| Curve.AddEndpoints | software/breath-controller.py:327-330 | up to two points are added, at x = 0 and x = 127, copying the y of the current first and last point |
| Curve.WithLeftEndpointShape | software/breath-controller.py:327-328 | adding the left endpoint keeps the x ascending and every point; it adds nothing when x = 0 is already there |
| Curve.WithRightEndpointShape | software/breath-controller.py:329-330 | adding the right endpoint keeps the x ascending and every point; it adds nothing when x = 127 is already there |
| Curve.AddEndpointsCanonical | software/breath-controller.py:327-330 | adding the endpoints makes an ascending in-range list canonical, keeps its points, and is a no-op on a canonical curve |
| Curve.AddLeftEndpoint | software/breath-controller.py:327-328 | a list that reaches x = 127 but starts right of 0 gets only a left endpoint, at the first point's height |
| Curve.FixedIsCanonical | software/breath-controller.py:318-330 | after `fix_curve` there are at least 2 points with strictly ascending x, all in [0,127]², from x = 0 to x = 127 |
| Curve.FixedCanonical | software/breath-controller.py:318-330 | `fix_curve` leaves a canonical curve unchanged |
| Curve.FixedIdempotent | software/breath-controller.py:318-330 | `fix_curve` applied twice equals applying it once |
| Curve.FixedEmpty | software/breath-controller.py:319-321 | an empty curve becomes the identity curve (0,0)–(127,127) |
| Curve.FixedOfSorted | software/breath-controller.py:318-330 | when sorting already yields distinct in-range x, only the endpoints are added |
| Curve.FixedAscending | software/breath-controller.py:318-330 | on distinct ascending x inside the square, `fix_curve` only adds the endpoints |
| Curve.FixedKeepsEveryX | software/breath-controller.py:318-330 | the clamped x of every input point is present after `fix_curve` |
| Curve.FixedKeepsFirst | software/breath-controller.py:322-326 | the point kept for each x is the first with that x in sorted and clamped order |
| Curve.FixedKeepsLowestY | software/breath-controller.py:322-326 | when every input x is in range, the point kept for an x has the least clamped y among the inputs with that x |
| Curve.FixedOutOfRangeKeepsFirstNotLowest | software/breath-controller.py:322-326 | with x beyond 127 the kept point is not the lowest: (300,10) and (200,50) become a flat curve at 50 |
| Curve.FixedSynthesisesEndpoints | software/breath-controller.py:327-330 | (10,20),(50,60) gains (0,20) and (127,60) |
| Curve.FixedSingleEndpoint | software/breath-controller.py:318-330 | a single endpoint becomes a flat two-point curve at its height, not the identity curve |
| Curve.IdentityCanonical | software/breath-controller.py:176 | the initial curve (0,0),(127,127) is canonical |
| Curve.FixedIdentity | software/breath-controller.py:372-374 | `fix_curve` keeps the identity curve that the middle click restores |
| Curve.CanonicalByContents | software/breath-controller.py:318-330 | an ascending in-range list that has points at x = 0 and x = 127 is canonical |
| Curve.RoundHalfEven | software/breath-controller.py:336 | `round(n/d)` is the floor of n/d or one more, and a tie (remainder exactly d/2) goes to an even integer |
| Curve.Interp | software/breath-controller.py:336 | the interpolation on a segment gives a.y at x = a.x and b.y at x = b.x |
| Curve.RoundNearest | software/breath-controller.py:336 | `round(n/d)` is within half a unit of n/d, and a tie goes to the even integer |
| Curve.RoundExact | software/breath-controller.py:336 | an exact quotient rounds to itself |
| Curve.RoundBetween | software/breath-controller.py:336 | rounding a quotient that lies between two integers stays between them |
| Curve.RoundUp | software/breath-controller.py:336 | the rounded interpolation on a rising segment stays within the segment's y range |
| Curve.RoundDown | software/breath-controller.py:336 | the rounded interpolation on a falling segment stays within the segment's y range |
| Curve.InterpAtStart | software/breath-controller.py:336 | the interpolation at a segment's left end is that point's y |
| Curve.InterpBetween | software/breath-controller.py:336 | within a segment the interpolated value lies between the y of its two ends |
| Curve.Segment | software/breath-controller.py:335-336 | the inner loop yields one entry per x from a.x up to b.x, excluding b.x |
| Curve.Segments | software/breath-controller.py:334-336 | on strictly ascending x, the segments of the first k points have one entry per x from the first point up to the k-th, excluding the k-th |
| Curve.SegmentAt | software/breath-controller.py:335-336 | entry x - a.x of a segment is the interpolation at x |
| Curve.SegmentsLength | software/breath-controller.py:334-336 | the segments of the first k points cover the x from the first point up to the k-th |
| Curve.SegmentsAt | software/breath-controller.py:334-336 | entry x of the segments is the interpolation on the pair of neighbours around x |
| Curve.FindSegment | software/breath-controller.py:334 | some pair of neighbours surrounds each x between the first and the last point |
| Curve.Table | software/breath-controller.py:332-338 | on strictly ascending x, the table has one entry per x from the first point to the last, both included |
| Curve.TableInterpolates | software/breath-controller.py:332-338 | on a canonical curve the table has 128 entries, and entry x is the interpolation on the segment containing x |
| Curve.TableShape | software/breath-controller.py:332-338 | on a canonical curve the table has 128 entries in [0,127] and passes through every breakpoint |
| Curve.IdentityTable | software/breath-controller.py:332-338 | the identity curve gives the table 0, 1, …, 127 |
| Curve.IdentityTableAt | software/breath-controller.py:332-338 | entry i of the identity curve's table is i |
| Curve.EventToPoint | software/breath-controller.py:340-343 | a pixel maps to a point in [0,127]²; the canvas edges map to the plot edges, with y inverted |
| Curve.EventToPointInvertsDrawing | software/breath-controller.py:312 | clicking the pixel where `draw_curve` drew a point gives back that point |
| Curve.Distance | software/breath-controller.py:348 | the Manhattan distance is non-negative, zero exactly for equal points, and at least each coordinate's difference |
| Curve.FirstMin | software/breath-controller.py:347 | `min` with a key picks a least key, and the first such one |
| Curve.XDistances | software/breath-controller.py:347 | the key of each point is its horizontal distance to x |
| Curve.Distances | software/breath-controller.py:358 | the key of each point is its distance to the query point |
| Curve.NearestByX | software/breath-controller.py:347 | the adjacent point is on the curve, and no point is horizontally closer |
| Curve.Closest | software/breath-controller.py:358 | the closest point is on the curve, and no point is closer |
| Curve.NearestByXSameX | software/breath-controller.py:349 | the adjacent point has the query's x exactly when some point of the curve has it |
| Curve.IndexOf | software/breath-controller.py:360 | the position of the first occurrence of a point |
| Curve.RemoveFirst | software/breath-controller.py:360 | `list.remove` shortens the list by one |
| Curve.RemoveFirstPermutes | software/breath-controller.py:360 | `list.remove` takes away exactly one occurrence |
| Curve.RemoveAt | software/breath-controller.py:360 | after the removal the points before it keep their place and the later points move down by one |
| Curve.RemoveAscending | software/breath-controller.py:360 | removing a point keeps the x strictly ascending |
| Curve.RemoveKept | software/breath-controller.py:360 | every point left was in the list and is not the removed one |
| Curve.RemoveKeeps | software/breath-controller.py:360 | every other point of the list is still there |
| Curve.RemoveStrict | software/breath-controller.py:360 | the removal leaves exactly the other points, still ascending and in range |
| Curve.RemoveXs | software/breath-controller.py:369 | removing a point removes exactly its x from the set of abscissas |
| Curve.FixedAppend | software/breath-controller.py:350-351 | appending a point with a new x and fixing puts it in its place, and the result is canonical |
| Curve.LeftClickInserts | software/breath-controller.py:345-351 | a click at a new x inserts the point in place; the curve gains exactly that point |
| Curve.LeftClickFixes | software/breath-controller.py:350-351 | `fix_curve` after appending the click point is an insertion |
| Curve.DragTarget | software/breath-controller.py:356-359 | the point a drag moves is on the curve; the drag point keeps its x or takes a new one |
| Curve.DragFixes | software/breath-controller.py:360-362 | moving a point to its own x, or an interior point to a new x, is a replacement |
| Curve.LeftDragMoves | software/breath-controller.py:353-362 | a drag replaces the moved point by the drag point and keeps the number of points |
| Curve.LeftDragEndpointResynthesised | software/breath-controller.py:353-362 | dragging the (0,0) endpoint of the identity curve to (10,20) makes `fix_curve` add a new endpoint (0,20) |
| Curve.RemoveFixes | software/breath-controller.py:369-370 | without one of its interior points a canonical curve is still canonical |
| Curve.RightClickRemovesInterior | software/breath-controller.py:364-370 | a right click on an interior point removes it and only it |
| Curve.RightClickRemovesLeftEndpoint | software/breath-controller.py:364-370 | removing the left endpoint puts a new one back at the height of the next point |
| Curve.RightClickOnTwoPoints | software/breath-controller.py:364-370 | removing a point of a two-point curve leaves a flat curve at the other point's height |
| Protocol.CommandOf | software/breath-controller.py:14-21 | a code byte names a command exactly when it is 0..5, and that command has this code |
| Protocol.CodeRoundTrip | software/breath-controller.py:14-21 | every command is recovered from its code |
| Protocol.MessageOf | software/breath-controller.py:23-28 | an index names a message kind exactly when it is 0..3, and that kind sits at this index |
| Protocol.MessageOfKey | software/breath-controller.py:444-445 | a found key spells that message kind; when none is found, no kind has that key |
| Protocol.KeyRoundTrip | software/breath-controller.py:472-474 | the key written for a message kind reads back as the same kind |
| Protocol.ChannelLabels | software/breath-controller.py:216 | the 16 values of the channel combobox are the numbers 1..16 as text |
| Protocol.ChannelIndex | software/breath-controller.py:399 | the channel combobox's `current()` is -1..15, and a non-negative result matches the shown label |
| Protocol.ChannelIndexOfLabel | software/breath-controller.py:214-217 | the label of channel n is at position n - 1 |
| Protocol.ChannelIndexNotLabel | software/breath-controller.py:442 | a text with a leading zero or a sign is none of the labels |
| Protocol.InitialForm | software/breath-controller.py:214-253 | the initial panel (channel 1, control change, control 2, gain 1.0, identity curve) is valid |
| Protocol.Frame | software/breath-controller.py:161-162 | the data of `send_sysex` are two bytes longer than the arguments and end with them unchanged |
| Protocol.Unframe | software/breath-controller.py:161-162 | a message reads back exactly when it starts with the id and a code 0..5, and the frame of what it reads is the message itself |
| Protocol.FrameRoundTrip | software/breath-controller.py:161-162 | the command and the arguments can be read back from every frame |
| Protocol.Sent | software/breath-controller.py:396-405 | a port that raises after some messages delivers a prefix of them, and all of them when it never raises |
| Protocol.ApplyFrames | software/breath-controller.py:396-403 | apply sends five frames in command order: frame i carries the id, code i and at least one argument |
| Protocol.SaveFrames | software/breath-controller.py:407-413 | at most six frames: a prefix of apply's frames, then `[0x7d, 5]` exactly when the second port opened |
| Protocol.ApplyFramesShape | software/breath-controller.py:396-405 | apply sends 5 messages: 1-based channel, message index, control number, gain in tenths and the 128-entry table; every data byte is 7-bit |
| Protocol.SaveFramesEnd | software/breath-controller.py:407-413 | saving sends whatever apply managed, then `save_to_eeprom` with no payload |
| Preset.ParseGain | software/breath-controller.py:451 | a plain number of digits reads as ten times its value in tenths |
| Preset.FormatGain | software/breath-controller.py:477 | the gain is written with one digit after the point |
| Preset.ParseFormatGain | software/breath-controller.py:451 | a written gain reads back as the same number of tenths |
| Preset.ParsePair | software/breath-controller.py:458-459 | a pair read consumes at least one character and gives non-negative coordinates |
| Preset.ParsePairs | software/breath-controller.py:456-459 | the whole value read as a run of pairs gives non-negative points |
| Preset.CurveField | software/breath-controller.py:455-459 | the curve value is taken only when it holds at least two pairs |
| Preset.PairToken | software/breath-controller.py:479 | a written pair is a single whitespace-free token |
| Preset.PairTokens | software/breath-controller.py:479 | one token per point, in order |
| Preset.ParsePairToken | software/breath-controller.py:479 | a written pair reads back as the same point and consumes exactly its own characters |
| Preset.ParsePairsTokens | software/breath-controller.py:478-479 | the written pairs of a curve read back as the same list of points |
| Preset.SaveLines | software/breath-controller.py:471-479 | save writes 5 lines for control change and 4 for the other message kinds |
| Preset.SaveLinesSplit | software/breath-controller.py:471-479 | the lines are channel, message, control number (control change only), gain and curve, in that order |
| Preset.Setting | software/breath-controller.py:471-479 | a written line is the key, a space, the value and a newline: two characters more than key and value |
| Preset.SplitSetting | software/breath-controller.py:437 | a written line whose key and value are single tokens splits back into that key and value |
| Preset.SaveWritesControlOnlyForControlChange | software/breath-controller.py:475-476 | a `control_number` line is written exactly when the message kind is control change |
| Preset.LoadSetting | software/breath-controller.py:438-452 | a channel line fails exactly when `int()` fails; a channel in 1..16 selects the label of the parsed number (the corrected load); any other number is ignored |
| Preset.LoadLine | software/breath-controller.py:436-460 | only a line of exactly two tokens can raise; a line of any other length changes at most the curve |
| Preset.Load | software/breath-controller.py:433-462 | the loop over the file's lines; a failed load had at least one line |
| Preset.LoadFailsOnSetting | software/breath-controller.py:433-462 | a load that fails stopped at a line of exactly two tokens |
| Preset.LoadLineValid | software/breath-controller.py:436-460 | loading any one line keeps the panel valid |
| Preset.LoadValid | software/breath-controller.py:433-462 | loading a whole file keeps the panel valid, even when an error ends the load early |
| Preset.LoadChannel | software/breath-controller.py:440-442 | `midi_channel v` is taken only for 1..16 and then selects channel v; any other number is ignored |
| Preset.LoadControl | software/breath-controller.py:447-449 | `control_number v` is taken only for 0..127 |
| Preset.LoadGain | software/breath-controller.py:450-452 | `input_gain v` sets the gain exactly when v is in 1.0..4.0 (10..40 tenths); any other gain leaves the panel unchanged |
| Preset.LoadUnknownMessage | software/breath-controller.py:443-446 | an unknown message key leaves the panel unchanged |
| Preset.LoadCurveMismatch | software/breath-controller.py:453-456 | a curve value that is not a run of at least two pairs leaves the curve unchanged |
| Preset.LoadCurveOneToken | software/breath-controller.py:437-438 | a curve line with a single token after the key is ignored |
| Preset.LoadCurveBranch | software/breath-controller.py:453-460 | a curve line with two or more tokens after the key sets the curve to the fixed list of parsed points |
| Preset.LoadChannelLine | software/breath-controller.py:440-442 | a written `midi_channel` line selects the written channel |
| Preset.LoadMessageLine | software/breath-controller.py:443-446 | a written `midi_message` line selects the written message kind |
| Preset.LoadControlLine | software/breath-controller.py:447-449 | a written `control_number` line selects the written control number |
| Preset.LoadGainLine | software/breath-controller.py:450-452 | a written `input_gain` line sets the written gain |
| Preset.LoadCurveLine | software/breath-controller.py:453-460 | a written curve line sets exactly the written canonical curve |
| Preset.SaveLoadRoundTrip | software/breath-controller.py:433-483 | saving a valid panel and loading the file into any panel gives the saved panel back, without error; the control number is restored only for control change |
| Preset.LoadSavedAfterChannel | software/breath-controller.py:443-479 | loading the lines a save writes after the channel line sets the message kind, the control number (for control change only), the gain and the curve, without error |
| Preset.LoadSettingAsWritten | software/breath-controller.py:440-442 | as written, a channel in range sets the combobox to the token itself; every other key is handled as in the corrected version |
| Preset.LoadChannelAsWrittenLosesChannel | software/breath-controller.py:440-442 | as written, `midi_channel 05` leaves `current()` at -1, so apply sends channel 0 and save writes `midi_channel 0` |
| Preset.LoadChannelLeadingZero | software/breath-controller.py:440-442 | the corrected load selects channel 5 for `midi_channel 05` |
| Tool.App.constructor | software/breath-controller.py:168-253 | the window starts valid, with the initial panel |
| Tool.App.FixCurve | software/breath-controller.py:318-330 | the step-by-step version of `fix_curve` (sort, clamp, reduce, add the endpoints) computes `Curve.Fixed` of the old curve, which is canonical |
| Tool.App.CurveTable | software/breath-controller.py:332-338 | the nested loops build exactly `Curve.Table` of the curve |
| Tool.App.LeftClick | software/breath-controller.py:345-351 | the click point is inserted when its x is new and it is more than 8 units from the adjacent point; otherwise nothing changes; the curve stays canonical |
| Tool.App.LeftDrag | software/breath-controller.py:353-362 | the closest point is replaced by the drag point unless the drag point is on another point's vertical; a move within a column or to a new interior x keeps the number of points |
| Tool.App.RightClick | software/breath-controller.py:364-370 | the closest point is removed and the curve fixed when it is less than 8 units away; an interior point is removed and nothing else changes |
| Tool.App.MiddleClick | software/breath-controller.py:372-374 | the curve becomes the identity curve |
| Tool.App.ApplySettings | software/breath-controller.py:396-405 | the messages that reach the device are the prefix of the five apply frames that the port accepts |
| Tool.App.SaveSettings | software/breath-controller.py:407-413 | apply's messages, then `save_to_eeprom` whenever the second port opens |
| Tool.App.SavePreset | software/breath-controller.py:464-483 | the lines written are `Preset.SaveLines` of the panel |
| Tool.App.LoadPreset | software/breath-controller.py:433-462 | the panel after the loop is `Preset.Load` of the old panel, with `failed` telling whether an error ended it; the panel stays valid |
| Tool.App.LoadLine | software/breath-controller.py:437-460 | one line updates the panel as `Preset.LoadLine` says; on an error nothing changes |
| Tool.App.LoadCurve | software/breath-controller.py:453-460 | the parsed pairs, fixed, replace the curve; a value that does not match leaves it |
| Tool.App.LoadSetting | software/breath-controller.py:438-452 | one `key value` line updates its widget as `Preset.LoadSetting` says; on an error nothing changes |
| Firmware.Defaults | firmware/breath-controller.cpp:47-70 | the EEPROM defaults are in range and select control change |
| Firmware.Apply | firmware/breath-controller.cpp:100-128 | a bad header, `save_to_eeprom` or an unknown command leaves the settings as they are; only `set_curve` changes the curve, and the curve keeps 128 entries |
| Firmware.CurveEnd | firmware/breath-controller.cpp:119 | the copy loop stops at the first 0xf7 among the curve bytes, or after 128 of them |
| Firmware.SetCurve | firmware/breath-controller.cpp:118-121 | every entry keeps its value or becomes a byte of at most 127; a curve that starts with 0xf7 changes nothing |
| Firmware.SetCurveWrites | firmware/breath-controller.cpp:118-121 | entry i becomes byte i+3 clipped to 127 when no 0xf7 comes before it, and keeps its old value otherwise |
| Firmware.SetCurveWhole | firmware/breath-controller.cpp:118-121 | with 128 curve bytes of at most 127, the curve becomes exactly those bytes |
| Firmware.ApplyChangesOneSetting | firmware/breath-controller.cpp:100-128 | a message changes only the setting its command names; a bad header or an unknown command changes nothing |
| Firmware.ApplyKeepsInRange | firmware/breath-controller.cpp:105-121 | whatever the host sends, channel, control, gain and curve stay in their documented ranges |
| Firmware.Payload | firmware/breath-controller.cpp:147-168 | an event stores 3, 2, 1 or 0 data bytes according to its kind |
| Firmware.Store | firmware/breath-controller.cpp:147-168 | a non-SysEx event changes nothing; the bytes already collected stay; when anything changes, `pos` moves by the event's byte count modulo 256 |
| Firmware.StoreAppends | firmware/breath-controller.cpp:147-168 | data bytes that fit below the end of the buffer are appended to what was collected; an event that does not fit is dropped |
| Firmware.StoreWraps | firmware/breath-controller.cpp:150-154 | filling the buffer to its last byte wraps the 8-bit `pos` around to 0 |
| Firmware.EndIndexAsWritten | firmware/breath-controller.cpp:170 | the end test reads index -1 exactly when `pos` is 0 after the event |
| Firmware.EndIndexBeforeBuffer | firmware/breath-controller.cpp:170 | a non-SysEx event at `pos` 0, or a 3-byte event at `pos` 253, makes the end test read before the buffer |
| Firmware.OtherEventNeverCompletes | firmware/breath-controller.cpp:166-173 | under the corrected test, an event with no SysEx bytes never completes a message |
| Firmware.BendLowBits | firmware/breath-controller.cpp:212 | the bit expression of the low data byte, on 16-bit two's-complement bits, is 7-bit |
| Firmware.BendLow | firmware/breath-controller.cpp:212 | the low data byte is 7-bit: the 6 low bits of x, with bit 0 of x as bit 6 |
| Firmware.BendLowIsBits | firmware/breath-controller.cpp:212 | the bit expression of the low data byte, on the 16-bit x, is the 6 low bits of x plus bit 0 of x as bit 6 |
| Firmware.BendUp | firmware/breath-controller.cpp:209-214 | both data bytes of pitch bend up are 7-bit, and for a 7-bit value the high byte is at least 64, the centre |
| Firmware.BendDown | firmware/breath-controller.cpp:215-220 | both data bytes of pitch bend down are 7-bit; for a 7-bit value the high byte is at most 64; value 0 gives the centre (0, 64) |
| Firmware.BendUpValue | firmware/breath-controller.cpp:209-214 | pitch bend up carries 8192 + 64v + v mod 64, from the centre 8192 up to 16383, in 7-bit bytes |
| Firmware.BendDownLow | firmware/breath-controller.cpp:218 | the low byte of pitch bend down is the 6 low bits of -v plus bit 0 of v as bit 6 |
| Firmware.BendDownHigh | firmware/breath-controller.cpp:219 | the high byte of pitch bend down is half of 128 - v, rounded down |
| Firmware.BendDownValue | firmware/breath-controller.cpp:215-220 | pitch bend down carries 8192 - 64v + (-v) mod 64, between 64 and 8192, in 7-bit bytes |
| Firmware.BendEnds | firmware/breath-controller.cpp:209-220 | value 0 leaves the wheel centred both ways; 127 bends up to 16383 but down only to 65 |
| Firmware.BendMonotone | firmware/breath-controller.cpp:209-220 | a larger value bends further: up rises and down falls |
| Firmware.Packet | firmware/breath-controller.cpp:196-223 | a packet is built exactly when the message byte is one of the four kinds, on the configured channel |
| Firmware.PacketIsMidi | firmware/breath-controller.cpp:196-220 | with settings in range and a 7-bit value the channel is 1..16 and both data bytes are 7-bit; the value goes in data byte 3 for control change and data byte 2 for pressure |
| Firmware.ScaleBound | firmware/breath-controller.cpp:256 | (value - zero)·255/(255 - zero) never exceeds 255, and is 255 at full scale |
| Firmware.ZeroAdjust | firmware/breath-controller.cpp:254-257 | readings at or below the rest reading give 0, and 255 gives 255 |
| Firmware.InputGain | firmware/breath-controller.cpp:259-262 | a gain of 1.0 is the identity, the result saturates at 255, and 255 stays 255 for gains of at least 1.0 |
| Firmware.ConversionsMonotone | firmware/breath-controller.cpp:254-262 | both conversions keep the order of pressures |
| Firmware.CurveIndex | firmware/breath-controller.cpp:320-323 | the index is always inside the curve; rest gives entry 0, and full pressure with a gain of at least 1.0 gives entry 127 |
| Firmware.SampleInRange | firmware/breath-controller.cpp:319-325 | with settings in range the value sent is 7-bit, the LED gets exactly twice it, rest sends curve entry 0 and full pressure entry 127 |
| Firmware.Device.constructor | firmware/breath-controller.cpp:303 | at power-up the RAM settings and the EEPROM hold the same contents, `pos` and `previous_value` are 0, and the buffer is zero |
| Firmware.Device.CopyCurve | firmware/breath-controller.cpp:118-121 | the in-place loop leaves the curve array equal to `SetCurve` of its old contents |
| Firmware.Device.ProcessSysex | firmware/breath-controller.cpp:100-128 | the settings become `Apply` of the old ones; `save_to_eeprom` copies the old settings to the EEPROM, and nothing else touches it |
| Firmware.Device.Put | firmware/breath-controller.cpp:151 | `buffer[pos++] = b` writes b at `pos` and advances `pos` modulo 256 |
| Firmware.Device.StoreEvent | firmware/breath-controller.cpp:147-168 | the buffer and `pos` become `Store` of their old values |
| Firmware.Device.MidiReceive | firmware/breath-controller.cpp:131-177 | with no configuration or no packet nothing changes; otherwise the event is stored; under the corrected end test (`pos > 0` and the last stored byte 0xf7) a complete message is processed and `pos` reset, else the settings are unchanged; no complete message is left pending |
| Firmware.Device.MidiSend | firmware/breath-controller.cpp:180-229 | nothing is sent for a repeated value, an unconfigured device, a busy endpoint or an unknown message byte; otherwise the packet for the value is sent and the value remembered |
| Firmware.Device.Sample | firmware/breath-controller.cpp:319-325 | the value is the curve entry at `CurveIndex`; the LED register gets twice it modulo 256; the value is sent as `MidiSend` specifies |
| Link.InBuffer | firmware/breath-controller.cpp:147-168 | a message arriving from position 0 leaves 0xf0, its bytes and 0xf7 in the buffer, with the rest as before |
| Link.Deliver | firmware/breath-controller.cpp:170-172 | messages processed one after another keep a 128-entry curve, and settings in range stay in range |
| Link.Configured | software/breath-controller.py:396-403 | the settings a valid panel stands for are in the device's ranges and name a known message kind |
| Link.DeliverOne | firmware/breath-controller.cpp:105-117 | a one-argument message with an argument in range sets exactly its field on the device to that argument |
| Link.CurveMessage | firmware/breath-controller.cpp:118-121 | a whole curve message replaces the device curve by its 128 bytes |
| Link.DeliverTable | firmware/breath-controller.cpp:118-121 | a curve message of 128 entries in 0..127 sets the device curve to them: none of them is 0xf7 and none is clipped |
| Link.DeliverCons | firmware/breath-controller.cpp:170-172 | messages are processed one after another, each from the buffer the previous one left |
| Link.DeliverCurve | software/breath-controller.py:403 | the curve message sets the device curve to the panel's table |
| Link.DeliverSettings | software/breath-controller.py:399-403 | the five messages with arguments in range set the five device settings to those arguments |
| Link.ApplyConfiguresDevice | software/breath-controller.py:396-405 | whatever the device held, the messages of `apply_settings` leave it configured exactly as the panel shows |
| Link.DefaultsAreInitialForm | firmware/breath-controller.cpp:47-70 | the EEPROM defaults are the settings the tool's initial panel stands for |

## Left out

- USB and LUFA are not modelled: endpoint selection, reads and writes, descriptors and `USB_USBTask`. The device state and the endpoint readiness are boolean parameters. The event packet is a value.
- The packet's `Event` field and the `MIDI_EVENT` and `MIDI_CHANNEL` macros are left out. `MidiPacket` keeps the command and the 1-based channel that they combine.
- Hardware set-up is left out: clock, watchdog, GPIO, timers, the ADC interrupt and `delay_ms`. The pressure sample and the auto-zero reading are parameters of `Firmware.Device.Sample`. The shared-variable atomics are not modelled.
- `eeprom_update_block` and `eeprom_read_block` are modelled as copies of the settings value. EEPROM wear and partial writes are left out.
- `Firmware.BendDown`: `-value << 6` on the promoted 16-bit `int` is modelled as a two's-complement bit pattern, since the shift of a negative value has no other meaning in C.
- `Link.InBuffer`: a tool message is assumed to arrive whole, starting at `pos` 0. The USB-MIDI packetisation into 3-, 2- and 1-byte events is not modelled between the tool and the device.
- Messages longer than the buffer, and a message that ends exactly at byte 255 (where `pos` has wrapped to 0), are not examined by the end test. The model keeps this as the firmware has it.
- The pitch-bend-down range is modelled as written. It reaches 65, not 0 (`Firmware.BendEnds`).
- `Preset.ParseGain`: `float()` is modelled for an optional sign, digits and at most one decimal place, since the gain is kept in tenths. Other spellings that Python accepts are treated as the `ValueError` that ends the load: exponents, more decimals, a leading point (`.5`), a trailing point (`2.`), underscores between digits (`1_0`), `inf` and `nan`. For `inf` and `nan` Python does not even raise: the range test `1.0 <= float(v) <= 4.0` fails, the line is skipped and the load goes on, where the model ends it.
- `Curve.RoundHalfEven`: `round()` of the float quotient is modelled over exact rationals. Binary floating point is not modelled.
- The Tk widgets, their layout and colours are not modelled. Neither are `draw_grid`, `canvas_motion`, `canvas_leave`, `device_selected`, `midi_message_selected`, `input_gain_changed`, the error dialogs and the file dialog.
- `get_devices` and `get_presets` are left out, because they only list MIDI ports and files. A preset file is given to `Tool.App.LoadPreset` as its lines.
- `draw_curve` is modelled only through the `fix_curve` it runs. The canvas drawing is left out.
- `Tool.App.LeftClick`, `Tool.App.LeftDrag` and `Tool.App.RightClick` give the whole new curve, but their `ensures` do not restate that the settings widgets keep their values. That follows from their frame, `modifies this`curve`, alone.
- `Tool.App.MiddleClick` does not run `fix_curve` after setting the identity curve. `Curve.FixedIdentity` proves that it would change nothing.
- `Common.Abs`: the unused `abs` of the firmware is modelled only for 16-bit `int`. At -32768, `-x` overflows a signed `int`, which C leaves undefined. The model returns -32768 there, the value the AVR compiler's two's-complement arithmetic gives in practice, and does not promise anything the C standard does.
- `Firmware.Device.MidiReceive`: the contract describes the corrected end test, which looks at `buffer[pos-1]` only when `pos > 0`. Line 170 as written reads `buffer[-1]` when `pos` is 0 after the event, a byte outside the buffer whose value the model cannot know; that case is modelled apart by `Firmware.EndIndexAsWritten` and `Firmware.EndIndexBeforeBuffer`.
- `Preset.LoadSetting`: the channel line selects the label of the parsed number, which is the corrected behaviour. The code as written sets the combobox to the token itself (line 442), modelled apart as `Preset.LoadSettingAsWritten`. Everything built on `Preset.LoadSetting` is therefore the corrected program.
- `Preset.LoadLine` and `Preset.Load`: these follow the corrected channel load of `Preset.LoadSetting`, not line 442 as written.
- `Preset.LoadLineValid`: holds for the corrected channel load only. As written, a token in range but spelled differently from its label (`05`, `+5`) leaves the panel invalid (`Preset.LoadChannelAsWrittenLosesChannel`). Canonical spellings behave the same in both (`Preset.LoadChannelLine`).
- `Preset.LoadValid`: holds for the corrected channel load only. As written, a file with the line `midi_channel 05` leaves the panel invalid.
- `Preset.LoadChannel`: states the corrected selection. As written, `05` or `+5` passes the range check but selects no channel.
- `Tool.App.LoadPreset`: runs the corrected `Preset.Load`, so "the panel stays valid" is not true of line 442 as written.
- `Tool.App.LoadLine`: follows the corrected `Preset.LoadLine`, not `set(v)` at line 442.
- `Tool.App.LoadSetting`: sets the channel label of the parsed number, not the token as line 442 does.
- `Text.ParseInt`: only ASCII digits are modelled. Python's `int()` also accepts other Unicode decimal digits and single underscores between digits (`int("1_0")` is 10). The model treats such a token as the `ValueError` that ends the load, where Python goes on.
- `Preset.CurveField`: `\d` is modelled as the ASCII digits only. Python's `re` also matches other Unicode decimal digits, so a curve line written with them is ignored by the model but loaded by the source.
- `Preset.SaveLoadRoundTrip`: the gain comes back exactly only because the panel gain is kept in tenths. The source's `ttk.Scale` holds any float in [1.0, 4.0], and `save_preset` writes it with one decimal (`'{:1.1f}'`), so a dragged gain such as 2.34 reloads as 2.3.

## Findings

| source | as written | input that shows it | evidently intended | confidence | as-written member | corrected member |
|---|---|---|---|---|---|---|
| firmware/breath-controller.cpp:170-173 | the end test reads `buffer[pos-1]` even when `pos` is 0, one byte before the buffer | at start-up or after a processed message (`pos` 0), any event that is not SysEx; or a 3-byte event stored at `pos` 253, which wraps `pos` to 0 | look at the last stored byte only when one was stored (`pos > 0`) | not executed | Firmware.EndIndexBeforeBuffer | Firmware.Device.MidiReceive |
| software/breath-controller.py:440-442 | `combo_midi_channel.set(v)` shows the token as read, so a number in range spelled differently is none of the combobox's values | a preset line `midi_channel 05`: `int("05")` is 5, but `current()` is then -1, so apply sends channel 0 and save writes `midi_channel 0` | select the label of the parsed number | not executed | Preset.LoadChannelAsWrittenLosesChannel | Preset.LoadSetting |
