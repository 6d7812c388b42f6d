# LED text display: a verified model of the display logic

This project models the core of a program that drives an LED matrix panel.
The panel shows a rotation of "screens": scrolling text, an environment
read-out (CO2 and temperature), a one-shot monologue and a colour-band test
pattern. A message handler turns messages from the bus into new screens,
deletions of screens by id, a text colour and a sleep flag. Once per frame a
multiplexer applies what the handler sent. It then moves on to the next screen
when the front one's time is up, and draws the front screen.

The modules, one per source file:

- `Graphics` (graphics.dfy) is the pixel sink. It records every draw call,
  and it accepts a given number of calls before it reports an error.
- `Utf8` (utf8.dfy) models Rust's UTF-8 strings: `String::from_utf8` and byte lengths.
- `RecolourImage` (recolour_image.dfy) is the two-colour raw-image decoder.
  It includes its lazy `ContiguousPixels` iterator, as a class.
- `TextScreens`, `TextScreenObjects` (text_screen.dfy) model the text screen.
  The multiplexer's queue holds screens as values, so the scheduler uses
  `TextScreens`. The source's `draw(&mut self)` and `paused(&mut self)` update
  the screen's fields in place. `TextScreenObject` keeps that form and proves
  it equal to the value functions.
- `EnvironmentScreens`, `HateScreens` hold the environment and monologue screens.
- `Screens` (screens.dfy) is the union of the screens the multiplexer rotates,
  together with the test pattern.
- `DisplayLogics` (display_logic.dfy) holds the multiplexer class and the channels.
  `DisplayLogic.Draw` is proved to compute the function `Tick`. All the
  scheduling lemmas are stated about `Tick`.
- `MqttListeners` (mqtt.dfy) is the message handler class.
  `AttemptHandleMessage` is proved to compute the function `Handle`.

Time is a natural number of milliseconds, passed in as `now`. Subtracting
two instants saturates at zero.

Where the code and its documentation disagree, the model follows the code:

- Deleting the front screen by id does not restart the display timer. The
  next screen inherits the running time (`DeletingFrontKeepsTimer`).
- A text screen's `paused` stops the scroll clock but keeps the scroll offset.
- The default text screen is shown four times, from `unwrap_or(3) + 1`.

## Model

| member | source | states |
|---|---|---|
| RecolourImage.New | crates/logic/src/recolour_image.rs:38-59 | width 0 gives an empty 0x0 image without dividing; otherwise data and width are kept and height is the number of whole rows: `height*width <= len < (height+1)*width` |
| RecolourImage.BytesPerRowGray8 | crates/logic/src/recolour_image.rs:74-76 | with 8 bits per pixel a row is exactly `width` bytes |
| RecolourImage.PixelSpec | crates/logic/src/recolour_image.rs:144-159 | `pixel(p)` is `None` exactly outside `[0,w)x[0,h)`; inside, the index `x + y*w` is in the data and the result is the nonzero/zero colour of that byte |
| RecolourImage.SubImageInvalidIsNoOp | crates/logic/src/recolour_image.rs:103-111 | a zero-sized, negative or overhanging area draws nothing and returns Ok |
| RecolourImage.SubImageFill | crates/logic/src/recolour_image.rs:113-121 | a valid area issues one contiguous fill of an area-sized rectangle at the origin, and the stream has at least area-size pixels |
| RecolourImage.SubImagePixel | crates/logic/src/recolour_image.rs:113-121 | a valid area issues one fill, and its pixel `(i, j)` is the image's own pixel `(x0+i, y0+j)` |
| RecolourImage.SubImageStreamPixel | crates/logic/src/recolour_image.rs:113-121 | element `j*area_width + i` of the skipping stream is the byte at `x0 + i + (y0 + j)*width` |
| RecolourImage.FullDrawIsWholeSubImage | crates/logic/src/recolour_image.rs:87-97 | for a non-empty image, a full draw issues exactly what a sub-image draw over the bounding box issues; for an empty one the difference is stated |
| RecolourImage.StreamPixel | crates/logic/src/recolour_image.rs:194-198 | in a fresh iterator's stream, element `j*w + i` is the byte `p + j*(w + row_skip) + i` |
| RecolourImage.StreamExtraRow | crates/logic/src/recolour_image.rs:201 | the iterator yields at most `h + 1` rows, and exactly `h + 1` when the data reaches that far |
| RecolourImage.StreamZeroWidth | crates/logic/src/recolour_image.rs:200-201 | a width-0 iterator yields nothing, so `width - 1` never underflows |
| RecolourImage.YieldBound | crates/logic/src/recolour_image.rs:223-237 | the iterator never yields more than its counters allow |
| RecolourImage.ContiguousPixels.constructor | crates/logic/src/recolour_image.rs:187-211 | skipping with `nth(initial_skip - 1)` and zeroing the rows for width 0 leaves exactly the stream `StreamBytes` |
| RecolourImage.ContiguousPixels.Next | crates/logic/src/recolour_image.rs:223-245 | each call yields the recoloured head of the remaining stream and drops it, or `None` forever once it is empty |
| RecolourImage.Collect | crates/logic/src/recolour_image.rs:118-121 | pulling up to n pixels gives the first n recoloured bytes of the stream |
| RecolourImage.DrawSubImageLazily | crates/logic/src/recolour_image.rs:99-122 | driving the iterator issues exactly the fill `DrawSubImage` describes |
| Utf8.DecodeEncode | crates/runner/src/mqtt.rs:101 | every string's bytes decode back to it |
| Utf8.EncodeDecode | crates/runner/src/mqtt.rs:101 | whatever decodes is the encoding of its result, so the byte length equals the input length |
| TextScreens.StripNewlinesRemovesOnlyNewlines | crates/logic/src/screens/text.rs:33 | no `\n` is left, and every other character (including `\r`) occurs as often as before |
| TextScreens.StripNewlinesConcat | crates/logic/src/screens/text.rs:33 | stripping works piece by piece, so kept characters stay in order |
| TextScreens.StripNewlinesKeepsCleanText | crates/logic/src/screens/text.rs:33 | text without newlines is unchanged, so stripping is idempotent |
| TextScreens.InitialShowCount | crates/logic/src/screens/text.rs:38 | one more than the requested count, 4 by default, never 0 (saturating) |
| TextScreens.InitialShowCountAgrees | crates/logic/src/screens/text.rs:38 | the expression as written overflows exactly for `Some(255)`, and agrees with the saturating count elsewhere |
| TextScreens.New | crates/logic/src/screens/text.rs:27-40 | the text is the input with every `\n` removed, the style is the one given, offset 0, scroll clock stopped, count `InitialShowCount` (4 when none is given, never 0) |
| TextScreens.TotalWidth | crates/logic/src/screens/text.rs:51-53 | the width counts bytes, not characters, so it is at least one character width per character (more for non-ASCII text) |
| TextScreens.AsciiTotalWidth | crates/logic/src/screens/text.rs:51-53 | for ASCII text the byte length is the character count |
| TextScreens.MaxOffsetFor | crates/logic/src/screens/text.rs:55-67 | `Some` exactly when the text is wider than the display, then display width + text width + 31 |
| TextScreens.SingleDisplayDuration | crates/logic/src/screens/text.rs:114-119 | 5 s if the text fits, otherwise max offset times 8 ms |
| TextScreens.AdvanceScrollSteps | crates/logic/src/screens/text.rs:83-97 | a later update moves the offset by the n whole 8 ms intervals elapsed (mod max offset) and the clock by exactly n intervals |
| TextScreens.AdvanceScrollInRange | crates/logic/src/screens/text.rs:88-89 | the offset stays in `[0, max_offset)` |
| TextScreens.NewOffsetInRange | crates/logic/src/screens/text.rs:35 | a new screen starts with the offset in range |
| TextScreens.AdvanceScrollCatchUp | crates/logic/src/screens/text.rs:83-97 | updating at t1 then t2 equals one update at t2: no time is lost between frames |
| TextScreens.ScrollPassReturns | crates/logic/src/screens/text.rs:83-119 | one display duration after the last step, the offset is back where it was |
| TextScreens.Draw | crates/logic/src/screens/text.rs:71-112 | a scrolling screen comes back as `AdvanceScroll` at `now`, a fitting one unchanged; on success the sink gets a black clear and then the text, centred or at `width - 1 - offset` with the new offset; an error stops the draw |
| TextScreens.Paused | crates/logic/src/screens/text.rs:121-124 | the clock is stopped, the count goes down by one, saturating at 0, and the offset and text are kept |
| TextScreens.DefaultShownFourTimes | crates/logic/src/screens/text.rs:126-128 | with paused-then-check, a default screen first asks for removal after its fourth pause |
| TextScreens.ShownCountPlusOneTimes | crates/logic/src/screens/text.rs:121-128 | a screen built with `Some(n)`, n < 255, is removed after exactly n + 1 pauses |
| TextScreenObjects.TextScreenObject.Draw | crates/logic/src/screens/text.rs:71-112 | updating the fields in place gives the same screen and sink as `TextScreens.Draw` |
| TextScreenObjects.TextScreenObject.Paused | crates/logic/src/screens/text.rs:121-124 | updating the fields in place gives `TextScreens.Paused` |
| EnvironmentScreens.Co2Colour | crates/logic/src/screens/environment.rs:19-44 | green below 1000, yellow from 1000 to 1199, red from 1200 |
| EnvironmentScreens.Co2ColourMonotone | crates/logic/src/screens/environment.rs:40-44 | a higher reading never gets a milder colour |
| EnvironmentScreens.Draw | crates/logic/src/screens/environment.rs:37-112 | on success, a black clear and then the layout with the 28-wide icon recoloured to (black, tier); an error stops the draw |
| HateScreens.New | crates/logic/src/screens/hate.rs:14-18 | the inner text screen holds the monologue in the 9-pixel red font, with offset 0 and the clock stopped |
| HateScreens.NewOverflowsAsWritten | crates/logic/src/screens/hate.rs:16 | the constructor's `Some(255)` makes the show count as written overflow |
| HateScreens.Draw | crates/logic/src/screens/hate.rs:22-24 | the draw is the inner text screen's draw, whose scroll state advances |
| Screens.Id | crates/logic/src/screens/text.rs:130-132 | "text", "environment" or "hate", one per kind of screen |
| Screens.SingleDisplayDuration | crates/logic/src/screens/environment.rs:114-116 | 5 s for the environment screen, 9 999 999 s for the monologue, the text screen's own otherwise |
| Screens.Paused | crates/logic/src/screens/hate.rs:21-38 | only a text screen changes; the environment screen's no-op and the monologue's default no-op leave the screen as it was |
| Screens.ShouldRemove | crates/logic/src/screens/hate.rs:26-29 | never for the environment screen, always for the monologue, at count 0 for text |
| Screens.Draw | crates/logic/src/lib.rs:110 | each kind of screen draws with its own `draw` and comes back updated by it; the id, the sink's size and earlier commands are kept, and the call succeeds exactly when the sink accepts both of its commands |
| Screens.EnvironmentNeverRemoved | crates/logic/src/screens/environment.rs:118-122 | pausing changes nothing and removal is never asked for |
| Screens.HateRemovedAfterOneShowing | crates/logic/src/screens/hate.rs:21-29 | pausing leaves the inner count untouched and removal is always asked for |
| Screens.SquareSize | crates/logic/src/screens/mod.rs:34 | column count / 6, rounded down |
| Screens.Band | crates/logic/src/screens/mod.rs:34-46 | band k is `square` wide, spans all rows and has colour k of red, orange, yellow, green, blue, violet; it ends where band k+1 starts, and all six lie inside the display |
| Screens.DrawTestScreen | crates/logic/src/screens/mod.rs:25-51 | on a display at least 6 wide, the six bands are drawn in order; the first failing draw stops the loop and returns the error |
| DisplayLogics.DisplayLogic.constructor | crates/logic/src/lib.rs:32-44 | empty queue, no timer, the given channels and flag |
| DisplayLogics.DisplayLogic.Add | crates/logic/src/lib.rs:46-48 | the screen goes at the back; the rest of the queue and the timer are unchanged |
| DisplayLogics.DisplayLogic.Draw | crates/logic/src/lib.rs:51-111 | the new queue, timer, sink and result are `Tick` of the old state and the pending messages; asleep, both channels are untouched, otherwise both are drained |
| DisplayLogics.DisplayLogic.DrainDeletions | crates/logic/src/lib.rs:58-62 | one retain per pending id, in the order sent |
| DisplayLogics.DisplayLogic.DrainAdditions | crates/logic/src/lib.rs:64-68 | every pending screen is appended in the order sent |
| DisplayLogics.DisplayLogic.ShowFront | crates/logic/src/lib.rs:70-110 | the rest of the frame is `Show` of the drained queue |
| DisplayLogics.TickWhileAsleep | crates/logic/src/lib.rs:52-55 | asleep, the display is cleared and the queue and timer are unchanged |
| DisplayLogics.DrainedMembers | crates/logic/src/lib.rs:58-68 | after draining, a screen is queued iff it was queued and its id was not deleted, or it was just added |
| DisplayLogics.RemoveIdsIsKeep | crates/logic/src/lib.rs:58-62 | retaining id by id equals one filter by all ids |
| DisplayLogics.KeepConcat | crates/logic/src/lib.rs:61 | the filter works piece by piece, so the order is kept |
| DisplayLogics.Keep | crates/logic/src/lib.rs:61 | a screen survives the filter iff it was there and its id is not deleted; the filter never grows the queue |
| DisplayLogics.AddedScreenSurvivesDeletion | crates/logic/src/lib.rs:58-68 | a screen added in the same frame as a deletion of its id survives |
| DisplayLogics.TickWhenEmpty | crates/logic/src/lib.rs:70-74 | with nothing queued, the display is cleared and the timer is forgotten |
| DisplayLogics.TickBeforeExpiry | crates/logic/src/lib.rs:77-110 | the timer starts at `now` only if it was not running; before expiry the front screen draws the frame and goes back at the front in its drawn state, the rest of the queue unchanged |
| DisplayLogics.TickAtExpiry | crates/logic/src/lib.rs:80-110 | at expiry the front is paused, then popped or rotated to the back by what the paused screen says, and the timer set to `now`; if the clear then fails that state is returned with the error; if the queue emptied it is cleared a second time and the timer forgotten; otherwise the new front draws in the same call and stays at the front in its drawn state |
| DisplayLogics.DrawFront | crates/logic/src/lib.rs:110 | the front screen is replaced by its drawn state (so a text screen's scroll position carries to the next frame), the rest of the queue and the timer are unchanged |
| DisplayLogics.RotateLeftPermutes | crates/logic/src/lib.rs:93 | a rotation loses and duplicates no screen |
| DisplayLogics.OneRotationOfOne | crates/logic/src/lib.rs:93 | a one-screen rotation is the identity |
| DisplayLogics.RotateLeftTimesSplits | crates/logic/src/lib.rs:93 | n rotations move the first n screens to the back |
| DisplayLogics.RotateLeftFullCircle | crates/logic/src/lib.rs:93 | N rotations of an N-screen queue give it back |
| DisplayLogics.LoneEnvironmentScreenStays | crates/logic/src/lib.rs:80-110 | a lone persistent screen stays up across its expiry and is redrawn |
| DisplayLogics.OneShotPoppedAndNextDrawn | crates/logic/src/lib.rs:88-110 | a one-shot screen is popped at expiry and the next is drawn in the same call |
| DisplayLogics.DeletingFrontKeepsTimer | crates/logic/src/lib.rs:58-78 | deleting the front by id keeps the running timer for the next screen |
| DisplayLogics.LoneTextScreenExpiry | crates/logic/src/lib.rs:87-94 | a lone text screen counts down at each expiry and is gone when its count reaches 0 |
| DisplayLogics.EnvironmentReplaced | crates/logic/src/lib.rs:58-68 | when "environment" is deleted and one environment screen is sent in the same frame, the new screen is queued and every environment screen left is that one |
| DisplayLogics.StraddledRefreshLosesScreen | crates/logic/src/lib.rs:58-68 | a deletion and screen that reach different frames leave two environment screens in the first frame and none after the second |
| MqttListeners.ParseUnsigned | crates/runner/src/mqtt.rs:119-121 | a result is in range, and the string is one or more characters that are all digits after an optional leading `+`; so "", "+", "1a", "1 " and "12,5" are rejected |
| MqttListeners.ParseUnsignedCanonical | crates/runner/src/mqtt.rs:119-121 | every accepted string is the value's decimal digits, after leading zeros and an optional `+`; with `ParseDecimal` and `LeadingZero` this gives exactly the accepted strings |
| MqttListeners.ParseDecimal | crates/runner/src/mqtt.rs:119-121 | a number's decimal digits, with or without `+`, parse back to it exactly when it is in range |
| MqttListeners.LeadingZero | crates/runner/src/mqtt.rs:119-121 | leading zeros do not change the parse |
| MqttListeners.MinusRejected | crates/runner/src/mqtt.rs:119-121 | a minus sign is rejected |
| MqttListeners.SplitJoin | crates/runner/src/mqtt.rs:116 | joining the pieces gives the payload back, and no piece holds a comma |
| MqttListeners.ColourRoundTrip | crates/runner/src/mqtt.rs:114-127 | "r,g,b" of a colour parses back to that colour |
| MqttListeners.ColourExtraFieldsIgnored | crates/runner/src/mqtt.rs:116-117 | fields after the third are ignored |
| MqttListeners.ColourNeedsThreeFields | crates/runner/src/mqtt.rs:117 | one or two fields give no colour |
| MqttListeners.Initial | crates/runner/src/mqtt.rs:65-67 | magenta, CO2 0, temperature 0 |
| MqttListeners.Refresh | crates/runner/src/mqtt.rs:161-172 | "environment" is deleted, then exactly one screen with that id is sent |
| MqttListeners.InvalidUtf8Ignored | crates/runner/src/mqtt.rs:101 | a payload that is not UTF-8 changes and sends nothing |
| MqttListeners.PresenceSetsSleep | crates/runner/src/mqtt.rs:104-110 | the presence topic sets sleep to `payload == "empty"` and does nothing else |
| MqttListeners.AsleepIgnoresMessages | crates/runner/src/mqtt.rs:108-110 | while asleep, other topics change and send nothing |
| MqttListeners.ColourMessage | crates/runner/src/mqtt.rs:114-127 | the colour changes exactly when the payload parses; nothing is sent |
| MqttListeners.TextMessage | crates/runner/src/mqtt.rs:128-139 | exactly one text screen is sent, in the current colour, with count 4; the state is unchanged |
| MqttListeners.Co2Message | crates/runner/src/mqtt.rs:149-172 | a parsed reading is stored, then "environment" is deleted and a screen with both readings is sent; a bad payload changes nothing |
| MqttListeners.TempMessage | crates/runner/src/mqtt.rs:142-172 | the same for a temperature |
| MqttListeners.UnknownTopicIgnored | crates/runner/src/mqtt.rs:156 | any other topic is not handled and changes nothing |
| MqttListeners.Co2ReplacesEnvironmentScreen | crates/runner/src/mqtt.rs:149-172 | when the handler's deletion and screen reach the same frame, the drained queue holds the new environment screen and no other |
| MqttListeners.MQTTListener.constructor | crates/runner/src/mqtt.rs:61-69 | the initial field values and the shared channels and flag |
| MqttListeners.MQTTListener.AttemptHandleMessage | crates/runner/src/mqtt.rs:100-158 | fields, sleep flag and result are `Handle` of the old state; the channels receive exactly `Handle`'s deletions and screens |
| MqttListeners.MQTTListener.RefreshEnvironmentScreen | crates/runner/src/mqtt.rs:161-172 | one deletion of "environment" and one environment screen with the latest readings |

## Left out

- Integer widths are not modelled: `u32` display sizes and offsets, the `i32` scroll offset and `usize` indices are unbounded here.
- RecolourImage.DrawSubImage: the `top_left.x as u32 + width` bounds check could overflow `u32` in the source; here the sum is unbounded.
- The pixel sink: `fill_contiguous` is modelled as consuming the first area-size pixels of the stream.
  - Font rasterisation is not modelled.
  - The layout library's arrangement of the environment row is not modelled: the environment screen issues one layout command recording its icon and values.
  - The icon bytes themselves are not part of this model.
- Time: `Instant::now()` is read several times in one `draw`; the model uses one `now` per call and assumes it never runs backwards.
- Floating point: `div_duration_f32` is integer division of milliseconds, and 250 ms / 8 ms is 31.
  - The `f32` temperature and its formatting are an opaque value.
  - `payload.parse::<f32>()` is passed in by the caller as an optional value.
- Threads: the sleep flag `Arc<AtomicBool>` is a shared object with a plain boolean.
  - The channels are shared objects holding a sequence; a send appends and a receive takes the oldest.
  - Sends that panic on a dropped receiver (`unwrap`) are not modelled.
  - A handler's deletion and its screen are assumed to reach the same frame's drains. In the source the two sends can fall between those drains; then the new screen is deleted in the next frame (see Findings).
- The network client, subscription and event loop (`MQTTListener::new`, `main_loop`) are outside the model; the constructor keeps only the initial field values.
- The hardware and simulator front ends and their render loops are I/O only.
- Zero-sized displays are excluded by the `Dim` type: `bottom_right()` would be `None` and panic.
- TestScreen implements only the older trait (draw alone), so it is not one of the rotated screens; only its band drawing is modelled.
- HateScreens.New: the inner text is stated as the stripped monologue; that the monologue has no newline is not proved, because the 368-character literal is too costly for the solver.
- That an all-zero 8x8 raster's 4x4 sub-image is 16 black pixels is not stated separately; it follows from `SubImagePixel`.
- `wants_redraw` (crates/logic/src/screens/mod.rs:15-17) is the constant `true` and nothing in the core calls it, so it is not modelled.

## Findings

| source | as written | input that shows it | evidently intended | confidence | as-written member | corrected member |
|---|---|---|---|---|---|---|
| crates/logic/src/screens/text.rs:38 | `show_count.unwrap_or(3) + 1` on `u8` overflows for `Some(255)`, which `HateScreen::new` (crates/logic/src/screens/hate.rs:16) passes: a panic in a debug build, a count of 0 after wrap-around in a release build | `TextScreen::new(text, style, Some(255))` | a show count that cannot overflow (saturating at 255) | not executed | TextScreens.InitialShowCountAsWritten | TextScreens.InitialShowCount |
| crates/runner/src/mqtt.rs:161-172 | the deletion of "environment" and the new environment screen go on two channels, which the multiplexer drains one after the other (crates/logic/src/lib.rs:58-68) | both sends land after one frame has drained deletions and before it drains additions: that frame shows old and new screens, and the next frame deletes both | the new screen replaces the old ones and stays, which holds when both reach the same frame | not executed | DisplayLogics.StraddledRefreshLosesScreen | DisplayLogics.EnvironmentReplaced |
