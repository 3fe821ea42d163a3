# Verified model of three WebRTC demo pages

This project models the computational core of three browser demo pages in Dafny and
proves properties of it:

- **pc_capture**: a peer connection statistics page. Every second it compares the
  sender (`outbound-rtp`) and receiver (`inbound-rtp`) statistics, and the local track's
  frame counters, with the snapshot kept from the previous poll. It shows per-interval
  deltas and ratios of deltas. It accumulates the per-stage delays of the
  receiver's timing frames (`googTimingFrameInfo`) into lifetime means. The receiver
  side is modelled both as written and with the intended handling (see "## Findings"):
  as written, every `inbound-rtp` entry that carries `remoteId` throws before the
  accumulation, and the rest of that report is abandoned. The class uses the
  intended handling. Every 500 ms it
  smooths the local and remote playback frame rates.
  Module `PcCapture`, file `pc_capture.dfy`.
- **system-audio-demo**: system-audio capture. The model covers the rewrite that turns
  on Opus stereo in an SDP (module `Sdp`, `sdp.dfy`) and the choice of a supported
  recording MIME type. It also covers the `TrackedAudioContext` connection counter, the
  rebuilding of the audio-output `<select>` that keeps the previous selection, and
  `getSelectedDevice` (module `SystemAudio`, `system_audio.dfy`).
- **ColorAccuracy**: a colour-fidelity test. It paints a 10×10 grid of colour cells
  on a 200×200 canvas, using `rgb2Html` colour strings plus a frame-counter pixel. It
  then samples the centre of each cell in the original and received images.
  Module `ColorHex` in `color_hex.dfy` covers the `#rrggbb` encoding. Module
  `ColorAccuracy` in `color_accuracy.dfy` covers the canvas, the frame painter and the
  sample index.

`wrappers.dfy` holds the `Option` type. JavaScript `null`, `undefined`, NaN and Infinity
results are modelled as `None`.

Code that changes state in place is modelled as classes:
- the module-level statistics variables: `PcCapture.StatsMonitor`;
- the audio context: `SystemAudio.TrackedAudioContext`;
- the `<select>` element: `SystemAudio.Select`;
- the canvas and its pixels: `ColorAccuracy.Canvas`, an `array2`.

Each method is proved against a pure specification function. The properties are proved
about those functions.

## Model

| member | source | states |
|---|---|---|
| PcCapture.Ratio | pc_capture/js/main.js:389-391 | a ratio of deltas is defined exactly when the denominator delta is non-zero, and then times the denominator gives the numerator |
| PcCapture.OutboundDelta | pc_capture/js/main.js:376-385 | the sender deltas are all zero exactly when the two snapshots are equal |
| PcCapture.OutboundReportOf | pc_capture/js/main.js:387-394 | QP per frame and encode ms per frame are defined iff frames were encoded; send delay per packet is defined iff packets were sent; each value is the quotient; the CPU-limited share never exceeds 100 and equals 100·Δcpu below that |
| PcCapture.FirstOutboundReport | pc_capture/js/main.js:373-394 | on the first report every sender delta is zero, every ratio undefined, every count and the CPU share zero |
| PcCapture.OutboundReportsAppend | pc_capture/js/main.js:344-399 | handling two reports in turn equals handling their concatenation; the second is measured only against the snapshot the first left |
| PcCapture.FramesEncodedTelescope | pc_capture/js/main.js:382-397 | the per-interval encoded-frame counts sum to the counter's growth from the kept snapshot to the last one handled |
| PcCapture.StageDecomposition | pc_capture/js/main.js:449-456 | the four sender stages sum to t5−t1, the three receiver stages to t11−t8, and end-to-end = sender + (t8−t5) + receiver |
| PcCapture.TimingFrameAccepted | pc_capture/js/main.js:443-447 | a timing frame is accepted exactly when it has fields up to 7 and fields 1 to 7 are all numbers ≥ 0 |
| PcCapture.Stages | pc_capture/js/main.js:449-456 | the end-to-end delay is t11 − t1, capture-to-encode plus encode is t3 − t1, jitter buffer plus decode is t11 − t9 |
| PcCapture.AccumulateTiming | pc_capture/js/main.js:440-460 | an accepted timing frame adds 1 to the count, its stage delays to the totals and sets the current end-to-end delay to t11−t1; any other frame changes nothing and leaves the current delay 0 |
| PcCapture.Means | pc_capture/js/main.js:491-498 | the means are defined iff at least one frame was accepted, and mean × count = total for every stage |
| PcCapture.InboundDelta | pc_capture/js/main.js:462-477 | an entry measured against itself has all receiver deltas zero |
| PcCapture.InboundReportOf | pc_capture/js/main.js:479-498 | each of the five receiver ratios is defined iff its denominator delta is non-zero and is then the quotient; jitter in ms is 1000·jitter |
| PcCapture.InboundStep | pc_capture/js/main.js:440-501 | the entry becomes the kept snapshot; a later entry's decoded and received frame counts and QP ratio are measured against the snapshot kept before it (the first entry against itself, showing zero frames and no QP ratio); the count grows by one and the totals by the frame's stage delays exactly for an accepted timing frame, which also sets the current end-to-end delay (0 otherwise); jitter is shown in ms; the means are those of the new count and totals, shown iff the count is non-zero |
| PcCapture.FramesDecodedTelescope | pc_capture/js/main.js:462-501 | once a snapshot is kept, the per-interval decoded-frame counts of a report add up to the counter's growth from that snapshot to the one kept after it: no interval is counted twice or skipped |
| PcCapture.InboundStepAsWritten | pc_capture/js/main.js:420-423 | as written: an entry with `remoteId` throws before any state change; otherwise it behaves as InboundStep |
| PcCapture.FirstThrowing | pc_capture/js/main.js:410-423 | the position of the first `inbound-rtp` entry with `remoteId`, where the forEach as written stops; no entry before it throws |
| PcCapture.AsWrittenStopsAtRemoteId | pc_capture/js/main.js:410-423 | as written, the receiver state after a report is the state after the entries before the first one with `remoteId`, whatever follows it |
| PcCapture.NoThrowAsWrittenAgrees | pc_capture/js/main.js:410-503 | on a report without `remoteId` entries, the code as written and the intended handling give the same receiver state |
| PcCapture.RemoteIdLosesTimingFrame | pc_capture/js/main.js:420-459 | for an entry with `remoteId` and an accepted timing frame, the code as written yields no result, while the intended handling counts the frame and keeps the snapshot |
| PcCapture.ReceiverCountsAcceptedFrames | pc_capture/js/main.js:410-459 | with the intended handling, over a report the frame count grows by exactly the number of accepted timing frames in it |
| PcCapture.DroppedFrames | pc_capture/js/main.js:512 | delivered + discarded + dropped = total frames |
| PcCapture.TrackReportOf | pc_capture/js/main.js:511-520 | dropped delta = total delta − delivered delta − discarded delta; equal snapshots give all-zero deltas |
| PcCapture.Smooth | pc_capture/js/main.js:561 | the smoothed rate moves 30% of the way toward the sample (its distance to the sample is 0.7 of the old one) and lies between the old estimate and the sample |
| PcCapture.FpsStep | pc_capture/js/main.js:554-563 | the frame total is always kept; the estimate is smoothed toward 1000·frames/period when the total did not go down and is unchanged otherwise |
| PcCapture.FpsStaysInRange | pc_capture/js/main.js:554-563 | an estimate in [lo, hi] stays there when the measured rate is in [lo, hi] |
| PcCapture.FpsNonNegative | pc_capture/js/main.js:554-563 | the estimate never becomes negative |
| PcCapture.StatsMonitor.constructor | pc_capture/js/main.js:82-100 | no kept snapshots, zero count and totals, zero timestamps and frame totals, both rates 30 |
| PcCapture.StatsMonitor.ShowLocalStats | pc_capture/js/main.js:344-400 | what is shown and the snapshot kept afterwards are OutboundReports and LastOutbound of the report, and nothing else changes |
| PcCapture.StatsMonitor.ShowRemoteStats | pc_capture/js/main.js:402-504 | the intended handling of the "## Findings" row: the receiver state and what is shown are ReceiverAfter and InboundReports of the report; the report time becomes now (as written, the report is abandoned at the first entry with `remoteId`: AsWrittenStopsAtRemoteId) |
| PcCapture.StatsMonitor.HandleInbound | pc_capture/js/main.js:424-502 | one `inbound-rtp` entry, with the intended handling of the "## Findings" row, updates the state and yields the report InboundStep prescribes |
| PcCapture.StatsMonitor.PollTrackStats | pc_capture/js/main.js:508-524 | without track stats nothing changes; otherwise the deltas against the kept snapshot (itself the first time) are shown and the snapshot is kept |
| PcCapture.StatsMonitor.UpdateVideoFps | pc_capture/js/main.js:549-574 | the timestamp becomes now; each element with playback quality gets FpsStep over the elapsed period, the other stays as it was |
| Sdp.Split | system-audio-demo/js/main.js:134 | splitting yields at least one line, and the first line is a prefix of the input |
| Sdp.RewriteLine | system-audio-demo/js/main.js:137-144 | a line is kept or gets `;stereo=1` appended, and it is kept when it is not the `a=fmtp:111` line or already holds `stereo=1` |
| Sdp.RewriteLinesAppend | system-audio-demo/js/main.js:137-145 | the map works line by line: rewriting a concatenation of line lists rewrites each part |
| Sdp.RewriteLinesIdempotent | system-audio-demo/js/main.js:137-145 | mapping the rewrite over already rewritten lines changes nothing |
| Sdp.Join | system-audio-demo/js/main.js:147 | the join starts with the first line, and a CRLF follows it when there are more lines |
| Sdp.InsertStereoSupportForOpus | system-audio-demo/js/main.js:126-131 | an SDP without the Opus rtpmap line is returned unchanged (the early exit) |
| Sdp.JoinSplit | system-audio-demo/js/main.js:134-147 | joining the CRLF split of a string gives back the string |
| Sdp.SplitPiecesNoCrlf | system-audio-demo/js/main.js:134 | no line produced by the split contains a CRLF |
| Sdp.SplitJoin | system-audio-demo/js/main.js:134-147 | splitting the CRLF join of CRLF-free lines gives back the lines |
| Sdp.RewriteLineCases | system-audio-demo/js/main.js:138-144 | an `a=fmtp:111` line without `stereo=1` gets `;stereo=1` appended; every other line is kept |
| Sdp.RewriteLineIdempotent | system-audio-demo/js/main.js:138-144 | rewriting a rewritten line changes nothing |
| Sdp.InsertStereoLines | system-audio-demo/js/main.js:126-148 | when the SDP holds the Opus rtpmap line, the result has the same number of CRLF-separated lines as the input, and each is the rewrite of the input line at the same place |
| Sdp.InsertStereoUnchanged | system-audio-demo/js/main.js:134-147 | an SDP whose every line the rewrite leaves alone comes back unchanged from the split, map and join |
| Sdp.InsertStereoIdempotent | system-audio-demo/js/main.js:126-148 | applying the rewrite twice is the same as applying it once |
| SystemAudio.GetSupportedMimeType | system-audio-demo/js/main.js:80-96 | null exactly when no candidate is supported; otherwise the first supported candidate in list order |
| SystemAudio.AfterDisconnect | system-audio-demo/js/main.js:59 | the count after a disconnect is never negative: one less when positive, 0 otherwise |
| SystemAudio.TrackedAudioContext.constructor | system-audio-demo/js/main.js:46-49 | the counter starts at 0 |
| SystemAudio.TrackedAudioContext.TrackConnect | system-audio-demo/js/main.js:51-55 | the counter grows by one |
| SystemAudio.TrackedAudioContext.TrackDisconnect | system-audio-demo/js/main.js:57-61 | the counter drops by one, never below 0 |
| SystemAudio.ReplayCounts | system-audio-demo/js/main.js:45-67 | over any sequence of calls the counter stays ≥ 0; when no prefix has more disconnects than the start plus connects, it equals start + connects − disconnects |
| SystemAudio.FirstIndexOf | system-audio-demo/js/main.js:333-334 | the index of the first option with the value, or −1 exactly when there is none |
| SystemAudio.Select.constructor | system-audio-demo/js/main.js:273-282 | a new select has no options and no selection |
| SystemAudio.Select.SetValue | system-audio-demo/js/main.js:334 | assigning `value` selects the first option with that value, or nothing, and keeps the options; reading `value` afterwards gives the assigned value when an option has it and "" otherwise |
| SystemAudio.Select.Value | system-audio-demo/js/main.js:302 | `select.value` is the value of the selected option, and otherwise "" |
| SystemAudio.Select.UpdateDevices | system-audio-demo/js/main.js:273-282 | the options become one per device, in order, with the device's id as value and label as caption; the first is selected, or nothing if there are none |
| SystemAudio.GetSelectedDevice | system-audio-demo/js/main.js:284-291 | no options gives the empty string; a valid selection gives its caption; the TypeError (None) happens exactly when there are options but no valid selected index |
| SystemAudio.RestoreSelections | system-audio-demo/js/main.js:331-336 | each select whose options hold its saved value has that value selected again; the others are left as they were |
| SystemAudio.AudioOutputPage.constructor | system-audio-demo/js/main.js:43 | the page starts with an empty output select and no speaker |
| SystemAudio.AudioOutputPage.EnumerateDevices | system-audio-demo/js/main.js:297-341 | on failure the speaker flag is false and the select is untouched; otherwise the select lists exactly the audio outputs, the flag says whether there is one, and the previous selection is kept if still offered |
| SystemAudio.AudioOutputs | system-audio-demo/js/main.js:320 | only devices of kind `audiooutput`, and every such device |
| SystemAudio.AudioOutputsSingle | system-audio-demo/js/main.js:320 | one device is kept exactly when it is an audio output |
| SystemAudio.AudioOutputsAppend | system-audio-demo/js/main.js:320 | the filter keeps enumeration order: the outputs of a concatenation are the outputs of each part in turn |
| ColorHex.HexDigitRoundTrip | ColorAccuracy/js/main.js:109 | a hex digit decodes back to its value |
| ColorHex.ToHex | ColorAccuracy/js/main.js:109 | `toString(16)` is non-empty and starts with 0 only for zero (no leading zeros) |
| ColorHex.ToHexDigits | ColorAccuracy/js/main.js:109 | `toString(16)` of a number is a non-empty string of hex digits |
| ColorHex.ParseToHex | ColorAccuracy/js/main.js:109 | parsing `toString(16)` of a number gives the number back |
| ColorHex.Hex2 | ColorAccuracy/js/main.js:106-110 | the two-digit form of a byte is two hex digits that decode to it |
| ColorHex.ToHexAppendByte | ColorAccuracy/js/main.js:108-109 | the hex form of n·256 + x is the hex form of n followed by the two digits of x |
| ColorHex.Rgb2Html | ColorAccuracy/js/main.js:106-110 | the colour string starts with `#` |
| ColorHex.Rgb2HtmlDigits | ColorAccuracy/js/main.js:106-110 | for byte channels, `rgb2Html` is `#` followed by the two-digit red, green and blue |
| ColorHex.ParseHtmlColor | ColorAccuracy/js/main.js:204 | the `#rrggbb` reading of a colour string: a result is always a byte colour |
| ColorHex.Rgb2HtmlRoundTrip | ColorAccuracy/js/main.js:106-110 | for byte channels the string has 7 characters, all hex digits after `#`, and parses back to the same colour |
| ColorHex.ParseThenEncode | ColorAccuracy/js/main.js:106-110 | every string that parses as a lowercase `#rrggbb` colour is what `rgb2Html` gives for the parsed channels |
| ColorHex.Rgb2HtmlRedWraps | ColorAccuracy/js/main.js:108-109 | a red value from 256 to 0xEFF loses its carry into the leading digit: the string equals that of red mod 256 |
| ColorHex.ToHexLength | ColorAccuracy/js/main.js:109 | a number of at least 16^k has more than k hex digits |
| ColorHex.Rgb2HtmlTooLong | ColorAccuracy/js/main.js:108-109 | from red = 0xF00 on, the string is 8 or more characters long and is not a `#rrggbb` string |
| ColorHex.ToHexLengthBelow | ColorAccuracy/js/main.js:109 | a number below 16^k has at most k hex digits |
| ColorHex.ParseCssHexColor | ColorAccuracy/js/main.js:204 | the hex colour forms a `fillStyle` assignment accepts (`#rgb`, `#rgba`, `#rrggbb`, `#rrggbbaa`): results are byte colours with alpha 0..255, only those four lengths are accepted, and the 7-character form reads as the opaque `#rrggbb` colour |
| ColorHex.Rgb2HtmlNineDigits | ColorAccuracy/js/main.js:108-109 | for red from 0xFF00 to 0xFFEFF the string is `#` and eight hex digits: the two low bytes of 0x100 + red, then green, then blue |
| ColorHex.Rgb2HtmlWithAlpha | ColorAccuracy/js/main.js:108-109 | for red from 0xFF00 to 0xFFEFF the string is a `#rrggbbaa` colour whose alpha is the blue argument |
| ColorHex.Rgb2HtmlRefused | ColorAccuracy/js/main.js:108-109 | for red from 0xF00 to 0xFEFF (8 characters) and from 0xFFF00 on (10 or more), the string is no hex colour form |
| ColorAccuracy.PatternColor | ColorAccuracy/js/main.js:193-203 | every cell colour is in byte range; the top row of cells (j = 0) is a grey ramp up to 225; the other cells have red ≤ 180, green ≤ 160 and blue 100 |
| ColorAccuracy.CornerColor | ColorAccuracy/js/main.js:209-210 | the frame-counter pixel is (counter, 0, 0) while the counter is below 256; from 0xFF00 to 0xFFEFF the transparent fill leaves cell (0, 0)'s black; it is always a byte colour |
| ColorAccuracy.FrameColor | ColorAccuracy/js/main.js:191-210 | every pixel but the top-left one has the colour of its 20×20 cell; the top-left one has the corner colour |
| ColorAccuracy.Canvas.constructor | ColorAccuracy/js/main.js:190 | a 200×200 canvas whose pixels all start black (transparent black on a real canvas) with an opaque black fill style |
| ColorAccuracy.Canvas.SetFillStyle | ColorAccuracy/js/main.js:204 | a string in one of the hex colour forms becomes the fill style, alpha included; any other string leaves it unchanged |
| ColorAccuracy.Canvas.FillRect | ColorAccuracy/js/main.js:205 | an opaque fill gives exactly the pixels inside the rectangle the fill colour; a fully transparent fill changes nothing |
| ColorAccuracy.CellOf | ColorAccuracy/js/main.js:205 | every pixel of the cell drawn at i·20 lies in column i |
| ColorAccuracy.ColorAccuracyPage.constructor | ColorAccuracy/js/main.js:25 | the counter starts at 0 |
| ColorAccuracy.CornerFill | ColorAccuracy/js/main.js:209-210 | assigning `rgb2Html(counter, 0, 0)` gives an opaque fill of the corner colour, or a transparent fill where the corner colour is the black already there, and is refused exactly when the counter is at least 0xF00 outside 0xFF00..0xFFEFF, where the corner colour is the last cell's |
| ColorAccuracy.ColorAccuracyPage.PaintPattern | ColorAccuracy/js/main.js:191-207 | after the nested loops every pixel has the colour of its 20×20 cell and the fill style is cell (9, 9)'s opaque colour |
| ColorAccuracy.ColorAccuracyPage.PushFrameThroughConnection | ColorAccuracy/js/main.js:185-215 | every pixel gets FrameColor: the colour of its grid cell, except the top-left pixel, which gets the counter colour; the fill style left behind is the parsed counter colour, or cell (9, 9)'s colour when the string is refused; the counter grows by one; another frame is scheduled iff the counter is still below 20 |
| ColorAccuracy.SampleIndex | ColorAccuracy/js/main.js:95 | the sample index is a multiple of 4, and its three colour bytes lie inside the 200×200 RGBA buffer |
| ColorAccuracy.SampleIsCellCentre | ColorAccuracy/js/main.js:93-95 | sample (i, j) is the pixel at x = 20j+10, y = 20i+10, the centre of the cell drawn for column j, row i |
| ColorAccuracy.SampleIndexInjective | ColorAccuracy/js/main.js:93-95 | no two of the 100 samples read the same pixel |
| ColorAccuracy.ImageData | ColorAccuracy/js/main.js:87-90 | the RGBA buffer of a 200×200 canvas has 160000 bytes |
| ColorAccuracy.SampledBytes | ColorAccuracy/js/main.js:92-97 | after a frame is painted, the three bytes read at sample (i, j) are the channels of cell (j, i) |

## Left out

- DOM, networking and scheduling are left out: peer connections, `getStats` promises,
  media capture, `MediaRecorder`, audio playback and `setSinkId`, the level meter, timers
  and logging. The clock (`performance.now()`) is a parameter. Other browser answers
  are parameters too: `isTypeSupported`, `enumerateDevices`, `getVideoPlaybackQuality`
  and track stats.
- Display rounding (`toFixed(1)`) and the pass-through fields copied into the panels
  unchanged (codec, implementation names, counts shown as is) are not modelled. Ratios
  are exact reals.
- The `report.get(codecId).mimeType` lookup of the sender branch is not modelled. The
  model assumes the codec entry exists.
- Which panel shows which entry is not modelled: the page overwrites the panel per
  entry, while the model returns the sequence of all values shown.
- PcCapture.StatsMonitor.UpdateVideoFps: requires `now` to be later than the previous
  update. With an equal timestamp the page divides by zero, and that case is not modelled.
- PcCapture.WellFormedTiming: timing fields 8 to 11, which the page never checks, are
  required to be numbers whenever fields 1 to 7 pass the guard. The NaN arithmetic the
  page would otherwise do is not modelled. Parsing the comma-separated string into
  numbers is outside the model.
- PcCapture.StatsMonitor.ShowRemoteStats: the unused `deltaReportTimeMs` is not returned.
- The scalar channel and counter arguments are natural numbers. Negative and fractional
  arguments to `rgb2Html` never occur in the page and are not modelled.
- ColorAccuracy.Canvas.FillRect: requires the rectangle to lie inside the canvas, because
  every call in the page does. Browser clipping of larger rectangles is not modelled.
  It also requires the fill to be opaque or fully transparent. Blending a partly
  transparent colour is not modelled. `rgb2Html` gives such a colour only for red from
  0xFF00 to 0xFFEFF together with a blue from 1 to 254, which the page never passes.
- ColorAccuracy.Canvas.SetFillStyle: reads only the lower-case hex forms `#rgb`, `#rgba`,
  `#rrggbb` and `#rrggbbaa`. Upper-case hex digits, named colours, `rgb()`/`hsl()` and the
  other CSS colour notations are not parsed, and such a string is treated as refused.
  `rgb2Html` produces none of them.
- ColorAccuracy.ColorAccuracyPage.PushFrameThroughConnection: the canvas colour model
  is exact RGB and ignores colour management.
- `draw`'s error measure (the square root of the squared channel differences, averaged)
  is not modelled. Only which bytes it compares is modelled (SampledBytes). Square roots
  of reals are outside Dafny's arithmetic.
- SystemAudio.GetSelectedDevice: a selected index of −1 with a non-empty list reads
  `label` of `undefined`. This TypeError is returned as None.
- SystemAudio.RestoreSelections: requires the selects to be distinct objects. The page
  has exactly one.
- The system-audio capture flow (`getDisplayMedia` options, track listeners, recorder
  callbacks) is event wiring without computation and is not modelled.

## Findings

| source | as written | input that shows it | evidently intended | confidence | as-written member | corrected member |
|---|---|---|---|---|---|---|
| pc_capture/js/main.js:420-423 | `stats.get(report.remoteId)` calls `get` on the stats dictionary, which has no such method, whenever `remoteId` is set; the TypeError ends the handling of that report | an `inbound-rtp` entry whose `remoteId` is set, e.g. once a sender report arrived, with an accepted timing frame | look up the matching `remote-outbound-rtp` entry in the report (`report.get(stats.remoteId)`) only for logging, then count the timing frame, show the deltas and keep the snapshot | medium, not executed | PcCapture.InboundStepAsWritten, PcCapture.RemoteIdLosesTimingFrame, PcCapture.AsWrittenStopsAtRemoteId | PcCapture.InboundStep |
