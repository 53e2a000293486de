# Battery dashboard telemetry handler

A model of the browser side of the ESP32 NiMH charger's dashboard. The page
served from `index.h` opens a WebSocket to the charger and receives binary
telemetry frames. Its handler `onMessage` reads byte 0 as an opcode. For
opcode 0 (a telemetry update) it walks the frame two bytes at a time. Each
(charge, volt) pair is drawn into one battery slot of the page: the slot's
glow colour, its two-band fill gradient, its charge text and its volt text.

The model has four modules:

- `FrameDecoder`: the byte-level decoding of a frame into records,
  `Decode`, with its length, its indexing, and a round trip against an
  encoder `Encode` for the frames a producer sends.
- `SlotRenderer`: the three-way choice of look for a record (empty holder,
  full, charging), the exact integer form of
  `Math.round(lerp(128, 0, p / 100))`, and the per-slot and per-frame looks.
- `Decimal`: the decimal texts written to the page, `String(n)` and
  `(v / 100).toFixed(2)`, each with a read-back round trip.
- `Dashboard`: the page as a class whose `shown` map holds the look last
  written to each slot, and `OnMessage`, the handler's loop over an
  `array<Byte>`.
  - `OnMessage` draws each record with the page's `draw` routine. The
    constructor sets `draw` to `Render`.
  - `WrittenFrame` states what a whole frame leaves on the page for any
    drawing routine.

A frame of even length ends in an unpaired byte. The loop guard
`i < view.length` (`index.h:138`) still visits it: it draws one more slot,
whose volt byte is `undefined`, so the volt text becomes `"NaNV"`. The
model follows the code (`DecodeTrailingByte`, `MissingVoltIsNaN`).

Charge bytes 101 to 255 are not clamped by the code. They take the
charging branch, and the model keeps the resulting values as they are:
a negative red channel, and a fill boundary past 100.

## Model

| member | source | states |
|---|---|---|
| FrameDecoder.DecodeLength | index.h:136-138 | A telemetry-update frame of length L yields floor(L/2) records. Any other frame yields none, the empty frame included. |
| FrameDecoder.DecodeAt | index.h:138-141 | Record k is slot k+1 (that is, ceil(i/2)). Its charge comes from byte 2k+1. Its volt comes from byte 2k+2, or is missing when that byte is past the end. |
| FrameDecoder.DecodeWholePairs | index.h:138 | A frame of length 1+2N yields exactly N records, each with its volt byte. |
| FrameDecoder.DecodeTrailingByte | index.h:138-141 | A frame of length 2N+2 yields N+1 records. The last one has the trailing byte as its charge and no volt byte. |
| FrameDecoder.DecodeWellFormed | index.h:138-139 | Decoded slots are numbered 1, 2, 3, … in order, and only the last record may lack its volt byte. |
| FrameDecoder.EncodeDecode | index.h:138-141 | Decoding loses no byte: a telemetry-update frame is rebuilt exactly from its records. |
| FrameDecoder.DecodeEncode | index.h:138-141 | Every well-formed sequence of records survives encoding then decoding. |
| Decimal.NatToString | index.h:164 | The charge text `String(n)` consists only of digits, at least one, with no leading zero. It is one digit long exactly when n < 10. |
| Decimal.NatToStringRoundTrip | index.h:175 | Reading the numeral back gives the number. |
| Decimal.FixedTwoRoundTrip | index.h:141 | `toFixed(2)` of v/100 is a numeral without a leading zero, a point and two digits, and numeral·100 + digits = v. |
| SlotRenderer.RoundLerpNearest | index.h:105-107 | The integer result lies within one half of `lerp(a, b, p/100)` computed exactly. Half-way cases round up, as in `Math.round`. |
| SlotRenderer.WrapperRedMargin | index.h:169 | The exact value 128·(1 − p/100) lies within 0.48 of the red channel. So no rounding tie occurs, and the double computation cannot change the result. |
| SlotRenderer.WrapperRedAntitone | index.h:169 | The red channel never increases as the charge increases. |
| SlotRenderer.WrapperRedRange | index.h:169-170 | For a charge of 1 to 99, the red channel is between 1 and 127. |
| SlotRenderer.Render | index.h:149-177 | The look is Empty exactly when the charge is 0, and Full exactly when it is 100. A charging look has red + green = 128, blue 0, and red = round(lerp(128, 0, p/100)). |
| SlotRenderer.EmptyIgnoresVolt | index.h:150-156 | Charge 0 shows glow rgb(48,48,48), a grey fill, the text "-" and an empty volt text, whatever the volt byte is. |
| SlotRenderer.FullIsAllGreen | index.h:159-165 | Charge 100 shows glow rgb(0,200,0), green up to 100 with the red band empty, and the text "100". |
| SlotRenderer.ChargingSeam | index.h:173 | While charging, green ends at p−1 and red starts at p+1: a seam 2 wide, centred on p. |
| SlotRenderer.ChargingGlow | index.h:168-171 | The charging glow is round(lerp(128, 0, p/100)) red and 128 minus that green, with no blue. For p < 100 both channels are in 1..127. |
| SlotRenderer.ChargeTextRoundTrip | index.h:175 | A present battery's charge text consists only of digits and reads back to the charge byte. |
| SlotRenderer.VoltTextRoundTrip | index.h:176 | A present battery's volt text is five characters: one digit of whole volts, a point, two digits and "V", and it reads back to the volt byte in hundredths. |
| SlotRenderer.MissingVoltIsNaN | index.h:141 | A present battery with no volt byte shows "NaNV". |
| SlotRenderer.RenderFrameAt | index.h:138-176 | The look of slot k+1 of a frame is the look of the record made from bytes 2k+1 and 2k+2. |
| SlotRenderer.SlotsAreIndependent | index.h:139-141 | Two frames that agree on a slot's two bytes draw that slot alike, whatever their other bytes. |
| SlotRenderer.OtherFramesRenderNothing | index.h:136-180 | A frame with another opcode, or an empty frame, draws no slot. |
| SlotRenderer.ThreeSlotDecode | index.h:138-141 | The frame [0,0,0,100,144,50,250] decodes to an empty slot 1, a full slot 2 at 1.44 V and slot 3 at 50 %. |
| SlotRenderer.FullExample | index.h:159-165 | A full battery at 144 hundredths shows "100" and "1.44V" under a green glow. |
| SlotRenderer.HalfChargedExample | index.h:168-176 | A battery at 50 % and 250 hundredths glows an even 64/64 and shows "50" and "2.50V". |
| Dashboard.WrittenSlots | index.h:138-178 | After n records, slots 1..min(n, slot count) show their record's look. Every other slot keeps its old look, and no other slot appears. |
| Dashboard.WrittenUpToLimit | index.h:144-147 | Records past the page's last slot change nothing on the page. |
| Dashboard.WrittenFrame | index.h:138-178 | After a whole frame, each slot j the page has shows the look of bytes 2j−1 and 2j. The other slots are unchanged. |
| Dashboard.WrittenIsRenderFrame | index.h:138-178 | After a whole frame drawn with the slot renderer, each slot j the page has shows exactly the frame's look for slot j, so the per-frame facts (such as slot independence) hold on the page. |
| Dashboard.Page.constructor | index.h:75-99 | A page has a fixed number of slots (four in the markup), draws with `Render`, and starts with no slot written. |
| Dashboard.Page.OnMessage | index.h:132-181 | The handler finishes normally exactly when the frame has no more records than the page has slots. The new page is the old one with each record the page has a slot for drawn into its slot, in order. |

## Left out

- The HTML markup and CSS (`index.h:1-103`) are left out. The only part kept is the number of slots, which is the page's `slotCount`.
- The WebSocket plumbing is left out: `gateway`, `initWebSocket`, `onOpen`, `onClose` with its two-second reconnect timer, and `onLoad` (`index.h:109-130`, `183-185`). It is network I/O and timer scheduling; the model starts from a received frame.
- The DOM element lookups and the style strings are left out. The glow is modelled as an `Rgb` value and the gradient as a `Fill` value. The `%%` in the style strings is an escape of the firmware's template processor, not part of the CSS.
- Floating-point arithmetic is replaced by exact arithmetic.
  - `lerp` is modelled over reals and `Math.round` over integers.
  - `toFixed(2)` is modelled by integer formatting of hundredths.
  - `WrapperRedMargin` and the `FixedTwo` comment give the reason the double results agree with the exact ones.
- Dashboard.Page.OnMessage: a record for a slot the page does not have makes `getElementById` return `null`. The first style write then throws a `TypeError`, which aborts the handler. The model returns `ok == false` at that point and does not model the exception or how it is reported.
- `console.log` calls are not modelled.

