# micro:bit simulator — device model

This project models the device side of a Python simulator of the BBC micro:bit, and proves properties of that model. The simulator has these parts:

- A 5×5 display of LEDs, each with a brightness from 0 to 9.
- Two push-buttons, A and B.
- A small table of 5-row glyphs, for the digits and `?`, used to show and scroll text.
- A registry of browser viewers connected over WebSocket.

Application code drives the display and reads the buttons. Every redraw of the display is announced to every viewer as one batched `DISPLAY_PIXELS` message, and switching the display on or off as a `DISPLAY_ON_OFF` message. A viewer reports button edges back with `BUTTON_CHANGE` messages, and receives an `INITIAL_DATA` snapshot when it connects.

The modules follow the source files:

| module | file | form |
|---|---|---|
| `Values` | `values.dfy` | the Python values, exceptions, list indexing and truth test the code relies on |
| `Pixels` | `pixel.dfy` | class `Pixel` with the validated setter |
| `Buttons` | `button.dfy` | class `Button`, plus a pure event-trace model and its invariants |
| `Glyphs` | `glyphs.dfy` | `_convert` as a method with two loops, proved equal to a transpose; the table and lookup as functions |
| `Displays` | `display.dfy` | class `Display` over a grid of `Pixel` objects, its redraw loops, and pure specifications of the frames `show` and `scroll` draw |
| `Microbit` | `microbit.dfy` | class `Device` (buttons, display, viewer registry), class `Session` (one viewer), and the inbound routing as pure functions |

The display's `_send_message` is a ghost outbox, `Display.Sent`. Every message it would pass on is appended there, so message counts and contents can be stated. The device rebinds `_send_message` to a broadcast, which `Device.Publish` and `Device.SendMessage` model. The device-level redraws `Device.SetPixel`, `Device.Clear`, `Device.Show`, `Device.Scroll` and `Device.SetOnOff` run a display operation and then broadcast what it added to the outbox, so they state what every viewer receives. A viewer's traffic is the sequence `Session.wire` of JSON objects sent to it.

The model follows the code as written:

- `get_pixel` and `set_pixel` index Python lists. So integer x and y in −5..−1 wrap around to the other end of the grid. Only integers outside −5..4 raise, and they raise `IndexError`; there is no separate out-of-bounds error.
- `set_pixel` sends the coordinates as the caller gave them, negative ones included.
- `set_brightness` raises `TypeError` for a value that is not exactly an `int`, including `True` and `False`. It raises `ValueError` for an int outside 0..9.
- A `BUTTON_CHANGE` whose `data` is not a JSON object makes `_on_button_change` raise `AttributeError`. So such a message is not dropped like the other malformed ones.
- `onClose` for a session that is not registered raises `KeyError` from `set.remove`.

## Model

| member | source | states |
|---|---|---|
| Values.ListIndex | microbit/display.py:25 | Python indexing of a list of n: succeeds exactly for −n ≤ i < n, reads the position congruent to i modulo n, and raises IndexError otherwise |
| Pixels.CheckBrightness | microbit/pixel.py:10-15 | accepts exactly an int (never a bool or other value) in 0..9; anything not an int is a TypeError, checked first; an int out of range is a ValueError |
| Pixels.Pixel.constructor | microbit/pixel.py:4-5 | a new pixel has brightness 0 |
| Pixels.Pixel.GetBrightness | microbit/pixel.py:7-8 | returns the stored brightness, which is always in 0..MAX_BRIGHTNESS, and changes nothing |
| Pixels.Pixel.SetBrightness | microbit/pixel.py:10-17 | stores a valid value; on TypeError or ValueError the old brightness is kept; the 0..9 invariant is preserved |
| Pixels.SetThenGet | microbit/pixel.py:7-17 | a later get returns the value a successful set stored, or the previous value after a refused set; the set succeeds exactly for an int in 0..9 |
| Buttons.Button.constructor | microbit/button.py:2-5 | not pressed, no flag, no presses |
| Buttons.Button.IsPressed | microbit/button.py:7-8 | returns the current state and changes nothing |
| Buttons.Button.WasPressed | microbit/button.py:10-13 | returns the flag and clears it, leaving the other fields |
| Buttons.Button.GetPresses | microbit/button.py:15-18 | returns the count and resets it to 0, leaving the other fields |
| Buttons.Button.RegisterDown | microbit/button.py:20-23 | sets pressed and the flag and adds exactly one press |
| Buttons.Button.RegisterUp | microbit/button.py:25-26 | clears pressed only |
| Buttons.Button.Reset | microbit/button.py:28-29 | back to the initial state whatever came before |
| Buttons.Button.GetInitialData | microbit/button.py:31-32 | exactly the pressed state |
| Buttons.PressesCountDownEdges | microbit/button.py:15-29 | after any sequence of edges, queries and resets, `presses` is the number of down-edges since the last `get_presses()` or reset |
| Buttons.FlagRecordsDownEdge | microbit/button.py:10-29 | `was_pressed` holds exactly when a down-edge happened since the last `was_pressed()` or reset |
| Buttons.PressedFollowsLastEdge | microbit/button.py:20-29 | `is_pressed` holds exactly when the latest edge or reset was a down-edge |
| Buttons.TwoPressesScenario | microbit/button.py:10-26 | two downs give two presses, then 0 on the next read; the flag reads true once, then false; an up-edge releases |
| Glyphs.Blanks | microbit/glyphs.py:4-7 | `blank_column * n` is n columns of five unlit cells, and none for n ≤ 0 |
| Glyphs.ConvertColumns | microbit/glyphs.py:91-101 | the two loops build len // 5 columns, letter i going to column i mod that count; a non-empty glyph shorter than 5 raises ZeroDivisionError |
| Glyphs.StridedExtend | microbit/glyphs.py:98-99 | appending letter i extends column c exactly when i − c is a non-negative multiple of the column count |
| Glyphs.ModuloSelectsColumn | microbit/glyphs.py:99 | `index % num_columns` is the one column whose stride reaches `index` |
| Glyphs.StridedAt | microbit/glyphs.py:98-99 | row r of column c is letter c + r·w |
| Glyphs.StridedLength | microbit/glyphs.py:98-99 | a column has one letter per stride step inside the string |
| Glyphs.ColumnsTranspose | microbit/glyphs.py:91-101 | for a string of 5 rows of width w: w columns of 5 cells, with row r of column c equal to letter r·w + c |
| Glyphs.SourceConvertsToGlyphs | microbit/glyphs.py:10-88 | every bitmap of the table converts to 3 to 5 columns of 5 cells |
| Glyphs.Convert | microbit/glyphs.py:91-101 | ZeroDivisionError exactly for a non-empty string shorter than 5 letters; otherwise `len // 5` columns, each of 5 cells when the length is a multiple of 5 |
| Glyphs.Source | microbit/glyphs.py:8-88 | bitmaps for exactly '0'–'9' and '?', each five rows of one width between 3 and 5 |
| Glyphs.Table | microbit/glyphs.py:104-106 | same keys as the bitmap table, each mapped to its conversion, which succeeds |
| Glyphs.GetGlyph | microbit/glyphs.py:109-110 | total: the table glyph for a known character, the '?' glyph otherwise; always 3 to 5 columns of 5 cells |
| Displays.MessageName | microbit/display.py:12-13 | DISPLAY_PIXELS exactly for a pixels message and DISPLAY_ON_OFF exactly for an on/off message |
| Displays.MessageData | microbit/display.py:128-129 | `{'pixels': …}` with the formatted entries for a pixels message (lines 128-129), `{'is_on': …}` with the flag for an on/off message (line 95), never a `message_name` key |
| Displays.EntryValueInjective | microbit/display.py:135-136 | `format_pixel` loses nothing: two pixels give the same `((x, y), brightness)` exactly when they are the same pixel |
| Displays.EntriesValueInjective | microbit/display.py:135-136 | a `pixels` list determines, in order, the entries it was formatted from |
| Displays.EntriesListEveryCell | microbit/display.py:117-122 | the 25 entries list every cell once, x-major then y, each with its brightness |
| Displays.Render | microbit/display.py:105-111 | the cells `_draw_glyph` leaves: a full 5×5 grid |
| Displays.RenderLightsHashes | microbit/display.py:105-111 | a cell is 9 exactly where the frame has '#' and 0 everywhere else |
| Displays.DrawMessage | microbit/display.py:105-112 | the one message `_draw_glyph` sends: a DISPLAY_PIXELS list of 25 entries |
| Displays.DrawMessageListsFrame | microbit/display.py:105-112 | entry x·5 + y of that message is cell (x, y) with brightness 9 for '#' and 0 otherwise |
| Displays.BlankFrameIsClear | microbit/display.py:105-112 | drawing a frame of blank columns gives the all-dark grid and sends exactly what `clear` sends |
| Displays.Monospace | microbit/display.py:97-103 | a glyph at most 5 wide comes back exactly 5 wide; a wider one comes back unchanged; columns keep their height |
| Displays.MonospaceCentres | microbit/display.py:97-103 | left padding floor((5 − w)/2), then the glyph unchanged, then ceil((5 − w)/2) blank columns |
| Displays.ShowFrame | microbit/display.py:48-49 | each letter is drawn as its glyph centred in a full 5×5 frame |
| Displays.ShowMessages | microbit/display.py:46-53 | one pass of `show` sends one message per letter |
| Displays.ShowOneMore | microbit/display.py:47-49 | each further letter adds its frame's message and makes its frame the grid |
| Displays.Piece | microbit/display.py:64-68 | a letter adds 5 columns when monospaced, otherwise its width plus one blank column |
| Displays.Pieces | microbit/display.py:63-68 | `all_glyph`: well-formed columns of 5 cells |
| Displays.PiecesAppend | microbit/display.py:63-68 | `all_glyph` is built letter by letter: the pieces of a joined text are the pieces of its parts side by side |
| Displays.PiecesLength | microbit/display.py:63-68 | the pieces total 5 per letter monospaced, or the sum of (width + 1) |
| Displays.Strip | microbit/display.py:70-74 | the padded strip is well formed and at least 10 columns |
| Displays.ScrollFrames | microbit/display.py:77-78 | strip length − 4 windows, each a 5×5 frame equal to the slice at its start |
| Displays.ScrollMessages | microbit/display.py:76-79 | one pass of `scroll` sends one message per window |
| Displays.ScrollShape | microbit/display.py:63-79 | strip length is 10 + Σ(width + 1), or 10 + 5 per letter monospaced; frame count is length − 4; first and last frames are blank |
| Displays.ScrollOneMore | microbit/display.py:77-78 | drawing the window at `index` adds that window's message |
| Displays.ScrollEndsDark | microbit/display.py:70-78 | the last window is blank and renders as the all-dark grid |
| Displays.NewPixelGrid | microbit/display.py:18-22 | 5 columns of 5 new, distinct pixels, all dark |
| Displays.Display.constructor | microbit/display.py:15-22 | all 25 cells 0, display on, nothing sent |
| Displays.Display.SendMessage | microbit/display.py:131-132 | the message is appended to the outbox and nothing else changes |
| Displays.Display.GetPixel | microbit/display.py:24-25 | succeeds exactly for x, y in −5..4 and returns cell (x mod 5, y mod 5); IndexError otherwise |
| Displays.Display.SetPixel | microbit/display.py:27-29 | IndexError first, then the brightness error, and in both cases no change and nothing sent; on success only cell (x mod 5, y mod 5) changes and exactly one message ((x, y), value) is sent |
| Displays.Display.Clear | microbit/display.py:31-38 | every cell 0 and exactly one message listing all 25 cells in x-major order |
| Displays.Display.DrawGlyph | microbit/display.py:105-112 | each cell 9 where its frame cell is '#' and 0 otherwise; exactly one message listing all 25 cells |
| Displays.Display.ShowPass | microbit/display.py:46-53 | one message per letter, and the grid ends as the last letter's centred glyph (unchanged for empty text) |
| Displays.Display.ShowLetter | microbit/display.py:47-49 | one turn of the loop: the outbox gains the letter's frame message and the grid becomes that frame's rendering |
| Displays.Display.Show | microbit/display.py:40-56 | one pass, then one extra all-dark message and a dark grid when `clear` is set |
| Displays.Display.Scroll | microbit/display.py:58-82 | one message per window of the strip in order, and the display ends dark |
| Displays.Display.SetOnOff | microbit/display.py:93-95 | stores the flag and sends exactly one DISPLAY_ON_OFF message carrying it |
| Displays.Display.On | microbit/display.py:84-85 | display on, one message carrying true |
| Displays.Display.Off | microbit/display.py:87-88 | display off, one message carrying false |
| Displays.Display.IsOn | microbit/display.py:90-91 | returns the flag and changes nothing |
| Displays.Display.Reset | microbit/display.py:114-115 | new dark pixels, display on, nothing sent |
| Displays.Display.GetInitialData | microbit/display.py:117-126 | all 25 cells in x-major order with their brightness, and the flag; nothing changes |
| Microbit.Envelope | microbit/__init__.py:120-123 | the keys of `data` plus `message_name`; the values of `data` win; the name is kept when `data` has no such key |
| Microbit.EnvelopeRoundTrip | microbit/__init__.py:120-123 | a viewer reads back the name and, removing it, exactly the data |
| Microbit.DisplayEnvelope | microbit/__init__.py:19-27 | a display message broadcast through the rebound `_send_message` reaches a viewer under its own name with its own data |
| Microbit.Session.Send | microbit/__init__.py:120-123 | exactly one envelope is added to the viewer's wire |
| Microbit.ButtonChange | microbit/__init__.py:45-57 | a button is selected exactly for id "A" or "B", A for "A"; the edge is down exactly when `is_pressed` is present and true |
| Microbit.Route | microbit/__init__.py:83-110 | a frame is acted on exactly when it is a text frame holding a JSON object whose `message_name` is BUTTON_CHANGE; then `data` (default `{}`) goes to the button handler, or raises AttributeError when it is not an object |
| Microbit.MissingDataChangesNothing | microbit/__init__.py:107-108 | a BUTTON_CHANGE without `data` is handled as `{}` and changes no button |
| Microbit.OnlyButtonChangeActs | microbit/__init__.py:83-110 | a button changes only for a BUTTON_CHANGE object whose `data.id` names that button |
| Microbit.InitialPayloadMisreportsButtonB | microbit/__init__.py:77-81 | with A held and B released, the viewer reads B as held |
| Microbit.InitialPayloadReportsEachButton | microbit/__init__.py:77-81 | with the corrected payload a viewer reads each button's own state and the display snapshot |
| Microbit.AsWrittenAgreesOnlyWhenButtonsAgree | microbit/__init__.py:77-81 | the payload as written equals the corrected one exactly when both buttons are in the same pressed state |
| Microbit.InitialPayloadAsWritten | microbit/__init__.py:77-81 | the three INITIAL_DATA fields; `button_b` carries button A's pressed state, `display` the pixels and the flag |
| Microbit.InitialPayload | microbit/__init__.py:77-81 | the corrected INITIAL_DATA: each button field carries its own button's pressed state |
| Microbit.AsWrittenReadsButtonATwice | microbit/__init__.py:77-81 | the payload as written is the corrected payload with button A's state given for both buttons |
| Microbit.EnvelopesCarryMessages | microbit/__init__.py:19-27 | the i-th envelope a viewer receives during a redraw wraps the i-th display message's name and data |
| Microbit.Device.constructor | microbit/__init__.py:16-26 | two distinct new buttons, a new dark display that is on, and no viewers |
| Microbit.Device.Reset | microbit/__init__.py:30-33 | both buttons and the display back to their initial state with fresh pixels; nothing sent |
| Microbit.Device.OnButtonChange | microbit/__init__.py:45-62 | one edge on the selected button and none on the other; an unknown or missing id changes neither |
| Microbit.Device.OnMessage | microbit/__init__.py:83-110 | the buttons change exactly as the routing says; only a non-object `data` raises |
| Microbit.Device.SendMessage | microbit/__init__.py:19-21 | every registered viewer receives the envelope exactly once, and no one else receives anything |
| Microbit.Device.Publish | microbit/__init__.py:27 | a display message goes to every registered viewer as its envelope |
| Microbit.Device.PublishAll | microbit/__init__.py:19-27 | a sequence of display messages reaches every registered viewer as their envelopes, in order |
| Microbit.Device.PublishAdded | microbit/__init__.py:19-27 | the messages the display just added to its outbox reach every registered viewer as their envelopes, in order, and the display's grid, flag and outbox stay as they are |
| Microbit.Device.SetPixel | microbit/display.py:27-29 | `display.set_pixel` through the rebound broadcast: the same outcome and error as the display's, the same cell change on success and no change on an error, the on flag kept; on success every viewer receives the one DISPLAY_PIXELS envelope the display sent, on an error nothing |
| Microbit.Device.Clear | microbit/display.py:31-38 | `display.clear` through the rebound broadcast: a dark grid, the on flag kept, and every viewer receives the one all-dark DISPLAY_PIXELS envelope |
| Microbit.Device.Show | microbit/display.py:40-56 | `display.show` through the rebound broadcast: the grid ends at the last letter's frame (or dark when `clear` is set), the on flag kept, and every viewer receives the envelopes of the pass's messages, then the all-dark one when `clear` is set |
| Microbit.Device.Scroll | microbit/display.py:58-82 | `display.scroll` through the rebound broadcast: the grid ends dark, the on flag kept, and every viewer receives one envelope per window of the strip |
| Microbit.Device.SetOnOff | microbit/display.py:84-95 | `display.on` / `display.off` through the rebound broadcast: the flag is stored, the grid kept, and every viewer receives one DISPLAY_ON_OFF envelope carrying it |
| Microbit.Device.OnOpen | microbit/__init__.py:72-81 | registers the viewer and sends it one INITIAL_DATA, with the `button_b` field taken from button A |
| Microbit.Device.OnClose | microbit/__init__.py:112-118 | unregisters a registered viewer; an unregistered one raises KeyError and nothing changes |
| Microbit.ShowThenScroll | microbit/display.py:40-82 | `show` then `scroll` on the device: the outbox gains the pass's messages then the windows', and every viewer receives their envelopes in that order |
| Microbit.CloseThenBroadcast | microbit/__init__.py:112-118 | after a viewer closes, a broadcast reaches every remaining viewer and not the closed one |

## Left out

- Time is not modelled. This covers the `delay` sleeps in `show` and `scroll`, `sleep`, `running_time` and `_start_time`, which use the wall clock.
- `reset` also assigns `_start_time`, but to a local variable (microbit/__init__.py:34), so the module's clock is never reset. This has no effect on the state modelled here.
- `loop=True` in `show` and `scroll` repeats the same pass forever. `Displays.Display.ShowPass` and `Displays.Display.Scroll` model one pass, which is exactly what each repetition does.
- The `wait` keyword is read and never used. Images are not implemented in the source. `show` and `scroll` are modelled on text only; other iterables are not modelled.
- The WebSocket server is external I/O and concurrency: autobahn, asyncio, the event loop, the daemon thread, `onConnect` and the listening socket. A session's `sendMessage` is modelled as appending to `Session.wire`.
- JSON and UTF-8 encoding and decoding are not modelled. An inbound text frame is the already-parsed value, or `Malformed` when `json.loads` raises. An outbound message is the JSON object as a map.
- JSON numbers are modelled as integers only. Floats are not modelled.
- Displays.Display.GetPixel, Displays.Display.SetPixel: coordinates are integers. In Python a non-integer index raises `TypeError`, and `True`/`False` index as 1/0; these calls are not modelled.
- `print` logging is not modelled.
- Displays.Display.DrawGlyph: requires a full 5×5 frame. The source iterates over whatever glyph it is given, but `show` and `scroll` only ever pass it 5 columns of 5 cells.
- Displays.Display.SendMessage: records the message in the ghost outbox instead of calling the broadcast. The device-level redraws (`Microbit.Device.SetPixel`, `Clear`, `Show`, `Scroll`, `SetOnOff`) run the display operation and then broadcast the messages it added, in order. In the source each message goes out as soon as it is drawn, so the interleaving of drawing and sending within one redraw is not modelled; the messages and their order are.
- Microbit.Device.SendMessage: Python iterates the set in an unspecified order. The model picks sessions in an arbitrary order and states only the final wires.
- The columns of a converted glyph are lists of one-character strings in the source. They are modelled as strings.

## Findings

| source | as written | input that shows it | evidently intended | confidence | as-written member | corrected member |
|---|---|---|---|---|---|---|
| microbit/__init__.py:79 | `'button_b': button_a._get_initial_data()` | button A held and button B released when a viewer connects: the viewer is told B is held | `'button_b': button_b._get_initial_data()` | not executed | Microbit.InitialPayloadMisreportsButtonB | Microbit.InitialPayloadReportsEachButton |

`Microbit.Device.OnOpen` keeps the behaviour of the code as written. `Microbit.AsWrittenReadsButtonATwice` shows that what it sends equals `Microbit.InitialPayload`, the corrected payload, applied to button A's state for both buttons. `Microbit.AsWrittenAgreesOnlyWhenButtonsAgree` shows that the two differ exactly when the buttons differ.
