# CrScreenshotDxe in Dafny

CrScreenshotDxe is a UEFI DXE driver. It binds LCtrl+LAlt+F12 through SimpleTextInEx, or through Apple's AppleEvent protocol when there is no SimpleTextInEx. On that key it saves a PNG screenshot of every graphics output (GOP) device to the first writable volume. Each outcome is signalled by a small coloured square on screen:

- White: the hotkey is installed.
- Yellow: no writable volume.
- Blue: a pitch-black frame was skipped.
- Green: a file was written.
- Red: the last device failed.

This project models the driver's deterministic core with every firmware call replaced by its result. It proves what that core does with those results:

- `Efi`: EFI_STATUS, fixed-width integers, bit masks, and what LocateHandleBuffer hands back.
- `Pixels`: the pitch-black check, the in-place BGR→RGBA conversion, the bytes the encoder reads, and the UINT32 pixel count.
- `FileName`: the `%02d%02d%02d%02d.png` name and the `scrnshot.png` fallback. The name is printed into a 26-byte buffer, so it is cut to 12 characters.
- `Trace`: the events the driver causes (ShowStatus squares, file and buffer operations, registrations), with three measures on a trace:
  - `Notifications`: the squares shown, in order.
  - `Replay`: the buffers and open files held.
  - `FreesAll`: every buffer freed, with a given number of files left open.
- `WritableFs`: FindWritableFs, a first-match search over volumes in handle order. Every root directory that OpenVolume returns stays open: the driver never closes one.
- `Capture`: TakeScreenshot. Each device's firmware and encoder results are an oracle record (`GopDevice`). A `Device` is one whose captured frame holds the ImageSize pixels the code scans, ImageSize being width times height in UINT32 arithmetic. The per-device `do { … } while (0)` block is an early-exit state machine (`Attempt`). The loop over devices, the frees after each iteration and the final Red decision follow the code.
- `Hotkey`: AppleEventKeyHandler, the exact-match filter for the Apple key-up events.
- `Entry`: CrScreenshotDxeEntry, covering the SimpleTextInEx registration, the AppleEvent fallback, Installed and White.

Behaviour of the code worth knowing:

- AppleEvent is looked up only when locating SimpleTextInEx fails, so the two protocols are never registered together.
- `EFI_UNSUPPORTED` is returned only when both protocol lookups fail. If every registration fails the result is still `EFI_SUCCESS`, with nothing installed.
- There is no per-device failure square. A single Red square follows the loop, and only when the Status left by the last device is an error. An encoder failure does not set Status, so it never causes Red.
- A screen whose width times height is a multiple of 2^32, a zero resolution included, wraps ImageSize to 0. The black scan then sees no pixel and the device is skipped with Blue (`WrappedScreenLooksBlack`).
- Colour order of the written image. At the level of struct fields, the conversion puts the captured Blue into the Red field and the captured Red into the Blue field (`ConvertBgrToRgba`). The encoder, however, reads the buffer as bytes. EFI_GRAPHICS_OUTPUT_BLT_PIXEL lays out Blue, Green, Red, Reserved, so after the swap each pixel's bytes are the captured Red, Green, Blue and 0xFF (`EncoderSeesCapturedRgba`). The PNG therefore shows the screen's own colours. Both views are proved.

## Model

| member | source | states |
|---|---|---|
| Efi.LocateHandleBuffer | CrScreenshotDxe.c:188-192 | a non-error status comes with at least one handle, which is the whole list found; an error comes with none |
| Pixels.FindLitPixel | CrScreenshotDxe.c:235-239 | the scan stops at the first pixel with a non-zero colour channel; it runs to the end exactly when the frame is pitch black |
| Pixels.PitchBlackIgnoresReserved | CrScreenshotDxe.c:236 | frames that agree on Red, Green and Blue are pitch black together, whatever their Reserved bytes |
| Pixels.ConvertBgrToRgba | CrScreenshotDxe.c:253-258 | same length; each new Red is the old Blue, each new Blue the old Red, Green unchanged, Reserved 0xFF |
| Pixels.ConvertInPlace | CrScreenshotDxe.c:253-258 | the pixel-by-pixel in-place loop computes the whole-frame conversion |
| Pixels.ConvertTwiceRestoresColours | CrScreenshotDxe.c:253-258 | converting twice restores every colour channel and leaves every pixel opaque |
| Pixels.ConvertKeepsBlackness | CrScreenshotDxe.c:234-258 | a frame is pitch black after the conversion exactly when it was before |
| Pixels.Bytes | CrScreenshotDxe.c:261 | the buffer the encoder reads holds four bytes per pixel |
| Pixels.BytesOfPixel | CrScreenshotDxe.c:261 | pixel i sits at bytes 4i..4i+3 in Blue, Green, Red, Reserved order |
| Pixels.EncoderSeesCapturedRgba | CrScreenshotDxe.c:252-261 | after the conversion, bytes 4i..4i+3 are the captured pixel's Red, Green, Blue and 0xFF |
| Pixels.AreaIsProduct | CrScreenshotDxe.c:205-207 | the screen's area counted row by row is width times height |
| Pixels.PixelCount | CrScreenshotDxe.c:205-207 | the UINT32 ImageSize equals the screen's area when that fits in 32 bits and is smaller otherwise |
| Pixels.PixelCountWraps | CrScreenshotDxe.c:205-207 | ImageSize is width*height reduced modulo 2^32: equal to the product below 2^32, smaller from there on |
| FileName.Decimal | CrScreenshotDxe.c:213 | the `%d` digits of the number: they denote it, there is at least one, at least two from 10 and at least three from 100 |
| FileName.DecimalShape | CrScreenshotDxe.c:213 | the `%d` digits have no leading zero; a single digit exactly below 10, two from 10 to 99 and three from 100 to 999 |
| FileName.Pad2 | CrScreenshotDxe.c:213 | digits denoting the number; exactly the two digits n/10 and n%10 below 100, and the plain three `%d` digits from 100 to 999 |
| FileName.Truncate | CrScreenshotDxe.c:175-213 | at most 12 characters; a prefix of the input, equal to it when it fits |
| FileName.TimeDigits | CrScreenshotDxe.c:213 | eight to twelve digits; exactly eight, two per field, when every field is below 100, and more otherwise |
| FileName.ScreenshotName | CrScreenshotDxe.c:210-218 | `scrnshot.png` when GetTime fails; otherwise the truncated digits plus `.png`, which for two-digit fields is a 12-character name ending `.png` that parses back to the time |
| FileName.ParsesBack | CrScreenshotDxe.c:213 | the eight digits of a time whose fields are below 100, followed by `.png`, form a 12-character name that parses back to that time |
| FileName.ClockNameIsNotFallback | CrScreenshotDxe.c:210-218 | a clock-derived name starts with a digit and never equals the fallback name |
| FileName.WideFieldLosesExtension | CrScreenshotDxe.c:175-213 | a time field above 99 pushes `.png` partly out of the 12-character buffer |
| WritableFs.ProbeFailure | CrScreenshotDxe.c:62-80 | a volume failing the probe leaves the error of its first failing step |
| WritableFs.Probe | CrScreenshotDxe.c:57-87 | the first writable volume from i on, with Success, the roots opened up to it and then the test-file deletion; otherwise no volume is writable, every opened root is in the trace, and the status is that of the last probe |
| WritableFs.RootsOpenedMembers | CrScreenshotDxe.c:62-73 | a volume's root is among those opened exactly when its HandleProtocol and OpenVolume succeed and the probe reaches it |
| WritableFs.ProbeFacts | CrScreenshotDxe.c:57-87 | the probe shows no square, frees nothing it does not hold, and leaves open one root per opened volume up to the first writable one |
| WritableFs.FindWritableFs | CrScreenshotDxe.c:44-96 | non-error exactly when a volume is returned, which is the first writable one in handle order; a failed handle search returns its error; the events are the roots opened then the test-file deletion, no square is shown and the opened roots stay open |
| Capture.IterationEvents | CrScreenshotDxe.c:196-285 | the exact events of one device for each outcome: what is allocated, shown, opened, encoded, written, closed and freed, including the PngFile an encoder failure may leave behind |
| Capture.IterationShape | CrScreenshotDxe.c:196-285 | the kinds of a device's events follow the shape listed for its outcome |
| Capture.IterationFacts | CrScreenshotDxe.c:196-285 | per device: both buffers freed, every file closed except after an encoder failure, and exactly Green for a written file, Blue for a black frame, nothing else |
| Capture.IterationStatus | CrScreenshotDxe.c:196-277 | Status is left an error exactly when a firmware step failed; a black frame and an encoder failure leave it non-error |
| Capture.BlackFrameSkipped | CrScreenshotDxe.c:234-243 | a pitch-black frame shows Blue, opens and writes nothing, and leaves Status non-error |
| Capture.EncodeFailureKeepsStatus | CrScreenshotDxe.c:261-265 | an encoder failure keeps Fs->Open's status, leaves one file open and frees any PngFile the encoder left |
| Capture.WriteFailureClosesFile | CrScreenshotDxe.c:268-273 | a failed write still closes the file, and its error is the status left |
| Capture.EncoderReceivesRgba | CrScreenshotDxe.c:205-261 | the encoder is called with the device's width and height and 4·ImageSize bytes, which is 4·width·height below 2^32 pixels on a 64-bit UINTN, with each captured pixel as Red, Green, Blue, 0xFF |
| Capture.WrappedScreenLooksBlack | CrScreenshotDxe.c:205-243 | a pixel count that is a multiple of 2^32 makes ImageSize 0, so the device shows Blue and writes nothing |
| Capture.EncoderInputSize | CrScreenshotDxe.c:205-228 | the encoder gets width*height RGBA quadruples below 2^32 pixels, and fewer once the product wraps |
| Capture.NoticesCount | CrScreenshotDxe.c:241-276 | one Green per written file, one Blue per black frame, no other colour from the devices |
| Capture.CaptureLoop | CrScreenshotDxe.c:195-286 | the loop keeps the entry Status when there is no device, frees every buffer, leaves open only files abandoned by encoder failures, and shows the devices' squares in handle order |
| Capture.LoopStatus | CrScreenshotDxe.c:195-286 | the loop leaves the Status of the last device's attempt, whatever earlier devices left |
| Capture.CaptureLoopIsolation | CrScreenshotDxe.c:195-286 | the loop's events are every device's own events in handle order, independent of the Status earlier devices left |
| Capture.TakeScreenshot | CrScreenshotDxe.c:157-293 | always EFI_SUCCESS; exactly Yellow after the search without a writable volume; otherwise each device's square, then Red exactly when the last device failed; every buffer freed, and the only handles left open are the volume roots and the files of encoder failures |
| Capture.NoWritableVolume | CrScreenshotDxe.c:179-185 | without a writable volume the search's events are followed only by Yellow, whatever the graphics devices, and only the roots stay open |
| Capture.EarlierFailuresForgotten | CrScreenshotDxe.c:288-290 | when the last device wrote its file, skipped a black frame or failed to encode, no Red appears whatever earlier devices did |
| Capture.UniformFrameWritten | CrScreenshotDxe.c:157-293 | after the search, one uniform lit frame with no clock is allocated, opened as `scrnshot.png` and encoded as 4·ImageSize bytes (4·width·height below 2^32 pixels on a 64-bit UINTN), every pixel as its captured Red, Green, Blue, 0xFF, and only Green is shown |
| Capture.NotificationCounts | CrScreenshotDxe.c:179-292 | Red at most once and last, Yellow at most once, Green once per written file, never White |
| Hotkey.AppleEventKeyHandler | CrScreenshotDxe.c:295-316 | fires exactly for non-NULL key-up information with F12 and exactly the two modifiers, and then runs TakeScreenshot |
| Hotkey.InvalidInformationIgnored | CrScreenshotDxe.c:305-308 | NULL information or an event without the key-up bit has no effect |
| Hotkey.ExtraModifierNeverFires | CrScreenshotDxe.c:311-312 | any modifier bit beyond the chord prevents the capture |
| Hotkey.PartialChordNeverFires | CrScreenshotDxe.c:311-312 | only one of the two modifiers held prevents the capture |
| Hotkey.OtherKeyNeverFires | CrScreenshotDxe.c:311 | a key other than F12 prevents the capture |
| Hotkey.ChordFires | CrScreenshotDxe.c:311-315 | key-up of F12 with exactly the chord takes one screenshot |
| Entry.RegisterKeyNotifies | CrScreenshotDxe.c:346-367 | instance j gets the F12 keystroke notification exactly when both its calls succeed; failures are skipped; nothing is shown |
| Entry.RegisterHandlers | CrScreenshotDxe.c:378-406 | instance j gets the key-up handler exactly when HandleProtocol succeeds, its revision is recent enough, and RegisterHandler succeeds |
| Entry.CrScreenshotDxeEntry | CrScreenshotDxe.c:318-420 | EFI_UNSUPPORTED exactly when both lookups fail, else EFI_SUCCESS; Installed exactly when a registration took on the path taken; White shown exactly when installed; no AppleEvent handler when SimpleTextInEx is found |
| Entry.NotifiesFinish | CrScreenshotDxe.c:344-417 | after the SimpleTextInEx loop the hotkey is installed exactly when some instance took the notification, White shows exactly then, and no AppleEvent handler is registered |
| Entry.HandlersFinish | CrScreenshotDxe.c:376-417 | after the AppleEvent loop the hotkey is installed exactly when some instance took the handler, and White shows exactly then |
| Entry.FinishNotifications | CrScreenshotDxe.c:414-417 | White is appended exactly when some registration took |
| Entry.AppleEventOnlyAsFallback | CrScreenshotDxe.c:342-371 | with SimpleTextInEx found, the AppleEvent situation does not change the result |
| Entry.OutdatedAppleEventSkipped | CrScreenshotDxe.c:387-392 | an AppleEvent instance below the required revision never gets the handler |
| Entry.FoundButNothingRegistered | CrScreenshotDxe.c:344-419 | SimpleTextInEx found but every registration failing gives EFI_SUCCESS, not installed, no events |

## Left out

- Firmware services: LocateHandleBuffer, HandleProtocol, AllocatePool, FreePool, GetTime, Blt, and file Open/Write/Close/Delete. They are I/O, so their results are inputs (`Volume`, `GopDevice`, `TextInInstance`, `AppleEventInstance`, `HandleSearch`). An empty handle list is treated as EFI_NOT_FOUND, as the UEFI specification defines.
- The PNG encoder lodepng_encode32 and lodepng_free: a foreign library. Each device's encoder result is an input: the bytes, or a non-zero error code with whether PngFile was left non-NULL.
- ShowStatus mechanics (the 5×5 blit, backup and restore, the 500 ms stall): screen I/O and timing. Each call is one `Show(colour)` event, named by its colour rather than its (R, G, B) arguments.
- DEBUG logging, the handle buffers TakeScreenshot never frees, and the FreePool of handle buffers: side effects with no bearing on the modelled outcomes.
- The values in AppleEventMin.h (the key-up bit, the modifier bits, the protocol revision): that header is not part of this model, so they are the parameters `AppleAbi`. SCAN_F12 and the EFI shift-state bits take their UEFI specification values.
- Bit masks are sets of bit positions (`Efi.Mask`), so `&` is intersection and `|` is union. The 16- and 32-bit widths are not enforced.
- Hotkey.AppleEventKeyHandler: the handler dereferences Information->KeyData without a NULL check. The model takes the scan code as part of the information and does not model a NULL KeyData.
- Capture.TakeScreenshot: the EFI_KEY_DATA argument is ignored by the code and absent from the model.
- Capture.EncoderInputSize: when width*height reaches 2^32, Blt and the encoder overrun the wrapped-size buffer. The model states only that the buffer is smaller than the screen; what the overrun does is not modelled.
- Capture.EncoderReceivesRgba: the model assumes a 64-bit UINTN. The AllocatePool size at CrScreenshotDxe.c:221 is `ImageSize * sizeof(EFI_GRAPHICS_OUTPUT_BLT_PIXEL)` in UINTN. With a 32-bit UINTN (IA32 firmware) it wraps once ImageSize reaches 2^30 pixels: 32768 by 32768 asks for 0 bytes. The scan, the conversion and the encoder then run past the allocation. That overrun is not modelled, so the promise of 4·width·height bytes below 2^32 pixels holds only on a 64-bit build.
- Reentrancy or overlapping hotkey callbacks: event-dispatch concurrency, outside the sequential core.
