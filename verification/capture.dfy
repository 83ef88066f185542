/** TakeScreenshot: find a writable volume, then for every graphics output
    device capture the screen, skip a pitch-black frame, convert BGR to RGBA,
    encode it as PNG and write it out, showing a coloured square for the
    outcome. Every firmware call is replaced by its result, read from an
    oracle per device. */
module Capture {
  import opened Efi
  import opened Pixels
  import opened FileName
  import opened Trace
  import opened WritableFs

  /** What the firmware and the encoder return for one graphics output
      handle, in the order TakeScreenshot asks. `frame` is the content of the
      ImageSize-pixel buffer after a successful Blt. */
  datatype GopDevice = GopDevice(
    protocol: Status,         // HandleProtocol(GraphicsOutput)
    width: uint32,            // Mode->Info->HorizontalResolution
    height: uint32,           // Mode->Info->VerticalResolution
    timeStatus: Status,       // gRT->GetTime
    time: Time,
    allocation: Status,       // AllocatePool for the frame
    blt: Status,              // Blt(EfiBltVideoToBltBuffer)
    frame: seq<Pixel>,
    open: Status,             // Fs->Open of the output file
    png: PngResult,           // lodepng_encode32
    write: Status)            // File->Write

  /** Where a device's attempt ends, read off the oracle in the order of the checks. */
  datatype Outcome =
    | NoProtocol | NoMemory | BltFailed | Black | OpenFailed | EncodeFailed | WriteFailed | Written
  {
    /** The outcomes that leave an error in Status. */
    predicate LeavesError() {
      this in {NoProtocol, NoMemory, BltFailed, OpenFailed, WriteFailed}
    }
  }

  function OutcomeOf(d: GopDevice): Outcome {
    if d.protocol.IsError() then NoProtocol
    else if d.allocation.IsError() then NoMemory
    else if d.blt.IsError() then BltFailed
    else if PitchBlack(d.frame) then Black
    else if d.open.IsError() then OpenFailed
    else if d.png.PngError? then EncodeFailed
    else if d.write.IsError() then WriteFailed
    else Written
  }

  /** The state when the `do { ... } while (0)` block is left: the Status
      variable, the events so far, and whether Image and PngFile are non-NULL. */
  datatype Exit = Exit(status: Status, trace: seq<Event>, frame: bool, png: bool)

  /** The body of the do-while block for one device, writing to volume `fs`. */
  function Attempt(fs: nat, d: GopDevice): Exit {
    if d.protocol.IsError() then Exit(d.protocol, [], false, false)
    // GetTime's status is overwritten by AllocatePool's before anyone reads it
    else if d.allocation.IsError() then Exit(d.allocation, [], false, false)
    else if d.blt.IsError() then Exit(d.blt, [AllocFrame], true, false)
    else if PitchBlack(d.frame) then Exit(d.blt, [AllocFrame, Show(Blue)], true, false)
    else if d.open.IsError() then Exit(d.open, [AllocFrame], true, false)
    else
      var started := [AllocFrame, OpenFile(fs, ScreenshotName(d.timeStatus, d.time)),
                     Encode(Bytes(ConvertBgrToRgba(d.frame)), d.width, d.height, d.png)];
      match d.png
      // an encoder failure leaves Status as Fs->Open set it and the file open;
      // PngFile is freed afterwards if the encoder left it non-NULL
      case PngError(_, buffer) => Exit(d.open, started, true, buffer)
      case Png(bytes) =>
        var written := started + [WriteFile(bytes), CloseFile];
        if d.write.IsError() then Exit(d.write, written, true, true)
        else Exit(d.write, written + [Show(Green)], true, true)
  }

  /** The events that free what is held, then both pointers are reset to NULL. */
  function Release(exit: Exit): seq<Event> {
    (if exit.frame then [FreeFrame] else []) + (if exit.png then [FreePng] else [])
  }

  /** One turn of the `for` loop: the do-while block, then the frees; its
      Status and its events. */
  function Iteration(fs: nat, d: GopDevice): (Status, seq<Event>) {
    var exit := Attempt(fs, d);
    (exit.status, exit.trace + Release(exit))
  }

  /** The name the device's file gets and the bytes the encoder receives. */
  function NameOf(d: GopDevice): string {
    ScreenshotName(d.timeStatus, d.time)
  }

  function EncodeCall(d: GopDevice): Event {
    Encode(Bytes(ConvertBgrToRgba(d.frame)), d.width, d.height, d.png)
  }

  /** The events of one device, outcome by outcome: what is allocated, shown,
      opened, encoded, written, closed and freed, in order. */
  lemma IterationEvents(fs: nat, d: GopDevice)
    ensures OutcomeOf(d) in {NoProtocol, NoMemory} ==> Iteration(fs, d).1 == []
    ensures OutcomeOf(d) in {BltFailed, OpenFailed} ==> Iteration(fs, d).1 == [AllocFrame, FreeFrame]
    ensures OutcomeOf(d) == Black ==> Iteration(fs, d).1 == [AllocFrame, Show(Blue), FreeFrame]
    ensures OutcomeOf(d) == EncodeFailed && !d.png.buffer ==>
              Iteration(fs, d).1 == [AllocFrame, OpenFile(fs, NameOf(d)), EncodeCall(d), FreeFrame]
    ensures OutcomeOf(d) == EncodeFailed && d.png.buffer ==>
              Iteration(fs, d).1 == [AllocFrame, OpenFile(fs, NameOf(d)), EncodeCall(d), FreeFrame, FreePng]
    ensures OutcomeOf(d) == WriteFailed ==>
              Iteration(fs, d).1 == [AllocFrame, OpenFile(fs, NameOf(d)), EncodeCall(d),
                                     WriteFile(d.png.bytes), CloseFile, FreeFrame, FreePng]
    ensures OutcomeOf(d) == Written ==>
              Iteration(fs, d).1 == [AllocFrame, OpenFile(fs, NameOf(d)), EncodeCall(d),
                                     WriteFile(d.png.bytes), CloseFile, Show(Green), FreeFrame, FreePng]
  {
  }

  /** The kinds of event each outcome produces, in order: an independent
      description of the do-while block and the frees after it. */
  const NothingHeld: seq<Kind> := []
  const FrameOnly: seq<Kind> := [AllocatesFrame, FreesFrame]
  const BlackFrame: seq<Kind> := [AllocatesFrame, Shows(Blue), FreesFrame]
  const AbandonedFile: seq<Kind> := [AllocatesFrame, OpensFile, Encodes(false), FreesFrame]
  const AbandonedFileAndPng: seq<Kind> := [AllocatesFrame, OpensFile, Encodes(true), FreesFrame, FreesPng]
  const FailedWrite: seq<Kind> :=
    [AllocatesFrame, OpensFile, Encodes(true), Writes, ClosesFile, FreesFrame, FreesPng]
  const SavedFile: seq<Kind> :=
    [AllocatesFrame, OpensFile, Encodes(true), Writes, ClosesFile, Shows(Green), FreesFrame, FreesPng]

  /** The shape of an outcome; `pngLeft` says whether a failed encode left
      PngFile non-NULL, and matters for EncodeFailed alone. */
  function Shape(o: Outcome, pngLeft: bool): seq<Kind> {
    match o
    case NoProtocol => NothingHeld
    case NoMemory => NothingHeld
    case BltFailed => FrameOnly
    case Black => BlackFrame
    case OpenFailed => FrameOnly
    case EncodeFailed => if pngLeft then AbandonedFileAndPng else AbandonedFile
    case WriteFailed => FailedWrite
    case Written => SavedFile
  }

  /** One device's events follow the shape of its outcome. */
  lemma IterationShape(fs: nat, d: GopDevice)
    ensures Kinds(Iteration(fs, d).1) == Shape(OutcomeOf(d), d.png.Allocated())
  {
    match OutcomeOf(d)
    case EncodeFailed => AbandonedShape(fs, d);
    case WriteFailed => WroteShape(fs, d);
    case Written => WroteShape(fs, d);
    case _ => IterationEvents(fs, d);
  }

  /** The kinds of an encoder failure's events. */
  lemma AbandonedShape(fs: nat, d: GopDevice)
    requires OutcomeOf(d) == EncodeFailed
    ensures Kinds(Iteration(fs, d).1) == Shape(EncodeFailed, d.png.Allocated())
  {
    IterationEvents(fs, d);
    assert KindOf(EncodeCall(d)) == Encodes(d.png.buffer);
  }

  /** The kinds of the events of a device whose PNG reached Write. */
  lemma WroteShape(fs: nat, d: GopDevice)
    requires OutcomeOf(d) in {WriteFailed, Written}
    ensures Kinds(Iteration(fs, d).1) == Shape(OutcomeOf(d), d.png.Allocated())
  {
    IterationEvents(fs, d);
    WroteKinds(fs, NameOf(d), EncodeCall(d), d.png.bytes);
  }

  lemma WroteKinds(fs: nat, name: string, e: Event, bytes: seq<byte>)
    requires e.Encode? && e.result.Png?
    ensures Kinds([AllocFrame, OpenFile(fs, name), e, WriteFile(bytes), CloseFile, FreeFrame, FreePng])
              == FailedWrite
    ensures Kinds([AllocFrame, OpenFile(fs, name), e, WriteFile(bytes), CloseFile, Show(Green), FreeFrame, FreePng])
              == SavedFile
  {
    KindsPointwise([AllocFrame, OpenFile(fs, name), e, WriteFile(bytes), CloseFile, FreeFrame, FreePng],
                   FailedWrite);
    KindsPointwise([AllocFrame, OpenFile(fs, name), e, WriteFile(bytes), CloseFile, Show(Green), FreeFrame, FreePng],
                   SavedFile);
  }

  lemma KindsPointwise(t: seq<Event>, ks: seq<Kind>)
    requires |t| == |ks| && forall i :: 0 <= i < |t| ==> KindOf(t[i]) == ks[i]
    ensures Kinds(t) == ks
  {
  }

  /** The status square a device's attempt shows: Green for a written
      file, Blue for a skipped black frame, none otherwise. */
  function Notice(o: Outcome): seq<Colour> {
    if o == Written then [Green] else if o == Black then [Blue] else []
  }

  /** The files a device's attempt leaves open: the one an encoder failure abandons. */
  function LeftOpen(o: Outcome): nat {
    if o == EncodeFailed then 1 else 0
  }

  /** What one device's events promise, given how its attempt ended: the
      frame and the PNG buffer are freed if they were allocated, nothing is
      freed twice, every file opened is closed except after an encoder
      failure, and the squares shown are those of Notice. */
  predicate DeviceFacts(t: seq<Event>, o: Outcome) {
    FreesAll(t, LeftOpen(o)) && Notifications(t) == Notice(o)
  }

  lemma NothingHeldFacts()
    ensures Replay(NothingHeld, NoBuffers) == Some(Buffers(false, false, 0))
    ensures ColoursOf(NothingHeld) == []
  {
  }

  lemma FrameOnlyFacts()
    ensures Replay(FrameOnly, NoBuffers) == Some(Buffers(false, false, 0))
    ensures ColoursOf(FrameOnly) == []
  {
  }

  lemma BlackFrameFacts()
    ensures Replay(BlackFrame, NoBuffers) == Some(Buffers(false, false, 0))
    ensures ColoursOf(BlackFrame) == [Blue]
  {
  }

  lemma AbandonedFileFacts()
    ensures Replay(AbandonedFile, NoBuffers) == Some(Buffers(false, false, 1))
    ensures ColoursOf(AbandonedFile) == []
  {
  }

  lemma AbandonedFileAndPngFacts()
    ensures Replay(AbandonedFileAndPng, NoBuffers) == Some(Buffers(false, false, 1))
    ensures ColoursOf(AbandonedFileAndPng) == []
  {
  }

  lemma FailedWriteFacts()
    ensures Replay(FailedWrite, NoBuffers) == Some(Buffers(false, false, 0))
    ensures ColoursOf(FailedWrite) == []
  {
  }

  lemma SavedFileFacts()
    ensures Replay(SavedFile, NoBuffers) == Some(Buffers(false, false, 0))
    ensures ColoursOf(SavedFile) == [Green]
  {
  }

  /** Every trace of an outcome's shape keeps the promises of that outcome. */
  lemma ShapeFacts(t: seq<Event>, o: Outcome, pngLeft: bool)
    requires Kinds(t) == Shape(o, pngLeft)
    ensures DeviceFacts(t, o)
  {
    match o
    case NoProtocol => NothingHeldFacts();
    case NoMemory => NothingHeldFacts();
    case BltFailed => FrameOnlyFacts();
    case OpenFailed => FrameOnlyFacts();
    case Black => BlackFrameFacts();
    case EncodeFailed => AbandonedFileFacts(); AbandonedFileAndPngFacts();
    case WriteFailed => FailedWriteFacts();
    case Written => SavedFileFacts();
  }

  /** One device's events keep every promise of DeviceFacts. */
  lemma IterationFacts(fs: nat, d: GopDevice)
    ensures DeviceFacts(Iteration(fs, d).1, OutcomeOf(d))
  {
    IterationShape(fs, d);
    ShapeFacts(Iteration(fs, d).1, OutcomeOf(d), d.png.Allocated());
  }

  /** Status is left an error exactly by a failed firmware step; a black
      frame and an encoder failure leave it as it was. */
  lemma IterationStatus(fs: nat, d: GopDevice)
    ensures Iteration(fs, d).0.IsError() <==> OutcomeOf(d).LeavesError()
  {
  }

  /** A pitch-black frame shows Blue, opens and writes nothing, and leaves
      Status as the successful Blt set it, so it causes no Red by itself. */
  lemma BlackFrameSkipped(fs: nat, d: GopDevice)
    requires !d.protocol.IsError() && !d.allocation.IsError() && !d.blt.IsError()
    requires PitchBlack(d.frame)
    ensures Iteration(fs, d) == (d.blt, [AllocFrame, Show(Blue), FreeFrame])
    ensures !Iteration(fs, d).0.IsError()
  {
    var exit := Attempt(fs, d);
    assert exit == Exit(d.blt, [AllocFrame, Show(Blue)], true, false);
    assert Release(exit) == [FreeFrame];
    assert [AllocFrame, Show(Blue)] + [FreeFrame] == [AllocFrame, Show(Blue), FreeFrame];
  }

  /** An encoder failure leaves Status as Fs->Open set it, a non-error, and
      the output file open. */
  lemma EncodeFailureKeepsStatus(fs: nat, d: GopDevice)
    requires OutcomeOf(d) == EncodeFailed
    ensures Iteration(fs, d).0 == d.open && !Iteration(fs, d).0.IsError()
    ensures FreesAll(Iteration(fs, d).1, 1)
  {
    IterationFacts(fs, d);
  }

  /** A failed File->Write still closes the file before the block is left,
      and its error is the Status the iteration leaves. */
  lemma WriteFailureClosesFile(fs: nat, d: GopDevice)
    requires OutcomeOf(d) == WriteFailed
    ensures CloseFile in Iteration(fs, d).1
    ensures Iteration(fs, d).0 == d.write && d.write.IsError()
    ensures FreesAll(Iteration(fs, d).1, 0)
  {
    IterationEvents(fs, d);
    IterationFacts(fs, d);
  }

  /** The encoder receives the converted frame with the device's width and
      height: four bytes for each of the ImageSize pixels, the captured
      pixel's Red, Green, Blue and an opaque alpha. */
  lemma EncoderReceivesRgba(fs: nat, d: Device, i: nat)
    requires OutcomeOf(d) in {EncodeFailed, WriteFailed, Written}
    requires i < PixelCount(d.width, d.height) as int
    ensures var t := Iteration(fs, d).1;
            && |t| > 2 && t[2].Encode?
            && t[2].width == d.width && t[2].height == d.height
            && |t[2].rgba| == 4 * PixelCount(d.width, d.height) as int
            && (Area(d.width, d.height) < 0x1_0000_0000 ==> |t[2].rgba| == 4 * Area(d.width, d.height))
            && t[2].rgba[4 * i .. 4 * i + 4] == [d.frame[i].red, d.frame[i].green, d.frame[i].blue, 0xFF]
  {
    EncodeIsThird(fs, d);
    EncoderSeesCapturedRgba(d.frame, i);
  }

  /** Once the output file is open, the third event of the device is the call to the encoder. */
  lemma EncodeIsThird(fs: nat, d: GopDevice)
    requires OutcomeOf(d) in {EncodeFailed, WriteFailed, Written}
    ensures |Iteration(fs, d).1| > 2 && Iteration(fs, d).1[2] == EncodeCall(d)
  {
    IterationEvents(fs, d);
  }

  /** The frame holds ImageSize pixels: ScreenWidth * ScreenHeight in UINT32 arithmetic. */
  predicate FrameFits(d: GopDevice) {
    |d.frame| == PixelCount(d.width, d.height) as int
  }

  /** A graphics output device as TakeScreenshot meets it: the frame it
      scans, converts and encodes holds the ImageSize pixels it scans. */
  type Device = d: GopDevice | FrameFits(d)
    witness GopDevice(Success, 0, 0, Success, Time(0, 0, 0, 0), Success, Success, [], Success, Png([]), Success)

  /** A screen whose pixel count is a multiple of 2^32 (65536 by 65536, or a
      zero resolution) wraps ImageSize to 0: the black scan sees no pixel, so
      the device is skipped as pitch black whatever the screen shows. */
  lemma WrappedScreenLooksBlack(fs: nat, d: Device)
    requires !d.protocol.IsError() && !d.allocation.IsError() && !d.blt.IsError()
    requires (d.width * d.height) % 0x1_0000_0000 == 0
    ensures OutcomeOf(d) == Black
    ensures Iteration(fs, d) == (d.blt, [AllocFrame, Show(Blue), FreeFrame])
  {
    PixelCountWraps(d.width, d.height);
    assert |d.frame| == 0;
    BlackFrameSkipped(fs, d);
  }

  /** For a screen of fewer than 2^32 pixels the encoder gets exactly
      width * height RGBA quadruples; for a larger one the product wraps
      and the buffer is smaller than the screen Blt and the encoder read. */
  lemma EncoderInputSize(d: Device)
    ensures d.width * d.height < 0x1_0000_0000 ==> |Bytes(ConvertBgrToRgba(d.frame))| == 4 * d.width * d.height
    ensures d.width * d.height >= 0x1_0000_0000 ==> |Bytes(ConvertBgrToRgba(d.frame))| < 4 * d.width * d.height
  {
    PixelCountWraps(d.width, d.height);
  }

  /** How many devices end in the given outcome. */
  function CountOutcome(devices: seq<GopDevice>, o: Outcome): nat {
    if |devices| == 0 then 0
    else (if OutcomeOf(devices[0]) == o then 1 else 0) + CountOutcome(devices[1..], o)
  }

  /** The status squares of the devices' attempts, in handle order. */
  function Notices(devices: seq<GopDevice>): seq<Colour> {
    if |devices| == 0 then [] else Notice(OutcomeOf(devices[0])) + Notices(devices[1..])
  }

  /** One Green per device whose file was written, one Blue per black
      frame, and no other colour. */
  lemma {:induction false} NoticesCount(devices: seq<GopDevice>)
    ensures multiset(Notices(devices))[Green] == CountOutcome(devices, Written)
    ensures multiset(Notices(devices))[Blue] == CountOutcome(devices, Black)
    ensures Red !in Notices(devices) && Yellow !in Notices(devices) && White !in Notices(devices)
  {
    if |devices| > 0 {
      NoticesCount(devices[1..]);
    }
  }

  /** The `for` loop over the devices, entered with the given Status. */
  function CaptureLoop(fs: nat, devices: seq<GopDevice>, status: Status): (r: (Status, seq<Event>))
    ensures |devices| == 0 ==> r == (status, [])
    ensures FreesAll(r.1, CountOutcome(devices, EncodeFailed))
    ensures Notifications(r.1) == Notices(devices)
    decreases |devices|
  {
    if |devices| == 0 then (status, [])
    else
      var first := Iteration(fs, devices[0]);
      var rest := CaptureLoop(fs, devices[1..], first.0);
      IterationFacts(fs, devices[0]);
      DeviceThen(first.1, rest.1, OutcomeOf(devices[0]), CountOutcome(devices[1..], EncodeFailed));
      (rest.0, first.1 + rest.1)
  }

  /** The loop leaves the Status of the last device's attempt. */
  lemma {:induction false} LoopStatus(fs: nat, devices: seq<GopDevice>, status: Status)
    requires |devices| > 0
    ensures CaptureLoop(fs, devices, status).0 == Iteration(fs, devices[|devices| - 1]).0
    decreases |devices|
  {
    if |devices| > 1 {
      LoopStatus(fs, devices[1..], Iteration(fs, devices[0]).0);
      assert devices[1..][|devices[1..]| - 1] == devices[|devices| - 1];
    }
  }

  /** One device's events followed by the rest of the loop's: the open files add up and the squares follow each other. */
  lemma DeviceThen(t: seq<Event>, rest: seq<Event>, o: Outcome, n: nat)
    requires DeviceFacts(t, o) && FreesAll(rest, n)
    ensures FreesAll(t + rest, LeftOpen(o) + n)
    ensures Notifications(t + rest) == Notice(o) + Notifications(rest)
  {
    FreesAllAppend(t, rest, LeftOpen(o), n);
    NotificationsAppend(t, rest);
  }

  /** The concatenation of a sequence of traces. */
  function Flatten(traces: seq<seq<Event>>): seq<Event> {
    if |traces| == 0 then [] else traces[0] + Flatten(traces[1..])
  }

  /** Per-device isolation: the loop's trace is each device's own trace in
      handle order, every device attempted, and what a device does depends on
      that device alone, not on the Status earlier devices left. */
  lemma {:induction false} CaptureLoopIsolation(fs: nat, devices: seq<GopDevice>, status: Status)
    ensures CaptureLoop(fs, devices, status).1 ==
            Flatten(seq(|devices|, i requires 0 <= i < |devices| => Iteration(fs, devices[i]).1))
  {
    var traces := seq(|devices|, i requires 0 <= i < |devices| => Iteration(fs, devices[i]).1);
    if |devices| > 0 {
      var first := Iteration(fs, devices[0]);
      CaptureLoopIsolation(fs, devices[1..], first.0);
      assert traces[1..] == seq(|devices[1..]|, i requires 0 <= i < |devices[1..]| => Iteration(fs, devices[1..][i]).1);
    }
  }

  datatype Screenshot = Screenshot(result: Status, trace: seq<Event>)

  /** The devices a graphics output search hands to the loop: none when it fails. */
  function Devices(gops: HandleSearch<Device>): seq<Device> {
    if gops.Handles? then gops.found else []
  }

  /** The graphics output devices a capture runs over: none unless a
      writable volume was found and the search for devices succeeded. */
  function Captured(volumes: HandleSearch<Volume>, gops: HandleSearch<Device>): seq<Device> {
    if !FindWritableFs(volumes).status.IsError() then Devices(gops) else []
  }

  /** There is a last device, and its attempt left an error in Status. */
  predicate LastFailed(devices: seq<GopDevice>) {
    |devices| > 0 && OutcomeOf(devices[|devices| - 1]).LeavesError()
  }

  /** The capture ends in Red exactly when the loop ran and the last
      device's attempt left an error in Status. */
  predicate EndsInRed(volumes: HandleSearch<Volume>, gops: HandleSearch<Device>) {
    LastFailed(Captured(volumes, gops))
  }

  /** The status squares a capture shows, in order: Yellow alone without a
      writable volume; otherwise each device's square, then Red when the
      last device failed. */
  function ExpectedNotifications(volumes: HandleSearch<Volume>, gops: HandleSearch<Device>): seq<Colour> {
    if FindWritableFs(volumes).status.IsError() then [Yellow]
    else Notices(Captured(volumes, gops)) + (if EndsInRed(volumes, gops) then [Red] else [])
  }

  /** What TakeScreenshot does once volume `fs` is found: the graphics
      output search, the loop over its devices, and the final Red. */
  function CaptureDevices(fs: nat, gops: HandleSearch<Device>): (t: seq<Event>)
    ensures FreesAll(t, CountOutcome(Devices(gops), EncodeFailed))
    ensures Notifications(t) == Notices(Devices(gops)) + (if LastFailed(Devices(gops)) then [Red] else [])
  {
    var (status, devices) := LocateHandleBuffer(gops);
    if status.IsError() then
      assert Kinds([]) == [];
      []
    else
      var loop := CaptureLoop(fs, devices, status);
      LoopStatus(fs, devices, status);
      IterationStatus(fs, devices[|devices| - 1]);
      RedIfFailed(loop.1, CountOutcome(devices, EncodeFailed), loop.0.IsError());
      loop.1 + (if loop.0.IsError() then [Show(Red)] else [])
  }

  /** Red appended when it is due frees and closes nothing and is the last square. */
  lemma RedIfFailed(loop: seq<Event>, n: nat, red: bool)
    requires FreesAll(loop, n)
    ensures var t := loop + (if red then [Show(Red)] else []);
            && FreesAll(t, n)
            && Notifications(t) == Notifications(loop) + (if red then [Red] else [])
  {
    if red {
      AppendSquare(loop, n, Red);
    } else {
      assert loop + [] == loop;
    }
  }

  /** TakeScreenshot, given what the volume search and the graphics output
      search find. The key data it is called with plays no part. */
  function TakeScreenshot(volumes: HandleSearch<Volume>, gops: HandleSearch<Device>): (r: Screenshot)
    ensures r.result == Success
    ensures FindWritableFs(volumes).status.IsError() ==> r.trace == FindWritableFs(volumes).trace + [Show(Yellow)]
    ensures FreesAll(r.trace, RootsLeft(volumes) + CountOutcome(Captured(volumes, gops), EncodeFailed))
    ensures Notifications(r.trace) == ExpectedNotifications(volumes, gops)
  {
    var search := FindWritableFs(volumes);
    if search.status.IsError() then
      WithoutVolume(volumes, gops);
      Screenshot(Success, search.trace + [Show(Yellow)])
    else
      WithVolumeFrees(volumes, gops);
      WithVolumeNotifies(volumes, gops);
      Screenshot(Success, search.trace + CaptureDevices(search.fs.value, gops))
  }

  /** The Yellow path of TakeScreenshot keeps the promised buffers, files and squares. */
  lemma WithoutVolume(volumes: HandleSearch<Volume>, gops: HandleSearch<Device>)
    requires FindWritableFs(volumes).status.IsError()
    ensures var t := FindWritableFs(volumes).trace + [Show(Yellow)];
            && FreesAll(t, RootsLeft(volumes) + CountOutcome(Captured(volumes, gops), EncodeFailed))
            && Notifications(t) == ExpectedNotifications(volumes, gops)
  {
    AppendSquare(FindWritableFs(volumes).trace, RootsLeft(volumes), Yellow);
  }

  /** The capturing path of TakeScreenshot frees both buffers of every
      attempt and leaves open the probed roots and the encoder failures' files. */
  lemma WithVolumeFrees(volumes: HandleSearch<Volume>, gops: HandleSearch<Device>)
    requires !FindWritableFs(volumes).status.IsError()
    ensures var search := FindWritableFs(volumes);
            FreesAll(search.trace + CaptureDevices(search.fs.value, gops),
                     RootsLeft(volumes) + CountOutcome(Captured(volumes, gops), EncodeFailed))
  {
    var search := FindWritableFs(volumes);
    assert Captured(volumes, gops) == Devices(gops);
    CaptureAfter(search.trace, RootsLeft(volumes), search.fs.value, gops,
                 CountOutcome(Captured(volumes, gops), EncodeFailed));
  }

  /** Capturing after a quiet trace adds the encoder failures' files to those
      it left open. Stated apart from the volume search, whose own contract
      would otherwise be in scope of this step. */
  lemma CaptureAfter(quiet: seq<Event>, m: nat, fs: nat, gops: HandleSearch<Device>, n: nat)
    requires FreesAll(quiet, m) && Notifications(quiet) == []
    requires n == CountOutcome(Devices(gops), EncodeFailed)
    ensures FreesAll(quiet + CaptureDevices(fs, gops), m + n)
  {
    QuietThen(quiet, CaptureDevices(fs, gops), m, n);
  }

  /** The capturing path of TakeScreenshot shows the squares promised. */
  lemma WithVolumeNotifies(volumes: HandleSearch<Volume>, gops: HandleSearch<Device>)
    requires !FindWritableFs(volumes).status.IsError()
    ensures var search := FindWritableFs(volumes);
            Notifications(search.trace + CaptureDevices(search.fs.value, gops))
              == ExpectedNotifications(volumes, gops)
  {
    var search := FindWritableFs(volumes);
    var devices := Devices(gops);
    var rest := CaptureDevices(search.fs.value, gops);
    var notes := Notices(devices) + (if LastFailed(devices) then [Red] else []);
    assert Captured(volumes, gops) == devices;
    assert ExpectedNotifications(volumes, gops) == notes;
    assert Notifications(rest) == notes;
    QuietThen(search.trace, rest, RootsLeft(volumes), CountOutcome(devices, EncodeFailed));
  }

  /** A quiet trace followed by another one: the open files add up and the squares are the second's. */
  lemma QuietThen(quiet: seq<Event>, rest: seq<Event>, m: nat, n: nat)
    requires FreesAll(quiet, m) && Notifications(quiet) == [] && FreesAll(rest, n)
    ensures FreesAll(quiet + rest, m + n)
    ensures Notifications(quiet + rest) == Notifications(rest)
  {
    FreesAllAppend(quiet, rest, m, n);
    NotificationsAppend(quiet, rest);
  }

  /** A status square at the end of a trace frees and closes nothing. */
  lemma AppendSquare(t: seq<Event>, n: nat, c: Colour)
    requires FreesAll(t, n)
    ensures FreesAll(t + [Show(c)], n)
    ensures Notifications(t + [Show(c)]) == Notifications(t) + [c]
  {
    assert Kinds([Show(c)]) == [Shows(c)];
    assert Replay([Shows(c)], NoBuffers) == Some(NoBuffers);
    FreesAllAppend(t, [Show(c)], n, 0);
    NotificationsAppend(t, [Show(c)]);
  }

  /** Without a writable volume the capture shows Yellow once and stops:
      no graphics device is looked at, no file is written, and only the
      roots the probe opened stay open. */
  lemma NoWritableVolume(volumes: HandleSearch<Volume>, gops: HandleSearch<Device>,
                         other: HandleSearch<Device>)
    requires FindWritableFs(volumes).status.IsError()
    ensures TakeScreenshot(volumes, gops) == TakeScreenshot(volumes, other)
    ensures TakeScreenshot(volumes, gops).trace == FindWritableFs(volumes).trace + [Show(Yellow)]
    ensures Notifications(TakeScreenshot(volumes, gops).trace) == [Yellow]
    ensures FreesAll(TakeScreenshot(volumes, gops).trace, RootsLeft(volumes))
  {
    var s := FindWritableFs(volumes).trace;
    AppendSquare(s, RootsLeft(volumes), Yellow);
    assert Notifications(s) == [];
  }

  /** Only the last device decides Red: whatever earlier devices did, a
      last device that wrote its file, or skipped a black frame, leaves no Red. */
  lemma EarlierFailuresForgotten(volumes: HandleSearch<Volume>, gops: HandleSearch<Device>)
    requires !FindWritableFs(volumes).status.IsError() && gops.Located()
    requires OutcomeOf(gops.found[|gops.found| - 1]) in {Written, Black, EncodeFailed}
    ensures Red !in Notifications(TakeScreenshot(volumes, gops).trace)
  {
    assert Captured(volumes, gops) == gops.found;
    assert !EndsInRed(volumes, gops);
    NoticesCount(gops.found);
    assert ExpectedNotifications(volumes, gops) == Notices(gops.found) + [];
  }

  /** One device with a uniform lit frame and no clock: after the volume
      search, the frame is allocated, the file gets the fallback name, the
      encoder receives width * height pixels (ImageSize once it wraps), each
      as the captured Red, Green, Blue and an opaque alpha, and Green is the
      only square shown. */
  lemma UniformFrameWritten(volumes: HandleSearch<Volume>, d: Device, c: Pixel)
    requires !FindWritableFs(volumes).status.IsError()
    requires d.timeStatus.IsError() && OutcomeOf(d) == Written
    requires forall i :: 0 <= i < |d.frame| ==> d.frame[i] == c
    ensures var s := FindWritableFs(volumes).trace;
            var t := TakeScreenshot(volumes, Handles([d])).trace;
            var k := FindWritableFs(volumes).fs.value;
            && |t| == |s| + 8
            && t[..|s|] == s
            && t[|s|..|s| + 2] == [AllocFrame, OpenFile(k, FallbackName)]
            && t[|s| + 2].Encode?
            && |t[|s| + 2].rgba| == 4 * PixelCount(d.width, d.height) as int
            && (Area(d.width, d.height) < 0x1_0000_0000 ==> |t[|s| + 2].rgba| == 4 * Area(d.width, d.height))
            && (forall i :: 0 <= i < PixelCount(d.width, d.height) as int ==>
                  t[|s| + 2].rgba[4 * i .. 4 * i + 4] == [c.red, c.green, c.blue, 0xFF])
            && Notifications(t) == [Green]
  {
    var k := FindWritableFs(volumes).fs.value;
    var s := FindWritableFs(volumes).trace;
    OneDeviceTrace(volumes, d);
    UniformIteration(k, d, c);
    IterationFacts(k, d);
    AfterQuiet(s, Iteration(k, d).1, k);
    PixelCountWraps(d.width, d.height);
  }

  /** A write's eight events after a quiet trace: they keep their order and Green stays the only square. */
  lemma AfterQuiet(s: seq<Event>, it: seq<Event>, k: nat)
    requires Notifications(s) == [] && Notifications(it) == [Green]
    requires |it| == 8 && it[..2] == [AllocFrame, OpenFile(k, FallbackName)]
    ensures var t := s + it;
            && |t| == |s| + 8
            && t[..|s|] == s
            && t[|s|..|s| + 2] == [AllocFrame, OpenFile(k, FallbackName)]
            && t[|s| + 2] == it[2]
            && Notifications(t) == [Green]
  {
    NotificationsAppend(s, it);
    assert (s + it)[|s|..|s| + 2] == it[..2];
  }

  /** With a writable volume and one device whose attempt leaves no error,
      the capture's events are the search's followed by the device's. */
  lemma OneDeviceTrace(volumes: HandleSearch<Volume>, d: Device)
    requires !FindWritableFs(volumes).status.IsError()
    requires !OutcomeOf(d).LeavesError()
    ensures TakeScreenshot(volumes, Handles([d])).trace ==
              FindWritableFs(volumes).trace + Iteration(FindWritableFs(volumes).fs.value, d).1
  {
    var k := FindWritableFs(volumes).fs.value;
    IterationStatus(k, d);
    assert CaptureLoop(k, [d], Success).1 == Iteration(k, d).1 + [];
    assert CaptureDevices(k, Handles([d])) == Iteration(k, d).1 + [];
  }

  /** The events of the one device of UniformFrameWritten. */
  lemma UniformIteration(k: nat, d: Device, c: Pixel)
    requires d.timeStatus.IsError() && OutcomeOf(d) == Written
    requires forall i :: 0 <= i < |d.frame| ==> d.frame[i] == c
    ensures var t := Iteration(k, d).1;
            && |t| == 8
            && t[..2] == [AllocFrame, OpenFile(k, FallbackName)]
            && t[2].Encode?
            && |t[2].rgba| == 4 * |d.frame|
            && (forall i :: 0 <= i < |d.frame| ==> t[2].rgba[4 * i .. 4 * i + 4] == [c.red, c.green, c.blue, 0xFF])
  {
    IterationEvents(k, d);
    assert Iteration(k, d).1[2] == EncodeCall(d);
    UniformBytes(d.frame, c);
  }

  /** A frame of one colour reaches the encoder as that colour's Red, Green, Blue and 0xFF, pixel after pixel. */
  lemma UniformBytes(frame: seq<Pixel>, c: Pixel)
    requires forall i :: 0 <= i < |frame| ==> frame[i] == c
    ensures var rgba := Bytes(ConvertBgrToRgba(frame));
            forall i :: 0 <= i < |frame| ==> rgba[4 * i .. 4 * i + 4] == [c.red, c.green, c.blue, 0xFF]
  {
    var rgba := Bytes(ConvertBgrToRgba(frame));
    forall i | 0 <= i < |frame|
      ensures rgba[4 * i .. 4 * i + 4] == [c.red, c.green, c.blue, 0xFF]
    {
      EncoderSeesCapturedRgba(frame, i);
    }
  }

  /** Red is shown at most once, and only as the last square; Yellow at most
      once; Green once per file written. */
  lemma NotificationCounts(volumes: HandleSearch<Volume>, gops: HandleSearch<Device>)
    ensures var shown := Notifications(TakeScreenshot(volumes, gops).trace);
            && multiset(shown)[Red] <= 1
            && (Red in shown ==> shown[|shown| - 1] == Red)
            && multiset(shown)[Yellow] <= 1
            && multiset(shown)[Green] == CountOutcome(Captured(volumes, gops), Written)
            && White !in shown
  {
    ExpectedCounts(volumes, gops);
  }

  /** The counts of NotificationCounts, read off the expected squares. */
  lemma ExpectedCounts(volumes: HandleSearch<Volume>, gops: HandleSearch<Device>)
    ensures var shown := ExpectedNotifications(volumes, gops);
            && multiset(shown)[Red] <= 1
            && (Red in shown ==> shown[|shown| - 1] == Red)
            && multiset(shown)[Yellow] <= 1
            && multiset(shown)[Green] == CountOutcome(Captured(volumes, gops), Written)
            && White !in shown
  {
    var devices := Captured(volumes, gops);
    NoticesCount(devices);
    if !FindWritableFs(volumes).status.IsError() {
      assert ExpectedNotifications(volumes, gops)
          == Notices(devices) + (if EndsInRed(volumes, gops) then [Red] else []);
      RedLast(Notices(devices), EndsInRed(volumes, gops));
    } else {
      assert devices == [];
    }
  }

  /** Red, when appended to squares without Red, Yellow or White, is the only Red and the last square. */
  lemma RedLast(notes: seq<Colour>, red: bool)
    requires Red !in notes && Yellow !in notes && White !in notes
    ensures var shown := notes + (if red then [Red] else []);
            && multiset(shown)[Red] <= 1
            && (Red in shown ==> shown[|shown| - 1] == Red)
            && multiset(shown)[Yellow] == 0
            && multiset(shown)[Green] == multiset(notes)[Green]
            && White !in shown
  {
    var shown := notes + (if red then [Red] else []);
    assert multiset(shown) == multiset(notes) + multiset(if red then [Red] else []);
  }
}
