/** The observable effects of the driver, as a trace of events: status
    squares, file operations, buffer allocations and frees, and hotkey
    registrations. */
module Trace {
  import opened Efi

  /** The colour of a ShowStatus square. */
  datatype Colour = White | Yellow | Blue | Green | Red

  /** The result of lodepng_encode32: the PNG bytes, or its non-zero error
      code together with whether *out was still left pointing at a buffer. */
  type PngErrorCode = c: nat | c > 0 witness 1

  datatype PngResult = Png(bytes: seq<byte>) | PngError(code: PngErrorCode, buffer: bool) {

    /** PngFile is non-NULL after the call. */
    predicate Allocated() {
      Png? || buffer
    }
  }

  datatype Event =
    | Show(colour: Colour)                     // ShowStatus
    | OpenRoot(volume: nat)                    // SimpleFs->OpenVolume succeeded: a root directory handle
    | DeleteTestFile(volume: nat)              // Fs->Delete of crsdtest.fil
    | AllocFrame                               // AllocatePool for the screenshot succeeded
    | FreeFrame                                // FreePool(Image)
    | OpenFile(volume: nat, name: string)      // Fs->Open of the output file succeeded
    | Encode(rgba: seq<byte>, width: uint32, height: uint32, result: PngResult)  // lodepng_encode32
    | WriteFile(png: seq<byte>)                // File->Write
    | CloseFile                                // File->Close
    | FreePng                                  // lodepng_free(PngFile)
    | RegisterKeyNotify(instance: nat, scanCode: uint16, shiftState: Mask)  // SimpleTextInEx->RegisterKeyNotify succeeded
    | RegisterHandler(instance: nat, eventType: Mask)                      // AppleEvent->RegisterHandler succeeded

  /** An event without its payload: what it does, not with what data. */
  datatype Kind =
    | Shows(colour: Colour)
    | DeletesTestFile
    | AllocatesFrame
    | FreesFrame
    | OpensFile                                // a root directory or an output file
    | Encodes(buffer: bool)
    | Writes
    | ClosesFile
    | FreesPng
    | Registers

  function KindOf(e: Event): Kind {
    match e
    case Show(c) => Shows(c)
    case OpenRoot(_) => OpensFile
    case DeleteTestFile(_) => DeletesTestFile
    case AllocFrame => AllocatesFrame
    case FreeFrame => FreesFrame
    case OpenFile(_, _) => OpensFile
    case Encode(_, _, _, result) => Encodes(result.Allocated())
    case WriteFile(_) => Writes
    case CloseFile => ClosesFile
    case FreePng => FreesPng
    case RegisterKeyNotify(_, _, _) => Registers
    case RegisterHandler(_, _) => Registers
  }

  function Kinds(trace: seq<Event>): (ks: seq<Kind>)
    ensures |ks| == |trace|
  {
    seq(|trace|, i requires 0 <= i < |trace| => KindOf(trace[i]))
  }

  lemma KindsAppend(a: seq<Event>, b: seq<Event>)
    ensures Kinds(a + b) == Kinds(a) + Kinds(b)
  {
  }

  /** The colours of the status squares among a sequence of kinds, in order. */
  function ColoursOf(ks: seq<Kind>): (cs: seq<Colour>)
    ensures |cs| <= |ks|
  {
    if |ks| == 0 then []
    else (if ks[0].Shows? then [ks[0].colour] else []) + ColoursOf(ks[1..])
  }

  lemma {:induction false} ColoursOfAppend(a: seq<Kind>, b: seq<Kind>)
    ensures ColoursOf(a + b) == ColoursOf(a) + ColoursOf(b)
  {
    if |a| == 0 {
      assert a + b == b;
    } else {
      assert (a + b)[0] == a[0];
      assert (a + b)[1..] == a[1..] + b;
      ColoursOfAppend(a[1..], b);
    }
  }

  /** The ShowStatus calls of a trace: the colours shown, in order. */
  function Notifications(trace: seq<Event>): seq<Colour> {
    ColoursOf(Kinds(trace))
  }

  lemma NotificationsAppend(a: seq<Event>, b: seq<Event>)
    ensures Notifications(a + b) == Notifications(a) + Notifications(b)
  {
    KindsAppend(a, b);
    ColoursOfAppend(Kinds(a), Kinds(b));
  }

  /** What the driver holds: the frame (Image), the encoded PNG (PngFile),
      and the number of file handles (volume roots and output files) opened
      and not closed. */
  datatype Buffers = Buffers(frame: bool, png: bool, openFiles: nat)

  const NoBuffers := Buffers(false, false, 0)

  /** Replays allocations, frees, opens and closes from what is held. None
      means a buffer was allocated while already held (the old one leaks),
      or something was freed or closed that was not held. An encode that
      leaves PngFile non-NULL allocates the PNG buffer. */
  function Replay(ks: seq<Kind>, held: Buffers): Option<Buffers> {
    if |ks| == 0 then Some(held)
    else
      match ks[0]
      case AllocatesFrame => if held.frame then None else Replay(ks[1..], held.(frame := true))
      case FreesFrame => if !held.frame then None else Replay(ks[1..], held.(frame := false))
      case Encodes(buffer) =>
        if !buffer then Replay(ks[1..], held)
        else if held.png then None else Replay(ks[1..], held.(png := true))
      case FreesPng => if !held.png then None else Replay(ks[1..], held.(png := false))
      case OpensFile => Replay(ks[1..], held.(openFiles := held.openFiles + 1))
      case ClosesFile => if held.openFiles == 0 then None else Replay(ks[1..], held.(openFiles := held.openFiles - 1))
      case _ => Replay(ks[1..], held)
  }

  /** Replaying a concatenation is replaying its parts in turn. */
  lemma {:induction false} ReplayAppend(a: seq<Kind>, b: seq<Kind>, held: Buffers)
    ensures Replay(a + b, held) ==
              match Replay(a, held)
              case None => None
              case Some(mid) => Replay(b, mid)
  {
    if |a| > 0 {
      assert (a + b)[0] == a[0];
      assert (a + b)[1..] == a[1..] + b;
      match a[0]
      case AllocatesFrame => ReplayAppend(a[1..], b, held.(frame := true));
      case FreesFrame => ReplayAppend(a[1..], b, held.(frame := false));
      case Encodes(buffer) =>
        if buffer {
          ReplayAppend(a[1..], b, held.(png := true));
        } else {
          ReplayAppend(a[1..], b, held);
        }
      case FreesPng => ReplayAppend(a[1..], b, held.(png := false));
      case OpensFile => ReplayAppend(a[1..], b, held.(openFiles := held.openFiles + 1));
      case ClosesFile =>
        if held.openFiles > 0 {
          ReplayAppend(a[1..], b, held.(openFiles := held.openFiles - 1));
        }
      case _ => ReplayAppend(a[1..], b, held);
    } else {
      assert a + b == b;
    }
  }

  /** Files left open earlier stay open and do not disturb a replay that
      succeeds without them. */
  lemma {:induction false} ReplayWithOpenFiles(ks: seq<Kind>, held: Buffers, n: nat)
    requires Replay(ks, held).Some?
    ensures Replay(ks, held.(openFiles := held.openFiles + n)) ==
              Some(Replay(ks, held).value.(openFiles := Replay(ks, held).value.openFiles + n))
  {
    if |ks| > 0 {
      match ks[0]
      case AllocatesFrame => ReplayWithOpenFiles(ks[1..], held.(frame := true), n);
      case FreesFrame => ReplayWithOpenFiles(ks[1..], held.(frame := false), n);
      case Encodes(buffer) =>
        if buffer {
          ReplayWithOpenFiles(ks[1..], held.(png := true), n);
        } else {
          ReplayWithOpenFiles(ks[1..], held, n);
        }
      case FreesPng => ReplayWithOpenFiles(ks[1..], held.(png := false), n);
      case OpensFile => ReplayWithOpenFiles(ks[1..], held.(openFiles := held.openFiles + 1), n);
      case ClosesFile =>
        ReplayWithOpenFiles(ks[1..], held.(openFiles := held.openFiles - 1), n);
      case _ => ReplayWithOpenFiles(ks[1..], held, n);
    }
  }

  /** What a trace leaves behind, started with nothing held; None when it
      frees or closes something it does not hold or allocates twice. */
  function Leftover(trace: seq<Event>): Option<Buffers> {
    Replay(Kinds(trace), NoBuffers)
  }

  /** Both buffers freed at the end, leaving only the given number of files open. */
  predicate FreesAll(trace: seq<Event>, unclosed: nat) {
    Leftover(trace) == Some(Buffers(false, false, unclosed))
  }

  /** Leftovers add up over a concatenation. */
  lemma FreesAllAppend(a: seq<Event>, b: seq<Event>, m: nat, n: nat)
    requires FreesAll(a, m) && FreesAll(b, n)
    ensures FreesAll(a + b, m + n)
  {
    KindsAppend(a, b);
    ReplayAppend(Kinds(a), Kinds(b), NoBuffers);
    ReplayWithOpenFiles(Kinds(b), NoBuffers, m);
    assert NoBuffers.(openFiles := NoBuffers.openFiles + m) == Buffers(false, false, m);
  }
}
