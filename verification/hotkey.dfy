/** AppleEventKeyHandler: the callback an AppleEvent instance calls for every
    key-up event. It fires a capture for Left Control + Left Option + F12 and
    ignores everything else. */
module Hotkey {
  import opened Efi
  import opened WritableFs
  import opened Capture

  /** The AppleEvent constants the driver compiles against. AppleEventMin.h
      is not part of this model, so their values are parameters: the
      key-up event-type bit, the two modifier bits, and the minimum protocol
      revision the driver accepts. */
  datatype AppleAbi = AppleAbi(keyUp: Mask, leftControl: Mask, leftOption: Mask, revision: nat)

  /** SCAN_F12, as the UEFI specification numbers the function keys. */
  const ScanF12: uint16 := 0x16

  /** The EFI_SHIFT_STATE bits of the SimpleTextInEx keystroke, from the
      UEFI specification: the validity flag and the left Control and Alt keys. */
  const ShiftStateValid: Mask := {31}     // 0x80000000
  const LeftControlPressed: Mask := {3}   // 0x00000008
  const LeftAltPressed: Mask := {5}       // 0x00000020

  /** The KeyShiftState CrScreenshotDxeEntry registers with SimpleTextInEx. */
  const NotifyShiftState: Mask := ShiftStateValid + LeftControlPressed + LeftAltPressed

  /** The fields of APPLE_EVENT_INFORMATION the handler reads. */
  datatype AppleEventInformation = AppleEventInformation(eventType: Mask, scanCode: uint16, modifiers: Mask)

  /** The chord the handler waits for: exactly Left Control and Left Option held. */
  function Chord(abi: AppleAbi): Mask {
    abi.leftControl + abi.leftOption
  }

  /** The handler fires a capture for this (possibly NULL) information. */
  predicate Fires(abi: AppleAbi, information: Option<AppleEventInformation>) {
    && information.Some?
    && information.value.eventType * abi.keyUp != {}
    && information.value.scanCode == ScanF12
    && information.value.modifiers == Chord(abi)
  }

  /** The handler: the capture it runs, if any. The notify context plays no part. */
  function AppleEventKeyHandler(abi: AppleAbi, information: Option<AppleEventInformation>,
                                volumes: HandleSearch<Volume>, gops: HandleSearch<Device>): (r: Option<Screenshot>)
    ensures r == if Fires(abi, information) then Some(TakeScreenshot(volumes, gops)) else None
  {
    if information.None? || information.value.eventType * abi.keyUp == {} then None
    else if information.value.scanCode == ScanF12 && information.value.modifiers == Chord(abi) then
      Some(TakeScreenshot(volumes, gops))
    else None
  }

  /** NULL information, or an event without the key-up bit, has no effect. */
  lemma InvalidInformationIgnored(abi: AppleAbi, information: Option<AppleEventInformation>,
                                  volumes: HandleSearch<Volume>, gops: HandleSearch<Device>)
    requires information.None? || information.value.eventType * abi.keyUp == {}
    ensures AppleEventKeyHandler(abi, information, volumes, gops) == None
  {
  }

  /** Holding any modifier outside the chord as well means no capture: the
      match is on equality of the modifier mask, not on containment. */
  lemma ExtraModifierNeverFires(abi: AppleAbi, information: AppleEventInformation, extra: Mask,
                                volumes: HandleSearch<Volume>, gops: HandleSearch<Device>)
    requires extra * Chord(abi) == {} && extra != {}
    requires information.modifiers == Chord(abi) + extra
    ensures AppleEventKeyHandler(abi, Some(information), volumes, gops) == None
  {
    var bit :| bit in extra;
    assert bit !in extra * Chord(abi);
    assert bit in information.modifiers && bit !in Chord(abi);
  }

  /** Holding only part of the chord means no capture, when the two modifier
      bits are distinct. */
  lemma PartialChordNeverFires(abi: AppleAbi, information: AppleEventInformation,
                               volumes: HandleSearch<Volume>, gops: HandleSearch<Device>)
    requires abi.leftControl * abi.leftOption == {} && abi.leftControl != {} && abi.leftOption != {}
    requires information.modifiers == abi.leftControl || information.modifiers == abi.leftOption
    ensures AppleEventKeyHandler(abi, Some(information), volumes, gops) == None
  {
  }

  /** Another key with the chord held means no capture. */
  lemma OtherKeyNeverFires(abi: AppleAbi, information: AppleEventInformation,
                           volumes: HandleSearch<Volume>, gops: HandleSearch<Device>)
    requires information.scanCode != ScanF12
    ensures AppleEventKeyHandler(abi, Some(information), volumes, gops) == None
  {
  }

  /** A key-up of F12 with exactly the chord held takes one screenshot; the
      other bits of the event type do not matter. */
  lemma ChordFires(abi: AppleAbi, information: AppleEventInformation,
                   volumes: HandleSearch<Volume>, gops: HandleSearch<Device>)
    requires information.eventType * abi.keyUp != {}
    requires information.scanCode == ScanF12 && information.modifiers == Chord(abi)
    ensures AppleEventKeyHandler(abi, Some(information), volumes, gops) == Some(TakeScreenshot(volumes, gops))
  {
  }
}
