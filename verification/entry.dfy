/** CrScreenshotDxeEntry: register the screenshot hotkey with every
    SimpleTextInEx instance, or, when there is none, with every AppleEvent
    instance of a recent enough revision; show White when at least one
    registration took. */
module Entry {
  import opened Efi
  import opened Trace
  import opened Hotkey

  /** A SimpleTextInEx handle: the statuses of HandleProtocol and RegisterKeyNotify. */
  datatype TextInInstance = TextInInstance(protocol: Status, registration: Status)

  /** An AppleEvent handle: the status of HandleProtocol, the Revision field
      of the interface, and the status of RegisterHandler. */
  datatype AppleEventInstance = AppleEventInstance(protocol: Status, revision: nat, registration: Status)

  predicate NotifyRegistered(instance: TextInInstance) {
    !instance.protocol.IsError() && !instance.registration.IsError()
  }

  /** An instance below the required revision is skipped before RegisterHandler is called. */
  predicate HandlerRegistered(abi: AppleAbi, instance: AppleEventInstance) {
    !instance.protocol.IsError() && instance.revision >= abi.revision && !instance.registration.IsError()
  }

  /** TakeScreenshot registered as the notify function for LCtrl+LAlt+F12 on instance `index`. */
  function KeyNotify(index: nat): Event {
    RegisterKeyNotify(index, ScanF12, NotifyShiftState)
  }

  /** AppleEventKeyHandler registered for key-up events on instance `index`. */
  function KeyUpHandler(abi: AppleAbi, index: nat): Event {
    RegisterHandler(index, abi.keyUp)
  }

  /** The SimpleTextInEx loop from instance i on: a failure of either call
      skips the instance and the loop goes on. */
  function RegisterKeyNotifies(instances: seq<TextInInstance>, i: nat): (events: seq<Event>)
    requires i <= |instances|
    ensures forall e :: e in events ==> e.RegisterKeyNotify? && i <= e.instance < |instances| && e == KeyNotify(e.instance)
    ensures forall j :: i <= j < |instances| ==> (KeyNotify(j) in events <==> NotifyRegistered(instances[j]))
    ensures Notifications(events) == []
    decreases |instances| - i
  {
    if i == |instances| then []
    else
      var here: seq<Event> := if NotifyRegistered(instances[i]) then [KeyNotify(i)] else [];
      var rest := RegisterKeyNotifies(instances, i + 1);
      assert Kinds(here) == if NotifyRegistered(instances[i]) then [Registers] else [];
      NotificationsAppend(here, rest);
      here + rest
  }

  /** The AppleEvent loop from instance i on: a HandleProtocol failure, an
      outdated revision or a RegisterHandler failure skips the instance. */
  function RegisterHandlers(abi: AppleAbi, instances: seq<AppleEventInstance>, i: nat): (events: seq<Event>)
    requires i <= |instances|
    ensures forall e :: e in events ==> e.RegisterHandler? && i <= e.instance < |instances| && e == KeyUpHandler(abi, e.instance)
    ensures forall j :: i <= j < |instances| ==> (KeyUpHandler(abi, j) in events <==> HandlerRegistered(abi, instances[j]))
    ensures Notifications(events) == []
    decreases |instances| - i
  {
    if i == |instances| then []
    else
      var here: seq<Event> := if HandlerRegistered(abi, instances[i]) then [KeyUpHandler(abi, i)] else [];
      var rest := RegisterHandlers(abi, instances, i + 1);
      assert Kinds(here) == if HandlerRegistered(abi, instances[i]) then [Registers] else [];
      NotificationsAppend(here, rest);
      here + rest
  }

  /** The driver's status, whether a hotkey is installed, and its events. */
  datatype Loaded = Loaded(status: Status, installed: bool, trace: seq<Event>)

  /** At least one registration succeeds, on the path the entry point takes:
      SimpleTextInEx when it is found, AppleEvent otherwise. */
  predicate SomeRegistration(abi: AppleAbi, textIn: HandleSearch<TextInInstance>,
                             apple: HandleSearch<AppleEventInstance>) {
    if textIn.Located() then
      exists j :: 0 <= j < |textIn.found| && NotifyRegistered(textIn.found[j])
    else
      apple.Located() && exists j :: 0 <= j < |apple.found| && HandlerRegistered(abi, apple.found[j])
  }

  /** After a loop: Installed is whether a registration took, and White is
      shown exactly then. */
  function Finish(registrations: seq<Event>): Loaded {
    var installed := |registrations| > 0;
    Loaded(Success, installed, registrations + if installed then [Show(White)] else [])
  }

  function CrScreenshotDxeEntry(abi: AppleAbi, textIn: HandleSearch<TextInInstance>,
                                apple: HandleSearch<AppleEventInstance>): (r: Loaded)
    ensures r.status == if !textIn.Located() && !apple.Located() then Unsupported else Success
    ensures r.installed <==> SomeRegistration(abi, textIn, apple)
    ensures Notifications(r.trace) == if r.installed then [White] else []
    ensures textIn.Located() ==> forall e :: e in r.trace ==> !e.RegisterHandler?
  {
    var (status, instances) := LocateHandleBuffer(textIn);
    if !status.IsError() then
      NotifiesFinish(instances);
      Finish(RegisterKeyNotifies(instances, 0))
    else
      var (appleStatus, handles) := LocateHandleBuffer(apple);
      if appleStatus.IsError() then Loaded(Unsupported, false, [])
      else
        HandlersFinish(abi, handles);
        Finish(RegisterHandlers(abi, handles, 0))
  }

  /** After the SimpleTextInEx loop the hotkey is installed exactly when an
      instance took the registration, White shows exactly then, and no
      AppleEvent handler is among the events. */
  lemma NotifiesFinish(instances: seq<TextInInstance>)
    ensures var r := Finish(RegisterKeyNotifies(instances, 0));
            && (r.installed <==> exists j :: 0 <= j < |instances| && NotifyRegistered(instances[j]))
            && Notifications(r.trace) == (if r.installed then [White] else [])
            && forall e :: e in r.trace ==> !e.RegisterHandler?
  {
    var events := RegisterKeyNotifies(instances, 0);
    assert |events| > 0 ==> KeyNotify(events[0].instance) in events;
    FinishNotifications(events);
  }

  /** After the AppleEvent loop the hotkey is installed exactly when an
      instance took the handler, and White shows exactly then. */
  lemma HandlersFinish(abi: AppleAbi, instances: seq<AppleEventInstance>)
    ensures var r := Finish(RegisterHandlers(abi, instances, 0));
            && (r.installed <==> exists j :: 0 <= j < |instances| && HandlerRegistered(abi, instances[j]))
            && Notifications(r.trace) == (if r.installed then [White] else [])
  {
    var events := RegisterHandlers(abi, instances, 0);
    assert |events| > 0 ==> KeyUpHandler(abi, events[0].instance) in events;
    FinishNotifications(events);
  }

  lemma FinishNotifications(registrations: seq<Event>)
    requires Notifications(registrations) == []
    ensures Notifications(Finish(registrations).trace) == if |registrations| > 0 then [White] else []
  {
    var white: seq<Event> := if |registrations| > 0 then [Show(White)] else [];
    assert Kinds(white) == if |registrations| > 0 then [Shows(White)] else [];
    NotificationsAppend(registrations, white);
  }

  /** AppleEvent is looked up only when SimpleTextInEx is not found: with
      SimpleTextInEx present, nothing about AppleEvent changes the result. */
  lemma AppleEventOnlyAsFallback(abi: AppleAbi, textIn: HandleSearch<TextInInstance>,
                                 apple: HandleSearch<AppleEventInstance>, other: HandleSearch<AppleEventInstance>)
    requires textIn.Located()
    ensures CrScreenshotDxeEntry(abi, textIn, apple) == CrScreenshotDxeEntry(abi, textIn, other)
  {
  }

  /** An AppleEvent instance below the required revision never gets the handler. */
  lemma OutdatedAppleEventSkipped(abi: AppleAbi, textIn: HandleSearch<TextInInstance>,
                                  apple: HandleSearch<AppleEventInstance>, j: nat)
    requires apple.Handles? && j < |apple.found|
    requires apple.found[j].revision < abi.revision
    ensures KeyUpHandler(abi, j) !in CrScreenshotDxeEntry(abi, textIn, apple).trace
  {
    var r := CrScreenshotDxeEntry(abi, textIn, apple);
    if !textIn.Located() && apple.Located() {
      var events := RegisterHandlers(abi, apple.found, 0);
      assert r.trace == events + if |events| > 0 then [Show(White)] else [];
    }
  }

  /** SimpleTextInEx found but every registration failing: the driver loads
      with EFI_SUCCESS, installs nothing and shows nothing. */
  lemma FoundButNothingRegistered(abi: AppleAbi, textIn: HandleSearch<TextInInstance>,
                                  apple: HandleSearch<AppleEventInstance>)
    requires textIn.Located()
    requires forall j :: 0 <= j < |textIn.found| ==> !NotifyRegistered(textIn.found[j])
    ensures CrScreenshotDxeEntry(abi, textIn, apple) == Loaded(Success, false, [])
  {
  }
}
