/** The UEFI vocabulary the driver works in: fixed-width integers, EFI_STATUS,
    and what gBS->LocateHandleBuffer hands back. Firmware services are not
    modelled; their results arrive as values of these types. */
module Efi {

  type byte = x: int | 0 <= x < 0x100
  type uint16 = x: int | 0 <= x < 0x1_0000
  type uint32 = x: int | 0 <= x < 0x1_0000_0000

  /** A bit mask, as the set of the positions of its one bits: `&` is
      intersection, `|` union, and a mask is zero when the set is empty. */
  type Mask = set<nat>

  datatype Option<+T> = None | Some(value: T)

  /** A warning code is non-zero: zero is EFI_SUCCESS. */
  type WarningCode = c: nat | c > 0 witness 1

  /** An EFI_STATUS: success, a warning (non-zero, high bit clear) or an error
      (high bit set). Only the class matters to the driver. */
  datatype Status = Success | Warning(warning: WarningCode) | Error(code: nat) {

    /** The EFI_ERROR() macro. */
    predicate IsError() {
      Error?
    }
  }

  /** EFI_UNSUPPORTED and EFI_NOT_FOUND, as error codes 3 and 14 of the UEFI specification. */
  const Unsupported: Status := Error(3)
  const NotFound: Status := Error(14)

  /** The outcome of LocateHandleBuffer(ByProtocol, ...): the matching handles
      in handle-database order, or a failure with its error code. */
  datatype HandleSearch<T> = Handles(found: seq<T>) | SearchFailed(code: nat) {

    /** At least one handle supports the protocol. */
    predicate Located() {
      Handles? && |found| > 0
    }
  }

  /** The status and handle list a caller of LocateHandleBuffer sees. The UEFI
      specification has the service return EFI_NOT_FOUND when no handle
      supports the protocol, so a non-error status always comes with at least
      one handle. */
  function LocateHandleBuffer<T>(search: HandleSearch<T>): (r: (Status, seq<T>))
    ensures !r.0.IsError() <==> |r.1| > 0
    ensures !r.0.IsError() <==> search.Located()
    ensures r.0.IsError() ==> r.1 == []
    ensures !r.0.IsError() ==> r.0 == Success && search == Handles(r.1)
  {
    match search
    case SearchFailed(code) => (Error(code), [])
    case Handles(found) => if |found| == 0 then (NotFound, []) else (Success, found)
  }
}
