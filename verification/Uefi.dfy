/** Firmware status codes. */
module Uefi {

  datatype Status =
    | OutOfResources | InvalidParameter | NotFound | BufferTooSmall | Unsupported
    | Aborted | DeviceError | SecurityViolation | OtherError(code: nat)
}
