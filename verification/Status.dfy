/** The EFI status codes the modelled code returns or tests. */
module EfiStatus {

  /** Every value but `Success` is an error, as EFI_ERROR reads it. */
  datatype Status =
    | Success
    | InvalidParameter
    | Unsupported
    | BadBufferSize
    | DeviceError
    | WriteProtected
    | OutOfResources
    | NoMedia
    | MediaChanged
    | NotFound
    | AccessDenied
    | Timeout
    | ProtocolError
    | VolumeCorrupted
    | Other(code: nat)
  {
    predicate Failed() {
      !Success?
    }
  }
}
