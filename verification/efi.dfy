/** UEFI status codes as the update library returns them, turned into a
    result type: `Success(v)` stands for `EFI_SUCCESS` together with the values
    the C code writes through its out-parameters, `Failure(e)` for an error
    `EFI_STATUS`.
 */
module Efi {

  /** The error statuses the library distinguishes; any other error a
      collaborator reports is carried through unchanged as `OtherError`. */
  datatype EfiError =
    | InvalidParameter
    | NotFound
    | OtherError(code: nat)

  datatype Result<+T> = Success(value: T) | Failure(error: EfiError)

  /** A pointer that may be NULL. */
  datatype Option<+T> = None | Some(value: T)
}
