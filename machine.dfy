/** Machine-level types shared by the containers: the widths of C/C++ scalar
    types on the 64-bit Windows target, and the Win32 error codes the
    library reports through the thread's last-error slot. */
module Machine {

  /** An `unsigned char`, as used for buffer bytes and the VarChar length byte. */
  newtype byte = x: int | 0 <= x < 0x100

  /** A 16-bit `wchar_t` code unit (Windows). */
  newtype wchar = x: int | 0 <= x < 0x1_0000

  const SIZE_MAX: int := 0xFFFF_FFFF_FFFF_FFFF

  /** `std::size_t` on a 64-bit target. */
  type size_t = x: int | 0 <= x <= SIZE_MAX

  /** `unsigned int`, the type `GetSize` of VarChar computes in. */
  const UINT_MODULUS: int := 0x1_0000_0000

  /** Win32 error codes used by the modelled code. */
  const ERROR_ACCESS_DENIED: nat := 5
  const ERROR_NOT_ENOUGH_MEMORY: nat := 8
  const ERROR_OUTOFMEMORY: nat := 14
  const ERROR_NO_MORE_ITEMS: nat := 259

  datatype Option<+T> = None | Some(value: T)

  /** The outcome of a `void` operation that may throw (or fail with a
      last-error code): it either returns normally or reports `error`. */
  datatype Outcome<+E> = Pass | Fail(error: E)

  /** The outcome of an operation that returns a value or throws. */
  datatype Result<+T, +E> = Success(value: T) | Failure(error: E)
}
