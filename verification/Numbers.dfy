/** The integer types of the C code, the error codes of its conversions, and powers of ten. */
module Numbers {

  const INT_MAX := 0x7fff_ffff
  const INT_MIN := -0x8000_0000
  const UINT_MAX := 0xffff_ffff
  const LONG_MAX := 0x7fff_ffff
  const LONGLONG_MAX := 0x7fff_ffff_ffff_ffff
  const LONGLONG_MIN := -0x8000_0000_0000_0000
  const ULONGLONG_MAX := 0xffff_ffff_ffff_ffff

  /** No error, `MY_ERRNO_ERANGE` and `MY_ERRNO_EDOM`. */
  datatype Errno = NoError | Range | Domain

  lemma MulMonotone(a: int, b: int, c: int)
    requires a <= b && c >= 0
    ensures a * c <= b * c
  {
    assert (b - a) * c >= 0;
  }

  function Pow10(n: nat): (p: nat)
    ensures p > 0
  {
    if n == 0 then 1 else 10 * Pow10(n - 1)
  }
}
