/** Shared vocabulary of the firmware model: bytes, optional values, the ESP-IDF
    error codes the core compares against, and the C-string view of character
    buffers. */
module Common {

  /** One octet, the element type of the C `unsigned char` buffers. */
  type byte = x: int | 0 <= x < 256

  /** C `size_t` on the 32-bit target. */
  type SizeT = x: int | 0 <= x < 0x1_0000_0000

  datatype Option<+T> = None | Some(value: T)

  /** `esp_err_t` values the core distinguishes. Any non-zero code is a failure. */
  type EspErr = int
  const EspOk: EspErr := 0
  const EspFail: EspErr := -1

  /** HTTP status lines the handlers set. */
  const Http200 := 200
  const Http401 := 401
  const Http408 := 408
  const Http500 := 500

  const Nul: char := '\0'

  function Min(a: int, b: int): (m: int)
    ensures m <= a && m <= b
    ensures m == a || m == b
  {
    if a <= b then a else b
  }

  /** A character buffer holds a C string when no terminator appears inside it. */
  predicate NoNul(s: string) {
    forall i :: 0 <= i < |s| ==> s[i] != Nul
  }

  /** Every character fits in one C `char`. */
  predicate IsByteString(s: string) {
    forall i :: 0 <= i < |s| ==> s[i] as int < 256
  }

  /** The string a C routine such as `strcpy` sees in a buffer: everything
      before the first terminator. */
  function CString(s: string): (r: string)
    ensures |r| <= |s| && r == s[..|r|]
    ensures NoNul(r)
    ensures |r| < |s| ==> s[|r|] == Nul
  {
    if |s| == 0 || s[0] == Nul then [] else [s[0]] + CString(s[1..])
  }

  /** A string that holds no terminator is its own C string. */
  lemma CStringOfNoNul(s: string)
    ensures NoNul(s) ==> CString(s) == s
  {
  }

  lemma NoNulAppend(a: string, b: string)
    requires NoNul(a) && NoNul(b)
    ensures NoNul(a + b)
  {
  }
}
