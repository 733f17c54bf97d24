/** Small shared vocabulary: optional values, bytes and C-string helpers. */
module Base {

  /** A value that may be absent (a PHP null, a C NULL pointer). */
  datatype Option<+T> = None | Some(value: T)

  /** One octet of a byte string. */
  type byte = x: int | 0 <= x < 256

  function Min(a: int, b: int): int
  {
    if a <= b then a else b
  }

  /** A string that a C `char *` can hold: no embedded terminator. */
  predicate NoNul(s: string)
  {
    forall i :: 0 <= i < |s| ==> s[i] != '\0'
  }

  /** The C string held by a buffer: everything before the first NUL, or the whole buffer. */
  function CText(b: string): (t: string)
    ensures NoNul(t) && t <= b
    ensures |t| < |b| ==> b[|t|] == '\0'
    decreases |b|
  {
    if b == [] || b[0] == '\0' then [] else [b[0]] + CText(b[1..])
  }
}
