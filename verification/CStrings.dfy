/** NUL-terminated strings in fixed buffers. */
module CStrings {
  import opened Prelude

  /** The bytes before the first NUL, or all of them. */
  function CStr(buf: Bytes): (s: Bytes)
    ensures s <= buf && 0 !in s
    ensures |s| < |buf| ==> buf[|s|] == 0
  {
    if buf == [] || buf[0] == 0 then [] else [buf[0]] + CStr(buf[1..])
  }

  /** A NUL-free prefix followed by a NUL is the string. */
  lemma {:induction false} CStrIs(buf: Bytes, s: Bytes)
    requires s <= buf && 0 !in s && (|s| < |buf| ==> buf[|s|] == 0)
    ensures CStr(buf) == s
  {
    if s != [] {
      assert buf[0] == s[0] && s[0] in s;
      CStrIs(buf[1..], s[1..]);
    }
  }

  /** Every NUL-free prefix of the buffer is a prefix of the string. */
  lemma {:induction false} CStrIsLongest(buf: Bytes, s: Bytes)
    requires s <= buf && 0 !in s
    ensures s <= CStr(buf)
  {
    if s != [] {
      assert buf[0] == s[0] && s[0] in s;
      CStrIsLongest(buf[1..], s[1..]);
      assert s == [s[0]] + s[1..];
    }
  }
}
