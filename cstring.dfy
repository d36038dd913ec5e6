/** NUL-terminated byte strings: the length of a C string is the index of its
    first NUL byte. */
module CString {
  import opened Cell

  /** A byte sequence holds a C string when a NUL byte occurs in it. */
  predicate Terminated(s: seq<Byte>)
  {
    0 in s
  }

  /** The length of the C string at the start of `s`: the index of the first
      NUL byte. */
  function Length(s: seq<Byte>): (n: nat)
    requires Terminated(s)
    ensures n < |s| && s[n] == 0
    ensures forall i :: 0 <= i < n ==> s[i] != 0
  {
    if s[0] == 0 then 0 else 1 + Length(s[1..])
  }

  /** A NUL byte with no NUL before it is where Length stops. */
  lemma LengthIsFirstNul(s: seq<Byte>, n: nat)
    requires n < |s| && s[n] == 0
    requires forall i :: 0 <= i < n ==> s[i] != 0
    ensures Length(s) == n
  {
  }

  /** `str_len`: count bytes up to the first NUL. */
  method StrLen(str: array<Byte>) returns (len: nat)
    requires Terminated(str[..])
    ensures len == Length(str[..])
  {
    len := 0;
    while str[len] != 0
      invariant len < str.Length
      invariant Terminated(str[len..])
      invariant forall i :: 0 <= i < len ==> str[i] != 0
      decreases str.Length - len
    {
      assert str[len..] == [str[len]] + str[len + 1..];
      len := len + 1;
    }
    LengthIsFirstNul(str[..], len);
  }

  /** The bytes of an ASCII text (every character below 256). */
  function Ascii(text: string): (bytes: seq<Byte>)
    requires forall i :: 0 <= i < |text| ==> text[i] as int < 0x100
    ensures |bytes| == |text|
    ensures forall i :: 0 <= i < |text| ==> bytes[i] == text[i] as int
  {
    seq(|text|, i requires 0 <= i < |text| => text[i] as int)
  }
}
