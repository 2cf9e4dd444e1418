/** NUL-terminated byte strings, without the terminator. */
module CStrings {
  predicate IsCString(s: string) {
    forall i :: 0 <= i < |s| ==> 0 < s[i] as int < 256
  }

  type CString = s: string | IsCString(s)

  function Append(a: CString, b: CString): (c: CString)
    ensures c == a + b
  {
    a + b
  }

  // What a pointer to position i reads.
  function At(s: CString, i: nat): char
    requires i <= |s|
  {
    if i < |s| then s[i] else '\0'
  }

  // The text a character buffer holds: up to its first NUL.
  function Text(buffer: seq<char>): (s: seq<char>)
    ensures s <= buffer && forall i :: 0 <= i < |s| ==> s[i] != '\0'
  {
    if |buffer| == 0 || buffer[0] == '\0' then [] else [buffer[0]] + Text(buffer[1..])
  }

  lemma {:induction false} TextOfPrefix(buffer: seq<char>, n: nat)
    requires n < |buffer| && buffer[n] == '\0'
    requires forall i :: 0 <= i < n ==> buffer[i] != '\0'
    ensures Text(buffer) == buffer[..n]
  {
    if n > 0 {
      TextOfPrefix(buffer[1..], n - 1);
      assert buffer[..n] == [buffer[0]] + buffer[1..][..n - 1];
    }
  }
}
