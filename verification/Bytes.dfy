/** Machine bytes and the C-string vocabulary shared by the whole model. */
module Bytes {
  type byte = b: int | 0 <= b < 256

  const NUL: byte := 0
  const NEWLINE: byte := 10
  const RETURN: byte := 13
  const SPACE: byte := 32
  const DOT: byte := 46

  const TWO_TO_THE_32 := 0x1_0000_0000

  /** `s` is the NUL-terminated string stored in `m` from index `at` on. */
  ghost predicate IsCString(m: seq<byte>, at: nat, s: seq<byte>) {
    && at + |s| < |m|
    && m[at + |s|] == NUL
    && NUL !in s
    && forall k :: at <= k < at + |s| ==> m[k] == s[k - at]
  }

  /** The scan that every C string routine relies on: the NUL is met exactly at the end. */
  lemma CStringScan(m: seq<byte>, at: nat, s: seq<byte>, k: nat)
    requires IsCString(m, at, s) && k <= |s|
    ensures m[at + k] == NUL <==> k == |s|
    ensures k < |s| ==> m[at + k] == s[k]
  {
    if k < |s| {
      assert m[at + k] == s[k] && s[k] in s;
    }
  }

  /** strlen: the number of bytes before the first NUL at or after `at`. */
  method Strlen(m: array<byte>, at: nat, ghost s: seq<byte>) returns (len: nat)
    requires IsCString(m[..], at, s)
    ensures len == |s|
  {
    len := 0;
    CStringScan(m[..], at, s, 0);
    while m[at + len] != NUL
      invariant len <= |s|
      invariant m[at + len] == NUL <==> len == |s|
      decreases |s| - len
    {
      len := len + 1;
      CStringScan(m[..], at, s, len);
    }
  }

  /** `t` occurs in `s` as a contiguous block. */
  ghost predicate Contains(s: seq<byte>, t: seq<byte>) {
    exists i :: OccursAt(s, t, i)
  }

  ghost predicate OccursAt(s: seq<byte>, t: seq<byte>, i: int) {
    0 <= i <= |s| - |t| && s[i..i + |t|] == t
  }

  /** strncmp of the string `s` against memory at `at`: at most `n` bytes, and
      none beyond the end of the string, are compared. */
  method Strncmp(s: seq<byte>, m: array<byte>, at: nat, n: nat) returns (r: int)
    requires at + n <= m.Length || at + |s| < m.Length
    requires NUL !in s
    ensures r == 0 <==> if n <= |s| then m[at..at + n] == s[..n] else m[at..at + |s| + 1] == s + [NUL]
  {
    for i := 0 to n
      invariant i <= |s| && forall k :: 0 <= k < i ==> m[at + k] == s[k]
    {
      var c := if i < |s| then s[i] else NUL;
      if c != m[at + i] || c == NUL {
        return c as int - m[at + i] as int;
      }
    }
    return 0;
  }
}
