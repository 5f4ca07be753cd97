/** Bytes, big-endian fields, character classes and C strings shared by every component. */
module Bytes {

  datatype Option<+T> = None | Some(value: T)

  type byte = b: int | 0 <= b < 256

  /** ntohs of the two bytes at `i`. */
  function BE16(d: seq<byte>, i: nat): nat
    requires i + 2 <= |d|
  {
    d[i] as int * 256 + d[i + 1]
  }

  /** isalnum in the C locale; bytes from 128 up are never alphanumeric. */
  predicate IsAlnum(b: byte) {
    48 <= b <= 57 || 65 <= b <= 90 || 97 <= b <= 122
  }

  /** The bytes the DNS name code leaves alone: letters, digits and '-'. */
  predicate IsNameByte(b: byte) {
    IsAlnum(b) || b == 45
  }

  /** A NUL byte can be found at or after `i`. */
  ghost predicate Terminated(m: seq<byte>, i: nat) {
    exists j :: i <= j < |m| && m[j] == 0
  }

  /** strlen of the C string that starts at `i`. */
  function StrLen(m: seq<byte>, i: nat): (n: nat)
    requires Terminated(m, i)
    ensures i + n < |m| && m[i + n] == 0
    ensures forall j :: i <= j < i + n ==> m[j] != 0
    decreases |m| - i
  {
    if m[i] == 0 then 0 else 1 + StrLen(m, i + 1)
  }

  /** The C string that starts at `i`, without its NUL. */
  function CString(m: seq<byte>, i: nat): (s: seq<byte>)
    requires Terminated(m, i)
    ensures 0 !in s && |s| == StrLen(m, i)
  {
    m[i..i + StrLen(m, i)]
  }

  /** What a C-string reader sees of a counted string that may hold NULs. */
  function CutAtNul(s: seq<byte>): (r: seq<byte>)
    ensures 0 !in r && r <= s
    ensures |r| < |s| ==> s[|r|] == 0
  {
    if s == [] || s[0] == 0 then [] else [s[0]] + CutAtNul(s[1..])
  }

  /** A NUL-free text followed by a NUL reads back as that text. */
  lemma {:induction false} CStringOf(m: seq<byte>, i: nat, s: seq<byte>)
    requires 0 !in s && i + |s| < |m|
    requires m[i..i + |s|] == s && m[i + |s|] == 0
    ensures Terminated(m, i) && StrLen(m, i) == |s| && CString(m, i) == s
  {
    forall k | 0 <= k < |s| ensures m[i + k] == s[k] != 0 {
      assert m[i + k] == m[i..i + |s|][k];
      assert s[k] in s;
    }
  }

  lemma {:induction false} CutAtNulOf(s: seq<byte>, rest: seq<byte>)
    requires 0 !in s
    ensures CutAtNul(s) == s
    ensures rest != [] && rest[0] == 0 ==> CutAtNul(s + rest) == s
  {
    if s != [] {
      CutAtNulOf(s[1..], rest);
      assert (s + rest)[1..] == s[1..] + rest;
    }
  }

  /** Two texts lying one after the other. */
  lemma Pieces(m: seq<byte>, p: nat, a: seq<byte>, b: seq<byte>)
    requires p + |a + b| <= |m| && m[p..p + |a + b|] == a + b
    ensures m[p..p + |a|] == a && m[p + |a|..p + |a| + |b|] == b
  {
    assert m[p..p + |a|] == m[p..p + |a + b|][..|a|];
    assert m[p + |a|..p + |a| + |b|] == m[p..p + |a + b|][|a|..];
  }
}
