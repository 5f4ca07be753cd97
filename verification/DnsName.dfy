/** Translating a counted DNS name to dotted form: both overloads of translateNameInDNS, and how far
    they undo the encoding of section 3.1 of RFC 1035. */
module DnsName {
  import opened Bytes

  const DOT: byte := 46

  function Undot(b: byte): byte {
    if IsNameByte(b) then b else DOT
  }

  /** Every byte that is not a letter, a digit or '-' becomes a dot. */
  function Dotted(s: seq<byte>): (r: seq<byte>)
    ensures |r| == |s| && 0 !in r
  {
    seq(|s|, i requires 0 <= i < |s| => Undot(s[i]))
  }

  /** The leading count, if there is one, is dropped. */
  function Translate(s: seq<byte>): (r: seq<byte>)
    ensures 0 !in r && |r| <= |s|
  {
    if s == [] || IsNameByte(s[0]) then Dotted(s) else Dotted(s)[1..]
  }

  /** The CString overload keeps its length when it shifts, so the shift pulls in the final NUL. */
  function TranslateText(s: seq<byte>): seq<byte> {
    if s == [] || IsNameByte(s[0]) then Dotted(s) else Dotted(s)[1..] + [0]
  }

  /** The byte that moves into place `k`. */
  function Shifted(d: seq<byte>, k: nat): byte {
    if k + 1 < |d| then d[k + 1] else 0
  }

  /** strcpy */
  method CopyString(dest: array<byte>, src: seq<byte>, at: nat)
    requires Terminated(src, at) && StrLen(src, at) < dest.Length
    modifies dest
    ensures dest[..StrLen(src, at)] == CString(src, at) && dest[StrLen(src, at)] == 0
    ensures forall k :: StrLen(src, at) < k < dest.Length ==> dest[k] == old(dest[k])
  {
    var i := 0;
    while src[at + i] != 0
      invariant 0 <= i <= StrLen(src, at)
      invariant dest[..i] == src[at..at + i]
      invariant forall k :: i < k < dest.Length ==> dest[k] == old(dest[k])
      decreases StrLen(src, at) - i
    {
      dest[i] := src[at + i];
      i := i + 1;
    }
    dest[i] := 0;
  }

  /** The string of length `n` in the buffer. */
  ghost predicate HoldsString(name: array<byte>, n: nat)
    reads name
  {
    n < name.Length && name[n] == 0 && 0 !in name[..n]
  }

  /** The loop that converts counts to '.'. */
  method DotInPlace(name: array<byte>, ghost n: nat)
    requires HoldsString(name, n)
    modifies name
    ensures HoldsString(name, n) && name[..n] == Dotted(old(name[..n]))
    ensures forall k :: n < k < name.Length ==> name[k] == old(name[k])
  {
    ghost var s := name[..n];
    assert forall k :: 0 <= k < n ==> s[k] in s;
    var p := 0;
    while name[p] != 0
      invariant 0 <= p <= n && name[n] == 0
      invariant forall k :: 0 <= k < n ==> name[k] == if k < p then Undot(s[k]) else s[k]
      invariant forall k :: n < k < name.Length ==> name[k] == old(name[k])
      decreases n - p
    {
      if !IsAlnum(name[p]) && name[p] != 45 {
        name[p] := DOT;
      }
      p := p + 1;
    }
    assert name[..n] == Dotted(s);
  }

  /** The loop that moves the name forward by one place, its NUL included. */
  method ShiftInPlace(name: array<byte>, ghost n: nat)
    requires HoldsString(name, n)
    modifies name
    ensures n > 0 ==> name[..n - 1] == old(name[1..n]) && name[n - 1] == 0
    ensures n == 0 ==> name[0] == 0
    ensures forall k :: n < k < name.Length ==> name[k] == old(name[k])
  {
    ghost var d := name[..n];
    assert forall k :: 0 <= k < n ==> d[k] in d;
    var p := 0;
    while name[p] != 0
      invariant 0 <= p <= n && name[n] == 0
      invariant forall k :: p <= k < n ==> name[k] == d[k]
      invariant forall k :: 0 <= k < p ==> name[k] == Shifted(d, k)
      invariant forall k :: n < k < name.Length ==> name[k] == old(name[k])
      decreases n - p
    {
      name[p] := name[p + 1];
      p := p + 1;
    }
  }

  /** translateNameInDNS(name1, name2). Nothing past the terminator of the copy is touched. */
  method TranslateInBuffer(name1: array<byte>, name2: seq<byte>, at: nat)
    requires Terminated(name2, at) && StrLen(name2, at) < name1.Length
    modifies name1
    ensures Terminated(name1[..], 0) && CString(name1[..], 0) == Translate(CString(name2, at))
    ensures forall k :: StrLen(name2, at) < k < name1.Length ==> name1[k] == old(name1[k])
  {
    hide CString, StrLen, Dotted;
    CopyString(name1, name2, at);
    ghost var s, n := CString(name2, at), StrLen(name2, at);
    var canMove := !IsAlnum(name1[0]) && name1[0] != 45;
    assert n > 0 ==> name1[0] == s[0];
    DotInPlace(name1, n);
    ghost var d := Dotted(s);
    if canMove {
      ShiftInPlace(name1, n);
    }
    ghost var r := Translate(s);
    assert n > 0 && canMove ==> r == d[1..];
    assert !canMove ==> r == d;
    assert name1[..][0..|r|] == r;
    CStringOf(name1[..], 0, r);
  }

  /** translateNameInDNS(name) on a CString. */
  method TranslateString(name: seq<byte>, at: nat) returns (strName: seq<byte>)
    requires Terminated(name, at)
    ensures strName == TranslateText(CString(name, at))
  {
    strName := CString(name, at);
    ghost var s := strName;
    var first: byte := if |strName| > 0 then strName[0] else 0;
    var canMove := !IsAlnum(first) && first != 45;
    for i := 0 to |strName|
      invariant |strName| == |s|
      invariant forall k :: 0 <= k < |s| ==> strName[k] == if k < i then Undot(s[k]) else s[k]
    {
      if !IsAlnum(strName[i]) && strName[i] != 45 {
        strName := strName[i := DOT];
      }
    }
    assert strName == Dotted(s);
    if canMove {
      ghost var d := strName;
      for i := 0 to |strName|
        invariant |strName| == |d|
        invariant forall k :: i <= k < |d| ==> strName[k] == d[k]
        invariant forall k :: 0 <= k < i ==> strName[k] == Shifted(d, k)
      {
        strName := strName[i := if i + 1 < |strName| then strName[i + 1] else 0];
      }
      assert d != [] ==> strName == d[1..] + [0];
    }
  }

  /** Both overloads show the same name. */
  lemma OverloadsAgree(s: seq<byte>)
    requires 0 !in s
    ensures CutAtNul(TranslateText(s)) == Translate(s)
  {
    CutAtNulOf(Translate(s), [0]);
  }

  /** A letter, a digit or '-', by its number. */
  predicate Kept(b: byte) {
    48 <= b <= 57 || 65 <= b <= 90 || 97 <= b <= 122 || b == 45
  }

  /** Byte by byte: the first byte is dropped if it is no letter, digit or '-'; the others stay in order, each as it
      is if it is one of those and as '.' (46) if not. */
  lemma TranslateIs(s: seq<byte>)
    ensures var k := if s == [] || Kept(s[0]) then 0 else 1;
      && |Translate(s)| == |s| - k
      && forall i :: 0 <= i < |s| - k ==> Translate(s)[i] == if Kept(s[i + k]) then s[i + k] else 46
  {
  }

  /** The string overload: the same bytes, but the length is kept, with a NUL for the dropped byte. */
  lemma TranslateTextIs(s: seq<byte>)
    ensures |TranslateText(s)| == |s|
    ensures TranslateText(s) == Translate(s) + if s == [] || Kept(s[0]) then [] else [0]
  {
  }

  // ---------------------------------------------------------------- round trip

  /** A label of the standard, of any bytes but NUL, which no C string can hold. */
  predicate IsLabel(l: seq<byte>) {
    1 <= |l| <= 63 && 0 !in l
  }

  ghost predicate IsName(labels: seq<seq<byte>>) {
    forall l :: l in labels ==> IsLabel(l)
  }

  /** Section 3.1 of RFC 1035, without the terminating zero length. */
  ghost function Encode(labels: seq<seq<byte>>): seq<byte>
    requires IsName(labels)
  {
    if labels == [] then []
    else
      assert IsLabel(labels[0]);
      var count: byte := |labels[0]|;
      [count] + labels[0] + Encode(labels[1..])
  }

  /** Each label with a dot in front. */
  function DotBefore(labels: seq<seq<byte>>): seq<byte> {
    if labels == [] then [] else [DOT] + labels[0] + DotBefore(labels[1..])
  }

  /** The labels with dots between them. */
  function Join(labels: seq<seq<byte>>): seq<byte> {
    if labels == [] then [] else labels[0] + DotBefore(labels[1..])
  }

  /** The labels of a dotted name. */
  function Labels(name: seq<byte>): seq<seq<byte>> {
    if name == [] then [] else SplitAtDots(name)
  }

  function SplitAtDots(name: seq<byte>): (r: seq<seq<byte>>)
    ensures r != []
  {
    if name == [] then [[]]
    else
      var rest := SplitAtDots(name[1..]);
      if name[0] == DOT then [[]] + rest else [[name[0]] + rest[0]] + rest[1..]
  }

  /** A label length that is itself a name character: 45 is '-', 48 to 57 are the digits. */
  predicate LooksLikeNameByte(n: nat) {
    n == 45 || 48 <= n <= 57
  }

  /** The label is dotted as it stands: only letters, digits, '-' and dots, and a length that is no name
      character. */
  ghost predicate PlainLabel(l: seq<byte>) {
    !LooksLikeNameByte(|l|) && forall b :: b in l ==> IsNameByte(b) || b == DOT
  }

  ghost predicate Plain(labels: seq<seq<byte>>) {
    forall l :: l in labels ==> PlainLabel(l)
  }

  ghost predicate DotFree(labels: seq<seq<byte>>) {
    forall l :: l in labels ==> DOT !in l
  }

  lemma {:induction false} EncodeHasNoNul(labels: seq<seq<byte>>)
    requires IsName(labels)
    ensures 0 !in Encode(labels)
  {
    if labels != [] {
      EncodeHasNoNul(labels[1..]);
      assert IsLabel(labels[0]);
    }
  }

  /** A byte from 64 up in the encoding comes from a label. */
  lemma {:induction false} EncodeHasNo(labels: seq<seq<byte>>, b: byte)
    requires IsName(labels) && b >= 64 && forall l :: l in labels ==> b !in l
    ensures b !in Encode(labels)
  {
    if labels != [] {
      EncodeHasNo(labels[1..], b);
      assert IsLabel(labels[0]);
    }
  }

  lemma DottedConcat(a: seq<byte>, b: seq<byte>)
    ensures Dotted(a + b) == Dotted(a) + Dotted(b)
  {
  }

  lemma DottedLabelIff(l: seq<byte>)
    ensures Dotted(l) == l <==> forall b :: b in l ==> IsNameByte(b) || b == DOT
  {
    if Dotted(l) == l {
      forall b | b in l ensures IsNameByte(b) || b == DOT {
        var i :| 0 <= i < |l| && l[i] == b;
        assert Dotted(l)[i] == Undot(b);
      }
    }
  }

  lemma DottedHeadIff(count: byte, l: seq<byte>, e: seq<byte>, t: seq<byte>)
    requires |e| == |t|
    ensures Dotted([count] + l + e) == [DOT] + l + t <==> Undot(count) == DOT && Dotted(l) == l && Dotted(e) == t
  {
    DottedConcat([count] + l, e);
    DottedConcat([count], l);
    var lhs, rhs := Dotted([count] + l + e), [DOT] + l + t;
    assert lhs == [Undot(count)] + Dotted(l) + Dotted(e);
    assert lhs[0] == Undot(count) && rhs[0] == DOT;
    assert lhs[1..1 + |l|] == Dotted(l) && rhs[1..1 + |l|] == l;
    assert lhs[1 + |l|..] == Dotted(e) && rhs[1 + |l|..] == t;
  }

  /** The counts turn into dots and the labels stay what they are exactly for plain labels. */
  lemma {:induction false} DottedEncodeIff(labels: seq<seq<byte>>)
    requires IsName(labels)
    ensures |Encode(labels)| == |DotBefore(labels)|
    ensures Dotted(Encode(labels)) == DotBefore(labels) <==> Plain(labels)
  {
    hide Dotted;
    if labels != [] {
      var l, rest := labels[0], labels[1..];
      assert labels == [l] + rest && IsLabel(l);
      DottedEncodeIff(rest);
      DottedHeadIff(|l|, l, Encode(rest), DotBefore(rest));
      DottedLabelIff(l);
      assert Plain(labels) <==> PlainLabel(l) && Plain(rest);
    }
  }

  lemma TranslateDropsDotIff(s: seq<byte>, t: seq<byte>)
    requires |s| == |t| + 1
    ensures Translate(s) == t <==> Dotted(s) == [DOT] + t
  {
    if !IsNameByte(s[0]) {
      assert Dotted(s) == [DOT] + Translate(s);
      assert ([DOT] + t)[1..] == t;
    } else {
      assert |Translate(s)| == |t| + 1;
      assert Dotted(s)[0] != DOT;
    }
  }

  /** Translating an encoded name gives its labels joined by dots exactly when no label length is
      45 or 48..57 and every byte is a letter, a digit, '-' or a dot. */
  lemma NameRoundTripIff(labels: seq<seq<byte>>)
    requires IsName(labels)
    ensures Translate(Encode(labels)) == Join(labels) <==> Plain(labels)
  {
    hide Dotted, Translate, Plain, IsName, Encode, DotBefore, Join;
    if labels == [] {
      RootName();
    } else {
      DottedEncodeIff(labels);
      DotBeforeIsDotJoin(labels);
      TranslateDropsDotIff(Encode(labels), Join(labels));
    }
  }

  lemma DotBeforeIsDotJoin(labels: seq<seq<byte>>)
    requires labels != []
    ensures DotBefore(labels) == [DOT] + Join(labels)
  {
  }

  lemma RootName()
    ensures Translate(Encode([])) == Join([]) && Plain([])
  {
  }

  /** Splitting the translated name at its dots recovers the labels exactly when they are plain and hold
      no dot of their own: letters, digits and '-' only, and no length of 45 or 48..57. */
  lemma NameLabelsRecoveredIff(labels: seq<seq<byte>>)
    requires IsName(labels)
    ensures Labels(Translate(Encode(labels))) == labels <==> Plain(labels) && DotFree(labels)
  {
    hide Translate, Encode, Plain, IsName;
    var name := Translate(Encode(labels));
    NameRoundTripIff(labels);
    if labels == [] {
      RootName();
    } else {
      JoinSplit(name);
      NoDotsLeft(name);
      NotEmpty(labels);
      if DotFree(labels) {
        SplitJoin(labels[0], labels[1..]);
        assert labels == [labels[0]] + labels[1..];
      }
    }
  }

  lemma NotEmpty(labels: seq<seq<byte>>)
    requires IsName(labels) && labels != []
    ensures Join(labels) != []
  {
    assert IsLabel(labels[0]);
  }

  lemma {:induction false} JoinSplit(name: seq<byte>)
    ensures Join(SplitAtDots(name)) == name
  {
    if name != [] {
      var rest := SplitAtDots(name[1..]);
      JoinSplit(name[1..]);
      assert rest == [rest[0]] + rest[1..];
      if name[0] == DOT {
        assert ([[]] + rest)[1..] == rest;
        assert DotBefore(rest) == [DOT] + Join(rest);
      } else {
        assert ([[name[0]] + rest[0]] + rest[1..])[1..] == rest[1..];
      }
    }
  }

  lemma {:induction false} NoDotsLeft(name: seq<byte>)
    ensures DotFree(SplitAtDots(name))
  {
    if name != [] {
      NoDotsLeft(name[1..]);
      var rest := SplitAtDots(name[1..]);
      assert DOT !in rest[0];
    }
  }

  lemma {:induction false} SplitJoin(l: seq<byte>, rest: seq<seq<byte>>)
    requires DOT !in l && forall r :: r in rest ==> DOT !in r
    ensures SplitAtDots(l + DotBefore(rest)) == [l] + rest
    decreases |rest|, |l|
  {
    var name := l + DotBefore(rest);
    if l != [] {
      assert name[1..] == l[1..] + DotBefore(rest);
      SplitJoin(l[1..], rest);
      assert [l[0]] + l[1..] == l;
    } else if rest != [] {
      assert name == [DOT] + (rest[0] + DotBefore(rest[1..]));
      SplitJoin(rest[0], rest[1..]);
      assert rest == [rest[0]] + rest[1..];
    } else {
      assert name == [];
    }
  }

  /** Names that are not translated back: a label of 45 bytes keeps its count as '-'. */
  lemma CountKept(l: seq<byte>)
    requires IsLabel(l) && |l| == 45 && forall b :: b in l ==> IsNameByte(b)
    ensures Translate(Encode([l])) == [45] + l
  {
    assert Encode([l]) == [45] + l;
    DottedConcat([45], l);
    DottedLabelIff(l);
  }

  /** The label _a loses its underscore. */
  lemma UnderscoreLost()
    ensures IsName([[95, 97]]) && Translate(Encode([[95, 97]])) == [46, 97]
  {
    assert Encode([[95, 97]]) == [2, 95, 97];
  }
}
