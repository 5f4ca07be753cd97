/** Compressed names as section 4.1.4 of RFC 1035 reads them: labels are stepped over by their counts, a
    byte with its two high bits set starts a pointer, and the offset has 14 bits. Compared with the code,
    which looks for the byte 0xC0 and takes the next byte with its sign. */
module DnsStandard {
  import opened Bytes
  import opened DnsName
  import opened DnsPointers

  /** The place behind the labels of the name at `a`: a NUL or a pointer. There is none if the labels leave
      the memory or a count has one of the reserved values 64 to 191. */
  function LabelsEnd(m: seq<byte>, a: nat): (q: Option<nat>)
    ensures q.Some? ==> a <= q.value < |m| && (m[q.value] == 0 || m[q.value] >= POINTER_MARK)
    decreases |m| - a
  {
    if a >= |m| then None
    else if m[a] == 0 || m[a] >= POINTER_MARK then Some(a)
    else if m[a] >= 64 then None
    else LabelsEnd(m, a + 1 + m[a])
  }

  function LabelsAt(m: seq<byte>, a: nat): seq<seq<byte>>
    requires LabelsEnd(m, a).Some?
    decreases |m| - a
  {
    if m[a] == 0 || m[a] >= POINTER_MARK then []
    else [m[a + 1..a + 1 + m[a]]] + LabelsAt(m, a + 1 + m[a])
  }

  /** The standard's way on from the name at `a`. */
  function StdHopAt(m: seq<byte>, hdr: nat, a: nat): Hop {
    match LabelsEnd(m, a)
    case None => Fault
    case Some(q) =>
      if m[q] == 0 then Final
      else if q + 1 >= |m| then Fault
      else Jump(hdr + (m[q] as int) % 64 * 256 + m[q + 1])
  }

  /** The name reached after `k` of the standard's pointers. */
  function StdNth(m: seq<byte>, hdr: nat, a: nat, k: nat): Option<nat> {
    if k == 0 then Some(a)
    else
      match StdNth(m, hdr, a, k - 1)
      case None => None
      case Some(b) => match StdHopAt(m, hdr, b) { case Jump(t) => Some(t) case _ => None }
  }

  /** The labels of the name at `a` hold neither a NUL nor the byte 0xC0. */
  predicate Proper(m: seq<byte>, a: nat) {
    LabelsEnd(m, a).Some? && MarkFree(LabelsAt(m, a)) && forall l :: l in LabelsAt(m, a) ==> 0 !in l
  }

  /** Stepping over the labels undoes their encoding. */
  lemma {:induction false} LabelsEncoded(m: seq<byte>, a: nat)
    requires Proper(m, a)
    ensures IsName(LabelsAt(m, a)) && m[a..LabelsEnd(m, a).value] == Encode(LabelsAt(m, a))
    decreases |m| - a
  {
    if m[a] == 0 || m[a] >= POINTER_MARK {
      RootEncoding();
    } else {
      var next := a + 1 + m[a];
      ProperRest(m, a);
      LabelsEncoded(m, next);
      EncodeCons(m[a + 1..next], LabelsAt(m, next));
      ThreePieces(m, a, next, LabelsEnd(m, a).value);
    }
  }

  lemma ProperRest(m: seq<byte>, a: nat)
    requires Proper(m, a) && m[a] != 0 && m[a] < POINTER_MARK
    ensures var next := a + 1 + m[a];
      && next <= |m| && IsLabel(m[a + 1..next]) && Proper(m, next) && LabelsEnd(m, next) == LabelsEnd(m, a)
      && LabelsAt(m, a) == [m[a + 1..next]] + LabelsAt(m, next)
  {
    var l, rest := m[a + 1..a + 1 + m[a]], LabelsAt(m, a + 1 + m[a]);
    assert l in [l] + rest && forall r :: r in rest ==> r in [l] + rest;
  }

  lemma EncodeCons(l: seq<byte>, rest: seq<seq<byte>>)
    requires IsLabel(l) && IsName(rest)
    ensures IsName([l] + rest) && Encode([l] + rest) == [|l|] + l + Encode(rest)
  {
    assert ([l] + rest)[0] == l && ([l] + rest)[1..] == rest;
  }

  lemma ThreePieces(m: seq<byte>, a: nat, b: nat, q: nat)
    requires a < b <= q <= |m|
    ensures m[a..q] == [m[a]] + m[a + 1..b] + m[b..q]
  {
  }

  /** One hop of the standard, in numbers: counts below 64, a NUL or a byte from 192 up at the end, and an offset of
      14 bits in two bytes. */
  lemma StdHopIs(m: seq<byte>, hdr: nat, a: nat)
    requires a < |m|
    ensures m[a] == 0 ==> StdHopAt(m, hdr, a) == Final
    ensures 0 < m[a] < 64 ==> StdHopAt(m, hdr, a) == StdHopAt(m, hdr, a + 1 + m[a])
    ensures 64 <= m[a] < 192 ==> StdHopAt(m, hdr, a) == Fault
    ensures m[a] >= 192 && a + 1 < |m| ==> StdHopAt(m, hdr, a) == Jump(hdr + 256 * (m[a] as int - 192) + m[a + 1])
  {
  }

  /** The code's scan and the standard's counts end at the same place. */
  lemma ScanEnds(m: seq<byte>, a: nat)
    requires Proper(m, a)
    ensures var q := LabelsEnd(m, a).value; forall j :: a <= j < q ==> m[j] != 0 && m[j] != POINTER_MARK
  {
    var labels, q := LabelsAt(m, a), LabelsEnd(m, a).value;
    LabelsEncoded(m, a);
    EncodeHasNoNul(labels);
    EncodeHasNo(labels, POINTER_MARK);
    forall j | a <= j < q ensures m[j] != 0 && m[j] != POINTER_MARK {
      assert m[j] == m[a..q][j - a] && m[j] in m[a..q];
    }
  }

  /** The code goes where the standard goes exactly when the name has no pointer or the offset is below
      128: from there on the offset byte is negative or, from 256 up, the first byte is not 0xC0. */
  lemma HopIsStdIff(m: seq<byte>, hdr: nat, a: nat)
    requires Proper(m, a) && StdHopAt(m, hdr, a) != Fault
    ensures HopAt(m, hdr, a) == StdHopAt(m, hdr, a) <==>
      (StdHopAt(m, hdr, a).Jump? ==> StdHopAt(m, hdr, a).target < hdr + 128)
  {
    hide LabelsAt, LabelsEnd, Proper;
    var q := LabelsEnd(m, a).value;
    ScanEnds(m, a);
    assert Scannable(m, a) ==> PointerPos(m, a) >= 0 ==> a + PointerPos(m, a) >= q;
    if m[q] == 0 || m[q] == POINTER_MARK {
      assert Scannable(m, a);
    }
  }

  // ---------------------------------------------------------------- chains

  /** The place reached after `i` of the standard's pointers. */
  function StdPlace(m: seq<byte>, hdr: nat, a: nat, i: nat): nat {
    match StdNth(m, hdr, a, i) case None => a case Some(b) => b
  }

  /** By the standard the name at `a` follows `k` pointers and ends; its labels hold no NUL and no 0xC0. */
  ghost predicate IsStdName(m: seq<byte>, hdr: nat, a: nat, k: nat) {
    && (forall i :: 0 <= i <= k ==> StdNth(m, hdr, a, i).Some? && Proper(m, StdPlace(m, hdr, a, i)))
    && StdHopAt(m, hdr, StdPlace(m, hdr, a, k)) == Final
  }

  /** The code meets the same names. */
  ghost predicate Follows(m: seq<byte>, hdr: nat, a: nat, k: nat) {
    forall i :: 0 <= i <= k ==> Nth(m, hdr, a, i) == StdNth(m, hdr, a, i)
  }

  /** Every pointer leads into the first 128 bytes of the message. */
  ghost predicate Near(m: seq<byte>, hdr: nat, a: nat, k: nat) {
    forall i :: 1 <= i <= k ==> StdPlace(m, hdr, a, i) < hdr + 128
  }

  lemma StdNthStep(m: seq<byte>, hdr: nat, a: nat, k: nat)
    requires k > 0 && StdNth(m, hdr, a, k).Some?
    ensures StdNth(m, hdr, a, k - 1).Some?
    ensures StdHopAt(m, hdr, StdPlace(m, hdr, a, k - 1)) == Jump(StdPlace(m, hdr, a, k))
    ensures Nth(m, hdr, a, k - 1) == StdNth(m, hdr, a, k - 1) ==>
      (Nth(m, hdr, a, k) == StdNth(m, hdr, a, k) <==>
       HopAt(m, hdr, StdPlace(m, hdr, a, k - 1)) == StdHopAt(m, hdr, StdPlace(m, hdr, a, k - 1)))
  {
    hide HopAt, StdHopAt;
  }

  /** The code follows the standard's chain exactly when every offset on it is below 128. */
  lemma {:induction false} FollowsIff(m: seq<byte>, hdr: nat, a: nat, k: nat)
    requires forall i :: 0 <= i <= k ==> StdNth(m, hdr, a, i).Some? && Proper(m, StdPlace(m, hdr, a, i))
    ensures Follows(m, hdr, a, k) <==> Near(m, hdr, a, k)
    decreases k
  {
    hide HopAt, StdHopAt, Proper, Nth, StdNth, StdPlace;
    FirstIsStart(m, hdr, a);
    StdStart(m, hdr, a);
    if k > 0 {
      FollowsIff(m, hdr, a, k - 1);
      StdNthStep(m, hdr, a, k);
      HopIsStdIff(m, hdr, StdPlace(m, hdr, a, k - 1));
    }
  }

  lemma StdStart(m: seq<byte>, hdr: nat, a: nat)
    ensures StdNth(m, hdr, a, 0) == Some(a)
  {
  }

  // ---------------------------------------------------------------- the name

  /** The labels in front of each of the `k` pointers. */
  ghost function HopNames(m: seq<byte>, hdr: nat, a: nat, k: nat): (pres: seq<seq<seq<byte>>>)
    requires IsStdName(m, hdr, a, k)
    ensures |pres| == k
  {
    seq(k, i requires 0 <= i < k => LabelsAt(m, StdPlace(m, hdr, a, i)))
  }

  ghost function LastLabels(m: seq<byte>, hdr: nat, a: nat, k: nat): seq<seq<byte>>
    requires IsStdName(m, hdr, a, k)
  {
    LabelsAt(m, StdPlace(m, hdr, a, k))
  }

  /** The standard's name: all labels, hop by hop. */
  ghost function StdLabels(m: seq<byte>, hdr: nat, a: nat, k: nat): seq<seq<byte>>
    requires IsStdName(m, hdr, a, k)
  {
    Flatten(HopNames(m, hdr, a, k)) + LastLabels(m, hdr, a, k)
  }

  /** The expansion of the code ends, and on the screen it is the dotted name of `labels`. */
  ghost predicate Shows(m: seq<byte>, hdr: nat, a: nat, labels: seq<seq<byte>>) {
    Terminates(m, hdr, a) && CutAtNul(GetNameInDNS(m, hdr, a)) == Join(labels)
  }

  /** The labels in front of a pointer that the code follows are its prefix. */
  lemma PrefixIsLabels(m: seq<byte>, hdr: nat, a: nat)
    requires Proper(m, a) && StdHopAt(m, hdr, a).Jump? && HopAt(m, hdr, a) == StdHopAt(m, hdr, a)
    ensures IsName(LabelsAt(m, a)) && Prefix(m, a) == Encode(LabelsAt(m, a))
  {
    hide Encode, LabelsAt, LabelsEnd, Proper;
    HopIsStdIff(m, hdr, a);
    LabelsEncoded(m, a);
    ScanEnds(m, a);
    assert m[LabelsEnd(m, a).value] == POINTER_MARK;
  }

  lemma FinalIsPlain(m: seq<byte>, hdr: nat, a: nat)
    requires Proper(m, a) && StdHopAt(m, hdr, a) == Final
    ensures PlainName(m, a, LabelsAt(m, a))
  {
    hide Encode, LabelsAt;
    LabelsEncoded(m, a);
  }

  lemma HopNamesLie(m: seq<byte>, hdr: nat, a: nat, k: nat)
    requires IsStdName(m, hdr, a, k) && Follows(m, hdr, a, k)
    ensures HopLabels(m, hdr, a, HopNames(m, hdr, a, k))
  {
    hide HopAt, StdHopAt, Proper, Nth, StdNth, LabelsAt, Encode, Prefix, IsName;
    var pres := HopNames(m, hdr, a, k);
    forall i | 0 <= i < k ensures IsName(pres[i]) && PrefixOf(m, Nth(m, hdr, a, i)) == Encode(pres[i]) {
      StdNthStep(m, hdr, a, i + 1);
      PrefixIsLabels(m, hdr, StdPlace(m, hdr, a, i));
    }
  }

  /** Every compressed name of the standard, over any number of pointers: the code goes through the
      standard's names and shows the standard's dotted name exactly when every offset is below 128, no label
      stands in front of a pointer, and the last labels are plain. */
  lemma StandardNameShownIff(m: seq<byte>, hdr: nat, a: nat, k: nat)
    requires IsStdName(m, hdr, a, k) && DotFree(Flatten(HopNames(m, hdr, a, k)))
    ensures Follows(m, hdr, a, k) && Shows(m, hdr, a, StdLabels(m, hdr, a, k)) <==>
      Near(m, hdr, a, k) && Flatten(HopNames(m, hdr, a, k)) == [] && Plain(LastLabels(m, hdr, a, k))
  {
    hide Nth, StdNth, HopAt, StdHopAt, Proper, Near, HopNames, LabelsAt, Plain, DotFree, GetNameInDNS, CutAtNul,
      Join, Flatten, HopLabels, PlainName, Terminates;
    FollowsIff(m, hdr, a, k);
    if Follows(m, hdr, a, k) {
      HopNamesLie(m, hdr, a, k);
      FinalIsPlain(m, hdr, StdPlace(m, hdr, a, k));
      ChainShownIff(m, hdr, a, StdPlace(m, hdr, a, k), HopNames(m, hdr, a, k), LastLabels(m, hdr, a, k));
    }
  }

  /** Pointer-only hops, however many: the full name appears exactly when every offset is below 128 and the
      labels are plain. */
  lemma PointerChainShowsNameIff(m: seq<byte>, hdr: nat, a: nat, k: nat)
    requires IsStdName(m, hdr, a, k)
    requires forall i :: 0 <= i < k ==> LabelsAt(m, StdPlace(m, hdr, a, i)) == []
    ensures Follows(m, hdr, a, k) && Shows(m, hdr, a, LastLabels(m, hdr, a, k)) <==>
      Near(m, hdr, a, k) && Plain(LastLabels(m, hdr, a, k))
  {
    hide Nth, StdNth, HopAt, StdHopAt, Proper, Near, LabelsAt, Plain, Shows, IsStdName, StdPlace, Follows;
    NoLabels(HopNames(m, hdr, a, k));
    StandardNameShownIff(m, hdr, a, k);
    assert [] + LastLabels(m, hdr, a, k) == LastLabels(m, hdr, a, k);
  }

  lemma {:induction false} NoLabels(pres: seq<seq<seq<byte>>>)
    requires forall i :: 0 <= i < |pres| ==> pres[i] == []
    ensures Flatten(pres) == []
  {
    if pres != [] {
      NoLabels(pres[..|pres| - 1]);
    }
  }

  // ---------------------------------------------------------------- a far pointer

  /** A message at 24 whose name at 260 points to offset 232, where the name "a" stands. */
  function FarMemory(): (m: seq<byte>)
    ensures |m| == 262 && m[0] == 0 && m[256] == 1 && m[257] == 97 && m[258] == 0
    ensures m[260] == 192 && m[261] == 232
  {
    seq(262, i requires 0 <= i < 262 =>
      if i == 256 then 1 else if i == 257 then 97 else if i == 260 then POINTER_MARK else if i == 261 then 232 else 0)
  }

  /** The code goes to offset -24, in front of the message, and shows nothing. */
  lemma FarPointer()
    ensures IsStdName(FarMemory(), 24, 260, 1) && StdLabels(FarMemory(), 24, 260, 1) == [[97]]
    ensures Terminates(FarMemory(), 24, 260) && CutAtNul(GetNameInDNS(FarMemory(), 24, 260)) == []
  {
    hide FarMemory, CutAtNul, GetNameInDNS, Terminates, Hops, Encode;
    var m := FarMemory();
    FarLabels(m);
    assert StdHopAt(m, 24, 260) == Jump(256) && StdHopAt(m, 24, 256) == Final;
    StdStart(m, 24, 260);
    assert StdNth(m, 24, 260, 1) == Some(256);
    var pres := HopNames(m, 24, 260, 1);
    assert pres == [[]];
    NoLabels(pres);
    assert [] + [[97]] == [[97]];
    FarText(m);
  }

  lemma FarLabels(m: seq<byte>)
    requires |m| == 262 && m[256] == 1 && m[257] == 97 && m[258] == 0 && m[260] == POINTER_MARK && m[261] == 232
    ensures LabelsEnd(m, 260) == Some(260) && LabelsAt(m, 260) == [] && Proper(m, 260)
    ensures LabelsEnd(m, 256) == Some(258) && LabelsAt(m, 256) == [[97]] && Proper(m, 256)
  {
    assert LabelsEnd(m, 258) == Some(258) && LabelsAt(m, 258) == [];
    assert m[257..258] == [97];
  }

  lemma FarText(m: seq<byte>)
    requires |m| == 262 && m[0] == 0 && m[260] == POINTER_MARK && m[261] == 232
    ensures Terminates(m, 24, 260) && CutAtNul(GetNameInDNS(m, 24, 260)) == []
  {
    hide CutAtNul, GetNameInDNS, Terminates, Hops, Encode, Join, TranslateText;
    assert Scannable(m, 260) && PointerPos(m, 260) == 0;
    assert HopAt(m, 24, 260) == Jump(0);
    FirstIsStart(m, 24, 260);
    RootEncoding();
    assert PlainName(m, 0, []) && m[260..260] == [];
    var pres: seq<seq<seq<byte>>> := [[]];
    NoLabels(pres);
    assert PrefixOf(m, Nth(m, 24, 260, 0)) == [];
    ChainShownIff(m, 24, 260, 0, pres, []);
    RootName();
    assert [] + Translate(Encode([])) == [];
  }
}
