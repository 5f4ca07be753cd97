/** Names with 0xC0 compression pointers: is0xC0PointerInName and the mutual recursion of getNameInDNS
    and get0xC0PointerValue (section 4.1.4 of RFC 1035). `m` is the readable memory, `hdr` the place
    of the DNS header in it, names are places in it. */
module DnsPointers {
  import opened Bytes
  import opened DnsName

  const POINTER_MARK: byte := 0xC0

  /** Scanning from `a` meets a NUL or a pointer before it leaves the memory. */
  ghost predicate Scannable(m: seq<byte>, a: nat) {
    exists j :: a <= j < |m| && (m[j] == 0 || m[j] == POINTER_MARK)
  }

  /** Position of the first pointer of the name at `a`, -1 if there is none. */
  function PointerPos(m: seq<byte>, a: nat): (pos: int)
    requires Scannable(m, a)
    ensures -1 <= pos && a + pos < |m|
    ensures pos >= 0 ==>
      m[a + pos] == POINTER_MARK && forall j :: a <= j < a + pos ==> m[j] != 0 && m[j] != POINTER_MARK
    ensures pos == -1 ==> Terminated(m, a) && POINTER_MARK !in CString(m, a)
    decreases |m| - a
  {
    if m[a] == 0 then -1
    else if m[a] == POINTER_MARK then 0
    else
      var rest := PointerPos(m, a + 1);
      if rest == -1 then -1 else rest + 1
  }

  method Is0xC0PointerInName(m: seq<byte>, name: Option<nat>) returns (pos: int)
    requires name.Some? ==> Scannable(m, name.value)
    ensures pos == if name.None? then -2 else PointerPos(m, name.value)
  {
    hide CString, StrLen;
    if name.None? {
      return -2;
    }
    var p := name.value;
    pos := 0;
    while m[p] != 0
      invariant p == name.value + pos && pos >= 0 && Scannable(m, p)
      invariant PointerPos(m, name.value) == if PointerPos(m, p) == -1 then -1 else PointerPos(m, p) + pos
      decreases |m| - p
    {
      if m[p] == POINTER_MARK {
        return pos;
      }
      p := p + 1;
      pos := pos + 1;
    }
    return -1;
  }

  /** A plain char: the offset byte is read with its sign. */
  function SignedChar(b: byte): (r: int)
    ensures -128 <= r < 128 && (r - b) % 256 == 0
  {
    if b < 128 then b else b - 256
  }

  /** What the code meets at a name: its end, a pointer to follow, or memory it must not read. */
  datatype Hop = Final | Jump(target: nat) | Fault

  ghost function HopAt(m: seq<byte>, hdr: nat, a: nat): Hop {
    if !Scannable(m, a) then Fault
    else
      var pos := PointerPos(m, a);
      if pos == -1 then Final
      else if a + pos + 1 >= |m| || hdr + SignedChar(m[a + pos + 1]) < 0 then Fault
      else Jump(hdr + SignedChar(m[a + pos + 1]))
  }

  /** The expansion of the name at `a` follows exactly `k` pointers. */
  ghost predicate Ends(m: seq<byte>, hdr: nat, a: nat, k: nat)
    decreases k
  {
    match HopAt(m, hdr, a)
    case Final => k == 0
    case Jump(t) => k > 0 && Ends(m, hdr, t, k - 1)
    case Fault => false
  }

  ghost predicate Terminates(m: seq<byte>, hdr: nat, a: nat) {
    exists k: nat :: Ends(m, hdr, a, k)
  }

  ghost function Hops(m: seq<byte>, hdr: nat, a: nat): (k: nat)
    requires Terminates(m, hdr, a)
    ensures Ends(m, hdr, a, k)
  {
    var k: nat :| Ends(m, hdr, a, k);
    k
  }

  lemma {:induction false} EndsOnce(m: seq<byte>, hdr: nat, a: nat, k: nat, l: nat)
    requires Ends(m, hdr, a, k) && Ends(m, hdr, a, l)
    ensures k == l
    decreases k
  {
    match HopAt(m, hdr, a) {
      case Final =>
      case Jump(t) => EndsOnce(m, hdr, t, k - 1, l - 1);
    }
  }

  lemma NextTerminates(m: seq<byte>, hdr: nat, a: nat)
    requires Terminates(m, hdr, a) && HopAt(m, hdr, a).Jump?
    ensures Terminates(m, hdr, HopAt(m, hdr, a).target)
    ensures Hops(m, hdr, HopAt(m, hdr, a).target) == Hops(m, hdr, a) - 1
  {
    var t, k := HopAt(m, hdr, a).target, Hops(m, hdr, a);
    assert Ends(m, hdr, t, k - 1);
    EndsOnce(m, hdr, t, k - 1, Hops(m, hdr, t));
  }

  // ---------------------------------------------------------------- the code

  /** getNameInDNS. The prefix in front of a pointer is copied as it is, counts included. */
  function GetNameInDNS(m: seq<byte>, hdr: nat, name: nat): seq<byte>
    requires Terminates(m, hdr, name)
    decreases Hops(m, hdr, name), 0
  {
    assert Ends(m, hdr, name, Hops(m, hdr, name));
    var pointerPos := PointerPos(m, name);
    if pointerPos == -1 then TranslateText(CString(m, name))
    else
      NextTerminates(m, hdr, name);
      var valueOffset := SignedChar(m[name + pointerPos + 1]);
      m[name..name + pointerPos] + Get0xC0PointerValue(m, hdr, valueOffset)
  }

  function Get0xC0PointerValue(m: seq<byte>, hdr: nat, offset: int): seq<byte>
    requires hdr + offset >= 0 && Terminates(m, hdr, hdr + offset)
    decreases Hops(m, hdr, hdr + offset), 1
  {
    GetNameInDNS(m, hdr, hdr + offset)
  }

  // ---------------------------------------------------------------- termination

  /** Every pointer reached targets a place strictly before the name that contains it. */
  ghost predicate Backward(m: seq<byte>, hdr: nat, a: nat)
    decreases a
  {
    match HopAt(m, hdr, a)
    case Final => true
    case Jump(t) => t < a && Backward(m, hdr, t)
    case Fault => false
  }

  lemma {:induction false} BackwardTerminates(m: seq<byte>, hdr: nat, a: nat)
    requires Backward(m, hdr, a)
    ensures Terminates(m, hdr, a) && Hops(m, hdr, a) <= a
    decreases a
  {
    match HopAt(m, hdr, a) {
      case Final =>
        assert Ends(m, hdr, a, 0);
        EndsOnce(m, hdr, a, 0, Hops(m, hdr, a));
      case Jump(t) =>
        BackwardTerminates(m, hdr, t);
        assert Ends(m, hdr, a, Hops(m, hdr, t) + 1);
        NextTerminates(m, hdr, a);
    }
  }

  /** The name reached after `k` pointers, if the chain is that long. */
  ghost function Nth(m: seq<byte>, hdr: nat, a: nat, k: nat): Option<nat> {
    if k == 0 then Some(a)
    else
      match Nth(m, hdr, a, k - 1)
      case None => None
      case Some(b) => match HopAt(m, hdr, b) { case Jump(t) => Some(t) case _ => None }
  }

  lemma {:induction false} NthEnds(m: seq<byte>, hdr: nat, a: nat, k: nat, i: nat)
    requires Ends(m, hdr, a, k)
    ensures Nth(m, hdr, a, i).Some? <==> i <= k
    ensures i <= k ==> Ends(m, hdr, Nth(m, hdr, a, i).value, k - i)
    decreases i
  {
    hide HopAt;
    if i > 0 {
      NthEnds(m, hdr, a, k, i - 1);
    }
  }

  /** No memory outside `m` is touched along the chain. */
  ghost predicate FaultFree(m: seq<byte>, hdr: nat, a: nat) {
    forall k :: Nth(m, hdr, a, k).Some? ==> HopAt(m, hdr, Nth(m, hdr, a, k).value) != Fault
  }

  ghost predicate NoRepeat(m: seq<byte>, hdr: nat, a: nat) {
    forall i, j :: 0 <= i < j && Nth(m, hdr, a, i).Some? && Nth(m, hdr, a, j).Some? ==>
      Nth(m, hdr, a, i) != Nth(m, hdr, a, j)
  }

  /** The expansion ends exactly when no hop leaves the memory and no name is met twice: a chain of pointers
      either reaches a name without a pointer, within |m| hops, or faults, or runs in circles for ever. */
  lemma TerminatesIff(m: seq<byte>, hdr: nat, a: nat)
    ensures Terminates(m, hdr, a) <==> FaultFree(m, hdr, a) && NoRepeat(m, hdr, a)
  {
    hide HopAt, Nth, Ends, FaultFree, NoRepeat;
    if Terminates(m, hdr, a) {
      EndingIsFaultFree(m, hdr, a, Hops(m, hdr, a));
      EndingHasNoRepeat(m, hdr, a, Hops(m, hdr, a));
    }
    if FaultFree(m, hdr, a) && NoRepeat(m, hdr, a) {
      ShortChain(m, hdr, a);
      ChainEnds(m, hdr, a, |m|);
    }
  }

  lemma EndingIsFaultFree(m: seq<byte>, hdr: nat, a: nat, k: nat)
    requires Ends(m, hdr, a, k)
    ensures FaultFree(m, hdr, a)
  {
    hide HopAt, Nth;
    forall i | Nth(m, hdr, a, i).Some? ensures HopAt(m, hdr, Nth(m, hdr, a, i).value) != Fault {
      NthEnds(m, hdr, a, k, i);
    }
  }

  lemma EndingHasNoRepeat(m: seq<byte>, hdr: nat, a: nat, k: nat)
    requires Ends(m, hdr, a, k)
    ensures NoRepeat(m, hdr, a)
  {
    hide HopAt, Nth, Ends;
    forall i, j | 0 <= i < j && Nth(m, hdr, a, i).Some? && Nth(m, hdr, a, j).Some?
      ensures Nth(m, hdr, a, i) != Nth(m, hdr, a, j)
    {
      NthEnds(m, hdr, a, k, i);
      NthEnds(m, hdr, a, k, j);
      if Nth(m, hdr, a, i) == Nth(m, hdr, a, j) {
        EndsOnce(m, hdr, Nth(m, hdr, a, i).value, k - i, k - j);
      }
    }
  }

  /** All names met lie inside the memory, so without a repeat there are at most |m| of them. */
  lemma ShortChain(m: seq<byte>, hdr: nat, a: nat)
    requires FaultFree(m, hdr, a) && NoRepeat(m, hdr, a)
    ensures Nth(m, hdr, a, |m|).None?
  {
    var n := |m|;
    if Nth(m, hdr, a, n).Some? {
      forall i | 0 <= i <= n ensures Nth(m, hdr, a, i).Some? {
        NthDefined(m, hdr, a, n, i);
      }
      var met := seq(n + 1, i requires 0 <= i <= n => Nth(m, hdr, a, i).value);
      forall i | 0 <= i <= n ensures met[i] < n {
        assert HopAt(m, hdr, met[i]) != Fault;
      }
      forall i, j | 0 <= i < j <= n ensures met[i] != met[j] {
        assert Nth(m, hdr, a, i) != Nth(m, hdr, a, j);
      }
      Pigeonhole(met, n);
    }
  }

  lemma {:induction false} NthDefined(m: seq<byte>, hdr: nat, a: nat, k: nat, i: nat)
    requires Nth(m, hdr, a, k).Some? && i <= k
    ensures Nth(m, hdr, a, i).Some?
    decreases k
  {
    if i < k {
      NthDefined(m, hdr, a, k - 1, i);
    }
  }

  lemma {:induction false} Pigeonhole(s: seq<nat>, n: nat)
    requires forall i :: 0 <= i < |s| ==> s[i] < n
    requires forall i, j :: 0 <= i < j < |s| ==> s[i] != s[j]
    ensures |s| <= n
    decreases n
  {
    assert s != [] ==> s[0] < n;
    if k :| 0 <= k < |s| && s[k] == n - 1 {
      Pigeonhole(s[..k] + s[k + 1..], n - 1);
    } else if n > 0 {
      Pigeonhole(s, n - 1);
    }
  }

  lemma {:induction false} ChainEnds(m: seq<byte>, hdr: nat, a: nat, n: nat)
    requires FaultFree(m, hdr, a) && Nth(m, hdr, a, n).None?
    ensures Terminates(m, hdr, a)
    decreases n
  {
    hide HopAt;
    if Nth(m, hdr, a, n - 1).None? {
      ChainEnds(m, hdr, a, n - 1);
    } else {
      var b := Nth(m, hdr, a, n - 1).value;
      assert HopAt(m, hdr, b) == Final;
      EndsBackTo(m, hdr, a, n - 1);
    }
  }

  lemma {:induction false} EndsBackTo(m: seq<byte>, hdr: nat, a: nat, k: nat)
    requires Nth(m, hdr, a, k).Some? && HopAt(m, hdr, Nth(m, hdr, a, k).value) == Final
    ensures Ends(m, hdr, a, k)
    decreases k
  {
    hide HopAt;
    if k > 0 {
      NthDefined(m, hdr, a, k, 1);
      var t := Nth(m, hdr, a, 1).value;
      NthShift(m, hdr, a, t, k - 1);
      EndsBackTo(m, hdr, t, k - 1);
    }
  }

  lemma {:induction false} NthShift(m: seq<byte>, hdr: nat, a: nat, t: nat, i: nat)
    requires Nth(m, hdr, a, 1) == Some(t)
    ensures Nth(m, hdr, t, i) == Nth(m, hdr, a, i + 1)
    decreases i
  {
    hide HopAt;
    if i > 0 {
      NthShift(m, hdr, a, t, i - 1);
    }
  }

  // ---------------------------------------------------------------- what is shown

  /** The bytes in front of the pointer of the name at `a`. */
  ghost function Prefix(m: seq<byte>, a: nat): seq<byte> {
    if Scannable(m, a) && PointerPos(m, a) >= 0 then m[a..a + PointerPos(m, a)] else []
  }

  /** The prefixes met on the first `k` hops, one after the other. */
  ghost function Prefixes(m: seq<byte>, hdr: nat, a: nat, k: nat): seq<byte> {
    if k == 0 then [] else Prefixes(m, hdr, a, k - 1) + PrefixOf(m, Nth(m, hdr, a, k - 1))
  }

  ghost function PrefixOf(m: seq<byte>, a: Option<nat>): seq<byte> {
    match a case None => [] case Some(b) => Prefix(m, b)
  }

  /** The name without a pointer at which the expansion ends. */
  ghost function LastName(m: seq<byte>, hdr: nat, a: nat): (b: nat)
    requires Terminates(m, hdr, a)
    ensures Scannable(m, b) && PointerPos(m, b) == -1 && Terminated(m, b)
    ensures Nth(m, hdr, a, Hops(m, hdr, a)) == Some(b)
  {
    NthEnds(m, hdr, a, Hops(m, hdr, a), Hops(m, hdr, a));
    Nth(m, hdr, a, Hops(m, hdr, a)).value
  }

  lemma {:induction false} PrefixesShift(m: seq<byte>, hdr: nat, a: nat, t: nat, k: nat)
    requires Nth(m, hdr, a, 1) == Some(t)
    ensures Prefixes(m, hdr, a, k + 1) == Prefix(m, a) + Prefixes(m, hdr, t, k)
    decreases k
  {
    hide Prefix, HopAt, Nth, PrefixOf;
    if k == 0 {
      NoPrefixes(m, hdr, a);
    } else {
      PrefixesShift(m, hdr, a, t, k - 1);
      NthShift(m, hdr, a, t, k - 1);
      var x, y := Prefixes(m, hdr, t, k - 1), PrefixOf(m, Nth(m, hdr, a, k));
      assert Prefixes(m, hdr, a, k + 1) == Prefixes(m, hdr, a, k) + y;
      assert Prefix(m, a) + x + y == Prefix(m, a) + (x + y);
    }
  }

  lemma FirstIsStart(m: seq<byte>, hdr: nat, a: nat)
    ensures Nth(m, hdr, a, 0) == Some(a)
    ensures HopAt(m, hdr, a).Jump? ==> Nth(m, hdr, a, 1) == Some(HopAt(m, hdr, a).target)
  {
  }

  /** The text is the raw bytes in front of each pointer, hop by hop, and then the translation of the
      name the chain ends at. */
  lemma {:induction false} ExpansionIs(m: seq<byte>, hdr: nat, a: nat)
    requires Terminates(m, hdr, a)
    ensures GetNameInDNS(m, hdr, a)
         == Prefixes(m, hdr, a, Hops(m, hdr, a)) + TranslateText(CString(m, LastName(m, hdr, a)))
    decreases Hops(m, hdr, a)
  {
    hide TranslateText, CString, StrLen, Nth, Prefixes, Prefix, HopAt, GetNameInDNS, PointerPos;
    var k, b := Hops(m, hdr, a), LastName(m, hdr, a);
    FirstIsStart(m, hdr, a);
    if k == 0 {
      NoPrefixes(m, hdr, a);
      FinalShows(m, hdr, a);
    } else {
      var t := HopAt(m, hdr, a).target;
      NextTerminates(m, hdr, a);
      ExpansionIs(m, hdr, t);
      NthShift(m, hdr, a, t, k - 1);
      PrefixesShift(m, hdr, a, t, k - 1);
      ExpansionStep(m, hdr, a);
      Assoc(Prefix(m, a), Prefixes(m, hdr, t, k - 1), TranslateText(CString(m, b)));
    }
  }

  lemma FinalShows(m: seq<byte>, hdr: nat, a: nat)
    requires Terminates(m, hdr, a) && Hops(m, hdr, a) == 0
    ensures Terminated(m, a) && GetNameInDNS(m, hdr, a) == [] + TranslateText(CString(m, a))
  {
    hide TranslateText, CString, StrLen;
  }

  lemma NoPrefixes(m: seq<byte>, hdr: nat, a: nat)
    ensures Prefixes(m, hdr, a, 0) == [] && Prefixes(m, hdr, a, 1) == Prefix(m, a)
  {
    assert Prefixes(m, hdr, a, 1) == [] + Prefix(m, a);
  }

  lemma ExpansionStep(m: seq<byte>, hdr: nat, a: nat)
    requires Terminates(m, hdr, a) && HopAt(m, hdr, a).Jump?
    ensures Terminates(m, hdr, HopAt(m, hdr, a).target)
    ensures GetNameInDNS(m, hdr, a) == Prefix(m, a) + GetNameInDNS(m, hdr, HopAt(m, hdr, a).target)
  {
    hide TranslateText, CString, StrLen;
    NextTerminates(m, hdr, a);
  }

  /** No label holds the byte that the code takes for a pointer. */
  predicate MarkFree(labels: seq<seq<byte>>) {
    forall l :: l in labels ==> POINTER_MARK !in l
  }

  /** A name that is an encoded label list followed by a NUL. */
  ghost predicate PlainName(m: seq<byte>, b: nat, labels: seq<seq<byte>>) {
    IsName(labels) && MarkFree(labels) &&
    var e := Encode(labels);
    b + |e| < |m| && m[b..b + |e|] == e && m[b + |e|] == 0
  }

  /** Along the first hops, the bytes in front of each pointer encode the labels of `pres`, hop by hop. */
  ghost predicate HopLabels(m: seq<byte>, hdr: nat, a: nat, pres: seq<seq<seq<byte>>>) {
    forall i :: 0 <= i < |pres| ==> IsName(pres[i]) && PrefixOf(m, Nth(m, hdr, a, i)) == Encode(pres[i])
  }

  /** The labels of all hops in one list. */
  function Flatten(pres: seq<seq<seq<byte>>>): seq<seq<byte>> {
    if pres == [] then [] else Flatten(pres[..|pres| - 1]) + pres[|pres| - 1]
  }

  lemma {:induction false} EncodeConcat(x: seq<seq<byte>>, y: seq<seq<byte>>)
    requires IsName(x) && IsName(y)
    ensures IsName(x + y) && Encode(x + y) == Encode(x) + Encode(y)
  {
    assert forall l :: l in x + y ==> l in x || l in y;
    if x == [] {
      assert x + y == y;
    } else {
      assert (x + y)[1..] == x[1..] + y;
      EncodeConcat(x[1..], y);
    }
  }

  lemma {:induction false} PrefixesEncode(m: seq<byte>, hdr: nat, a: nat, pres: seq<seq<seq<byte>>>)
    requires HopLabels(m, hdr, a, pres)
    ensures IsName(Flatten(pres)) && Prefixes(m, hdr, a, |pres|) == Encode(Flatten(pres))
  {
    hide PrefixOf, Nth, IsName, Encode;
    if pres == [] {
      RootEncoding();
    } else {
      var init, last := pres[..|pres| - 1], pres[|pres| - 1];
      PrefixesEncode(m, hdr, a, init);
      EncodeConcat(Flatten(init), last);
    }
  }

  /** Such a name ends the expansion: its encoding holds neither a NUL nor a pointer. */
  lemma PlainNameIsFinal(m: seq<byte>, hdr: nat, b: nat, labels: seq<seq<byte>>)
    requires PlainName(m, b, labels)
    ensures IsName(labels) && HopAt(m, hdr, b) == Final && CString(m, b) == Encode(labels)
  {
    hide Encode, IsName, CString, StrLen;
    var e := Encode(labels);
    EncodeHasNoNul(labels);
    EncodeHasNo(labels, POINTER_MARK);
    CStringOf(m, b, e);
    forall j | b <= j < b + |e| ensures m[j] != POINTER_MARK {
      assert m[j] == e[j - b] && e[j - b] in e;
    }
    assert m[b + |e|] == 0;
  }

  /** What is shown for it. */
  lemma PlainNameShown(m: seq<byte>, hdr: nat, b: nat, labels: seq<seq<byte>>)
    requires PlainName(m, b, labels)
    ensures CutAtNul(TranslateText(CString(m, b))) == Translate(Encode(labels))
  {
    hide Encode, IsName, CString, StrLen, TranslateText, Translate, CutAtNul, HopAt;
    PlainNameIsFinal(m, hdr, b, labels);
    EncodeHasNoNul(labels);
    OverloadsAgree(Encode(labels));
  }

  /** Along the code's own chain, with labels in front of each pointer, to an encoded name: the text shown
      is the dotted name exactly when no hop has a label of its own and the last labels are plain. Labels
      in front of a pointer keep their counts instead of getting dots. */
  lemma ChainShownIff(m: seq<byte>, hdr: nat, a: nat, b: nat, pres: seq<seq<seq<byte>>>, labels: seq<seq<byte>>)
    requires Nth(m, hdr, a, |pres|) == Some(b) && HopLabels(m, hdr, a, pres) && PlainName(m, b, labels)
    requires DotFree(Flatten(pres))
    ensures Terminates(m, hdr, a) && IsName(Flatten(pres))
    ensures CutAtNul(GetNameInDNS(m, hdr, a)) == Encode(Flatten(pres)) + Translate(Encode(labels))
    ensures CutAtNul(GetNameInDNS(m, hdr, a)) == Join(Flatten(pres) + labels)
       <==> Flatten(pres) == [] && Plain(labels)
  {
    hide GetNameInDNS, TranslateText, Translate, Prefixes, HopLabels, Flatten, Encode, IsName, PlainName, CutAtNul,
      Join, Plain, DotFree, CString, StrLen, HopAt, Nth;
    var k, pre := |pres|, Flatten(pres);
    PlainNameIsFinal(m, hdr, b, labels);
    EndsBackTo(m, hdr, a, k);
    EndsOnce(m, hdr, a, k, Hops(m, hdr, a));
    ExpansionIs(m, hdr, a);
    PrefixesEncode(m, hdr, a, pres);
    EncodeHasNoNul(pre);
    PlainNameShown(m, hdr, b, labels);
    CutAtNulConcat(Encode(pre), TranslateText(CString(m, b)));
    if pre == [] {
      RootEncoding();
      NameRoundTripIff(labels);
      assert pre + labels == labels && Encode(pre) + Translate(Encode(labels)) == Translate(Encode(labels));
    } else {
      CountIsNoDot(pre, labels, Translate(Encode(labels)));
    }
  }

  /** A labelled hop: the name b.a, its last label behind a pointer, is shown as a count, "b" and "a". */
  lemma LabelledHop() returns (m: seq<byte>)
    ensures m == [1, 97, 0, 1, 98, 192, 0] && Terminates(m, 0, 3)
    ensures CutAtNul(GetNameInDNS(m, 0, 3)) == [1, 98, 97] != Join([[98], [97]])
  {
    hide CutAtNul, GetNameInDNS, Translate, TranslateText, Join, Hops, Terminates, Ends;
    m := [1, 97, 0, 1, 98, POINTER_MARK, 0];
    LabelEncoding(97);
    LabelEncoding(98);
    assert Scannable(m, 3) && PointerPos(m, 3) == 2 by { assert m[5] == POINTER_MARK; }
    assert HopAt(m, 0, 3) == Jump(0);
    FirstIsStart(m, 0, 3);
    assert m[3..5] == [1, 98];
    assert m[0..2] == [1, 97];
    var pres := [[[98 as byte]]];
    assert Flatten(pres) == [[98]] by { assert Flatten([]) + pres[0] == pres[0]; }
    ChainShownIff(m, 0, 3, 0, pres, [[97]]);
    CountIsNoDot([[98]], [[97]], [97]);
    assert [[98]] + [[97]] == [[98], [97]] && [1, 98] + [97] == [1, 98, 97];
  }

  lemma LabelEncoding(c: byte)
    requires IsNameByte(c)
    ensures IsName([[c]]) && Encode([[c]]) == [1, c] && Translate([1, c]) == [c]
  {
    assert IsLabel([c]);
    assert Encode([[c]]) == [1] + [c] + Encode([]);
    assert Dotted([1, c])[1..] == [c];
  }

  lemma RootEncoding()
    ensures IsName([]) && Encode([]) == []
  {
  }

  lemma {:induction false} CutAtNulConcat(a: seq<byte>, b: seq<byte>)
    requires 0 !in a
    ensures CutAtNul(a + b) == a + CutAtNul(b)
  {
    if a == [] {
      assert a + b == b;
    } else {
      assert (a + b)[1..] == a[1..] + b;
      CutAtNulConcat(a[1..], b);
    }
  }

  lemma CountIsNoDot(pre: seq<seq<byte>>, labels: seq<seq<byte>>, text: seq<byte>)
    requires pre != [] && IsName(pre) && DotFree(pre)
    ensures Encode(pre) + text != Join(pre + labels)
  {
    hide Join, Encode, DotBefore, IsNameByte;
    var l, rest := pre[0], pre[1..];
    EncodeHead(pre);
    Assoc([|l|] + l, Encode(rest), text);
    JoinHead(pre, labels);
    DotFirst(rest + labels);
    CountBeforeLabel(|l|, l, Encode(rest) + text, DotBefore(rest + labels));
  }

  lemma EncodeHead(pre: seq<seq<byte>>)
    requires pre != [] && IsName(pre)
    ensures IsLabel(pre[0]) && IsName(pre[1..]) && Encode(pre) == [|pre[0]|] + pre[0] + Encode(pre[1..])
  {
  }

  lemma Assoc(a: seq<byte>, b: seq<byte>, c: seq<byte>)
    ensures a + b + c == a + (b + c)
  {
  }

  lemma DotFirst(labels: seq<seq<byte>>)
    ensures DotBefore(labels) == [] || DotBefore(labels)[0] == DOT
  {
  }

  lemma JoinHead(pre: seq<seq<byte>>, labels: seq<seq<byte>>)
    requires pre != []
    ensures Join(pre + labels) == pre[0] + DotBefore(pre[1..] + labels)
  {
    assert (pre + labels)[0] == pre[0] && (pre + labels)[1..] == pre[1..] + labels;
  }

  lemma CountBeforeLabel(count: byte, l: seq<byte>, x: seq<byte>, y: seq<byte>)
    requires IsLabel(l) && DOT !in l && (y == [] || y[0] == DOT)
    ensures [count] + l + x != l + y
  {
    var n := |l|;
    assert ([count] + l + x)[n] == l[n - 1] && l[n - 1] in l;
    if y != [] {
      assert (l + y)[n] == DOT;
    }
  }
}
