/** The DHCP option loop of printDHCP2TreeCtrl: twelve separately coded advances, compared with the
    generic tag-length-value rule of section 2 of RFC 2132. */
module DhcpOptions {
  import opened Bytes

  const PAD: byte := 0
  const SUBNET_MASK: byte := 1
  const ROUTER: byte := 3
  const DOMAIN_NAME_SERVER: byte := 6
  const HOST_NAME: byte := 12
  const REQUESTED_IP_ADDRESS: byte := 50
  const IP_ADDRESS_LEASE_TIME: byte := 51
  const DHCP_MESSAGE_TYPE: byte := 53
  const SERVER_IDENTIFIER: byte := 54
  const VENDOR_CLASS_IDENTIFIER: byte := 60
  const CLIENT_IDENTIFIER: byte := 61
  const END: byte := 255

  /** One option node of the tree: tag, length, the bytes of each line printed below them, and what an
      earlier option had left in the scratch string and this one appends to its last line. */
  datatype Item = Item(tag: byte, len: nat, values: seq<seq<byte>>, appended: seq<byte>)

  /** Number of turns of a loop that counts to `len` in steps of 4. */
  function Quads(len: nat): nat { (len + 3) / 4 }

  /** `k` addresses of 4 bytes, the first at `q`, each `stride` bytes after the one before, can be read. */
  predicate AddressesFit(m: seq<byte>, q: nat, stride: nat, k: nat)
    decreases k
  {
    k > 0 ==> q + 4 <= |m| && AddressesFit(m, q + stride, stride, k - 1)
  }

  function Addresses(m: seq<byte>, q: nat, stride: nat, k: nat): seq<seq<byte>>
    requires AddressesFit(m, q, stride, k)
    decreases k
  {
    if k == 0 then [] else [m[q..q + 4]] + Addresses(m, q + stride, stride, k - 1)
  }

  /** The tags that are followed by one address, whatever their length byte says. */
  predicate HasOneAddress(tag: byte) {
    tag == REQUESTED_IP_ADDRESS || tag == SERVER_IDENTIFIER || tag == SUBNET_MASK
  }

  predicate HasText(tag: byte) {
    tag == VENDOR_CLASS_IDENTIFIER || tag == HOST_NAME
  }

  /** Every byte read for the option at `p` lies in the memory. */
  predicate OptionReadable(m: seq<byte>, p: nat) {
    p < |m| &&
    if m[p] == PAD then true
    else if m[p] == DHCP_MESSAGE_TYPE || m[p] == IP_ADDRESS_LEASE_TIME then p + 3 <= |m|
    else if HasOneAddress(m[p]) then p + 6 <= |m|
    else if m[p] == CLIENT_IDENTIFIER then p + 3 <= |m| && (m[p + 2] == 1 ==> p + 9 <= |m|)
    else
      p + 2 <= |m| &&
      if HasText(m[p]) then p + 2 + m[p + 1] <= |m|
      else if m[p] == ROUTER then AddressesFit(m, p + 2, 5, Quads(m[p + 1]))
      else if m[p] == DOMAIN_NAME_SERVER then AddressesFit(m, p + 2, 4, Quads(m[p + 1]))
      else true
  }

  /** How far the cursor moves over the option at `p`. */
  function Advance(m: seq<byte>, p: nat): (n: nat)
    requires OptionReadable(m, p)
    ensures n > 0
  {
    if m[p] == PAD then 1
    else if m[p] == DHCP_MESSAGE_TYPE then 3
    else if HasOneAddress(m[p]) || m[p] == IP_ADDRESS_LEASE_TIME then 6
    else if m[p] == CLIENT_IDENTIFIER && m[p + 2] == 1 then 9
    else if m[p] == ROUTER then 1 + 5 * Quads(m[p + 1])
    else if m[p] == DOMAIN_NAME_SERVER then 2 + 4 * Quads(m[p + 1])
    else 2 + m[p + 1] as int
  }

  /** What is printed for the option at `p`, with `tmp` in the scratch string strTmp. */
  function Printed(m: seq<byte>, p: nat, tmp: seq<byte>): seq<Item>
    requires OptionReadable(m, p)
  {
    if m[p] == PAD then []
    else [Item(m[p], m[p + 1], Values(m, p), if m[p] == CLIENT_IDENTIFIER && m[p + 2] != 1 then tmp else [])]
  }

  /** The scratch string afterwards: the text options leave their last character in it. */
  function Scratch(m: seq<byte>, p: nat, tmp: seq<byte>): seq<byte>
    requires OptionReadable(m, p)
  {
    if HasText(m[p]) && m[p + 1] > 0 then [m[p + 1 + m[p + 1]]] else tmp
  }

  function Values(m: seq<byte>, p: nat): seq<seq<byte>>
    requires OptionReadable(m, p) && m[p] != PAD
  {
    if m[p] == DHCP_MESSAGE_TYPE || m[p] == IP_ADDRESS_LEASE_TIME then [[m[p + 2]]]
    else if HasOneAddress(m[p]) then [m[p + 2..p + 6]]
    else if m[p] == CLIENT_IDENTIFIER then if m[p + 2] == 1 then [[1], m[p + 3..p + 9]] else [[m[p + 2]]]
    else if HasText(m[p]) then [m[p + 2..p + 2 + m[p + 1]]]
    else if m[p] == ROUTER then Addresses(m, p + 2, 5, Quads(m[p + 1]))
    else if m[p] == DOMAIN_NAME_SERVER then Addresses(m, p + 2, 4, Quads(m[p + 1]))
    else []
  }

  // ---------------------------------------------------------------- the code

  /** The loop of option 3: the cursor is stepped once before and four times after each address. */
  method PrintRouters(m: seq<byte>, at: nat, len: nat) returns (values: seq<seq<byte>>, p: nat)
    requires AddressesFit(m, at + 1, 5, Quads(len))
    ensures values == Addresses(m, at + 1, 5, Quads(len)) && p == at + 5 * Quads(len)
  {
    p := at;
    values := [];
    var count: nat := 0;
    ghost var k := Quads(len);
    ghost var all := Addresses(m, at + 1, 5, k);
    while count < len
      invariant count % 4 == 0 && count / 4 <= k && p == at + 5 * (count / 4)
      invariant AddressesFit(m, p + 1, 5, k - count / 4)
      invariant values + Addresses(m, p + 1, 5, k - count / 4) == all
      decreases len - count
    {
      ghost var left := Addresses(m, p + 1, 5, k - count / 4);
      p := p + 1;
      var addr := m[p..p + 4];
      assert left == [addr] + left[1..];
      values := values + [addr];
      count := count + 4;
      p := p + 4;
    }
  }

  /** The loop of option 6. */
  method PrintServers(m: seq<byte>, at: nat, len: nat) returns (values: seq<seq<byte>>, p: nat)
    requires AddressesFit(m, at, 4, Quads(len))
    ensures values == Addresses(m, at, 4, Quads(len)) && p == at + 4 * Quads(len)
  {
    p := at;
    values := [];
    var count: nat := 0;
    ghost var k := Quads(len);
    ghost var all := Addresses(m, at, 4, k);
    while count < len
      invariant count % 4 == 0 && count / 4 <= k && p == at + 4 * (count / 4)
      invariant AddressesFit(m, p, 4, k - count / 4)
      invariant values + Addresses(m, p, 4, k - count / 4) == all
      decreases len - count
    {
      ghost var left := Addresses(m, p, 4, k - count / 4);
      var addr := m[p..p + 4];
      assert left == [addr] + left[1..];
      values := values + [addr];
      count := count + 4;
      p := p + 4;
    }
  }

  /** The loops of options 12 and 60: step, then read through the scratch string. */
  method PrintText(m: seq<byte>, at: nat, len: nat, tmp: seq<byte>) returns (text: seq<byte>, p: nat, strTmp: seq<byte>)
    requires at + 1 + len <= |m|
    ensures text == m[at + 1..at + 1 + len] && p == at + 1 + len
    ensures strTmp == if len > 0 then [m[at + len]] else tmp
  {
    p, strTmp := at, tmp;
    text := [];
    var count: nat := 0;
    while count < len
      invariant count <= len && p == at + count && text == m[at + 1..at + 1 + count]
      invariant strTmp == if count > 0 then [m[p]] else tmp
    {
      p := p + 1;
      strTmp := [m[p]];
      text := text + strTmp;
      count := count + 1;
    }
    p := p + 1;
  }

  /** The switch: one option. */
  method PrintOption(m: seq<byte>, at: nat, tmp: seq<byte>) returns (items: seq<Item>, p: nat, strTmp: seq<byte>)
    requires OptionReadable(m, at)
    ensures items == Printed(m, at, tmp) && p == at + Advance(m, at) && strTmp == Scratch(m, at, tmp)
  {
    hide Addresses, AddressesFit;
    p, strTmp := at, tmp;
    var tag := m[p];
    if tag == PAD {
      p := p + 1;
      return [], p, strTmp;
    }
    p := p + 1;
    var len := m[p];
    var values: seq<seq<byte>>, appended: seq<byte> := [], [];
    if tag == DHCP_MESSAGE_TYPE {
      p := p + 1;
      values := [[m[p]]];
      p := p + 1;
    } else if HasOneAddress(tag) {
      p := p + 1;
      values := [m[p..p + 4]];
      p := p + 4;
    } else if tag == IP_ADDRESS_LEASE_TIME {
      p := p + 1;
      values := [[m[p]]];
      p := p + 4;
    } else if tag == CLIENT_IDENTIFIER {
      p := p + 1;
      values := [[m[p]]];
      if m[p] == 1 {
        p := p + 1;
        values := values + [m[p..p + 6]];
        assert values == [[1], m[at + 3..at + 9]];
        p := p + 6;
      } else {
        appended := strTmp;
        p := p + len;
      }
    } else if HasText(tag) {
      var text, next, left := PrintText(m, p, len, strTmp);
      values, p, strTmp := [text], next, left;
    } else if tag == ROUTER {
      values, p := PrintRouters(m, p, len);
    } else if tag == DOMAIN_NAME_SERVER {
      p := p + 1;
      values, p := PrintServers(m, p, len);
    } else {
      p := p + 1;
      p := p + len;
    }
    items := [Item(tag, len, values, appended)];
  }

  /** Walking from `p` stays inside the memory and reaches an END. */
  predicate Walkable(m: seq<byte>, p: nat)
    decreases |m| - p
  {
    p < |m| && (m[p] != END ==> OptionReadable(m, p) && Walkable(m, p + Advance(m, p)))
  }

  function Walk(m: seq<byte>, p: nat, tmp: seq<byte>): seq<Item>
    requires Walkable(m, p)
    decreases |m| - p
  {
    if m[p] == END then [] else Printed(m, p, tmp) + Walk(m, p + Advance(m, p), Scratch(m, p, tmp))
  }

  /** The places where the walk looks for a tag, up to and including the END. */
  function Starts(m: seq<byte>, p: nat): (s: seq<nat>)
    requires Walkable(m, p)
    ensures s != [] && s[0] == p
    ensures s[|s| - 1] < |m| && m[s[|s| - 1]] == END
    decreases |m| - p
  {
    if m[p] == END then [p] else [p] + Starts(m, p + Advance(m, p))
  }

  /** while (*p != 0xFF): the option nodes, and the place of the END that stops the loop. `strTmp` still
      holds the boot file name when the loop starts. */
  method PrintOptions(m: seq<byte>, at: nat, bootFile: seq<byte>) returns (items: seq<Item>, p: nat)
    requires Walkable(m, at)
    ensures items == Walk(m, at, bootFile) && p == Starts(m, at)[|Starts(m, at)| - 1]
  {
    hide OptionReadable, Advance, Printed, Scratch;
    p := at;
    items := [];
    var strTmp := bootFile;
    ghost var all, last := Walk(m, at, bootFile), Starts(m, at)[|Starts(m, at)| - 1];
    while m[p] != END
      invariant Walkable(m, p)
      invariant items + Walk(m, p, strTmp) == all
      invariant Starts(m, p)[|Starts(m, p)| - 1] == last
      decreases |m| - p
    {
      ghost var left := Walk(m, p + Advance(m, p), Scratch(m, p, strTmp));
      ghost var before := items;
      var more, next, tmp := PrintOption(m, p, strTmp);
      items := items + more;
      p, strTmp := next, tmp;
      assert items + left == before + (more + left);
    }
  }

  // ---------------------------------------------------------------- the options by their numbers

  lemma {:induction false} AddressAt(m: seq<byte>, q: nat, stride: nat, k: nat, j: nat)
    requires (stride == 4 || stride == 5) && AddressesFit(m, q, stride, k) && j < k
    ensures j < |Addresses(m, q, stride, k)| && q + stride * j + 4 <= |m|
    ensures Addresses(m, q, stride, k)[j] == m[q + stride * j..q + stride * j + 4]
    decreases k
  {
    AddressCount(m, q, stride, k);
    if j > 0 {
      AddressAt(m, q + stride, stride, k - 1, j - 1);
      assert q + stride + stride * (j - 1) == q + stride * j;
      assert Addresses(m, q, stride, k)[j] == Addresses(m, q + stride, stride, k - 1)[j - 1];
    }
  }

  /** How far each option moves the cursor. Options 3 and 6 count their addresses by length / 4, rounded up; an
      address of option 3 takes 5 bytes. */
  lemma AdvanceIs(m: seq<byte>, p: nat)
    requires OptionReadable(m, p)
    ensures m[p] != 0 ==> p + 1 < |m|
    ensures Advance(m, p) == match m[p]
      case 0 => 1
      case 53 => 3
      case 1 | 50 | 51 | 54 => 6
      case 61 => if m[p + 2] == 1 then 9 else 2 + m[p + 1] as int
      case 3 => 1 + 5 * ((m[p + 1] as int + 3) / 4)
      case 6 => 2 + 4 * ((m[p + 1] as int + 3) / 4)
      case _ => 2 + m[p + 1] as int
  {
  }

  /** What is printed for each option: nothing for a pad; else one node with tag and length and below it the
      bytes shown. Only option 61 takes in the scratch string, only 12 and 60 leave something in it. */
  lemma PrintedIs(m: seq<byte>, p: nat, tmp: seq<byte>)
    requires OptionReadable(m, p)
    ensures m[p] == 0 ==> Printed(m, p, tmp) == [] && Scratch(m, p, tmp) == tmp
    ensures m[p] != 0 ==> p + 1 < |m|
    ensures m[p] != 0 ==>
      var len := m[p + 1];
      && Printed(m, p, tmp) == [Item(m[p], len, Values(m, p), if m[p] == 61 && m[p + 2] != 1 then tmp else [])]
      && (m[p] == 53 || m[p] == 51 ==> Values(m, p) == [[m[p + 2]]])
      && (m[p] == 1 || m[p] == 50 || m[p] == 54 ==> Values(m, p) == [m[p + 2..p + 6]])
      && (m[p] == 12 || m[p] == 60 ==> Values(m, p) == [m[p + 2..p + 2 + len]])
      && (m[p] == 61 ==> Values(m, p) == if m[p + 2] == 1 then [[1], m[p + 3..p + 9]] else [[m[p + 2]]])
      && (m[p] !in [1, 3, 6, 12, 50, 51, 53, 54, 60, 61] ==> Values(m, p) == [])
      && Scratch(m, p, tmp) == if (m[p] == 12 || m[p] == 60) && len > 0 then [m[p + 1 + len]] else tmp
  {
  }

  /** The addresses of option 3 are read 5 bytes apart, those of option 6 follow each other. */
  lemma AddressesAre(m: seq<byte>, p: nat, j: nat)
    requires OptionReadable(m, p) && (m[p] == 3 || m[p] == 6)
    ensures p + 1 < |m| && |Values(m, p)| == (m[p + 1] as int + 3) / 4
    ensures j < |Values(m, p)| ==>
      var q := p + 2 + (if m[p] == 3 then 5 else 4) * j;
      q + 4 <= |m| && Values(m, p)[j] == m[q..q + 4]
  {
    hide Addresses, AddressesFit;
    var stride, k := if m[p] == 3 then 5 else 4, Quads(m[p + 1]);
    AddressCount(m, p + 2, stride, k);
    if j < k {
      AddressAt(m, p + 2, stride, k, j);
    }
  }

  lemma {:induction false} AddressCount(m: seq<byte>, q: nat, stride: nat, k: nat)
    requires AddressesFit(m, q, stride, k)
    ensures |Addresses(m, q, stride, k)| == k
    decreases k
  {
    if k > 0 {
      AddressCount(m, q + stride, stride, k - 1);
    }
  }

  /** The walk goes from option to option and stops on the first 255 it meets. */
  lemma WalkIs(m: seq<byte>, p: nat, tmp: seq<byte>)
    requires Walkable(m, p)
    ensures m[p] == 255 ==> Walk(m, p, tmp) == [] && Starts(m, p) == [p]
    ensures m[p] != 255 ==>
      && OptionReadable(m, p) && Walkable(m, p + Advance(m, p))
      && Walk(m, p, tmp) == Printed(m, p, tmp) + Walk(m, p + Advance(m, p), Scratch(m, p, tmp))
      && Starts(m, p) == [p] + Starts(m, p + Advance(m, p))
  {
    hide OptionReadable, Advance, Printed, Scratch;
  }

  // ---------------------------------------------------------------- against the generic rule

  /** Section 2 of RFC 2132: a pad is one byte, any other option is tag, length and value. */
  function TlvSize(m: seq<byte>, p: nat): (n: nat)
    requires p < |m| && (m[p] != PAD ==> p + 1 < |m|)
    ensures n > 0
  {
    if m[p] == PAD then 1 else 2 + m[p + 1] as int
  }

  predicate TlvWalkable(m: seq<byte>, p: nat)
    decreases |m| - p
  {
    p < |m| && (m[p] != END ==> (m[p] != PAD ==> p + 1 < |m|) && TlvWalkable(m, p + TlvSize(m, p)))
  }

  function TlvStarts(m: seq<byte>, p: nat): (s: seq<nat>)
    requires TlvWalkable(m, p)
    ensures s != [] && s[0] == p
    decreases |m| - p
  {
    if m[p] == END then [p] else [p] + TlvStarts(m, p + TlvSize(m, p))
  }

  /** The length condition of the option at `p`: the lengths for which its own code is right. */
  predicate LengthOK(m: seq<byte>, p: nat)
    requires p + 2 < |m| || (p < |m| && m[p] == PAD)
  {
    m[p] != PAD ==>
      var len := m[p + 1];
      if m[p] == DHCP_MESSAGE_TYPE then len == 1
      else if HasOneAddress(m[p]) || m[p] == IP_ADDRESS_LEASE_TIME || m[p] == ROUTER then len == 4
      else if m[p] == CLIENT_IDENTIFIER then m[p + 2] == 1 ==> len == 7
      else if m[p] == DOMAIN_NAME_SERVER then len % 4 == 0
      else true
  }

  /** One special-cased advance equals the generic one, 1 for a pad and 2 + length otherwise, exactly under the
      option's length condition. */
  lemma AdvanceIsTlvIff(m: seq<byte>, p: nat)
    requires OptionReadable(m, p) && (p + 2 < |m| || m[p] == 0)
    ensures Advance(m, p) == TlvSize(m, p) <==> LengthOK(m, p)
    ensures m[p] == 0 ==> TlvSize(m, p) == 1 && LengthOK(m, p)
    ensures m[p] != 0 ==> TlvSize(m, p) == 2 + m[p + 1] as int && (LengthOK(m, p) <==>
      match m[p]
      case 53 => m[p + 1] == 1
      case 1 | 3 | 50 | 51 | 54 => m[p + 1] == 4
      case 61 => m[p + 2] == 1 ==> m[p + 1] == 7
      case 6 => m[p + 1] % 4 == 0
      case _ => true)
  {
  }

  /** Along the generic walk, every option meets its length condition. */
  predicate AllConform(m: seq<byte>, p: nat)
    requires TlvWalkable(m, p)
    decreases |m| - p
  {
    m[p] != END ==>
      assert TlvWalkable(m, p + TlvSize(m, p));
      LengthOK(m, p) && AllConform(m, p + TlvSize(m, p))
  }

  lemma RoomForLength(m: seq<byte>, p: nat)
    requires TlvWalkable(m, p) && m[p] != END
    ensures p + 2 < |m| || m[p] == PAD
  {
    assert TlvWalkable(m, p + TlvSize(m, p));
  }

  /** On an area the generic rule can walk, an option that meets its condition is read inside it. */
  lemma ConformingIsReadable(m: seq<byte>, p: nat)
    requires p < |m| && m[p] != END && (m[p] != PAD ==> p + 1 < |m|) && p + TlvSize(m, p) < |m|
    requires LengthOK(m, p)
    ensures OptionReadable(m, p)
  {
    if m[p] == DOMAIN_NAME_SERVER {
      var len := m[p + 1];
      assert Quads(len) * 4 == len;
      FitWithin(m, p + 2, 4, Quads(len));
    } else if m[p] == ROUTER {
      assert AddressesFit(m, p + 2 + 5, 5, 0);
      assert AddressesFit(m, p + 2, 5, 1);
    }
  }

  lemma {:induction false} FitWithin(m: seq<byte>, q: nat, stride: nat, k: nat)
    requires stride == 4 && q + 4 * k <= |m|
    ensures AddressesFit(m, q, stride, k)
    decreases k
  {
    if k > 0 {
      FitWithin(m, q + stride, stride, k - 1);
    }
  }

  /** One turn of the walk. */
  lemma WalkStep(m: seq<byte>, p: nat, tmp: seq<byte>)
    requires p < |m| && m[p] != END && OptionReadable(m, p)
    ensures Walkable(m, p) <==> Walkable(m, p + Advance(m, p))
    ensures Walkable(m, p) ==>
      && Walk(m, p, tmp) == Printed(m, p, tmp) + Walk(m, p + Advance(m, p), Scratch(m, p, tmp))
      && Starts(m, p) == [p] + Starts(m, p + Advance(m, p))
  {
  }

  /** One turn of the generic walk. */
  lemma TlvStep(m: seq<byte>, p: nat)
    requires TlvWalkable(m, p) && m[p] != END
    ensures TlvWalkable(m, p + TlvSize(m, p))
    ensures TlvStarts(m, p) == [p] + TlvStarts(m, p + TlvSize(m, p))
    ensures p + 2 < |m| || m[p] == PAD
    ensures AllConform(m, p) <==> LengthOK(m, p) && AllConform(m, p + TlvSize(m, p))
  {
    RoomForLength(m, p);
  }

  /** If every option meets its condition, the special-cased walk stays inside the area and visits
      exactly the places the generic rule visits. */
  lemma {:induction false} WalkRefinesTlv(m: seq<byte>, p: nat)
    requires TlvWalkable(m, p) && AllConform(m, p)
    ensures Walkable(m, p) && Starts(m, p) == TlvStarts(m, p)
    decreases |m| - p
  {
    hide OptionReadable, Advance, LengthOK, TlvSize, Starts, TlvStarts, AllConform, Printed, Walk;
    if m[p] == END {
      AtEnd(m, p, []);
    } else {
      TlvStep(m, p);
      WalkRefinesTlv(m, p + TlvSize(m, p));
      ConformingIsReadable(m, p);
      AdvanceIsTlvIff(m, p);
      WalkStep(m, p, []);
    }
  }

  /** And only then: on any area both can walk, one option off its condition makes them part. */
  lemma {:induction false} WalkRefinesTlvIff(m: seq<byte>, p: nat)
    requires TlvWalkable(m, p) && Walkable(m, p)
    ensures Starts(m, p) == TlvStarts(m, p) <==> AllConform(m, p)
    decreases |m| - p
  {
    hide OptionReadable, Advance, LengthOK, TlvSize, AllConform, Printed, Walk, Starts, TlvStarts;
    if m[p] == END {
      AtEnd(m, p, []);
    } else {
      TlvStep(m, p);
      WalkableStep(m, p);
      AdvanceIsTlvIff(m, p);
      WalkStep(m, p, []);
      var s, t := Starts(m, p + Advance(m, p)), TlvStarts(m, p + TlvSize(m, p));
      if LengthOK(m, p) {
        WalkRefinesTlvIff(m, p + TlvSize(m, p));
        assert ([p] + s)[1..] == s && ([p] + t)[1..] == t;
      } else {
        assert ([p] + s)[1] == s[0] && ([p] + t)[1] == t[0];
      }
    }
  }

  lemma AtEnd(m: seq<byte>, p: nat, tmp: seq<byte>)
    requires p < |m| && m[p] == END
    ensures Walkable(m, p) && Walk(m, p, tmp) == [] && Starts(m, p) == [p]
    ensures TlvWalkable(m, p) && TlvStarts(m, p) == [p] && AllConform(m, p)
  {
  }

  lemma WalkableStep(m: seq<byte>, p: nat)
    requires Walkable(m, p) && m[p] != END
    ensures OptionReadable(m, p) && Walkable(m, p + Advance(m, p))
  {
  }

  // ---------------------------------------------------------------- round trip

  datatype Opt = Pad | Opt(tag: byte, value: seq<byte>)

  /** The options a sender may put in so that each special case is right. Section 9.14 of RFC 2132
      gives a client identifier a minimum length, so it is never empty. */
  ghost predicate ValidOpt(o: Opt) {
    o.Opt? ==>
      var len := |o.value|;
      o.tag != PAD && o.tag != END && len <= 255 &&
      if o.tag == DHCP_MESSAGE_TYPE then len == 1
      else if HasOneAddress(o.tag) || o.tag == IP_ADDRESS_LEASE_TIME || o.tag == ROUTER then len == 4
      else if o.tag == CLIENT_IDENTIFIER then len >= 1 && (o.value[0] == 1 ==> len == 7)
      else if o.tag == DOMAIN_NAME_SERVER then len % 4 == 0
      else true
  }

  ghost function EncodeOpt(o: Opt): (e: seq<byte>)
    requires ValidOpt(o)
    ensures e != []
  {
    match o
    case Pad => [PAD]
    case Opt(tag, value) => var len: byte := |value|; [tag, len] + value
  }

  ghost function EncodeOpts(opts: seq<Opt>): seq<byte>
    requires forall o :: o in opts ==> ValidOpt(o)
  {
    if opts == [] then [] else EncodeOpt(opts[0]) + EncodeOpts(opts[1..])
  }

  function Quarters(value: seq<byte>): seq<seq<byte>>
    requires |value| % 4 == 0
  {
    if value == [] then [] else [value[..4]] + Quarters(value[4..])
  }

  /** The lines printed for a valid option, from its value alone. */
  function Lines(tag: byte, value: seq<byte>): seq<seq<byte>>
    requires ValidOpt(Opt(tag, value))
  {
    if tag == DHCP_MESSAGE_TYPE || HasOneAddress(tag) || HasText(tag) || tag == ROUTER then [value]
    else if tag == DOMAIN_NAME_SERVER then Quarters(value)
    else if tag == IP_ADDRESS_LEASE_TIME then [value[..1]]
    else if tag == CLIENT_IDENTIFIER then if value[0] == 1 then [[1], value[1..]] else [value[..1]]
    else []
  }

  /** What is appended to them: only a client identifier that is not of type 1 takes the scratch string. */
  function Appended(tag: byte, value: seq<byte>, tmp: seq<byte>): seq<byte>
    requires ValidOpt(Opt(tag, value))
  {
    if tag == CLIENT_IDENTIFIER && value[0] != 1 then tmp else []
  }

  function ReportedOne(o: Opt, tmp: seq<byte>): seq<Item>
    requires ValidOpt(o)
  {
    match o
    case Pad => []
    case Opt(tag, value) => [Item(tag, |value|, Lines(tag, value), Appended(tag, value, tmp))]
  }

  /** The option leaves the last character of its text. */
  function LeftBy(o: Opt, tmp: seq<byte>): seq<byte> {
    if o.Opt? && HasText(o.tag) && o.value != [] then o.value[|o.value| - 1..] else tmp
  }

  ghost function Reported(opts: seq<Opt>, tmp: seq<byte>): seq<Item>
    requires forall o :: o in opts ==> ValidOpt(o)
    decreases |opts|
  {
    if opts == [] then []
    else
      assert ValidOpt(opts[0]);
      ReportedOne(opts[0], tmp) + Reported(opts[1..], LeftBy(opts[0], tmp))
  }

  /** The running sums of the encoded sizes from `p` on: each byte belongs to exactly one option. */
  ghost function Offsets(p: nat, opts: seq<Opt>): seq<nat>
    requires forall o :: o in opts ==> ValidOpt(o)
    decreases |opts|
  {
    if opts == [] then [p] else [p] + Offsets(p + |EncodeOpt(opts[0])|, opts[1..])
  }

  lemma {:induction false} AddressesAreQuarters(m: seq<byte>, q: nat, value: seq<byte>)
    requires |value| % 4 == 0 && q + |value| <= |m| && m[q..q + |value|] == value
    ensures AddressesFit(m, q, 4, |value| / 4) && Addresses(m, q, 4, |value| / 4) == Quarters(value)
    decreases |value|
  {
    if value != [] {
      assert m[q..q + 4] == m[q..q + |value|][..4];
      assert m[q + 4..q + |value|] == m[q..q + |value|][4..];
      AddressesAreQuarters(m, q + 4, value[4..]);
      assert |value[4..]| / 4 == |value| / 4 - 1;
    }
  }

  /** Tag, length and value of an encoded option, where the code reads them. */
  lemma EncodedAt(m: seq<byte>, p: nat, tag: byte, value: seq<byte>)
    requires ValidOpt(Opt(tag, value))
    requires var e := EncodeOpt(Opt(tag, value)); p + |e| < |m| && m[p..p + |e|] == e
    ensures p + 2 + |value| < |m| && m[p] == tag && m[p + 1] == |value|
    ensures m[p + 2..p + 2 + |value|] == value && |EncodeOpt(Opt(tag, value))| == 2 + |value|
    ensures value != [] ==> m[p + 2] == value[0] && m[p + 1 + |value|] == value[|value| - 1]
  {
    hide ValidOpt;
    var e := EncodeOpt(Opt(tag, value));
    Pieces(m, p, [e[0], e[1]], value);
    assert [e[0], e[1]] == m[p..p + 2];
  }

  /** The walk over one encoded option. */
  lemma OptionRoundTrip(m: seq<byte>, p: nat, o: Opt, tmp: seq<byte>)
    requires ValidOpt(o) && p + |EncodeOpt(o)| < |m| && m[p..p + |EncodeOpt(o)|] == EncodeOpt(o)
    ensures OptionReadable(m, p) && Advance(m, p) == |EncodeOpt(o)| && m[p] != END
    ensures Printed(m, p, tmp) == ReportedOne(o, tmp) && Scratch(m, p, tmp) == LeftBy(o, tmp)
  {
    if o.Pad? {
      assert m[p] == m[p..p + 1][0];
    } else {
      EncodedAt(m, p, o.tag, o.value);
      ValueRoundTrip(m, p, o.tag, o.value, tmp);
    }
  }

  /** The value of an encoded option lies at `p`, behind its tag and its length. */
  ghost predicate OptionAt(m: seq<byte>, p: nat, tag: byte, value: seq<byte>) {
    && ValidOpt(Opt(tag, value))
    && p + 2 + |value| < |m| && m[p] == tag && m[p + 1] == |value| && m[p + 2..p + 2 + |value|] == value
    && (value != [] ==> m[p + 2] == value[0] && m[p + 1 + |value|] == value[|value| - 1])
  }

  lemma ValueRoundTrip(m: seq<byte>, p: nat, tag: byte, value: seq<byte>, tmp: seq<byte>)
    requires OptionAt(m, p, tag, value)
    ensures OptionReadable(m, p) && Advance(m, p) == 2 + |value|
    ensures Printed(m, p, tmp) == ReportedOne(Opt(tag, value), tmp)
    ensures Scratch(m, p, tmp) == LeftBy(Opt(tag, value), tmp)
  {
    hide EncodeOpt, Values, Lines, Advance, OptionReadable;
    ValuesRoundTrip(m, p, tag, value);
    if HasText(tag) && value != [] {
      assert [value[|value| - 1]] == value[|value| - 1..];
    }
  }

  lemma ValuesRoundTrip(m: seq<byte>, p: nat, tag: byte, value: seq<byte>)
    requires OptionAt(m, p, tag, value)
    ensures OptionReadable(m, p) && Advance(m, p) == 2 + |value| && Values(m, p) == Lines(tag, value)
  {
    hide Addresses, AddressesFit, Quarters, EncodeOpt;
    if tag == DOMAIN_NAME_SERVER || tag == ROUTER {
      AddressesRoundTrip(m, p, tag, value);
    } else if value != [] {
      assert [value[0]] == value[..1] && (|value| == 1 ==> value[..1] == value);
      if tag == CLIENT_IDENTIFIER && value[0] == 1 {
        assert m[p + 3..p + 9] == value[1..];
      }
    }
  }

  lemma AddressesRoundTrip(m: seq<byte>, p: nat, tag: byte, value: seq<byte>)
    requires OptionAt(m, p, tag, value) && (tag == DOMAIN_NAME_SERVER || tag == ROUTER)
    ensures var stride := if tag == ROUTER then 5 else 4;
      && AddressesFit(m, p + 2, stride, Quads(|value|))
      && Addresses(m, p + 2, stride, Quads(|value|)) == (if tag == ROUTER then [value] else Quarters(value))
      && 4 * Quads(|value|) == |value|
  {
    if tag == DOMAIN_NAME_SERVER {
      AddressesAreQuarters(m, p + 2, value);
      assert Quads(|value|) == |value| / 4;
    } else {
      assert AddressesFit(m, p + 7, 5, 0) && Addresses(m, p + 7, 5, 0) == [];
      assert AddressesFit(m, p + 2, 5, 1) && Addresses(m, p + 2, 5, 1) == [value];
    }
  }

  /** Any list of valid options with any pads, followed by END, wherever it lies: the walk reports the
      same tags, lengths and lines in order, stops on that END, and its places are the running sums
      of the encoded sizes. */
  lemma {:induction false} DhcpRoundTrip(m: seq<byte>, p: nat, opts: seq<Opt>, bootFile: seq<byte>)
    requires forall o :: o in opts ==> ValidOpt(o)
    requires p + |EncodeOpts(opts)| < |m| && m[p..p + |EncodeOpts(opts)|] == EncodeOpts(opts)
    requires m[p + |EncodeOpts(opts)|] == END
    ensures Walkable(m, p) && Walk(m, p, bootFile) == Reported(opts, bootFile)
    ensures Starts(m, p) == Offsets(p, opts)
    decreases |opts|
  {
    hide OptionReadable, Advance, Printed, EncodeOpt, Lines, ValidOpt, Walk, Starts, Walkable, EncodeOpts, Reported,
      Offsets, Scratch, LeftBy;
    if opts == [] {
      NoOpts(p, bootFile);
      AtEnd(m, p, bootFile);
    } else {
      var o, rest := opts[0], opts[1..];
      OptsStep(p, opts, bootFile);
      Pieces(m, p, EncodeOpt(o), EncodeOpts(rest));
      OptionRoundTrip(m, p, o, bootFile);
      DhcpRoundTrip(m, p + |EncodeOpt(o)|, rest, LeftBy(o, bootFile));
      WalkStep(m, p, bootFile);
    }
  }

  lemma OptsStep(p: nat, opts: seq<Opt>, tmp: seq<byte>)
    requires opts != [] && forall o :: o in opts ==> ValidOpt(o)
    ensures ValidOpt(opts[0]) && forall o :: o in opts[1..] ==> ValidOpt(o)
    ensures EncodeOpts(opts) == EncodeOpt(opts[0]) + EncodeOpts(opts[1..])
    ensures Reported(opts, tmp) == ReportedOne(opts[0], tmp) + Reported(opts[1..], LeftBy(opts[0], tmp))
    ensures Offsets(p, opts) == [p] + Offsets(p + |EncodeOpt(opts[0])|, opts[1..])
  {
  }

  lemma NoOpts(p: nat, tmp: seq<byte>)
    ensures EncodeOpts([]) == [] && Reported([], tmp) == [] && Offsets(p, []) == [p]
  {
  }

  /** The last place is behind all the options. */
  lemma {:induction false} OffsetsEnd(p: nat, opts: seq<Opt>)
    requires forall o :: o in opts ==> ValidOpt(o)
    ensures Offsets(p, opts) != [] && Offsets(p, opts)[|Offsets(p, opts)| - 1] == p + |EncodeOpts(opts)|
    decreases |opts|
  {
    hide ValidOpt, EncodeOpt, EncodeOpts, Offsets, Reported;
    if opts == [] {
      NoOpts(p, []);
    } else {
      OptsStep(p, opts, []);
      OffsetsEnd(p + |EncodeOpt(opts[0])|, opts[1..]);
    }
  }

  function Flat(lines: seq<seq<byte>>): seq<byte> {
    if lines == [] then [] else lines[0] + Flat(lines[1..])
  }

  lemma {:induction false} FlatQuarters(value: seq<byte>)
    requires |value| % 4 == 0
    ensures Flat(Quarters(value)) == value
    decreases |value|
  {
    if value != [] {
      FlatQuarters(value[4..]);
    }
  }

  /** Which options are shown in full: the special-cased ones, except the lease time, of which only the
      first byte appears, and the client identifier of another hardware type, of which the first byte and
      the scratch string appear. */
  lemma ShownInFullIff(tag: byte, value: seq<byte>, tmp: seq<byte>)
    requires ValidOpt(Opt(tag, value))
    ensures Flat(Lines(tag, value)) + Appended(tag, value, tmp) == value <==>
      (tag in [1, 3, 6, 12, 50, 53, 54, 60]
       || (tag == 61 && (value[0] == 1 || value[1..] == tmp))
       || value == [])
  {
    var lines := Lines(tag, value);
    if tag == DOMAIN_NAME_SERVER {
      FlatQuarters(value);
    } else if |lines| == 1 {
      assert Flat(lines) == lines[0] + Flat([]);
      if tag == CLIENT_IDENTIFIER {
        assert value == value[..1] + value[1..];
        assert (value[..1] + tmp)[1..] == tmp;
      }
    } else if |lines| == 2 {
      assert lines[1..] == [value[1..]];
      assert Flat([value[1..]]) == value[1..] + Flat([]);
      assert Flat(lines) == [1] + value[1..] == value;
    }
  }

  /** The scratch string after a list of options. */
  function LeftOver(opts: seq<Opt>, tmp: seq<byte>): seq<byte> {
    if opts == [] then tmp else LeftOver(opts[1..], LeftBy(opts[0], tmp))
  }

  /** A client identifier of another type is printed without foreign text exactly when the boot file name
      is empty and no text option with a value comes before it. */
  lemma {:induction false} NothingLeftIff(opts: seq<Opt>, tmp: seq<byte>)
    ensures LeftOver(opts, tmp) == [] <==>
      tmp == [] && forall o :: o in opts && o.Opt? && HasText(o.tag) ==> o.value == []
  {
    if opts != [] {
      NothingLeftIff(opts[1..], LeftBy(opts[0], tmp));
      assert opts == [opts[0]] + opts[1..];
    }
  }

  /** The host name "ab" and a client identifier of type 2: the b is shown behind the type. */
  lemma ForeignText() returns (m: seq<byte>)
    ensures m == [12, 2, 97, 98, 61, 1, 2, 255] && Walkable(m, 0)
    ensures Walk(m, 0, []) == [Item(12, 2, [[97, 98]], []), Item(61, 1, [[2]], [98])]
  {
    m := [HOST_NAME, 2, 97, 98, CLIENT_IDENTIFIER, 1, 2, END];
    hide OptionReadable, Advance, Printed, Scratch, Walk, Walkable, Starts;
    HostAndId(m);
    AtEnd(m, 7, [98]);
    WalkStep(m, 4, [98]);
    WalkStep(m, 0, []);
  }

  lemma HostAndId(m: seq<byte>)
    requires m == [HOST_NAME, 2, 97, 98, CLIENT_IDENTIFIER, 1, 2, END]
    ensures OptionReadable(m, 0) && Advance(m, 0) == 4 && Scratch(m, 0, []) == [98]
    ensures Printed(m, 0, []) == [Item(HOST_NAME, 2, [[97, 98]], [])]
    ensures OptionReadable(m, 4) && Advance(m, 4) == 3 && Scratch(m, 4, [98]) == [98]
    ensures Printed(m, 4, [98]) == [Item(CLIENT_IDENTIFIER, 1, [[2]], [98])]
  {
    hide Addresses, AddressesFit;
    assert m[2..4] == [97, 98];
  }

  /** Two routers: the second address is read one byte late, and the loop goes on one byte late too. */
  lemma TwoRouters() returns (m: seq<byte>)
    ensures m == [3, 8, 10, 0, 0, 1, 10, 0, 0, 2, 255, 255]
    ensures Walkable(m, 0) && TlvWalkable(m, 0)
    ensures Walk(m, 0, []) == [Item(3, 8, [[10, 0, 0, 1], [0, 0, 2, 255]], [])]
    ensures Starts(m, 0) == [0, 11] && TlvStarts(m, 0) == [0, 10]
  {
    m := [ROUTER, 8, 10, 0, 0, 1, 10, 0, 0, 2, END, END];
    assert Quads(8) == 2;
    assert AddressesFit(m, 12, 5, 0);
    assert AddressesFit(m, 7, 5, 1);
    assert m[2..6] == [10, 0, 0, 1] && m[7..11] == [0, 0, 2, END];
    assert Addresses(m, 12, 5, 0) == [];
    assert Addresses(m, 7, 5, 1) == [[0, 0, 2, END]];
    assert Addresses(m, 2, 5, 2) == [[10, 0, 0, 1], [0, 0, 2, END]];
    assert Advance(m, 0) == 11 && TlvSize(m, 0) == 10;
    AtEnd(m, 11, []);
    AtEnd(m, 10, []);
    WalkStep(m, 0, []);
    assert Printed(m, 0, []) + Walk(m, 11, []) == Printed(m, 0, []);
  }
}
