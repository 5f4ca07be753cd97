/** The HTTP lines of the packet tree: printHTTP2TreeCtrl, whose two nested loops share one cursor. */
module HttpLines {
  import opened Bytes
  import opened Decode
  import opened PacketObject

  const CR: byte := 13

  /** The four characters \r\n that are printed behind every line. */
  const END_MARK: seq<byte> := [92, 114, 92, 110]

  // ---------------------------------------------------------------- the walk

  ghost predicate HasCR(m: seq<byte>, i: nat) {
    exists j :: i <= j < |m| && m[j] == CR
  }

  function LineEnd(m: seq<byte>, i: nat): (j: nat)
    requires HasCR(m, i)
    ensures i <= j < |m| && m[j] == CR
    ensures forall k :: i <= k < j ==> m[k] != CR
    decreases |m| - i
  {
    if m[i] == CR then i else LineEnd(m, i + 1)
  }

  /** Every byte the loops read lies in the memory. */
  ghost predicate Walkable(m: seq<byte>, p: nat, n: int)
    decreases n
  {
    n > 0 ==> HasCR(m, p) && Walkable(m, LineEnd(m, p) + 2, n - (LineEnd(m, p) + 2 - p))
  }

  function Lines(m: seq<byte>, p: nat, n: int): seq<seq<byte>>
    requires Walkable(m, p, n)
    decreases n
  {
    if n <= 0 then []
    else
      var e := LineEnd(m, p);
      [m[p..e] + END_MARK] + Lines(m, e + 2, n - (e + 2 - p))
  }

  /** Where the cursor ends. */
  function Stop(m: seq<byte>, p: nat, n: int): nat
    requires Walkable(m, p, n)
    decreases n
  {
    if n <= 0 then p else Stop(m, LineEnd(m, p) + 2, n - (LineEnd(m, p) + 2 - p))
  }

  lemma WalkStep(m: seq<byte>, p: nat, n: int)
    requires n > 0 && HasCR(m, p)
    ensures var e := LineEnd(m, p);
      && (Walkable(m, p, n) <==> Walkable(m, e + 2, n - (e + 2 - p)))
      && (Walkable(m, p, n) ==>
        && Lines(m, p, n) == [m[p..e] + END_MARK] + Lines(m, e + 2, n - (e + 2 - p))
        && Stop(m, p, n) == Stop(m, e + 2, n - (e + 2 - p)))
  {
  }

  /** Between two lines: `lines` are printed, the cursor is at `p`. */
  ghost predicate AtLine(m: seq<byte>, start: nat, n: int, lines: seq<seq<byte>>, p: nat) {
    var left := n - (p - start);
    && Walkable(m, start, n) && Walkable(m, p, left)
    && lines + Lines(m, p, left) == Lines(m, start, n)
    && Stop(m, p, left) == Stop(m, start, n)
  }

  lemma NextLine(m: seq<byte>, start: nat, n: int, lines: seq<seq<byte>>, p: nat)
    requires AtLine(m, start, n, lines, p) && p - start < n
    ensures HasCR(m, p)
    ensures AtLine(m, start, n, lines + [m[p..LineEnd(m, p)] + END_MARK], LineEnd(m, p) + 2)
  {
    hide Lines, Stop;
    var left, e := n - (p - start), LineEnd(m, p);
    WalkStep(m, p, left);
    var line, rest := m[p..e] + END_MARK, Lines(m, e + 2, left - (e + 2 - p));
    assert lines + ([line] + rest) == lines + [line] + rest;
  }

  lemma AtStart(m: seq<byte>, start: nat, n: int)
    requires Walkable(m, start, n)
    ensures AtLine(m, start, n, [], start)
  {
  }

  lemma AtEnd(m: seq<byte>, start: nat, n: int, lines: seq<seq<byte>>, p: nat)
    requires AtLine(m, start, n, lines, p) && p - start >= n
    ensures lines == Lines(m, start, n) && p == Stop(m, start, n)
  {
    assert lines + [] == lines;
  }

  /** The nested loops: at every turn of the outer one, `count` is the distance from the start. */
  method PrintLines(m: seq<byte>, start: nat, HTTPMsgLen: int) returns (lines: seq<seq<byte>>, p: nat, count: nat)
    requires Walkable(m, start, HTTPMsgLen)
    ensures lines == Lines(m, start, HTTPMsgLen)
    ensures p == Stop(m, start, HTTPMsgLen) == start + count
    ensures count >= HTTPMsgLen
  {
    hide AtLine, HasCR, END_MARK;
    lines, p, count := [], start, 0;
    AtStart(m, start, HTTPMsgLen);
    while count < HTTPMsgLen
      invariant p == start + count
      invariant AtLine(m, start, HTTPMsgLen, lines, p)
      decreases HTTPMsgLen - count
    {
      NextLine(m, start, HTTPMsgLen, lines, p);
      var strText := [];
      ghost var line, e := p, LineEnd(m, p);
      while m[p] != CR
        invariant line <= p <= e && p == start + count
        invariant strText == m[line..p]
        decreases e - p
      {
        strText := strText + [m[p]];
        p := p + 1;
        count := count + 1;
      }
      strText := strText + END_MARK;
      lines := lines + [strText];
      p := p + 2;
      count := count + 2;
    }
    AtEnd(m, start, HTTPMsgLen, lines, p);
  }

  /** The caption of the HTTP node; empty when neither port is 80. */
  function Caption(d: seq<byte>, tcp: nat): string
    requires tcp + 14 <= |d|
  {
    if BE16(d, tcp + 2) == PORT_HTTP then "HTTP (request)"
    else if BE16(d, tcp) == PORT_HTTP then "HTTP (response)"
    else ""
  }

  datatype Node = Node(caption: string, lines: seq<seq<byte>>)

  method PrintHTTP2TreeCtrl(pkt: Packet, hasParent: bool) returns (r: int, node: Option<Node>)
    requires pkt.Valid()
    requires !pkt.IsEmpty() && pkt.httpmsg.Some? && hasParent ==>
      pkt.tcph.Some? && InFrame(pkt.Stack(), pkt.Frame()) &&
      Walkable(pkt.pkt_data[..], pkt.httpmsg.value, L4PayloadLength(pkt.Stack(), pkt.Frame()))
    ensures pkt.IsEmpty() || pkt.httpmsg.None? || !hasParent ==> r == -1 && node == None
    ensures !pkt.IsEmpty() && pkt.httpmsg.Some? && hasParent ==>
      r == 0 && node == Some(Node(Caption(pkt.Frame(), pkt.tcph.value),
        Lines(pkt.pkt_data[..], pkt.httpmsg.value, L4PayloadLength(pkt.Stack(), pkt.Frame()))))
  {
    if pkt.IsEmpty() || pkt.httpmsg.None? || !hasParent {
      return -1, None;
    }
    var d := pkt.pkt_data[..pkt.header.value.caplen];
    var HTTPMsgLen := pkt.GetL4PayloadLength();
    var strText := "";
    if BE16(d, pkt.tcph.value + 2) == PORT_HTTP {
      strText := "HTTP (request)";
    } else if BE16(d, pkt.tcph.value) == PORT_HTTP {
      strText := "HTTP (response)";
    }
    var lines, p, count := PrintLines(pkt.pkt_data[..], pkt.httpmsg.value, HTTPMsgLen);
    return 0, Some(Node(strText, lines));
  }

  // ---------------------------------------------------------------- what it shows

  /** A line and the byte that is skipped behind its CR, LF in a well-formed message. */
  datatype Line = Line(text: seq<byte>, skipped: byte)

  predicate ProperLines(lines: seq<Line>) {
    forall k :: 0 <= k < |lines| ==> CR !in lines[k].text
  }

  function Encode(lines: seq<Line>): seq<byte> {
    if lines == [] then []
    else lines[0].text + [CR, lines[0].skipped] + Encode(lines[1..])
  }

  function Texts(lines: seq<Line>): seq<seq<byte>> {
    if lines == [] then [] else [lines[0].text + END_MARK] + Texts(lines[1..])
  }

  /** What may follow the last complete line: no CR, or one as its very last byte. */
  predicate IsRest(rest: seq<byte>) {
    CR !in rest || (CR !in rest[..|rest| - 1] && rest[|rest| - 1] == CR)
  }

  /** Every payload is a list of complete lines and a rest. */
  lemma {:induction false} Decompose(s: seq<byte>) returns (lines: seq<Line>, rest: seq<byte>)
    ensures ProperLines(lines) && IsRest(rest) && Encode(lines) + rest == s
    decreases |s|
  {
    if CR !in s {
      return [], s;
    }
    var e := LineEnd(s, 0);
    if e + 1 == |s| {
      return [], s;
    }
    var line, more := Line(s[..e], s[e + 1]), s[e + 2..];
    lines, rest := Decompose(more);
    EncodeCons(line, lines, rest);
    assert line.text + [CR, line.skipped] + more == s;
    lines := [line] + lines;
  }

  lemma EncodeCons(line: Line, lines: seq<Line>, rest: seq<byte>)
    ensures Encode([line] + lines) + rest == line.text + [CR, line.skipped] + (Encode(lines) + rest)
  {
    assert ([line] + lines)[1..] == lines;
  }

  /** The line at the cursor ends at its own CR. */
  lemma LineEndAt(m: seq<byte>, p: nat, text: seq<byte>)
    requires CR !in text && p + |text| < |m|
    requires m[p..p + |text|] == text && m[p + |text|] == CR
    ensures HasCR(m, p) && LineEnd(m, p) == p + |text|
  {
    forall k | p <= k < p + |text| ensures m[k] != CR {
      assert m[k] == text[k - p];
    }
  }

  /** Behind the last complete line: a rest sends the cursor past the end of the payload. */
  lemma RestWalk(m: seq<byte>, q: nat, rest: seq<byte>)
    requires IsRest(rest) && rest != [] && q + |rest| <= |m| && m[q..q + |rest|] == rest
    ensures Walkable(m, q, |rest|) <==> HasCR(m, q)
    ensures HasCR(m, q) ==> Lines(m, q, |rest|) == [m[q..LineEnd(m, q)] + END_MARK]
    ensures HasCR(m, q) ==> Stop(m, q, |rest|) > q + |rest|
  {
    forall k | q <= k < q + |rest| - 1 ensures m[k] != CR {
      assert rest[..|rest| - 1][k - q] == rest[k - q] == m[k];
    }
  }

  /** The loops on a payload of complete lines and a rest that starts at `p`. */
  ghost predicate Shows(m: seq<byte>, p: nat, lines: seq<Line>, rest: seq<byte>) {
    var n, q := |Encode(lines)| + |rest|, p + |Encode(lines)|;
    && (Walkable(m, p, n) <==> rest == [] || HasCR(m, q))
    && (Walkable(m, p, n) ==>
      && (Stop(m, p, n) == p + n <==> rest == [])
      && Lines(m, p, n) == Texts(lines) + if rest == [] then [] else [m[q..LineEnd(m, q)] + END_MARK])
  }

  lemma EncodeStep(lines: seq<Line>)
    requires lines != []
    ensures |Encode(lines)| == |lines[0].text| + 2 + |Encode(lines[1..])|
    ensures Texts(lines) == [lines[0].text + END_MARK] + Texts(lines[1..])
  {
  }

  lemma ShowsStep(m: seq<byte>, p: nat, lines: seq<Line>, rest: seq<byte>)
    requires lines != [] && HasCR(m, p) && m[p..LineEnd(m, p)] == lines[0].text
    requires Shows(m, LineEnd(m, p) + 2, lines[1..], rest)
    ensures Shows(m, p, lines, rest)
  {
    hide Walkable, Lines, Stop, HasCR, END_MARK, Encode, Texts, LineEnd;
    var n, q := |Encode(lines)| + |rest|, p + |Encode(lines)|;
    EncodeStep(lines);
    assert LineEnd(m, p) - p == |lines[0].text|;
    WalkStep(m, p, n);
    var first := [lines[0].text + END_MARK];
    var last := if rest == [] || !HasCR(m, q) then [] else [m[q..LineEnd(m, q)] + END_MARK];
    assert first + Texts(lines[1..]) + last == first + (Texts(lines[1..]) + last);
  }

  /** For every payload `Encode(lines) + rest`: the loops print its complete lines; they end exactly at its
      end if and only if there is no rest; a rest is printed as one more line that takes in whatever
      follows the payload, up to the next CR. */
  lemma {:induction false} HttpSplitIff(m: seq<byte>, p: nat, lines: seq<Line>, rest: seq<byte>)
    requires ProperLines(lines) && IsRest(rest)
    requires p + |Encode(lines) + rest| <= |m| && m[p..p + |Encode(lines) + rest|] == Encode(lines) + rest
    ensures Shows(m, p, lines, rest)
    decreases |lines|
  {
    hide Shows, Walkable, Lines, Stop;
    if lines == [] {
      assert Encode(lines) + rest == rest;
      ShowsRest(m, p, rest);
    } else {
      FirstLine(m, p, lines, rest);
      HttpSplitIff(m, LineEnd(m, p) + 2, lines[1..], rest);
      ShowsStep(m, p, lines, rest);
    }
  }

  lemma FirstLine(m: seq<byte>, p: nat, lines: seq<Line>, rest: seq<byte>)
    requires lines != [] && CR !in lines[0].text
    requires p + |Encode(lines) + rest| <= |m| && m[p..p + |Encode(lines) + rest|] == Encode(lines) + rest
    ensures HasCR(m, p) && m[p..LineEnd(m, p)] == lines[0].text
    ensures var e, more := LineEnd(m, p) + 2, Encode(lines[1..]) + rest;
      e + |more| <= |m| && m[e..e + |more|] == more
  {
    hide HasCR, LineEnd, Encode;
    EncodeCons(lines[0], lines[1..], rest);
    assert lines == [lines[0]] + lines[1..];
    LineThenMore(m, p, lines[0].text, [CR, lines[0].skipped], Encode(lines[1..]) + rest);
  }

  lemma LineThenMore(m: seq<byte>, p: nat, text: seq<byte>, pair: seq<byte>, more: seq<byte>)
    requires CR !in text && |pair| == 2 && pair[0] == CR
    requires p + |text + pair + more| <= |m| && m[p..p + |text + pair + more|] == text + pair + more
    ensures HasCR(m, p) && LineEnd(m, p) == p + |text| && m[p..LineEnd(m, p)] == text
    ensures var e := LineEnd(m, p) + 2; e + |more| <= |m| && m[e..e + |more|] == more
  {
    hide HasCR, LineEnd;
    Pieces(m, p, text + pair, more);
    Pieces(m, p, text, pair);
    var e := p + |text|;
    assert m[e] == m[e..e + 2][0];
    LineEndAt(m, p, text);
  }

  lemma ShowsRest(m: seq<byte>, p: nat, rest: seq<byte>)
    requires IsRest(rest) && p + |rest| <= |m| && m[p..p + |rest|] == rest
    ensures Shows(m, p, [], rest)
  {
    hide IsRest;
    if rest != [] {
      RestWalk(m, p, rest);
      if HasCR(m, p) {
        assert Texts([]) + [m[p..LineEnd(m, p)] + END_MARK] == [m[p..LineEnd(m, p)] + END_MARK];
      }
    }
  }

  /** A payload of well-formed lines prints as exactly these lines and is read to its last byte and no
      further: nothing in the result depends on the bytes behind it. */
  lemma HttpRoundTrip(before: seq<byte>, lines: seq<Line>, after: seq<byte>)
    requires ProperLines(lines)
    ensures var s, p := Encode(lines), |before|;
      && Walkable(before + s, p, |s|)
      && Walkable(before + s + after, p, |s|)
      && Lines(before + s + after, p, |s|) == Lines(before + s, p, |s|) == Texts(lines)
      && Stop(before + s + after, p, |s|) == p + |s|
  {
    var s, p := Encode(lines), |before|;
    assert s + [] == s;
    assert (before + s)[p..p + |s|] == s == (before + s + after)[p..p + |s|];
    HttpSplitIff(before + s, p, lines, []);
    HttpSplitIff(before + s + after, p, lines, []);
  }

  /** A frame that decodes to HTTP: its node has a caption, and when the bytes from the HTTP pointer to
      byte 14 + IP total length are well-formed lines, these are the lines of the node, and the link-layer
      padding behind that byte is neither needed nor read. */
  lemma HttpFrame(d: seq<byte>, lines: seq<Line>)
    requires Decodable(d) && Layer(d).httpmsg.Some? && ProperLines(lines)
    ensures |d| >= 18 && Layer(d).tcph.Some? && Layer(d).tcph.value + 14 <= |d|
    ensures Caption(d, Layer(d).tcph.value) != ""
    ensures var p, n := Layer(d).httpmsg.value, L4PayloadLength(Layer(d), d);
      var end := ETHERNET_HEADER_LENGTH + BE16(d, 16);
      p < end && (end <= |d| && d[p..end] == Encode(lines) ==>
        Walkable(d, p, n) && Walkable(d[..end], p, n) &&
        Lines(d, p, n) == Lines(d[..end], p, n) == Texts(lines) && Stop(d, p, n) == end)
  {
    hide Layer, Decodable, WellLayered, Encode, Texts, Lines, Stop, Walkable, Caption, BE16, ProperLines;
    HttpLength(d);
    HttpCaption(d);
    var p, end := Layer(d).httpmsg.value, ETHERNET_HEADER_LENGTH + BE16(d, 16);
    if end <= |d| && d[p..end] == Encode(lines) {
      LinesBetween(d, p, end, lines);
    }
  }

  lemma LinesBetween(d: seq<byte>, p: nat, end: nat, lines: seq<Line>)
    requires p <= end <= |d| && d[p..end] == Encode(lines) && ProperLines(lines)
    ensures Walkable(d, p, end - p) && Walkable(d[..end], p, end - p)
    ensures Lines(d, p, end - p) == Lines(d[..end], p, end - p) == Texts(lines) && Stop(d, p, end - p) == end
  {
    hide Encode, Texts, Lines, Stop, Walkable, ProperLines;
    HttpRoundTrip(d[..p], lines, d[end..]);
    Around(d, p, end);
  }

  /** And for every payload, split into its complete lines and a rest: the walk ends at byte 14 + IP total
      length if and only if there is no rest. With one it needs a CR behind the payload. */
  lemma HttpFrameIff(d: seq<byte>, lines: seq<Line>, rest: seq<byte>)
    requires Decodable(d) && Layer(d).httpmsg.Some? && ProperLines(lines) && IsRest(rest)
    requires var p, n := Layer(d).httpmsg.value, L4PayloadLength(Layer(d), d);
      0 <= n && p + n <= |d| && d[p..p + n] == Encode(lines) + rest
    ensures |d| >= 18
    ensures var p, n := Layer(d).httpmsg.value, L4PayloadLength(Layer(d), d);
      && (Walkable(d, p, n) <==> rest == [] || HasCR(d, p + |Encode(lines)|))
      && (Walkable(d, p, n) ==> (Stop(d, p, n) == ETHERNET_HEADER_LENGTH + BE16(d, 16) <==> rest == []))
  {
    hide Layer, Decodable, Encode, Lines, Stop, Walkable, IsRest, HasCR;
    HttpLength(d);
    HttpSplitIff(d, Layer(d).httpmsg.value, lines, rest);
  }

  /** A payload that ends in a body: the line A and the body B, with C and a CR behind the payload. The body
      is printed as a line that takes in the C. */
  lemma BodyRunsOn() returns (m: seq<byte>)
    ensures m == [65, 13, 10, 66, 67, 13] && Walkable(m, 0, 4)
    ensures Lines(m, 0, 4) == [[65, 92, 114, 92, 110], [66, 67, 92, 114, 92, 110]] && Stop(m, 0, 4) == 7
  {
    m := [65, CR, 10, 66, 67, CR];
    assert m[1] == CR && m[5] == CR;
    assert LineEnd(m, 0) == 1 && LineEnd(m, 3) == 5;
    assert m[0..1] + END_MARK == [65, 92, 114, 92, 110] && m[3..5] + END_MARK == [66, 67, 92, 114, 92, 110];
    WalkStep(m, 3, 1);
    WalkStep(m, 0, 4);
  }

  lemma Around(d: seq<byte>, p: nat, end: nat)
    requires p <= end <= |d|
    ensures d[..p] + d[p..end] == d[..end] && d[..end] + d[end..] == d
  {
  }

  lemma HttpLength(d: seq<byte>)
    requires Decodable(d) && Layer(d).httpmsg.Some?
    ensures |d| >= 18 && L4PayloadLength(Layer(d), d) > 0
    ensures Layer(d).httpmsg.value + L4PayloadLength(Layer(d), d) == ETHERNET_HEADER_LENGTH + BE16(d, 16)
  {
    DecodeLayering(d);
    HttpPayloadEnd(d);
  }

  /** Destination port 80 makes it a request; otherwise source port 80 a response. */
  lemma CaptionIs(d: seq<byte>)
    requires Decodable(d) && Layer(d).httpmsg.Some?
    ensures Layer(d).tcph.Some? && Layer(d).tcph.value + 14 <= |d|
    ensures var u := Layer(d).tcph.value;
      && Caption(d, u) == (if Word16(d, u + 2) == 80 then "HTTP (request)" else "HTTP (response)")
      && (Word16(d, u + 2) == 80 || Word16(d, u) == 80)
  {
    hide Layer, Decodable;
    EthernetIs(d);
    IPIs(d);
    if d[23] == 17 {
      UDPIs(d);
    } else {
      TCPIs(d);
    }
  }

  lemma HttpCaption(d: seq<byte>)
    requires Decodable(d) && Layer(d).httpmsg.Some?
    ensures Layer(d).tcph.Some? && Layer(d).tcph.value + 14 <= |d| && Caption(d, Layer(d).tcph.value) != ""
  {
  }
}
