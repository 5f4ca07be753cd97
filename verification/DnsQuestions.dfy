/** The question section of a DNS message: the cursor loop of printDNSQuery and the encoding of
    section 4.1.2 of RFC 1035 that it undoes. */
module DnsQuestions {
  import opened Bytes
  import opened DnsName

  /** One line of the question tree. */
  datatype Shown = Shown(name: seq<byte>, qtype: nat, qclass: nat)

  datatype Question = Question(labels: seq<seq<byte>>, qtype: nat, qclass: nat)

  /** Every read for `n` questions from `p` on lies inside the message. */
  ghost predicate Readable(m: seq<byte>, p: nat, n: nat)
    decreases n
  {
    n > 0 ==> Terminated(m, p) && After(m, p) <= |m| && Readable(m, After(m, p), n - 1)
  }

  /** Where the question at `p` ends: behind name, NUL, type and class. */
  function After(m: seq<byte>, p: nat): nat
    requires Terminated(m, p)
  {
    p + StrLen(m, p) + 1 + 4
  }

  /** The question read at `p`. */
  function At(m: seq<byte>, p: nat): Shown
    requires Terminated(m, p) && After(m, p) <= |m|
  {
    var t := p + StrLen(m, p) + 1;
    Shown(Translate(CString(m, p)), BE16(m, t), BE16(m, t + 2))
  }

  function Questions(m: seq<byte>, p: nat, n: nat): seq<Shown>
    requires Readable(m, p, n)
    decreases n
  {
    if n == 0 then [] else [At(m, p)] + Questions(m, After(m, p), n - 1)
  }

  /** The cursor after `n` questions. */
  function Cursor(m: seq<byte>, p: nat, n: nat): nat
    requires Readable(m, p, n)
    decreases n
  {
    if n == 0 then p else Cursor(m, After(m, p), n - 1)
  }

  /** One turn of the loop: copy and translate the name, step over it, read type and class. */
  method PrintQuestion(m: seq<byte>, p: nat) returns (item: Shown, next: nat)
    requires Terminated(m, p) && After(m, p) <= |m|
    ensures item == At(m, p) && next == After(m, p)
  {
    var name := new byte[StrLen(m, p) + 1];
    TranslateInBuffer(name, m, p);
    next := p + StrLen(m, p) + 1;
    item := Shown(CString(name[..], 0), BE16(m, next), BE16(m, next + 2));
    next := next + 4;
  }

  /** printDNSQuery. With a parent node the source dereferences the query pointer unchecked. */
  method PrintDNSQuery(DNSQuery: array?<byte>, questions: nat, parentNode: bool) returns (items: seq<Shown>, r: int)
    requires questions < 65536
    requires if DNSQuery == null then !parentNode else Readable(DNSQuery[..], 0, questions)
    ensures DNSQuery == null ==> items == [] && r == -1
    ensures DNSQuery != null ==>
      items == Questions(DNSQuery[..], 0, questions) && r == Cursor(DNSQuery[..], 0, questions) + 1
  {
    hide Translate, StrLen, CString, At, After;
    items := [];
    if DNSQuery == null && !parentNode {
      return items, -1;
    }
    var m := DNSQuery[..];
    var p: nat := 0;
    ghost var all, last := Questions(m, 0, questions), Cursor(m, 0, questions);
    for queryNum := 0 to questions
      invariant Readable(m, p, questions - queryNum)
      invariant items + Questions(m, p, questions - queryNum) == all
      invariant Cursor(m, p, questions - queryNum) == last
    {
      ghost var before, left := items, Questions(m, After(m, p), questions - queryNum - 1);
      var item, next := PrintQuestion(m, p);
      assert Questions(m, p, questions - queryNum) == [item] + left;
      items := items + [item];
      p := next;
      assert items + left == before + ([item] + left);
    }
    r := p + 1;
  }

  // ---------------------------------------------------------------- round trip

  ghost predicate IsQuestion(q: Question) {
    IsName(q.labels) && q.qtype < 65536 && q.qclass < 65536
  }

  function Word(n: nat): seq<byte>
    requires n < 65536
  {
    [n / 256, n % 256]
  }

  ghost function EncodeQuestion(q: Question): seq<byte>
    requires IsQuestion(q)
  {
    Encode(q.labels) + [0] + Word(q.qtype) + Word(q.qclass)
  }

  ghost function EncodeAll(qs: seq<Question>): seq<byte>
    requires forall q :: q in qs ==> IsQuestion(q)
  {
    if qs == [] then [] else EncodeQuestion(qs[0]) + EncodeAll(qs[1..])
  }

  /** What a reader of the standard would show. */
  function Ideal(qs: seq<Question>): seq<Shown> {
    if qs == [] then [] else [Shown(Join(qs[0].labels), qs[0].qtype, qs[0].qclass)] + Ideal(qs[1..])
  }

  ghost predicate AllPlain(qs: seq<Question>) {
    forall q :: q in qs ==> Plain(q.labels)
  }

  lemma QuestionAt(m: seq<byte>, p: nat, q: Question)
    requires IsQuestion(q) && p + |EncodeQuestion(q)| <= |m|
    requires m[p..p + |EncodeQuestion(q)|] == EncodeQuestion(q)
    ensures Terminated(m, p) && After(m, p) == p + |EncodeQuestion(q)|
    ensures At(m, p) == Shown(Translate(Encode(q.labels)), q.qtype, q.qclass)
  {
    hide Translate, Encode;
    var e, c := EncodeQuestion(q), Encode(q.labels);
    var n := |c|;
    EncodeHasNoNul(q.labels);
    assert |e| == n + 5 && e[..n] == c && e[n] == 0;
    assert e[n + 1..n + 3] == Word(q.qtype) && e[n + 3..] == Word(q.qclass);
    forall i | 0 <= i < |e| ensures m[p + i] == e[i] {
      assert m[p + i] == m[p..p + |e|][i];
    }
    assert m[p..p + n] == e[..n];
    CStringOf(m, p, c);
    WordAt(m, p + n + 1, q.qtype);
    WordAt(m, p + n + 3, q.qclass);
  }

  lemma WordAt(m: seq<byte>, i: nat, w: nat)
    requires w < 65536 && i + 2 <= |m| && m[i] == Word(w)[0] && m[i + 1] == Word(w)[1]
    ensures BE16(m, i) == w
  {
  }

  /** Reading back any encoded question list, whatever surrounds it: all reads stay inside it, types
      and classes come back exactly, the cursor after the list is its end, and the names come back
      exactly when all labels are plain. */
  lemma {:induction false} QuestionsRoundTripIff(m: seq<byte>, p: nat, qs: seq<Question>)
    requires forall q :: q in qs ==> IsQuestion(q)
    requires p + |EncodeAll(qs)| <= |m| && m[p..p + |EncodeAll(qs)|] == EncodeAll(qs)
    ensures Readable(m, p, |qs|)
    ensures Cursor(m, p, |qs|) == p + |EncodeAll(qs)|
    ensures Questions(m, p, |qs|) == Ideal(qs) <==> AllPlain(qs)
    decreases |qs|
  {
    hide Encode, Translate, Join, Plain, EncodeQuestion, IsName, At, After, StrLen, CString, Questions, Ideal, Cursor,
      Readable, EncodeAll, AllPlain;
    if qs == [] {
      NoQuestions(m, p);
    } else {
      var q, rest, e := qs[0], qs[1..], EncodeQuestion(qs[0]);
      QuestionsStep(qs);
      Pieces(m, p, e, EncodeAll(rest));
      QuestionAt(m, p, q);
      QuestionsRoundTripIff(m, p + |e|, rest);
      ReadStep(m, p, |qs|);
      NameRoundTripIff(q.labels);
      HeadsAndTails(At(m, p), Questions(m, p + |e|, |rest|), Shown(Join(q.labels), q.qtype, q.qclass), Ideal(rest));
    }
  }

  lemma NoQuestions(m: seq<byte>, p: nat)
    ensures EncodeAll([]) == [] && Ideal([]) == [] && AllPlain([])
    ensures Readable(m, p, 0) && Questions(m, p, 0) == [] && Cursor(m, p, 0) == p
  {
  }

  lemma QuestionsStep(qs: seq<Question>)
    requires qs != [] && forall q :: q in qs ==> IsQuestion(q)
    ensures IsQuestion(qs[0]) && (forall q :: q in qs[1..] ==> IsQuestion(q))
    ensures EncodeAll(qs) == EncodeQuestion(qs[0]) + EncodeAll(qs[1..])
    ensures Ideal(qs) == [Shown(Join(qs[0].labels), qs[0].qtype, qs[0].qclass)] + Ideal(qs[1..])
    ensures AllPlain(qs) <==> Plain(qs[0].labels) && AllPlain(qs[1..])
  {
    hide EncodeQuestion, Plain, Join, IsQuestion;
    assert qs == [qs[0]] + qs[1..];
  }

  lemma ReadStep(m: seq<byte>, p: nat, n: nat)
    requires n > 0 && Terminated(m, p) && After(m, p) <= |m| && Readable(m, After(m, p), n - 1)
    ensures Readable(m, p, n) && Questions(m, p, n) == [At(m, p)] + Questions(m, After(m, p), n - 1)
    ensures Cursor(m, p, n) == Cursor(m, After(m, p), n - 1)
  {
    hide At, After;
  }

  lemma HeadsAndTails<T>(a: T, s: seq<T>, b: T, t: seq<T>)
    ensures [a] + s == [b] + t <==> a == b && s == t
  {
    if [a] + s == [b] + t {
      assert a == ([a] + s)[0] && s == ([a] + s)[1..];
    }
  }

  /** The cursor at question k is the sum of the first k encoded sizes. */
  lemma CursorAtQuestion(qs: seq<Question>, rest: seq<byte>, k: nat)
    requires (forall q :: q in qs ==> IsQuestion(q)) && k <= |qs|
    ensures Readable(EncodeAll(qs) + rest, 0, k)
    ensures Cursor(EncodeAll(qs) + rest, 0, k) == |EncodeAll(qs[..k])|
  {
    hide EncodeQuestion, Cursor, Readable;
    EncodeAllConcat(qs[..k], qs[k..]);
    assert qs == qs[..k] + qs[k..];
    var m, e := EncodeAll(qs) + rest, EncodeAll(qs[..k]);
    assert m[0..|e|] == e;
    QuestionsRoundTripIff(m, 0, qs[..k]);
  }

  lemma {:induction false} EncodeAllConcat(a: seq<Question>, b: seq<Question>)
    requires forall q :: q in a + b ==> IsQuestion(q)
    ensures (forall q :: q in a ==> IsQuestion(q)) && (forall q :: q in b ==> IsQuestion(q))
    ensures EncodeAll(a + b) == EncodeAll(a) + EncodeAll(b)
  {
    hide EncodeQuestion;
    assert forall q :: q in a ==> q in a + b;
    assert forall q :: q in b ==> q in a + b;
    if a == [] {
      assert a + b == b;
    } else {
      assert (a + b)[1..] == a[1..] + b;
      EncodeAllConcat(a[1..], b);
    }
  }
}
