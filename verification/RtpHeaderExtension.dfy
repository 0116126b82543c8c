/** One-byte RTP header extensions, section 4.2 of RFC 5285 (nxnet/rtp/rtp_header_extension.cpp). */
module RtpHeaderExtension {
  import opened Bytes
  import opened Sequences

  datatype Element = Element(id: byte, data: bytes)

  // ---------------------------------------------------------------- specification

  predicate Acceptable(id: byte, data: bytes) {
    1 <= id <= 14 && 1 <= |data| <= 16
  }

  predicate AllAcceptable(es: seq<Element>) {
    forall i | 0 <= i < |es| :: Acceptable(es[i].id, es[i].data)
  }

  function ElementBytes(e: Element): (s: bytes)
    requires Acceptable(e.id, e.data)
    ensures |s| == 1 + |e.data|
  {
    [e.id * 16 + (|e.data| - 1)] + e.data
  }

  function Content(es: seq<Element>): bytes
    requires AllAcceptable(es)
  {
    if es == [] then [] else ElementBytes(es[0]) + Content(es[1..])
  }

  function ContentSize(es: seq<Element>): nat {
    if es == [] then 0 else ContentSize(es[..|es| - 1]) + 1 + |es[|es| - 1].data|
  }

  function PaddedSize(n: nat): nat {
    (n + 3) / 4 * 4
  }

  function SerializedSize(es: seq<Element>): nat {
    if es == [] then 0 else 4 + PaddedSize(ContentSize(es))
  }

  function Zeros(n: nat): (s: bytes)
    ensures |s| == n
  {
    seq(n, i => 0)
  }

  /** The extension data behind profile and length: elements, then zero padding to whole words. */
  function Body(es: seq<Element>): bytes
    requires AllAcceptable(es)
  {
    Content(es) + Zeros(PaddedSize(ContentSize(es)) - ContentSize(es))
  }

  /** The whole block; the 16-bit word count truncates. */
  function Serialized(es: seq<Element>): bytes
    requires AllAcceptable(es)
  {
    if es == [] then [] else
      [0xBE, 0xDE] + BE16(PaddedSize(ContentSize(es)) / 4 % 0x1_0000) + Body(es)
  }

  /** What parse_one_byte_extension makes of the rest of the data. */
  function Parsed(rest: bytes): seq<Element>
    decreases |rest|
  {
    if rest == [] then []
    else if rest[0] == 0 then Parsed(rest[1..])
    else
      var id, len := rest[0] / 16, rest[0] % 16 + 1;
      if id == 15 || 1 + len > |rest| then []
      else [Element(id, rest[1..1 + len])] + Parsed(rest[1 + len..])
  }

  // --------------------------------------------------------------- implementation

  class Builder {
    var elements: seq<Element>

    constructor ()
      ensures elements == []
    {
      elements := [];
    }

    /** Elements that RFC 5285 does not allow are ignored. */
    method Add(id: byte, data: bytes)
      requires AllAcceptable(elements)
      modifies this
      ensures AllAcceptable(elements)
      ensures elements == old(elements) + if Acceptable(id, data) then [Element(id, data)] else []
    {
      if id < 1 || id > 14 || data == [] || |data| > 16 {
        return;
      }
      elements := elements + [Element(id, data)];
    }

    method SizeWhenSerialized() returns (n: nat)
      ensures n == SerializedSize(elements)
    {
      if elements == [] {
        return 0;
      }
      var contentBytes := 0;
      for i := 0 to |elements|
        invariant contentBytes == ContentSize(elements[..i])
      {
        assert elements[..i + 1][..i] == elements[..i];
        contentBytes := contentBytes + 1 + |elements[i].data|;
      }
      assert elements[..|elements|] == elements;
      n := 4 + PaddedSize(contentBytes);
    }

    method AppendContent(packet: bytes) returns (longer: bytes)
      requires AllAcceptable(elements)
      ensures longer == packet + Content(elements)
    {
      hide ElementBytes;
      longer := packet;
      assert elements[..0] == [];
      for i := 0 to |elements|
        invariant longer == packet + Content(elements[..i])
      {
        ContentSnoc(elements[..i], elements[i]);
        assert elements[..i + 1] == elements[..i] + [elements[i]];
        assert packet + (Content(elements[..i]) + ElementBytes(elements[i]))
            == packet + Content(elements[..i]) + ElementBytes(elements[i]);
        longer := longer + ElementBytes(elements[i]);
      }
      assert elements[..|elements|] == elements;
    }

    /** Appends the extension block to a packet. */
    method Serialize(packet: bytes) returns (longer: bytes)
      requires AllAcceptable(elements)
      ensures longer == packet + Serialized(elements)
    {
      hide PaddedSize, Content, ContentSize, BE16;
      longer := packet;
      if elements == [] {
        return;
      }
      var size := SizeWhenSerialized();
      var padded := size - 4;
      var words := padded / 4;
      longer := longer + [0xBE, 0xDE] + BE16(words % 0x1_0000);
      longer := AppendContent(longer);
      ContentLength(elements);
      PaddedFacts(ContentSize(elements));
      var zeros := Zeros(|packet| + size - |longer|);
      longer := longer + zeros;
      ghost var front, content := [0xBE, 0xDE] + BE16(words % 0x1_0000), Content(elements);
      assert packet + [0xBE, 0xDE] + BE16(words % 0x1_0000) + content + zeros == packet + (front + (content + zeros));
    }
  }

  /** One turn of the parser loop, behind elements already found. */
  lemma ParsedStep(data: bytes, pos: nat, found: seq<Element>)
    requires pos <= |data|
    ensures pos == |data| ==> found + Parsed(data[pos..]) == found
    ensures pos < |data| ==>
              var len := data[pos] % 16 + 1;
              found + Parsed(data[pos..]) ==
              if data[pos] == 0 then found + Parsed(data[pos + 1..])
              else if data[pos] / 16 == 15 || pos + 1 + len > |data| then found
              else (found + [Element(data[pos] / 16, data[pos + 1..pos + 1 + len])]) + Parsed(data[pos + 1 + len..])
  {
    var rest := data[pos..];
    if pos < |data| {
      var len := data[pos] % 16 + 1;
      assert rest[0] == data[pos] && rest[1..] == data[pos + 1..];
      if pos + 1 + len <= |data| {
        assert rest[1..1 + len] == data[pos + 1..pos + 1 + len] && rest[1 + len..] == data[pos + 1 + len..];
      }
    }
  }

  method ParseOneByteExtension(data: bytes) returns (elements: seq<Element>)
    ensures elements == Parsed(data)
  {
    hide Parsed;
    elements := [];
    var pos := 0;
    assert data[0..] == data;
    assert elements + Parsed(data[0..]) == Parsed(data);
    while pos < |data|
      invariant pos <= |data|
      invariant elements + Parsed(data[pos..]) == Parsed(data)
    {
      ParsedStep(data, pos, elements);
      var header := data[pos];
      if header == 0 {
        pos := pos + 1;
        continue;
      }
      var id := header / 16;
      if id == 15 {
        return;
      }
      var len := header % 16 + 1;
      pos := pos + 1;
      if pos + len > |data| {
        return;
      }
      elements := elements + [Element(id, data[pos..pos + len])];
      pos := pos + len;
    }
    ParsedStep(data, pos, elements);
  }

  // -------------------------------------------------------------------- properties

  lemma PaddedFacts(n: nat)
    ensures n <= PaddedSize(n) < n + 4 && PaddedSize(n) % 4 == (4 + PaddedSize(n)) % 4 == 0
  {
  }

  lemma {:induction false} ContentSnoc(es: seq<Element>, e: Element)
    requires AllAcceptable(es) && Acceptable(e.id, e.data)
    ensures AllAcceptable(es + [e])
    ensures Content(es + [e]) == Content(es) + ElementBytes(e)
  {
    hide ElementBytes;
    if es == [] {
      assert [e][1..] == [];
      assert ElementBytes(e) + [] == ElementBytes(e);
    } else {
      assert (es + [e])[1..] == es[1..] + [e];
      ContentSnoc(es[1..], e);
      assert ElementBytes(es[0]) + (Content(es[1..]) + ElementBytes(e))
          == (ElementBytes(es[0]) + Content(es[1..])) + ElementBytes(e);
    }
  }

  lemma {:induction false} ContentLength(es: seq<Element>)
    requires AllAcceptable(es)
    ensures |Content(es)| == ContentSize(es)
  {
    if es != [] {
      var init, last := es[..|es| - 1], es[|es| - 1];
      assert es == init + [last];
      ContentSnoc(init, last);
      ContentLength(init);
    }
  }

  lemma {:induction false} ParsedZeros(n: nat)
    ensures Parsed(Zeros(n)) == []
  {
    if n > 0 {
      assert Zeros(n)[1..] == Zeros(n - 1);
      ParsedZeros(n - 1);
    }
  }

  /** Elements in front of anything are found first. */
  lemma {:induction false} ParsedBehind(es: seq<Element>, rest: bytes)
    requires AllAcceptable(es)
    ensures Parsed(Content(es) + rest) == es + Parsed(rest)
  {
    hide Parsed, ElementBytes;
    if es == [] {
      Empty(rest);
      Empty(Parsed(rest));
    } else {
      Assoc(ElementBytes(es[0]), Content(es[1..]), rest);
      ParsedElement(es[0], Content(es[1..]) + rest);
      ParsedBehind(es[1..], rest);
      Assoc([es[0]], es[1..], Parsed(rest));
      assert [es[0]] + es[1..] == es;
    }
  }

  /** Parsing the content of any acceptable elements, padded by any number of zeros, gives them back. */
  lemma ParsedContent(es: seq<Element>, padding: nat)
    requires AllAcceptable(es)
    ensures Parsed(Content(es) + Zeros(padding)) == es
  {
    hide Parsed;
    ParsedBehind(es, Zeros(padding));
    ParsedZeros(padding);
    Empty(es);
  }

  /** Zeros between elements are skipped; the identifier 15, and an element that is not all there, end the list. */
  lemma ParsedUpTo(es: seq<Element>, behind: bytes)
    requires AllAcceptable(es) && behind != []
    ensures behind[0] == 0 ==> Parsed(Content(es) + behind) == es + Parsed(behind[1..])
    ensures behind[0] / 16 == 15 ==> Parsed(Content(es) + behind) == es
    ensures behind[0] != 0 && |behind| < 2 + behind[0] % 16 ==> Parsed(Content(es) + behind) == es
  {
    hide Content;
    ParsedBehind(es, behind);
    Empty(es);
  }

  lemma ParsedElement(e: Element, rest: bytes)
    requires Acceptable(e.id, e.data)
    ensures Parsed(ElementBytes(e) + rest) == [e] + Parsed(rest)
  {
    hide Parsed;
    var header := e.id * 16 + (|e.data| - 1);
    var s := ElementBytes(e) + rest;
    assert header / 16 == e.id && header % 16 + 1 == |e.data|;
    Assoc([header], e.data, rest);
    Front([header], e.data + rest);
    assert [header][1..] == [] && s[0..] == s;
    Empty(e.data + rest);
    SplitTail(s, 1, e.data, rest);
    Empty(Parsed(s));
    ParsedStep(s, 0, []);
  }

  /** serialized_size tells the true size, in whole words. */
  lemma SerializedLength(es: seq<Element>)
    requires AllAcceptable(es)
    ensures |Serialized(es)| == SerializedSize(es) && |Serialized(es)| % 4 == 0
    ensures es != [] ==> |Body(es)| == PaddedSize(ContentSize(es))
  {
    hide PaddedSize, Body, ContentSize, Serialized;
    BodyLength(es);
    PaddedFacts(ContentSize(es));
    HeaderInFront(es);
  }

  /** Four bytes stand in front of the body. */
  lemma HeaderInFront(es: seq<Element>)
    requires AllAcceptable(es)
    ensures |Serialized(es)| == if es == [] then 0 else 4 + |Body(es)|
  {
    hide PaddedSize, Body, ContentSize, BE16;
  }

  lemma BodyLength(es: seq<Element>)
    requires AllAcceptable(es)
    ensures |Body(es)| == PaddedSize(ContentSize(es))
  {
    hide PaddedSize, Content, ContentSize;
    ContentLength(es);
    PaddedFacts(ContentSize(es));
  }
}
