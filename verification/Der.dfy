/** The part of the distinguished encoding rules of ASN.1 that a DigestInfo needs (clauses 8.1, 8.6 and
    8.19 of ITU-T X.690, section 9.2 of RFC 8017): elements with lengths below 128, object identifiers. */
module Der {
  import opened Bytes

  datatype Option<T> = None | Some(value: T)

  /** A tag and the contents behind its length octet. */
  datatype Element = Element(tag: byte, contents: seq<byte>)

  const OCTET_STRING: byte := 0x04
  const NULL: byte := 0x05
  const OBJECT_IDENTIFIER: byte := 0x06
  const SEQUENCE: byte := 0x30

  /** The elements an octet string consists of. */
  function Elements(s: seq<byte>): Option<seq<Element>>
    decreases |s|
  {
    if |s| == 0 then Some([])
    else if |s| < 2 || 128 <= s[1] || |s| < 2 + s[1] then None
    else
      match Elements(s[2 + s[1]..])
      case None => None
      case Some(rest) => Some([Element(s[0], s[2..2 + s[1]])] + rest)
  }

  /** Numbers in base 128, most significant octet first; the last octet of each is below 128. */
  function Base128(s: seq<byte>, high: nat): seq<nat>
    decreases |s|
  {
    if |s| == 0 then []
    else if 128 <= s[0] then Base128(s[1..], (high + s[0] - 128) * 128)
    else [high + s[0]] + Base128(s[1..], 0)
  }

  /** The arcs of an object identifier; the first number holds two of them. */
  function Arcs(s: seq<byte>): seq<nat> {
    var ids := Base128(s, 0);
    if |ids| == 0 then []
    else if ids[0] < 40 then [0, ids[0]] + ids[1..]
    else if ids[0] < 80 then [1, ids[0] - 40] + ids[1..]
    else [2, ids[0] - 80] + ids[1..]
  }

  /** A digest and the object identifier of its algorithm. */
  datatype Digest = Digest(algorithm: seq<nat>, octets: seq<byte>)

  /** DigestInfo ::= SEQUENCE { SEQUENCE { OBJECT IDENTIFIER, NULL }, OCTET STRING } */
  function ReadDigestInfo(t: seq<byte>): Option<Digest> {
    match Elements(t)
    case None => None
    case Some(whole) =>
      if |whole| != 1 || whole[0].tag != SEQUENCE then None
      else
        match Elements(whole[0].contents)
        case None => None
        case Some(parts) =>
          if |parts| != 2 || parts[0].tag != SEQUENCE || parts[1].tag != OCTET_STRING then None
          else
            match Elements(parts[0].contents)
            case None => None
            case Some(ids) =>
              if |ids| != 2 || ids[0].tag != OBJECT_IDENTIFIER || ids[1] != Element(NULL, []) then None
              else Some(Digest(Arcs(ids[0].contents), parts[1].contents))
  }

  /** The first element of an octet string. */
  lemma FirstElement(tag: byte, contents: seq<byte>, rest: seq<byte>, elements: seq<Element>)
    requires |contents| < 128 && Elements(rest) == Some(elements)
    ensures Elements([tag, |contents|] + contents + rest) == Some([Element(tag, contents)] + elements)
  {
    var s := [tag, |contents|] + contents + rest;
    Slices(tag, |contents|, contents, rest);
    Unfolded(s, contents, rest, elements);
  }

  lemma NoElement()
    ensures Elements([]) == Some([])
  {
  }

  lemma Slices(tag: byte, n: byte, contents: seq<byte>, rest: seq<byte>)
    requires |contents| == n
    ensures var s := [tag, n] + contents + rest;
      s[0] == tag && s[1] == n && s[2..2 + n] == contents && s[2 + n..] == rest
  {
  }

  lemma Unfolded(s: seq<byte>, contents: seq<byte>, rest: seq<byte>, elements: seq<Element>)
    requires 2 <= |s| && s[1] < 128 && s[1] == |contents| && 2 + |contents| <= |s|
    requires s[2..2 + s[1]] == contents && s[2 + s[1]..] == rest && Elements(rest) == Some(elements)
    ensures Elements(s) == Some([Element(s[0], contents)] + elements)
  {
  }

  /** One element and nothing behind it. */
  lemma OneElement(tag: byte, contents: seq<byte>)
    requires |contents| < 128
    ensures Elements([tag, |contents|] + contents) == Some([Element(tag, contents)])
  {
    var head, end, one := [tag, |contents|] + contents, [], [Element(tag, contents)];
    NoElement();
    hide Elements;
    FirstElement(tag, contents, end, []);
    assert head + end == head && one + [] == one;
  }

  /** Two elements. */
  lemma TwoElements(tag: byte, contents: seq<byte>, tag': byte, contents': seq<byte>)
    requires |contents| < 128 && |contents'| < 128
    ensures Elements([tag, |contents|] + contents + [tag', |contents'|] + contents') ==
            Some([Element(tag, contents), Element(tag', contents')])
  {
    hide Elements;
    var rest := [tag', |contents'|] + contents';
    OneElement(tag', contents');
    FirstElement(tag, contents, rest, [Element(tag', contents')]);
    var head := [tag, |contents|] + contents;
    Associated(head, [tag', |contents'|], contents');
    assert [Element(tag, contents)] + [Element(tag', contents')] == [Element(tag, contents), Element(tag', contents')];
  }

  lemma Associated(a: seq<byte>, b: seq<byte>, c: seq<byte>)
    ensures a + b + c == a + (b + c)
  {
  }

  /** What a DigestInfo put together from its parts reads as. */
  lemma DigestInfoReads(id: seq<byte>, digest: seq<byte>)
    requires |id| + |digest| < 118
    ensures ReadDigestInfo([0x30, |id| + |digest| + 8] + ([0x30, |id| + 4] + ([0x06, |id|] + id + [0x05, 0x00]) +
                                                          [0x04, |digest|] + digest)) ==
            Some(Digest(Arcs(id), digest))
  {
    hide Elements, Arcs;
    var none: seq<byte> := [];
    var ids := [0x06, |id|] + id + [0x05, 0x00];
    TwoElements(0x06, id, 0x05, none);
    assert [0x06, |id|] + id + [0x05, |none|] + none == ids;
    var parts := [0x30, |ids|] + ids + [0x04, |digest|] + digest;
    TwoElements(0x30, ids, 0x04, digest);
    OneElement(0x30, parts);
  }
}
