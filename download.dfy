/**
 * The download link of the proposal (bidWinner.py:296-297): the proposal text is
 * encoded as UTF-8 (`str.encode()`), the bytes as base64, and the result is placed in
 * a data-URL anchor.
 */
module Download {
  import opened Wrappers
  import opened Base64

  /** The UTF-8 encoding of one Unicode scalar value (RFC 3629, section 3). */
  function Utf8Char(c: char): (bs: seq<byte>)
    ensures 1 <= |bs| <= 4
    ensures (c as int < 0x80) == (bs == [c as int])
  {
    var n := c as int;
    if n < 0x80 then [n]
    else if n < 0x800 then [0xC0 + n / 0x40, 0x80 + n % 0x40]
    else if n < 0x1_0000 then [0xE0 + n / 0x1000, 0x80 + (n / 0x40) % 0x40, 0x80 + n % 0x40]
    else [0xF0 + n / 0x4_0000, 0x80 + (n / 0x1000) % 0x40, 0x80 + (n / 0x40) % 0x40, 0x80 + n % 0x40]
  }

  /** `s.encode()`: the UTF-8 bytes of a string. */
  function Utf8(s: string): (bs: seq<byte>)
    ensures |s| <= |bs| <= 4 * |s|
    decreases |s|
  {
    if s == [] then [] else Utf8Char(s[0]) + Utf8(s[1..])
  }

  predicate IsAscii(s: string) {
    forall i :: 0 <= i < |s| ==> s[i] as int < 0x80
  }

  /** ASCII text is encoded one byte per character, each byte the character's code. */
  lemma {:induction false} Utf8Ascii(s: string)
    requires IsAscii(s)
    ensures |Utf8(s)| == |s|
    ensures forall i :: 0 <= i < |s| ==> Utf8(s)[i] == s[i] as int
    decreases |s|
  {
    if s != [] {
      Utf8Ascii(s[1..]);
      assert Utf8(s) == [s[0] as int] + Utf8(s[1..]);
    }
  }

  const LinkPrefix: string := "<a href=\"data:file/txt;base64,"
  const LinkSuffix: string := "\" download=\"proposal.txt\">Download proposal as text file</a>"

  /** The base64 payload of the link. */
  function Payload(proposal: string): string {
    Encode(Utf8(proposal))
  }

  /** The anchor written to the page. */
  function DownloadLink(proposal: string): string {
    LinkPrefix + Payload(proposal) + LinkSuffix
  }

  /** The three parts of a concatenation can be read back off it. */
  lemma ConcatParts(a: string, p: string, b: string)
    ensures var link := a + p + b;
            && |link| == |a| + |p| + |b|
            && link[..|a|] == a
            && link[|a|..|a| + |p|] == p
            && link[|a| + |p|..] == b
  {
  }

  /** The link is the fixed prefix, then the payload, then the fixed suffix. */
  lemma DownloadLinkLayout(proposal: string)
    ensures var link := DownloadLink(proposal);
            var p := Payload(proposal);
            && |link| == |LinkPrefix| + |p| + |LinkSuffix|
            && link[..|LinkPrefix|] == LinkPrefix
            && link[|LinkPrefix|..|LinkPrefix| + |p|] == p
            && link[|LinkPrefix| + |p|..] == LinkSuffix
  {
    ConcatParts(LinkPrefix, Payload(proposal), LinkSuffix);
  }

  /** The payload is well-formed base64 of 4 characters per started 3 bytes and holds
      no quote, so the `href` attribute ends right after it. */
  lemma PayloadShape(proposal: string)
    ensures var bs := Utf8(proposal);
            var p := Payload(proposal);
            && |p| == 4 * ((|bs| + 2) / 3)
            && WellFormed(p, PadCount(|bs|))
            && '"' !in p
  {
    var bs := Utf8(proposal);
    EncodeLength(bs);
    EncodeWellFormed(bs);
    WellFormedChars(Encode(bs), PadCount(|bs|));
  }

  /** The payload decodes to the proposal's UTF-8 bytes. */
  lemma PayloadDecodes(proposal: string)
    ensures Decode(Payload(proposal)) == Some(Utf8(proposal))
  {
    DecodeEncode(Utf8(proposal));
  }

  /** An ASCII proposal: the payload is the base64 of its character codes. */
  lemma DownloadLinkExample(proposal: string)
    requires proposal == "foobar"
    ensures Payload(proposal) == "Zm9vYmFy"
  {
    Utf8Ascii(proposal);
    var bs := Utf8(proposal);
    assert bs == [102, 111, 111, 98, 97, 114];
    Rfc4648VectorFoobar(bs);
  }
}
