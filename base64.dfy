/**
 * Base64 as the download link uses it (bidWinner.py:296): the encoding of section 4 of
 * RFC 4648, standard alphabet with `=` padding, together with a strict decoder that
 * serves as its reference partner.
 */
module Base64 {
  import opened Wrappers

  type byte = x: int | 0 <= x < 256
  type sextet = x: int | 0 <= x < 64

  /** The base64 alphabet of RFC 4648, section 4, Table 1. */
  predicate IsAlphabetChar(c: char) {
    ('A' <= c <= 'Z') || ('a' <= c <= 'z') || ('0' <= c <= '9') || c == '+' || c == '/'
  }

  const Pad: char := '='

  /** The character that encodes a 6-bit value. */
  function SextetChar(v: sextet): (c: char)
    ensures IsAlphabetChar(c)
  {
    if v < 26 then ('A' as int + v) as char
    else if v < 52 then ('a' as int + (v - 26)) as char
    else if v < 62 then ('0' as int + (v - 52)) as char
    else if v == 62 then '+'
    else '/'
  }

  /** The 6-bit value an alphabet character stands for. */
  function CharSextet(c: char): sextet
    requires IsAlphabetChar(c)
  {
    if 'A' <= c <= 'Z' then c as int - 'A' as int
    else if 'a' <= c <= 'z' then c as int - 'a' as int + 26
    else if '0' <= c <= '9' then c as int - '0' as int + 52
    else if c == '+' then 62
    else 63
  }

  /** Every value has its own character. */
  lemma SextetRoundTrip(v: sextet)
    ensures CharSextet(SextetChar(v)) == v
  {
  }

  /** Every alphabet character stands for one value. */
  lemma CharRoundTrip(c: char)
    requires IsAlphabetChar(c)
    ensures SextetChar(CharSextet(c)) == c
  {
  }

  lemma DivMod4(q: int, r: int)
    requires 0 <= r < 4
    ensures (q * 4 + r) / 4 == q && (q * 4 + r) % 4 == r
  {
  }

  lemma DivMod16(q: int, r: int)
    requires 0 <= r < 16
    ensures (q * 16 + r) / 16 == q && (q * 16 + r) % 16 == r
  {
  }

  lemma DivMod64(q: int, r: int)
    requires 0 <= r < 64
    ensures (q * 64 + r) / 64 == q && (q * 64 + r) % 64 == r
  {
  }

  /** The 24 bits of three bytes, cut into four 6-bit groups, most significant first. */
  function SplitTriple(b0: byte, b1: byte, b2: byte): (sextet, sextet, sextet, sextet) {
    (b0 / 4, (b0 % 4) * 16 + b1 / 16, (b1 % 16) * 4 + b2 / 64, b2 % 64)
  }

  /** Four 6-bit groups put back together as three bytes. */
  function JoinQuad(a: sextet, b: sextet, c: sextet, d: sextet): (byte, byte, byte) {
    (a * 4 + b / 16, (b % 16) * 16 + c / 4, (c % 4) * 64 + d)
  }

  /** Regrouping the bits loses nothing, in either direction. */
  lemma JoinSplitTriple(b0: byte, b1: byte, b2: byte)
    ensures var (a, b, c, d) := SplitTriple(b0, b1, b2); JoinQuad(a, b, c, d) == (b0, b1, b2)
  {
    DivMod16(b0 % 4, b1 / 16);
    DivMod4(b1 % 16, b2 / 64);
  }

  lemma SplitJoinQuad(a: sextet, b: sextet, c: sextet, d: sextet)
    ensures var (b0, b1, b2) := JoinQuad(a, b, c, d); SplitTriple(b0, b1, b2) == (a, b, c, d)
  {
    DivMod4(a, b / 16);
    DivMod16(b % 16, c / 4);
    DivMod64(c % 4, d);
  }

  /** Three bytes become four characters. */
  function EncodeTriple(b0: byte, b1: byte, b2: byte): (s: string)
    ensures |s| == 4
  {
    var (a, b, c, d) := SplitTriple(b0, b1, b2);
    [SextetChar(a), SextetChar(b), SextetChar(c), SextetChar(d)]
  }

  /** The final group of one or two bytes: zero bits appended, then `=` padding. */
  function EncodeTail(bs: seq<byte>): (s: string)
    requires |bs| < 3
    ensures |s| == if bs == [] then 0 else 4
  {
    if |bs| == 0 then []
    else if |bs| == 1 then
      var (a, b, _, _) := SplitTriple(bs[0], 0, 0);
      [SextetChar(a), SextetChar(b), Pad, Pad]
    else
      var (a, b, c, _) := SplitTriple(bs[0], bs[1], 0);
      [SextetChar(a), SextetChar(b), SextetChar(c), Pad]
  }

  /** `base64.b64encode`. */
  function Encode(bs: seq<byte>): string
    decreases |bs|
  {
    if |bs| < 3 then EncodeTail(bs)
    else EncodeTriple(bs[0], bs[1], bs[2]) + Encode(bs[3..])
  }

  /** The output has 4 characters for every started group of 3 bytes. */
  lemma {:induction false} EncodeLength(bs: seq<byte>)
    ensures |Encode(bs)| == 4 * ((|bs| + 2) / 3)
    decreases |bs|
  {
    if |bs| >= 3 {
      EncodeLength(bs[3..]);
      GroupStep(|bs|);
    }
  }

  lemma GroupStep(n: nat)
    requires n >= 3
    ensures (n + 2) / 3 == (n - 1) / 3 + 1 && PadCount(n) == PadCount(n - 3)
  {
  }

  /** Number of `=` that end the encoding of n bytes. */
  function PadCount(n: nat): nat {
    (3 - n % 3) % 3
  }

  predicate AllAlphabet(q: string) {
    forall i :: 0 <= i < |q| ==> IsAlphabetChar(q[i])
  }

  predicate AllPad(q: string) {
    forall i :: 0 <= i < |q| ==> q[i] == Pad
  }

  /** Alphabet characters followed by exactly `pads` padding characters. */
  predicate WellFormed(s: string, pads: nat) {
    pads <= |s| && AllAlphabet(s[..|s| - pads]) && AllPad(s[|s| - pads..])
  }

  /** Well-formed text holds alphabet characters and `=` only. */
  lemma WellFormedChars(s: string, pads: nat)
    requires WellFormed(s, pads)
    ensures forall i :: 0 <= i < |s| ==> IsAlphabetChar(s[i]) || s[i] == Pad
  {
    forall i | 0 <= i < |s| ensures IsAlphabetChar(s[i]) || s[i] == Pad {
      if i < |s| - pads {
        assert s[..|s| - pads][i] == s[i];
      } else {
        assert s[|s| - pads..][i - (|s| - pads)] == s[i];
      }
    }
  }

  /** A group of alphabet characters in front keeps text well formed. */
  lemma WellFormedPrefix(t: string, rest: string, pads: nat)
    requires AllAlphabet(t) && WellFormed(rest, pads)
    ensures WellFormed(t + rest, pads)
  {
    var s := t + rest;
    assert s[..|s| - pads] == t + rest[..|rest| - pads];
    assert s[|s| - pads..] == rest[|rest| - pads..];
  }

  /** The encoding uses only the alphabet, then `PadCount` padding characters. */
  lemma {:induction false} EncodeWellFormed(bs: seq<byte>)
    ensures WellFormed(Encode(bs), PadCount(|bs|))
    decreases |bs|
  {
    if |bs| >= 3 {
      EncodeWellFormed(bs[3..]);
      EncodeLength(bs[3..]);
      GroupStep(|bs|);
      WellFormedPrefix(EncodeTriple(bs[0], bs[1], bs[2]), Encode(bs[3..]), PadCount(|bs|));
    } else {
      TailWellFormed(bs);
    }
  }

  lemma TailWellFormed(bs: seq<byte>)
    requires |bs| < 3
    ensures WellFormed(EncodeTail(bs), PadCount(|bs|))
  {
    var s := EncodeTail(bs);
    if |bs| == 1 {
      assert s[..2] == [s[0], s[1]] && s[2..] == [Pad, Pad];
    } else if |bs| == 2 {
      assert s[..3] == [s[0], s[1], s[2]] && s[3..] == [Pad];
    }
  }

  /** A full group of four alphabet characters. */
  function DecodeFull(q: string): Option<seq<byte>>
    requires |q| == 4
  {
    if AllAlphabet(q) then
      var (x, y, z) := JoinQuad(CharSextet(q[0]), CharSextet(q[1]), CharSextet(q[2]), CharSextet(q[3]));
      Some([x, y, z])
    else None
  }

  /** The last group: full, or padded with the bits it drops all zero, as section 3.5 of
      RFC 4648 requires of a canonical encoding. */
  function DecodeLast(q: string): Option<seq<byte>>
    requires |q| == 4
  {
    if AllAlphabet(q) then DecodeFull(q)
    else if AllAlphabet(q[..3]) && q[3] == Pad then
      var (x, y, z) := JoinQuad(CharSextet(q[0]), CharSextet(q[1]), CharSextet(q[2]), 0);
      if z == 0 then Some([x, y]) else None
    else if AllAlphabet(q[..2]) && q[2] == Pad && q[3] == Pad then
      var (x, y, _) := JoinQuad(CharSextet(q[0]), CharSextet(q[1]), 0, 0);
      if y == 0 then Some([x]) else None
    else None
  }

  /** A strict decoder: groups of four, padding only in the last group. */
  function Decode(s: string): Option<seq<byte>>
    decreases |s|
  {
    if |s| == 0 then Some([])
    else if |s| < 4 then None
    else if |s| == 4 then DecodeLast(s)
    else match DecodeFull(s[..4])
      case None => None
      case Some(head) =>
        match Decode(s[4..])
        case None => None
        case Some(tail) => Some(head + tail)
  }

  lemma TripleRoundTrip(b0: byte, b1: byte, b2: byte)
    ensures DecodeFull(EncodeTriple(b0, b1, b2)) == Some([b0, b1, b2])
  {
    var (a, b, c, d) := SplitTriple(b0, b1, b2);
    SextetRoundTrip(a);
    SextetRoundTrip(b);
    SextetRoundTrip(c);
    SextetRoundTrip(d);
    JoinSplitTriple(b0, b1, b2);
  }

  lemma TailRoundTrip(bs: seq<byte>)
    requires 0 < |bs| < 3
    ensures DecodeLast(EncodeTail(bs)) == Some(bs)
  {
    var q := EncodeTail(bs);
    if |bs| == 1 {
      var (a, b, c, d) := SplitTriple(bs[0], 0, 0);
      SextetRoundTrip(a);
      SextetRoundTrip(b);
      JoinSplitTriple(bs[0], 0, 0);
      assert q == [SextetChar(a), SextetChar(b), Pad, Pad];
      assert q[..2] == [SextetChar(a), SextetChar(b)];
      assert !IsAlphabetChar(q[3]) && !IsAlphabetChar(q[..3][2]);
      assert AllAlphabet(q[..2]) && c == 0 && d == 0;
      assert bs == [bs[0]];
    } else {
      var (a, b, c, d) := SplitTriple(bs[0], bs[1], 0);
      SextetRoundTrip(a);
      SextetRoundTrip(b);
      SextetRoundTrip(c);
      JoinSplitTriple(bs[0], bs[1], 0);
      assert q == [SextetChar(a), SextetChar(b), SextetChar(c), Pad];
      assert q[..3] == [SextetChar(a), SextetChar(b), SextetChar(c)];
      assert !IsAlphabetChar(q[3]);
      assert AllAlphabet(q[..3]) && d == 0;
      assert bs == [bs[0], bs[1]];
    }
  }

  /** A full group in front of a decodable rest decodes group by group. */
  lemma DecodeCons(t: string, rest: string)
    requires |t| == 4 && DecodeFull(t).Some? && rest != [] && Decode(rest).Some?
    ensures Decode(t + rest) == Some(DecodeFull(t).value + Decode(rest).value)
  {
    var s := t + rest;
    assert s[..4] == t && s[4..] == rest;
  }

  lemma SingleGroupRoundTrip(bs: seq<byte>)
    requires |bs| == 3
    ensures Decode(Encode(bs)) == Some(bs)
  {
    TripleRoundTrip(bs[0], bs[1], bs[2]);
    assert Encode(bs[3..]) == [];
    assert Encode(bs) == EncodeTriple(bs[0], bs[1], bs[2]);
    assert bs == [bs[0], bs[1], bs[2]];
  }

  /** Decoding undoes encoding. */
  lemma {:induction false} DecodeEncode(bs: seq<byte>)
    ensures Decode(Encode(bs)) == Some(bs)
    decreases |bs|
  {
    if |bs| == 0 {
    } else if |bs| < 3 {
      TailRoundTrip(bs);
    } else if |bs| == 3 {
      SingleGroupRoundTrip(bs);
    } else {
      DecodeEncode(bs[3..]);
      DecodeEncodeStep(bs);
    }
  }

  lemma SplitOffThree<T>(xs: seq<T>)
    requires |xs| >= 3
    ensures [xs[0], xs[1], xs[2]] + xs[3..] == xs
  {
  }

  /** One more group in front of a round trip is still a round trip. */
  lemma DecodeEncodeStep(bs: seq<byte>)
    requires |bs| > 3 && Decode(Encode(bs[3..])) == Some(bs[3..])
    ensures Decode(Encode(bs)) == Some(bs)
  {
    SplitOffThree(bs);
    var t, rest := EncodeTriple(bs[0], bs[1], bs[2]), Encode(bs[3..]);
    assert Encode(bs) == t + rest;
    TripleRoundTrip(bs[0], bs[1], bs[2]);
    EncodeLength(bs[3..]);
    DecodeCons(t, rest);
  }

  lemma FullReencodes(q: string)
    requires |q| == 4 && DecodeFull(q).Some?
    ensures var b := DecodeFull(q).value; |b| == 3 && EncodeTriple(b[0], b[1], b[2]) == q
  {
    var a, b, c, d := CharSextet(q[0]), CharSextet(q[1]), CharSextet(q[2]), CharSextet(q[3]);
    SplitJoinQuad(a, b, c, d);
    CharRoundTrip(q[0]);
    CharRoundTrip(q[1]);
    CharRoundTrip(q[2]);
    CharRoundTrip(q[3]);
  }

  lemma LastReencodes(q: string)
    requires |q| == 4 && DecodeLast(q).Some?
    ensures Encode(DecodeLast(q).value) == q
  {
    if AllAlphabet(q) {
      FullReencodes(q);
      var b := DecodeFull(q).value;
      assert Encode(b) == EncodeTriple(b[0], b[1], b[2]) + Encode(b[3..]);
    } else if AllAlphabet(q[..3]) && q[3] == Pad {
      var a, b, c := CharSextet(q[0]), CharSextet(q[1]), CharSextet(q[2]);
      SplitJoinQuad(a, b, c, 0);
      CharRoundTrip(q[0]);
      CharRoundTrip(q[1]);
      CharRoundTrip(q[2]);
    } else {
      var a, b := CharSextet(q[0]), CharSextet(q[1]);
      SplitJoinQuad(a, b, 0, 0);
      CharRoundTrip(q[0]);
      CharRoundTrip(q[1]);
    }
  }

  /** Encoding undoes decoding: only canonical base64 text decodes. */
  lemma {:induction false} EncodeDecode(s: string)
    requires Decode(s).Some?
    ensures Encode(Decode(s).value) == s
    decreases |s|
  {
    if |s| == 4 {
      LastReencodes(s);
    } else if |s| > 4 {
      var head := DecodeFull(s[..4]).value;
      var tail := Decode(s[4..]).value;
      EncodeDecode(s[4..]);
      FullReencodes(s[..4]);
      var bs := head + tail;
      assert bs[3..] == tail;
      assert Encode(bs) == EncodeTriple(bs[0], bs[1], bs[2]) + Encode(bs[3..]);
      assert s == s[..4] + s[4..];
    }
  }

  /** The test vectors of section 10 of RFC 4648. */
  lemma Rfc4648Vectors(f: seq<byte>, fo: seq<byte>, foo: seq<byte>)
    requires f == [102] && fo == [102, 111] && foo == [102, 111, 111]
    ensures Encode([]) == ""
    ensures Encode(f) == "Zg=="
    ensures Encode(fo) == "Zm8="
    ensures Encode(foo) == "Zm9v"
  {
  }

  lemma Rfc4648VectorFoob(foob: seq<byte>)
    requires foob == [102, 111, 111, 98]
    ensures Encode(foob) == "Zm9vYg=="
  {
    assert foob[3..] == [98];
  }

  lemma Rfc4648VectorFooba(fooba: seq<byte>)
    requires fooba == [102, 111, 111, 98, 97]
    ensures Encode(fooba) == "Zm9vYmE="
  {
    assert fooba[3..] == [98, 97];
  }

  lemma Rfc4648VectorFoobar(foobar: seq<byte>)
    requires foobar == [102, 111, 111, 98, 97, 114]
    ensures Encode(foobar) == "Zm9vYmFy"
  {
    EncodeBar(foobar[3..]);
  }

  lemma EncodeBar(bar: seq<byte>)
    requires bar == [98, 97, 114]
    ensures Encode(bar) == "YmFy"
  {
    assert bar[3..] == [];
    assert EncodeTriple(98, 97, 114) == "YmFy";
  }
}
