/** `base64.b64decode(s)` with its default `validate=False`, as CPython
    (3.11 and later) implements it in `binascii.a2b_base64`: the standard
    alphabet of section 4 of RFC 4648, characters outside the alphabet
    skipped, `=` misplaced before the third character of a quad ignored, and
    decoding stopped at the first pad that completes a quad. Together with an
    encoder for the same alphabet, which is the decoder's partner. */
module Base64 {
  import opened Wrappers
  import opened PyStr

  type byte = x: int | 0 <= x < 256
  type sextet = x: int | 0 <= x < 64

  /** The value of `c` in the alphabet of section 4 of RFC 4648; None for
      every other character, including `=` and the base64url characters
      `-` and `_` of section 5. */
  function SextetOf(c: char): Option<sextet> {
    var n := c as int;
    if 'A' as int <= n <= 'Z' as int then Some(n - 'A' as int)
    else if 'a' as int <= n <= 'z' as int then Some(n - 'a' as int + 26)
    else if '0' as int <= n <= '9' as int then Some(n - '0' as int + 52)
    else if c == '+' then Some(62)
    else if c == '/' then Some(63)
    else None
  }

  /** The alphabet character for a 6-bit value. */
  function AlphabetChar(v: sextet): (c: char)
    ensures SextetOf(c) == Some(v)
    ensures c as int < 128
  {
    if v < 26 then ('A' as int + v) as char
    else if v < 52 then ('a' as int + (v - 26)) as char
    else if v < 62 then ('0' as int + (v - 52)) as char
    else if v == 62 then '+'
    else '/'
  }

  /** Each alphabet character has exactly one value, and that value's
      character is the character itself. */
  lemma AlphabetCharOfSextet(c: char)
    requires SextetOf(c).Some?
    ensures AlphabetChar(SextetOf(c).value) == c
  {
  }

  /** The decoder's registers between two input characters: position in the
      current quad, the bits carried from the previous character, the
      count of pads seen at this position, and the bytes written so far. */
  datatype Decoder = Decoder(quadPos: nat, left: nat, pads: nat, out: seq<byte>)

  /** The carried bits fit the position: 6 after one character, 4 after two,
      2 after three, none at a quad boundary. */
  predicate Valid(d: Decoder) {
    && d.quadPos < 4
    && (d.quadPos == 0 ==> d.left == 0)
    && (d.quadPos == 1 ==> d.left < 64)
    && (d.quadPos == 2 ==> d.left < 16)
    && (d.quadPos == 3 ==> d.left < 4)
  }

  datatype Step = Continue(next: Decoder) | Stop

  /** The state after a data character of value `v`: a byte is written
      once the carried bits and the new ones make eight. */
  function DataNext(d: Decoder, v: sextet): (r: Decoder)
    requires Valid(d)
    ensures Valid(r) && r.pads == 0
    ensures r.quadPos == (d.quadPos + 1) % 4
  {
    if d.quadPos == 0 then Decoder(1, v, 0, d.out)
    else if d.quadPos == 1 then Decoder(2, v % 16, 0, d.out + [d.left * 4 + v / 16])
    else if d.quadPos == 2 then Decoder(3, v % 4, 0, d.out + [d.left * 16 + v / 4])
    else Decoder(0, 0, 0, d.out + [d.left * 64 + v])
  }

  /** One character of the decoding loop. */
  function StepOn(d: Decoder, c: char): (r: Step)
    requires Valid(d)
    ensures r.Continue? ==> Valid(r.next)
    ensures r.Continue? && SextetOf(c).None? ==> r.next.out == d.out
    ensures r.Stop? <==> c == '=' && d.quadPos >= 2 && d.quadPos + d.pads + 1 >= 4
  {
    if c == '=' then
      if d.quadPos >= 2 && d.quadPos + d.pads + 1 >= 4 then Stop
      else if d.quadPos >= 2 then Continue(d.(pads := d.pads + 1))
      else Continue(d)
    else match SextetOf(c)
      case None => Continue(d)
      case Some(v) => Continue(DataNext(d, v))
  }

  lemma StepOnAlphabet(d: Decoder, v: sextet)
    requires Valid(d)
    ensures StepOn(d, AlphabetChar(v)) == Continue(DataNext(d, v))
  {
    assert AlphabetChar(v) != '=' by { assert SextetOf('=') == None; }
  }

  /** The rest of the loop from state `d`: a pad that completes a quad ends
      decoding with what was written; running out of input inside a quad is
      the "Incorrect padding" (or "1 more than a multiple of 4") error. */
  function Decode(d: Decoder, s: string): (r: Option<seq<byte>>)
    requires Valid(d)
    ensures r.Some? ==> |d.out| <= |r.value|
    decreases |s|
  {
    if |s| == 0 then (if d.quadPos == 0 then Some(d.out) else None)
    else match StepOn(d, s[0])
      case Stop => Some(d.out)
      case Continue(next) => Decode(next, s[1..])
  }

  /** Decoding only appends: the bytes written before are kept as they are. */
  lemma {:induction false} DecodeKeepsOutput(d: Decoder, s: string)
    requires Valid(d)
    ensures Decode(d, s).Some? ==> Decode(d, s).value[..|d.out|] == d.out
    decreases |s|
  {
    if |s| > 0 {
      match StepOn(d, s[0])
      case Stop =>
      case Continue(next) =>
        DecodeKeepsOutput(next, s[1..]);
        if Decode(next, s[1..]).Some? {
          var r := Decode(next, s[1..]).value;
          assert next.out[..|d.out|] == d.out;
          assert r[..|next.out|][..|d.out|] == r[..|d.out|];
        }
    }
  }

  const Start := Decoder(0, 0, 0, [])

  /** `base64.b64decode(s)` for a str argument: a non-ASCII character makes
      the str-to-bytes conversion raise before decoding starts. */
  function B64Decode(s: string): (r: Option<seq<byte>>)
    ensures r.Some? ==> IsAscii(s)
  {
    if !IsAscii(s) then None else Decode(Start, s)
  }

  /** The quad for three bytes. */
  function Quad(x0: byte, x1: byte, x2: byte): string {
    [AlphabetChar(x0 / 4), AlphabetChar((x0 % 4) * 16 + x1 / 16),
     AlphabetChar((x1 % 16) * 4 + x2 / 64), AlphabetChar(x2 % 64)]
  }

  /** The two characters for one trailing byte. */
  function Tail1(x0: byte): string {
    [AlphabetChar(x0 / 4), AlphabetChar((x0 % 4) * 16)]
  }

  /** The three characters for two trailing bytes. */
  function Tail2(x0: byte, x1: byte): string {
    [AlphabetChar(x0 / 4), AlphabetChar((x0 % 4) * 16 + x1 / 16), AlphabetChar((x1 % 16) * 4)]
  }

  /** Standard-alphabet encoding without the trailing `=` padding, which is
      how the segments of a compact JWS are written (with the URL-safe
      alphabet in the standard, the standard one here). */
  function EncodeUnpadded(b: seq<byte>): (r: string)
    ensures forall i :: 0 <= i < |r| ==> SextetOf(r[i]).Some?
    decreases |b|
  {
    if |b| == 0 then ""
    else if |b| == 1 then Tail1(b[0])
    else if |b| == 2 then Tail2(b[0], b[1])
    else Quad(b[0], b[1], b[2]) + EncodeUnpadded(b[3..])
  }

  predicate AllPads(s: string) {
    forall i :: 0 <= i < |s| ==> s[i] == '='
  }

  lemma DecodeCons(d: Decoder, c: char, s: string)
    requires Valid(d)
    ensures Decode(d, [c] + s) ==
      match StepOn(d, c)
      case Stop => Some(d.out)
      case Continue(next) => Decode(next, s)
  {
    assert ([c] + s)[0] == c && ([c] + s)[1..] == s;
  }

  /** Pads at a quad boundary are skipped. */
  lemma {:induction false} DecodeBoundaryPads(out: seq<byte>, pads: string)
    requires AllPads(pads)
    ensures Decode(Decoder(0, 0, 0, out), pads) == Some(out)
    decreases |pads|
  {
    if |pads| > 0 {
      assert pads[0] == '=';
      DecodeBoundaryPads(out, pads[1..]);
    }
  }

  // The characters of a partial quad, one lemma each: decoding a character
  // with the next six bits moves the decoder on by one position and writes
  // the byte those bits complete.

  lemma FirstChar(out: seq<byte>, c: char, x0: byte, rest: string)
    requires SextetOf(c) == Some(x0 / 4)
    ensures Decode(Decoder(0, 0, 0, out), [c] + rest) == Decode(Decoder(1, x0 / 4, 0, out), rest)
  {
    DecodeCons(Decoder(0, 0, 0, out), c, rest);
  }

  lemma SecondChar(out: seq<byte>, c: char, x0: byte, x1: byte, rest: string)
    requires SextetOf(c) == Some((x0 % 4) * 16 + x1 / 16)
    ensures Decode(Decoder(1, x0 / 4, 0, out), [c] + rest) == Decode(Decoder(2, x1 / 16, 0, out + [x0]), rest)
  {
    var d := Decoder(1, x0 / 4, 0, out);
    var v := (x0 % 4) * 16 + x1 / 16;
    DecodeCons(d, c, rest);
    assert DataNext(d, v) == Decoder(2, x1 / 16, 0, out + [x0]) by {
      assert (x0 / 4) * 4 + v / 16 == x0;
      assert v % 16 == x1 / 16;
    }
  }

  lemma ThirdChar(out: seq<byte>, c: char, x1: byte, x2: byte, rest: string)
    requires SextetOf(c) == Some((x1 % 16) * 4 + x2 / 64)
    ensures Decode(Decoder(2, x1 / 16, 0, out), [c] + rest) == Decode(Decoder(3, x2 / 64, 0, out + [x1]), rest)
  {
    var d := Decoder(2, x1 / 16, 0, out);
    var v := (x1 % 16) * 4 + x2 / 64;
    DecodeCons(d, c, rest);
    assert DataNext(d, v) == Decoder(3, x2 / 64, 0, out + [x1]) by {
      assert (x1 / 16) * 16 + v / 4 == x1;
      assert v % 4 == x2 / 64;
    }
  }

  /** The bit arithmetic of one quad: the four 6-bit groups of three bytes
      put back together give the bytes. */
  lemma QuadArithmetic(x0: byte, x1: byte, x2: byte)
    ensures (x0 / 4) * 4 + ((x0 % 4) * 16 + x1 / 16) / 16 == x0
    ensures ((x0 % 4) * 16 + x1 / 16) % 16 == x1 / 16
    ensures (x1 / 16) * 16 + ((x1 % 16) * 4 + x2 / 64) / 4 == x1
    ensures ((x1 % 16) * 4 + x2 / 64) % 4 == x2 / 64
    ensures (x2 / 64) * 64 + x2 % 64 == x2
  {
  }

  /** A whole quad written at a quad boundary yields its three bytes. */
  lemma DecodeQuad(out: seq<byte>, x0: byte, x1: byte, x2: byte, rest: string)
    ensures Decode(Decoder(0, 0, 0, out), Quad(x0, x1, x2) + rest)
         == Decode(Decoder(0, 0, 0, out + [x0, x1, x2]), rest)
  {
    var c0, c1, c2, c3 := x0 / 4, (x0 % 4) * 16 + x1 / 16, (x1 % 16) * 4 + x2 / 64, x2 % 64;
    QuadArithmetic(x0, x1, x2);
    var q := Quad(x0, x1, x2);
    var s3 := [q[3]] + rest;
    var s2 := [q[2]] + s3;
    var s1 := [q[1]] + s2;
    assert q + rest == [q[0]] + s1;
    var d0 := Decoder(0, 0, 0, out);
    var d1 := Decoder(1, c0, 0, out);
    var d2 := Decoder(2, x1 / 16, 0, out + [x0]);
    var d3 := Decoder(3, x2 / 64, 0, out + [x0] + [x1]);
    var d4 := Decoder(0, 0, 0, out + [x0] + [x1] + [x2]);
    assert DataNext(d0, c0) == d1;
    assert DataNext(d1, c1) == d2 by {
      assert c0 * 4 + c1 / 16 == x0;
      assert c1 % 16 == x1 / 16;
    }
    assert DataNext(d2, c2) == d3 by {
      assert (x1 / 16) * 16 + c2 / 4 == x1;
      assert c2 % 4 == x2 / 64;
    }
    assert DataNext(d3, c3) == d4 by {
      assert (x2 / 64) * 64 + c3 == x2;
    }
    calc {
      Decode(d0, q + rest);
    == { DecodeCons(d0, q[0], s1); StepOnAlphabet(d0, c0); }
      Decode(d1, s1);
    == { DecodeCons(d1, q[1], s2); StepOnAlphabet(d1, c1); }
      Decode(d2, s2);
    == { DecodeCons(d2, q[2], s3); StepOnAlphabet(d2, c2); }
      Decode(d3, s3);
    == { DecodeCons(d3, q[3], rest); StepOnAlphabet(d3, c3); }
      Decode(d4, rest);
    }
    assert out + [x0] + [x1] + [x2] == out + [x0, x1, x2];
  }

  /** Two trailing bytes: three characters, then the first pad ends decoding. */
  lemma DecodeTwoTail(out: seq<byte>, x0: byte, x1: byte, pads: string)
    requires |pads| >= 1 && AllPads(pads)
    ensures Decode(Decoder(0, 0, 0, out), Tail2(x0, x1) + pads) == Some(out + [x0, x1])
  {
    var t := Tail2(x0, x1);
    var s2 := [t[2]] + pads;
    var s1 := [t[1]] + s2;
    assert t + pads == [t[0]] + s1;
    FirstChar(out, t[0], x0, s1);
    SecondChar(out, t[1], x0, x1, s2);
    ThirdChar(out + [x0], t[2], x1, 0, pads);
    assert pads == [pads[0]] + pads[1..] && pads[0] == '=';
    DecodeCons(Decoder(3, 0, 0, out + [x0] + [x1]), '=', pads[1..]);
    assert out + [x0] + [x1] == out + [x0, x1];
  }

  /** One trailing byte: two characters, then two pads end decoding. */
  lemma DecodeOneTail(out: seq<byte>, x0: byte, pads: string)
    requires |pads| >= 2 && AllPads(pads)
    ensures Decode(Decoder(0, 0, 0, out), Tail1(x0) + pads) == Some(out + [x0])
  {
    var t := Tail1(x0);
    var s1 := [t[1]] + pads;
    assert t + pads == [t[0]] + s1;
    FirstChar(out, t[0], x0, s1);
    SecondChar(out, t[1], x0, 0, pads);
    var d := Decoder(2, 0, 0, out + [x0]);
    assert pads == [pads[0]] + pads[1..] && pads[0] == '=';
    assert pads[1..] == [pads[1]] + pads[2..] && pads[1] == '=';
    DecodeCons(d, '=', pads[1..]);
    DecodeCons(d.(pads := 1), '=', pads[2..]);
  }

  /** The encoding of three or more bytes starts with the quad of the first
      three: decoding it writes them and carries on with the rest. */
  lemma DecodeAfterQuad(out: seq<byte>, b: seq<byte>, pads: string)
    requires |b| >= 3
    ensures Decode(Decoder(0, 0, 0, out), EncodeUnpadded(b) + pads)
         == Decode(Decoder(0, 0, 0, out + [b[0], b[1], b[2]]), EncodeUnpadded(b[3..]) + pads)
  {
    var rest := EncodeUnpadded(b[3..]);
    assert EncodeUnpadded(b) + pads == Quad(b[0], b[1], b[2]) + (rest + pads);
    DecodeQuad(out, b[0], b[1], b[2], rest + pads);
  }

  /** Fewer than three bytes: at most one partial quad, then the pads. */
  lemma DecodeShort(out: seq<byte>, b: seq<byte>, pads: string)
    requires |b| < 3 && |pads| >= 2 && AllPads(pads)
    ensures Decode(Decoder(0, 0, 0, out), EncodeUnpadded(b) + pads) == Some(out + b)
  {
    if |b| == 0 {
      assert EncodeUnpadded(b) + pads == pads;
      DecodeBoundaryPads(out, pads);
      assert out + b == out;
    } else if |b| == 1 {
      DecodeOneTail(out, b[0], pads);
      assert out + [b[0]] == out + b;
    } else {
      DecodeTwoTail(out, b[0], b[1], pads);
      assert out + [b[0], b[1]] == out + b;
    }
  }

  /** Decoding an unpadded encoding followed by at least two pads (the
      agent appends `"=="`) gives back exactly the encoded bytes. */
  lemma {:induction false} DecodeEncodeUnpadded(out: seq<byte>, b: seq<byte>, pads: string)
    requires |pads| >= 2 && AllPads(pads)
    ensures Decode(Decoder(0, 0, 0, out), EncodeUnpadded(b) + pads) == Some(out + b)
    decreases |b|
  {
    if |b| < 3 {
      DecodeShort(out, b, pads);
    } else {
      var written := out + [b[0], b[1], b[2]];
      DecodeAfterQuad(out, b, pads);
      DecodeEncodeUnpadded(written, b[3..], pads);
      assert written + b[3..] == out + b;
    }
  }

  /** `b64decode(encoded + "==")` inverts unpadded standard-alphabet encoding. */
  lemma B64DecodeRoundTrip(b: seq<byte>)
    ensures B64Decode(EncodeUnpadded(b) + "==") == Some(b)
  {
    var s := EncodeUnpadded(b) + "==";
    forall i | 0 <= i < |s| ensures s[i] as int < 128 {
      if i < |EncodeUnpadded(b)| {
        AlphabetCharOfSextet(s[i]);
      }
    }
    DecodeEncodeUnpadded([], b, "==");
    assert [] + b == b;
  }

  /** A character outside the alphabet other than `=` (for instance the
      base64url characters `-` and `_`) is dropped without a trace. */
  lemma NonAlphabetSkipped(d: Decoder, c: char, s: string)
    requires Valid(d)
    requires c != '=' && SextetOf(c).None?
    ensures Decode(d, [c] + s) == Decode(d, s)
  {
    DecodeCons(d, c, s);
  }

  /** Where base64url and the standard alphabet differ, the decoder gives a
      different answer: `+/8` (bytes 0xFB 0xFF) decodes, while the URL-safe
      spelling of the same bytes, `-_8`, leaves a single data character and
      fails. */
  lemma UrlSafeSpellingRejected()
    ensures B64Decode("+/8" + "==") == Some([0xFB, 0xFF])
    ensures B64Decode("-_8" + "==") == None
  {
    assert AlphabetChar(62) == '+' && AlphabetChar(63) == '/' && AlphabetChar(60) == '8';
    var std := "+/8" + "==";
    assert std == Tail2(0xFB, 0xFF) + "==";
    DecodeTwoTail([], 0xFB, 0xFF, "==");
    assert IsAscii(std) by {
      forall i | 0 <= i < |std| ensures std[i] as int < 128 { }
    }
    assert [] + [0xFB, 0xFF] == [0xFB, 0xFF];

    var url := "-_8" + "==";
    assert IsAscii(url) by {
      forall i | 0 <= i < |url| ensures url[i] as int < 128 { }
    }
    var d1 := Decoder(1, 60, 0, []);
    assert url == ['-'] + (['_'] + (['8'] + (['='] + (['='] + ""))));
    calc {
      Decode(Start, url);
    == { NonAlphabetSkipped(Start, '-', ['_'] + (['8'] + (['='] + (['='] + "")))); }
      Decode(Start, ['_'] + (['8'] + (['='] + (['='] + ""))));
    == { NonAlphabetSkipped(Start, '_', ['8'] + (['='] + (['='] + ""))); }
      Decode(Start, ['8'] + (['='] + (['='] + "")));
    == { DecodeCons(Start, '8', ['='] + (['='] + "")); StepOnAlphabet(Start, 60); }
      Decode(d1, ['='] + (['='] + ""));
    == { DecodeCons(d1, '=', ['='] + ""); }
      Decode(d1, ['='] + "");
    == { DecodeCons(d1, '=', ""); }
      Decode(d1, "");
    }
  }
}
