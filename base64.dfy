/** Standard base64 with padding, as defined in section 4 of RFC 4648, on
    byte sequences. `Encode` is the encoding Go's `base64.StdEncoding`
    produces; `Decode` is its inverse and serves as the partner against which
    the encoding is proved. */
module Base64 {
  import opened Wrappers

  newtype byte = x: int | 0 <= x < 256

  const PadChar: char := '='

  /** The 64 symbols of the alphabet in Table 1 of RFC 4648. */
  predicate IsSymbol(c: char) {
    ('A' <= c <= 'Z') || ('a' <= c <= 'z') || ('0' <= c <= '9') || c == '+' || c == '/'
  }

  /** The symbol for a 6-bit value. */
  function Symbol(v: int): (c: char)
    requires 0 <= v < 64
    ensures IsSymbol(c)
  {
    if v < 26 then ('A' as int + v) as char
    else if v < 52 then ('a' as int + (v - 26)) as char
    else if v < 62 then ('0' as int + (v - 52)) as char
    else if v == 62 then '+'
    else '/'
  }

  /** The 6-bit value of a symbol; None for any other character, the pad
      included. */
  function SymbolValue(c: char): (r: Option<int>)
    ensures r.Some? <==> IsSymbol(c)
    ensures r.Some? ==> 0 <= r.value < 64
  {
    if 'A' <= c <= 'Z' then Some(c as int - 'A' as int)
    else if 'a' <= c <= 'z' then Some(c as int - 'a' as int + 26)
    else if '0' <= c <= '9' then Some(c as int - '0' as int + 52)
    else if c == '+' then Some(62)
    else if c == '/' then Some(63)
    else None
  }

  lemma SymbolRoundTrip(v: int)
    requires 0 <= v < 64
    ensures SymbolValue(Symbol(v)) == Some(v)
  {
  }

  /** Four symbols for three bytes (section 4 of RFC 4648, the 24-bit group). */
  function EncodeGroup(b0: byte, b1: byte, b2: byte): string {
    var x0, x1, x2 := b0 as int, b1 as int, b2 as int;
    [Symbol(x0 / 4), Symbol((x0 % 4) * 16 + x1 / 16), Symbol((x1 % 16) * 4 + x2 / 64), Symbol(x2 % 64)]
  }

  /** A final group of one byte: two symbols and "==". */
  function EncodeFinalOne(b0: byte): string {
    var x0 := b0 as int;
    [Symbol(x0 / 4), Symbol((x0 % 4) * 16), PadChar, PadChar]
  }

  /** A final group of two bytes: three symbols and "=". */
  function EncodeFinalTwo(b0: byte, b1: byte): string {
    var x0, x1 := b0 as int, b1 as int;
    [Symbol(x0 / 4), Symbol((x0 % 4) * 16 + x1 / 16), Symbol((x1 % 16) * 4), PadChar]
  }

  /** The padded encoding. A final group of one byte gives two symbols and
      "==", a final group of two bytes three symbols and "=". */
  function Encode(b: seq<byte>): (r: string)
    ensures |r| == 4 * ((|b| + 2) / 3)
    decreases |b|
  {
    if |b| == 0 then ""
    else if |b| == 1 then EncodeFinalOne(b[0])
    else if |b| == 2 then EncodeFinalTwo(b[0], b[1])
    else
      EncodeGroup(b[0], b[1], b[2]) + Encode(b[3..])
  }

  /** The number of pad characters that end the encoding of `n` bytes. */
  function PadCount(n: nat): nat {
    if n % 3 == 0 then 0 else 3 - n % 3
  }

  /** Decodes one quantum of four characters; `final` says whether it is the
      last one, the only place where padding may appear. The bits a padded
      quantum leaves unused must be zero (section 3.5 of RFC 4648), so that
      every byte sequence has exactly one encoding that decodes to it. */
  function DecodeQuantum(q: string, final: bool): Option<seq<byte>>
    requires |q| == 4
  {
    var v0, v1 := SymbolValue(q[0]), SymbolValue(q[1]);
    if v0.None? || v1.None? then None
    else
      var y0 := (v0.value * 4 + v1.value / 16) as byte;
      if final && q[2] == PadChar && q[3] == PadChar then
        if v1.value % 16 == 0 then Some([y0]) else None
      else
        var v2 := SymbolValue(q[2]);
        if v2.None? then None
        else
          var y1 := ((v1.value % 16) * 16 + v2.value / 4) as byte;
          if final && q[3] == PadChar then
            if v2.value % 4 == 0 then Some([y0, y1]) else None
          else
            var v3 := SymbolValue(q[3]);
            if v3.None? then None
            else Some([y0, y1, ((v2.value % 4) * 64 + v3.value) as byte])
  }

  /** Decodes a padded base64 string; None when the length is not a multiple
      of four or a character is out of place. */
  function Decode(s: string): Option<seq<byte>>
    decreases |s|
  {
    if |s| == 0 then Some([])
    else if |s| < 4 then None
    else
      var head := DecodeQuantum(s[..4], |s| == 4);
      if head.None? then None
      else
        var tail := Decode(s[4..]);
        if tail.None? then None else Some(head.value + tail.value)
  }

  /** The bit arithmetic of a 24-bit group: splitting 8-bit values into 6-bit
      ones and joining them again gives back the 8-bit values. */
  lemma RegroupBits(x0: int, x1: int, x2: int)
    requires 0 <= x0 < 256 && 0 <= x1 < 256 && 0 <= x2 < 256
    ensures (x0 / 4) * 4 + ((x0 % 4) * 16 + x1 / 16) / 16 == x0
    ensures (((x0 % 4) * 16 + x1 / 16) % 16) * 16 + ((x1 % 16) * 4 + x2 / 64) / 4 == x1
    ensures (((x1 % 16) * 4 + x2 / 64) % 4) * 64 + x2 % 64 == x2
  {
  }

  lemma DecodeGroup(b0: byte, b1: byte, b2: byte, final: bool)
    ensures DecodeQuantum(EncodeGroup(b0, b1, b2), final) == Some([b0, b1, b2])
  {
    var x0, x1, x2 := b0 as int, b1 as int, b2 as int;
    var g := EncodeGroup(b0, b1, b2);
    SymbolRoundTrip(x0 / 4);
    SymbolRoundTrip((x0 % 4) * 16 + x1 / 16);
    SymbolRoundTrip((x1 % 16) * 4 + x2 / 64);
    SymbolRoundTrip(x2 % 64);
    RegroupBits(x0, x1, x2);
    assert g[2] != PadChar && g[3] != PadChar;
  }

  lemma DecodeFinalOne(b0: byte)
    ensures DecodeQuantum(EncodeFinalOne(b0), true) == Some([b0])
  {
    var x0 := b0 as int;
    SymbolRoundTrip(x0 / 4);
    SymbolRoundTrip((x0 % 4) * 16);
    RegroupBits(x0, 0, 0);
  }

  lemma DecodeFinalTwo(b0: byte, b1: byte)
    ensures DecodeQuantum(EncodeFinalTwo(b0, b1), true) == Some([b0, b1])
  {
    var x0, x1 := b0 as int, b1 as int;
    SymbolRoundTrip(x0 / 4);
    SymbolRoundTrip((x0 % 4) * 16 + x1 / 16);
    SymbolRoundTrip((x1 % 16) * 4);
    RegroupBits(x0, x1, 0);
    assert EncodeFinalTwo(b0, b1)[2] != PadChar;
  }

  /** Decoding a quantum followed by more text. */
  lemma DecodeAppend(q: string, t: string)
    requires |q| == 4
    requires DecodeQuantum(q, t == "").Some? && Decode(t).Some?
    ensures Decode(q + t) == Some(DecodeQuantum(q, t == "").value + Decode(t).value)
  {
    assert (q + t)[..4] == q;
    assert (q + t)[4..] == t;
  }

  lemma DecodeEncodeOne(b0: byte)
    ensures Decode(EncodeFinalOne(b0)) == Some([b0])
  {
    var s := EncodeFinalOne(b0);
    DecodeFinalOne(b0);
    assert s[..4] == s && s[4..] == "";
    assert DecodeQuantum(s[..4], true) == Some([b0]);
    assert [b0] + [] == [b0];
  }

  lemma DecodeEncodeTwo(b0: byte, b1: byte)
    ensures Decode(EncodeFinalTwo(b0, b1)) == Some([b0, b1])
  {
    var s := EncodeFinalTwo(b0, b1);
    DecodeFinalTwo(b0, b1);
    assert s[..4] == s && s[4..] == "";
    assert DecodeQuantum(s[..4], true) == Some([b0, b1]);
    assert [b0, b1] + [] == [b0, b1];
  }

  lemma SplitFirstThree(b: seq<byte>)
    requires |b| >= 3
    ensures [b[0], b[1], b[2]] + b[3..] == b
  {
  }

  /** Decoding an encoding gives back the bytes: the encoding loses nothing. */
  lemma {:induction false} DecodeEncode(b: seq<byte>)
    ensures Decode(Encode(b)) == Some(b)
    decreases |b|
  {
    if |b| == 0 {
    } else if |b| == 1 {
      assert b == [b[0]];
      DecodeEncodeOne(b[0]);
    } else if |b| == 2 {
      assert b == [b[0], b[1]];
      DecodeEncodeTwo(b[0], b[1]);
    } else {
      var t := Encode(b[3..]);
      DecodeEncode(b[3..]);
      DecodeGroup(b[0], b[1], b[2], t == "");
      assert Encode(b) == EncodeGroup(b[0], b[1], b[2]) + t;
      DecodeAppend(EncodeGroup(b[0], b[1], b[2]), t);
      SplitFirstThree(b);
    }
  }

  /** Distinct byte sequences have distinct encodings. */
  lemma EncodeInjective(a: seq<byte>, b: seq<byte>)
    requires Encode(a) == Encode(b)
    ensures a == b
  {
    DecodeEncode(a);
    DecodeEncode(b);
  }

  /** The symbol of a symbol's value is the symbol itself. */
  lemma ValueRoundTrip(c: char)
    requires IsSymbol(c)
    ensures SymbolValue(c).Some? && Symbol(SymbolValue(c).value) == c
  {
  }

  /** The bit arithmetic in the other direction: joining 6-bit values into
      8-bit ones and splitting them again gives back the 6-bit values. */
  lemma SplitBits(v0: int, v1: int, v2: int, v3: int)
    requires 0 <= v0 < 64 && 0 <= v1 < 64 && 0 <= v2 < 64 && 0 <= v3 < 64
    ensures var y0, y1, y2 := v0 * 4 + v1 / 16, (v1 % 16) * 16 + v2 / 4, (v2 % 4) * 64 + v3;
      y0 / 4 == v0 && (y0 % 4) * 16 + y1 / 16 == v1 && (y1 % 16) * 4 + y2 / 64 == v2 && y2 % 64 == v3
  {
  }

  /** A final quantum "xy==" that decodes is the encoding of its one byte. */
  lemma EncodeQuantumOne(q: string)
    requires |q| == 4 && q[2] == PadChar && q[3] == PadChar && DecodeQuantum(q, true).Some?
    ensures var h := DecodeQuantum(q, true).value; |h| == 1 && Encode(h) == q
  {
    var v0, v1 := SymbolValue(q[0]).value, SymbolValue(q[1]).value;
    var y0 := (v0 * 4 + v1 / 16) as byte;
    assert DecodeQuantum(q, true) == Some([y0]);
    ValueRoundTrip(q[0]);
    ValueRoundTrip(q[1]);
    SplitBits(v0, v1, 0, 0);
    assert (y0 as int) / 4 == v0;
    assert ((y0 as int) % 4) * 16 == v1;
    var e := EncodeFinalOne(y0);
    assert e[0] == q[0] && e[1] == q[1] && e[2] == q[2] && e[3] == q[3];
    assert Encode([y0]) == e;
  }

  /** A final quantum "xyz=" that decodes is the encoding of its two bytes. */
  lemma EncodeQuantumTwo(q: string)
    requires |q| == 4 && q[2] != PadChar && q[3] == PadChar && DecodeQuantum(q, true).Some?
    ensures var h := DecodeQuantum(q, true).value; |h| == 2 && Encode(h) == q
  {
    var v0, v1, v2 := SymbolValue(q[0]).value, SymbolValue(q[1]).value, SymbolValue(q[2]).value;
    var y0, y1 := (v0 * 4 + v1 / 16) as byte, ((v1 % 16) * 16 + v2 / 4) as byte;
    assert DecodeQuantum(q, true) == Some([y0, y1]);
    ValueRoundTrip(q[0]);
    ValueRoundTrip(q[1]);
    ValueRoundTrip(q[2]);
    SplitBits(v0, v1, v2, 0);
    assert (y0 as int) / 4 == v0;
    assert ((y0 as int) % 4) * 16 + (y1 as int) / 16 == v1;
    assert ((y1 as int) % 16) * 4 == v2;
    var e := EncodeFinalTwo(y0, y1);
    assert e[0] == q[0] && e[1] == q[1] && e[2] == q[2] && e[3] == q[3];
    assert Encode([y0, y1]) == e;
  }

  /** An unpadded quantum that decodes is the encoding of its three bytes. */
  lemma EncodeQuantumThree(q: string, final: bool)
    requires |q| == 4 && q[3] != PadChar && DecodeQuantum(q, final).Some?
    ensures var h := DecodeQuantum(q, final).value; |h| == 3 && EncodeGroup(h[0], h[1], h[2]) == q
  {
    var v0, v1, v2, v3 := SymbolValue(q[0]).value, SymbolValue(q[1]).value, SymbolValue(q[2]).value, SymbolValue(q[3]).value;
    var y0, y1, y2 := (v0 * 4 + v1 / 16) as byte, ((v1 % 16) * 16 + v2 / 4) as byte, ((v2 % 4) * 64 + v3) as byte;
    assert DecodeQuantum(q, final) == Some([y0, y1, y2]);
    ValueRoundTrip(q[0]);
    ValueRoundTrip(q[1]);
    ValueRoundTrip(q[2]);
    ValueRoundTrip(q[3]);
    SplitBits(v0, v1, v2, v3);
    assert (y0 as int) / 4 == v0;
    assert ((y0 as int) % 4) * 16 + (y1 as int) / 16 == v1;
    assert ((y1 as int) % 16) * 4 + (y2 as int) / 64 == v2;
    assert (y2 as int) % 64 == v3;
    var e := EncodeGroup(y0, y1, y2);
    assert e[0] == q[0] && e[1] == q[1] && e[2] == q[2] && e[3] == q[3];
  }

  /** A quantum that decodes is the encoding of what it decodes to; only a
      final quantum gives fewer than three bytes. */
  lemma EncodeQuantum(q: string, final: bool)
    requires |q| == 4 && DecodeQuantum(q, final).Some?
    ensures var h := DecodeQuantum(q, final).value;
      1 <= |h| <= 3 && (final || |h| == 3) && Encode(h) == q
  {
    var h := DecodeQuantum(q, final).value;
    if final && q[2] == PadChar && q[3] == PadChar {
      EncodeQuantumOne(q);
    } else if final && q[3] == PadChar {
      EncodeQuantumTwo(q);
    } else {
      EncodeQuantumThree(q, final);
      assert h[3..] == [];
      assert Encode(h) == EncodeGroup(h[0], h[1], h[2]) + Encode(h[3..]);
    }
  }

  /** Encoding what a string decodes to gives back the string: the decoder
      accepts the canonical encoding and nothing else. */
  lemma {:induction false} EncodeDecode(s: string)
    requires Decode(s).Some?
    ensures Encode(Decode(s).value) == s
    decreases |s|
  {
    if |s| > 0 {
      var q, rest := s[..4], s[4..];
      var h := DecodeQuantum(q, |s| == 4).value;
      var t := Decode(rest).value;
      EncodeQuantum(q, |s| == 4);
      EncodeDecode(rest);
      if |s| == 4 {
        assert rest == "" && t == [];
        assert h + t == h;
      } else {
        assert Encode(h + t) == EncodeGroup(h[0], h[1], h[2]) + Encode((h + t)[3..]);
        assert (h + t)[3..] == t;
        assert Encode(h) == EncodeGroup(h[0], h[1], h[2]) + Encode(h[3..]);
        assert h[3..] == [];
      }
      assert s == q + rest;
    }
  }

  /** Two strings that decode to the same bytes are the same string. */
  lemma DecodeInjective(s: string, t: string)
    requires Decode(s).Some? && Decode(s) == Decode(t)
    ensures s == t
  {
    EncodeDecode(s);
    EncodeDecode(t);
  }

  /** The encoding of 32 bytes: 43 alphabet symbols and one pad character. */
  lemma EncodeThirtyTwo(b: seq<byte>)
    requires |b| == 32
    ensures |Encode(b)| == 44 && Encode(b)[43] == PadChar
    ensures forall i :: 0 <= i < 43 ==> IsSymbol(Encode(b)[i])
  {
    EncodeShape(b);
    assert PadCount(|b|) == 1;
  }

  /** `r` is `pads` pad characters preceded by alphabet symbols only. */
  predicate WellPadded(r: string, pads: nat) {
    pads <= |r| &&
    forall i :: 0 <= i < |r| ==> if i < |r| - pads then IsSymbol(r[i]) else r[i] == PadChar
  }

  lemma WellPaddedAppend(g: string, t: string, pads: nat)
    requires WellPadded(g, 0) && WellPadded(t, pads)
    ensures WellPadded(g + t, pads)
  {
    forall i | 0 <= i < |g + t|
      ensures if i < |g + t| - pads then IsSymbol((g + t)[i]) else (g + t)[i] == PadChar
    {
      if i >= |g| {
        assert (g + t)[i] == t[i - |g|];
      }
    }
  }

  /** The shape of every encoding: it ends in exactly PadCount(|b|) pad
      characters, and every other character is an alphabet symbol. */
  lemma {:induction false} EncodeShape(b: seq<byte>)
    ensures WellPadded(Encode(b), PadCount(|b|))
    decreases |b|
  {
    if |b| == 1 {
      assert Encode(b) == EncodeFinalOne(b[0]);
    } else if |b| == 2 {
      assert Encode(b) == EncodeFinalTwo(b[0], b[1]);
    } else if |b| >= 3 {
      var g := EncodeGroup(b[0], b[1], b[2]);
      EncodeShape(b[3..]);
      assert WellPadded(g, 0);
      WellPaddedAppend(g, Encode(b[3..]), PadCount(|b| - 3));
    }
  }
}
