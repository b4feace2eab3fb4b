/** Base 64 encoding as defined in section 4 of RFC 4648: the standard alphabet
    of Table 1, 24-bit groups written as four characters, and `=` padding for a
    final group of one or two octets. This is what `base64.b64encode` produces;
    its ASCII output is given directly as characters.

    The encoding is built in two layers: octets to symbols (a 6-bit value, or
    the pad), then symbols to characters. `Decode` is a strict decoder
    (canonical encodings only, as section 3.5 of RFC 4648 permits a decoder to
    require) that serves as the encoder's inverse. */
module Base64 {
  import opened Basics

  /** A 6-bit value (0..63) or the pad (64). */
  type symbol = x: int | 0 <= x <= 64

  const PadSymbol: symbol := 64

  const Pad: char := '='

  /** Table 1 of RFC 4648: `A`-`Z` are 0-25, `a`-`z` 26-51, `0`-`9` 52-61,
      then `+` and `/`; the pad is `=`. */
  function CharOf(x: symbol): (c: char)
    ensures c == Pad <==> x == PadSymbol
  {
    if x < 26 then ('A' as int + x) as char
    else if x < 52 then ('a' as int + (x - 26)) as char
    else if x < 62 then ('0' as int + (x - 52)) as char
    else if x == 62 then '+'
    else if x == 63 then '/'
    else Pad
  }

  /** The symbol a character stands for; `None` outside the alphabet and pad. */
  function SymbolOf(c: char): (r: Option<symbol>)
  {
    if 'A' <= c <= 'Z' then Some(c as int - 'A' as int)
    else if 'a' <= c <= 'z' then Some(c as int - 'a' as int + 26)
    else if '0' <= c <= '9' then Some(c as int - '0' as int + 52)
    else if c == '+' then Some(62)
    else if c == '/' then Some(63)
    else if c == Pad then Some(PadSymbol)
    else None
  }

  /** A character of Table 1 proper (the pad excluded). */
  predicate InAlphabet(c: char) {
    SymbolOf(c).Some? && SymbolOf(c).value != PadSymbol
  }

  lemma SymbolOfCharOf(x: symbol)
    ensures SymbolOf(CharOf(x)) == Some(x)
  {
  }

  lemma CharOfSymbolOf(c: char)
    requires SymbolOf(c).Some?
    ensures CharOf(SymbolOf(c).value) == c
  {
  }

  // ---------------------------------------------------------------------------
  // Symbols and characters

  function Render(xs: seq<symbol>): (s: string)
    ensures |s| == |xs|
    ensures forall i :: 0 <= i < |xs| ==> s[i] == CharOf(xs[i])
  {
    if xs == [] then [] else [CharOf(xs[0])] + Render(xs[1..])
  }

  function Parse(s: string): (r: Option<seq<symbol>>)
  {
    if s == [] then Some([])
    else match (SymbolOf(s[0]), Parse(s[1..]))
      case (Some(x), Some(xs)) => Some([x] + xs)
      case _ => None
  }

  lemma {:induction false} ParseRender(xs: seq<symbol>)
    ensures Parse(Render(xs)) == Some(xs)
  {
    if xs != [] {
      var s := Render(xs);
      assert s[1..] == Render(xs[1..]);
      SymbolOfCharOf(xs[0]);
      ParseRender(xs[1..]);
      assert [xs[0]] + xs[1..] == xs;
    }
  }

  lemma {:induction false} RenderParse(s: string, xs: seq<symbol>)
    requires Parse(s) == Some(xs)
    ensures Render(xs) == s
  {
    if s != [] {
      var rest := Parse(s[1..]).value;
      assert xs == [SymbolOf(s[0]).value] + rest;
      CharOfSymbolOf(s[0]);
      RenderParse(s[1..], rest);
      assert xs[1..] == rest;
      assert Render(xs) == [CharOf(xs[0])] + Render(xs[1..]);
      assert s == [s[0]] + s[1..];
    }
  }

  // ---------------------------------------------------------------------------
  // Octets and symbols

  /** Three octets (24 bits) as four 6-bit values. */
  function Block(a: byte, b: byte, c: byte): (r: seq<symbol>)
    ensures |r| == 4
  {
    [a / 4, (a % 4) * 16 + b / 16, (b % 16) * 4 + c / 64, c % 64]
  }

  /** A final group of two octets: three values and one pad. */
  function Tail2(a: byte, b: byte): (r: seq<symbol>)
    ensures |r| == 4
  {
    [a / 4, (a % 4) * 16 + b / 16, (b % 16) * 4, PadSymbol]
  }

  /** A final group of one octet: two values and two pads. */
  function Tail1(a: byte): (r: seq<symbol>)
    ensures |r| == 4
  {
    [a / 4, (a % 4) * 16, PadSymbol, PadSymbol]
  }

  function EncodeSymbols(b: seq<byte>): (xs: seq<symbol>)
    ensures |xs| == 4 * ((|b| + 2) / 3)
    decreases |b|
  {
    if |b| >= 3 then
      assert (|b| + 2) / 3 == (|b| - 3 + 2) / 3 + 1;
      Block(b[0], b[1], b[2]) + EncodeSymbols(b[3..])
    else if |b| == 2 then Tail2(b[0], b[1])
    else if |b| == 1 then Tail1(b[0])
    else []
  }

  /** Four 6-bit values back to three octets. */
  function Octets(x0: int, x1: int, x2: int, x3: int): (r: seq<byte>)
    requires 0 <= x0 < 64 && 0 <= x1 < 64 && 0 <= x2 < 64 && 0 <= x3 < 64
    ensures |r| == 3
  {
    [x0 * 4 + x1 / 16, (x1 % 16) * 16 + x2 / 4, (x2 % 4) * 64 + x3]
  }

  /** A group that is not the last: no pads allowed. */
  function DecodeBlock(g: seq<symbol>): (r: Option<seq<byte>>)
    requires |g| == 4
  {
    if g[0] < 64 && g[1] < 64 && g[2] < 64 && g[3] < 64 then Some(Octets(g[0], g[1], g[2], g[3]))
    else None
  }

  /** The last group, which may end in one or two pads; bits the padding
      leaves unused must be zero. */
  function DecodeLast(g: seq<symbol>): (r: Option<seq<byte>>)
    requires |g| == 4
  {
    if g[0] < 64 && g[1] < 64 && g[2] == PadSymbol && g[3] == PadSymbol then
      if g[1] % 16 == 0 then Some(Octets(g[0], g[1], 0, 0)[..1]) else None
    else if g[0] < 64 && g[1] < 64 && g[2] < 64 && g[3] == PadSymbol then
      if g[2] % 4 == 0 then Some(Octets(g[0], g[1], g[2], 0)[..2]) else None
    else
      DecodeBlock(g)
  }

  function DecodeSymbols(xs: seq<symbol>): (r: Option<seq<byte>>)
    decreases |xs|
  {
    if xs == [] then Some([])
    else if |xs| < 4 then None
    else if |xs| == 4 then DecodeLast(xs)
    else
      match (DecodeBlock(xs[..4]), DecodeSymbols(xs[4..]))
      case (Some(head), Some(tail)) => Some(head + tail)
      case _ => None
  }

  // ---------------------------------------------------------------------------
  // The codec

  function Encode(b: seq<byte>): (s: string)
    ensures |s| == 4 * ((|b| + 2) / 3)
  {
    Render(EncodeSymbols(b))
  }

  function Decode(s: string): (r: Option<seq<byte>>)
  {
    match Parse(s)
    case None => None
    case Some(xs) => DecodeSymbols(xs)
  }

  /** How many pads end the encoding of `n` octets. */
  function PadCount(n: nat): (p: nat)
    ensures p <= 2
  {
    (3 - n % 3) % 3
  }

  /** The symbols are 6-bit values followed by exactly `p` pads. */
  predicate Padded(xs: seq<symbol>, p: nat) {
    && |xs| >= p
    && (forall i :: 0 <= i < |xs| - p ==> xs[i] < 64)
    && (forall i :: |xs| - p <= i < |xs| ==> xs[i] == PadSymbol)
  }

  lemma PaddedCons(head: seq<symbol>, tail: seq<symbol>, p: nat)
    requires Padded(head, 0) && Padded(tail, p)
    ensures Padded(head + tail, p)
  {
    var s := head + tail;
    forall i | 0 <= i < |s| - p
      ensures s[i] < 64
    {
      if i >= |head| {
        assert s[i] == tail[i - |head|];
      }
    }
    forall i | |s| - p <= i < |s|
      ensures s[i] == PadSymbol
    {
      assert s[i] == tail[i - |head|];
    }
  }

  lemma {:induction false} EncodeSymbolsShape(b: seq<byte>)
    ensures |EncodeSymbols(b)| == 4 * ((|b| + 2) / 3)
    ensures Padded(EncodeSymbols(b), PadCount(|b|))
    decreases |b|
  {
    if |b| >= 3 {
      EncodeSymbolsShape(b[3..]);
      BlockPadded(b[0], b[1], b[2]);
      assert (|b| + 2) / 3 == (|b| - 3 + 2) / 3 + 1;
      assert PadCount(|b|) == PadCount(|b| - 3);
      PaddedCons(Block(b[0], b[1], b[2]), EncodeSymbols(b[3..]), PadCount(|b| - 3));
    } else if |b| == 2 {
      TailsPadded(b[0], b[1]);
    } else if |b| == 1 {
      TailsPadded(b[0], 0);
    }
  }

  lemma BlockPadded(a: byte, b: byte, c: byte)
    ensures Padded(Block(a, b, c), 0)
  {
  }

  lemma TailsPadded(a: byte, b: byte)
    ensures Padded(Tail2(a, b), 1) && Padded(Tail1(a), 2)
  {
  }

  /** Every three octets (or part thereof) become four characters: alphabet
      characters followed by one pad for each octet the final group is short
      of three. */
  lemma EncodeShape(b: seq<byte>)
    ensures var s := Encode(b);
      && |s| == 4 * ((|b| + 2) / 3)
      && (forall i :: 0 <= i < |s| - PadCount(|b|) ==> InAlphabet(s[i]))
      && (forall i :: |s| - PadCount(|b|) <= i < |s| ==> s[i] == Pad)
  {
    var xs := EncodeSymbols(b);
    EncodeSymbolsShape(b);
    forall i | 0 <= i < |xs| - PadCount(|b|)
      ensures InAlphabet(Encode(b)[i])
    {
      SymbolOfCharOf(xs[i]);
    }
  }

  /** Regrouping three octets into four 6-bit values and back is the identity. */
  lemma RegroupOctets(a: byte, b: byte, c: byte)
    ensures var g := Block(a, b, c); Octets(g[0], g[1], g[2], g[3]) == [a, b, c]
  {
    var x1: int := (a % 4) * 16 + b / 16;
    var x2: int := (b % 16) * 4 + c / 64;
    assert x1 / 16 == a % 4 && x1 % 16 == b / 16;
    assert x2 / 4 == b % 16 && x2 % 4 == c / 64;
  }

  lemma DecodeFinalBlock(a: byte, b: byte, c: byte)
    ensures DecodeSymbols(EncodeSymbols([a, b, c])) == Some([a, b, c])
  {
    var o := [a, b, c];
    assert EncodeSymbols(o[3..]) == [];
    assert EncodeSymbols(o) == Block(a, b, c) + [];
    RegroupOctets(a, b, c);
  }

  lemma DecodeFinalTail2(a: byte, b: byte)
    ensures DecodeSymbols(EncodeSymbols([a, b])) == Some([a, b])
  {
    RegroupOctets(a, b, 0);
    var g := Tail2(a, b);
    assert EncodeSymbols([a, b]) == g;
    assert g[2] % 4 == 0;
    assert Octets(g[0], g[1], g[2], 0) == [a, b, 0];
    assert Octets(g[0], g[1], g[2], 0)[..2] == [a, b];
  }

  lemma DecodeFinalTail1(a: byte)
    ensures DecodeSymbols(EncodeSymbols([a])) == Some([a])
  {
    RegroupOctets(a, 0, 0);
    var g := Tail1(a);
    assert EncodeSymbols([a]) == g;
    assert g[1] % 16 == 0;
    assert Octets(g[0], g[1], 0, 0) == [a, 0, 0];
    assert Octets(g[0], g[1], 0, 0)[..1] == [a];
  }

  lemma DecodeSymbolsCons(head: seq<symbol>, tail: seq<symbol>, h: seq<byte>, t: seq<byte>)
    requires |head| == 4 && |tail| > 0
    requires DecodeBlock(head) == Some(h) && DecodeSymbols(tail) == Some(t)
    ensures DecodeSymbols(head + tail) == Some(h + t)
  {
    var s := head + tail;
    assert s[..4] == head && s[4..] == tail;
  }

  lemma {:induction false} DecodeEncodeSymbols(b: seq<byte>)
    ensures DecodeSymbols(EncodeSymbols(b)) == Some(b)
    decreases |b|
  {
    if |b| > 3 {
      assert [b[0], b[1], b[2]] + b[3..] == b;
      DecodeEncodeSymbols(b[3..]);
      RegroupOctets(b[0], b[1], b[2]);
      EncodeSymbolsShape(b[3..]);
      DecodeSymbolsCons(Block(b[0], b[1], b[2]), EncodeSymbols(b[3..]), [b[0], b[1], b[2]], b[3..]);
    } else if |b| == 3 {
      assert [b[0], b[1], b[2]] == b;
      DecodeFinalBlock(b[0], b[1], b[2]);
    } else if |b| == 2 {
      assert [b[0], b[1]] == b;
      DecodeFinalTail2(b[0], b[1]);
    } else if |b| == 1 {
      assert [b[0]] == b;
      DecodeFinalTail1(b[0]);
    }
  }

  /** Decoding undoes encoding (the round trip of RFC 4648 section 4). */
  lemma DecodeEncode(b: seq<byte>)
    ensures Decode(Encode(b)) == Some(b)
  {
    ParseRender(EncodeSymbols(b));
    DecodeEncodeSymbols(b);
  }

  lemma EncodeDecodeBlock(g: seq<symbol>)
    requires |g| == 4 && DecodeBlock(g).Some?
    ensures var o := DecodeBlock(g).value; Block(o[0], o[1], o[2]) == g
  {
    var x0: int, x1: int, x2: int, x3: int := g[0], g[1], g[2], g[3];
    var a, b, c := x0 * 4 + x1 / 16, (x1 % 16) * 16 + x2 / 4, (x2 % 4) * 64 + x3;
    assert a / 4 == x0 && (a % 4) * 16 + b / 16 == x1;
    assert (b % 16) * 4 + c / 64 == x2 && c % 64 == x3;
  }

  lemma EncodeDecodeLast(g: seq<symbol>)
    requires |g| == 4 && DecodeLast(g).Some?
    ensures var o := DecodeLast(g).value; 1 <= |o| <= 3 && EncodeSymbols(o) == g
  {
    var o := DecodeLast(g).value;
    if g[2] == PadSymbol && g[3] == PadSymbol {
      var x0: int, x1: int := g[0], g[1];
      var a := x0 * 4 + x1 / 16;
      assert a / 4 == x0 && (a % 4) * 16 == x1;
      assert o == [a];
    } else if g[3] == PadSymbol {
      var x0: int, x1: int, x2: int := g[0], g[1], g[2];
      var a, b := x0 * 4 + x1 / 16, (x1 % 16) * 16 + x2 / 4;
      assert a / 4 == x0 && (a % 4) * 16 + b / 16 == x1 && (b % 16) * 4 == x2;
      assert o == [a, b];
    } else {
      EncodeDecodeBlock(g);
      assert EncodeSymbols(o[3..]) == [];
      assert EncodeSymbols(o) == Block(o[0], o[1], o[2]) + [];
    }
  }

  lemma {:induction false} EncodeDecodeSymbols(xs: seq<symbol>, b: seq<byte>)
    requires DecodeSymbols(xs) == Some(b)
    ensures EncodeSymbols(b) == xs
    decreases |xs|
  {
    if |xs| == 4 {
      EncodeDecodeLast(xs);
    } else if |xs| > 4 {
      var head := DecodeBlock(xs[..4]).value;
      var tail := DecodeSymbols(xs[4..]).value;
      assert b == head + tail;
      EncodeDecodeBlock(xs[..4]);
      EncodeDecodeSymbols(xs[4..], tail);
      assert b[..3] == head && b[3..] == tail;
      assert xs == xs[..4] + xs[4..];
    }
  }

  /** Strict decoding accepts exactly the encoder's outputs: whatever it
      returns re-encodes to the very text it was given. */
  lemma EncodeDecode(s: string, b: seq<byte>)
    requires Decode(s) == Some(b)
    ensures Encode(b) == s
  {
    var xs := Parse(s).value;
    RenderParse(s, xs);
    EncodeDecodeSymbols(xs, b);
  }

  /** Encoding is injective, so the encoded form identifies its input. */
  lemma EncodeInjective(b1: seq<byte>, b2: seq<byte>)
    requires Encode(b1) == Encode(b2)
    ensures b1 == b2
  {
    DecodeEncode(b1);
    DecodeEncode(b2);
  }

  /** The test vectors of section 10 of RFC 4648, for "", "f", "fo" and "foo". */
  lemma KnownAnswersShort()
    ensures Encode([]) == ""
    ensures Encode([0x66]) == "Zg=="
    ensures Encode([0x66, 0x6f]) == "Zm8="
    ensures Encode([0x66, 0x6f, 0x6f]) == "Zm9v"
  {
  }

  /** The vectors of section 10 of RFC 4648 that span two blocks, "foob"
      and "fooba". */
  lemma KnownAnswerFoob()
    ensures Encode([0x66, 0x6f, 0x6f, 0x62]) == "Zm9vYg=="
  {
  }

  lemma KnownAnswerFooba()
    ensures Encode([0x66, 0x6f, 0x6f, 0x62, 0x61]) == "Zm9vYmE="
  {
  }
}
