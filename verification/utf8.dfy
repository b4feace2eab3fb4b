/** UTF-8 (RFC 3629) over Unicode scalar values: the encoder used for
    `str.encode('utf-8')` and the strict decoder used for `bytes.decode()`.
    The decoder rejects what Python's strict codec rejects: stray continuation
    bytes, truncated sequences, overlong forms, surrogates and values above U+10FFFF. */
module Utf8 {
  import opened Basics

  predicate IsContinuation(b: byte) {
    0x80 <= b < 0xC0
  }

  /** Number of bytes the encoding of `c` takes. */
  function Width(c: char): (n: nat)
    ensures 1 <= n <= 4
  {
    var v := c as int;
    if v < 0x80 then 1 else if v < 0x800 then 2 else if v < 0x10000 then 3 else 4
  }

  function EncodeChar(c: char): (r: seq<byte>)
    ensures |r| == Width(c)
    // a leading byte is never a continuation byte, so encodings are self-synchronising
    ensures !IsContinuation(r[0])
    ensures forall i :: 1 <= i < |r| ==> IsContinuation(r[i])
    // ASCII is encoded as itself
    ensures c as int < 0x80 <==> r == [c as int]
  {
    // the code point in 6-bit groups, least significant first
    var v := c as int;
    var w1 := v / 64;
    var w2 := w1 / 64;
    var w3 := w2 / 64;
    if v < 0x80 then [v]
    else if v < 0x800 then [0xC0 + w1, 0x80 + v % 64]
    else if v < 0x10000 then [0xE0 + w2, 0x80 + w1 % 64, 0x80 + v % 64]
    else [0xF0 + w3, 0x80 + w2 % 64, 0x80 + w1 % 64, 0x80 + v % 64]
  }

  function Encode(s: string): (r: seq<byte>)
    ensures |r| >= |s|
    ensures |s| == 0 <==> |r| == 0
  {
    if s == [] then [] else EncodeChar(s[0]) + Encode(s[1..])
  }

  /** The byte at `i` as an integer, or 0 past the end. */
  function At(b: seq<byte>, i: nat): (v: int)
    ensures 0 <= v < 256
    ensures i < |b| ==> v == b[i]
  {
    if i < |b| then b[i] else 0
  }

  /** Decodes the first character of `b` and says how many bytes it took. */
  function DecodeFirst(b: seq<byte>): (r: Option<(char, nat)>)
    requires |b| > 0
    ensures r.Some? ==> 1 <= r.value.1 <= |b|
  {
    var b0, b1, b2, b3 := b[0] as int, At(b, 1), At(b, 2), At(b, 3);
    if b0 < 0x80 then
      Some((b0 as char, 1))
    else if 0xC0 <= b0 < 0xE0 then
      if |b| >= 2 && IsContinuation(b[1]) then
        var v := (b0 - 0xC0) * 64 + (b1 - 0x80);
        if 0x80 <= v then Some((v as char, 2)) else None
      else None
    else if 0xE0 <= b0 < 0xF0 then
      if |b| >= 3 && IsContinuation(b[1]) && IsContinuation(b[2]) then
        var v := (b0 - 0xE0) * 4096 + (b1 - 0x80) * 64 + (b2 - 0x80);
        if 0x800 <= v && !(0xD800 <= v < 0xE000) then Some((v as char, 3)) else None
      else None
    else if 0xF0 <= b0 < 0xF8 then
      if |b| >= 4 && IsContinuation(b[1]) && IsContinuation(b[2]) && IsContinuation(b[3]) then
        var v := (b0 - 0xF0) * 262144 + (b1 - 0x80) * 4096 + (b2 - 0x80) * 64 + (b3 - 0x80);
        if 0x10000 <= v < 0x110000 then Some((v as char, 4)) else None
      else None
    else
      None
  }

  /** Strict decoding; `None` is the `UnicodeDecodeError` Python raises. */
  function Decode(b: seq<byte>): (r: Option<string>)
    ensures r.Some? ==> |r.value| <= |b| && (r.value == [] <==> b == [])
    ensures (forall i :: 0 <= i < |b| ==> b[i] < 0x80) ==> r.Some? && |r.value| == |b|
    decreases |b|
  {
    if b == [] then Some([])
    else match DecodeFirst(b)
      case None => None
      case Some((c, n)) =>
        match Decode(b[n..])
        case None => None
        case Some(rest) => Some([c] + rest)
  }

  /** Division by 64 is determined by a quotient/remainder pair; the 6-bit
      groups of UTF-8 are read back this way. */
  lemma DivMod64(v: int, q: int, r: int)
    requires 0 <= r < 64 && v == q * 64 + r
    ensures v / 64 == q && v % 64 == r
  {
  }

  lemma {:induction false} DecodeFirstEncodeChar(c: char, rest: seq<byte>)
    ensures DecodeFirst(EncodeChar(c) + rest) == Some((c, Width(c)))
  {
    var v := c as int;
    var e := EncodeChar(c) + rest;
    var e0, e1, e2, e3 := At(e, 0), At(e, 1), At(e, 2), At(e, 3);
    var w1 := v / 64;
    var w2 := w1 / 64;
    if v < 0x80 {
    } else if v < 0x800 {
      assert (e0 - 0xC0) * 64 + (e1 - 0x80) == v;
    } else if v < 0x10000 {
      assert (e0 - 0xE0) * 64 + (e1 - 0x80) == w1;
      assert (e0 - 0xE0) * 4096 + (e1 - 0x80) * 64 + (e2 - 0x80) == v;
    } else {
      assert (e0 - 0xF0) * 64 + (e1 - 0x80) == w2;
      assert w2 * 64 + (e2 - 0x80) == w1;
      assert (e0 - 0xF0) * 262144 + (e1 - 0x80) * 4096 + (e2 - 0x80) * 64 + (e3 - 0x80) == v;
    }
  }

  /** Decoding undoes encoding. */
  lemma {:induction false} DecodeEncode(s: string)
    ensures Decode(Encode(s)) == Some(s)
  {
    if s != [] {
      var e := Encode(s);
      assert e == EncodeChar(s[0]) + Encode(s[1..]);
      DecodeFirstEncodeChar(s[0], Encode(s[1..]));
      assert e[Width(s[0])..] == Encode(s[1..]);
      DecodeEncode(s[1..]);
      assert [s[0]] + s[1..] == s;
    }
  }

  /** The first decoded character re-encodes to exactly the bytes it came from. */
  lemma EncodeDecodeFirst(b: seq<byte>)
    requires |b| > 0 && DecodeFirst(b).Some?
    ensures var (c, n) := DecodeFirst(b).value; EncodeChar(c) == b[..n]
  {
    var b0, b1, b2, b3 := b[0] as int, At(b, 1), At(b, 2), At(b, 3);
    if b0 < 0x80 {
    } else if 0xC0 <= b0 < 0xE0 {
      EncodeTwo(b0, b1);
      assert b[..2] == [b0, b1];
    } else if 0xE0 <= b0 < 0xF0 {
      EncodeThree(b0, b1, b2);
      assert b[..3] == [b0, b1, b2];
    } else {
      EncodeFour(b0, b1, b2, b3);
      assert b[..4] == [b0, b1, b2, b3];
    }
  }

  lemma EncodeTwo(b0: int, b1: int)
    requires 0xC0 <= b0 < 0xE0 && 0x80 <= b1 < 0xC0
    requires 0x80 <= (b0 - 0xC0) * 64 + (b1 - 0x80)
    ensures EncodeChar(((b0 - 0xC0) * 64 + (b1 - 0x80)) as char) == [b0, b1]
  {
    DivMod64((b0 - 0xC0) * 64 + (b1 - 0x80), b0 - 0xC0, b1 - 0x80);
  }

  lemma EncodeThree(b0: int, b1: int, b2: int)
    requires 0xE0 <= b0 < 0xF0 && 0x80 <= b1 < 0xC0 && 0x80 <= b2 < 0xC0
    requires var v := (b0 - 0xE0) * 4096 + (b1 - 0x80) * 64 + (b2 - 0x80);
      0x800 <= v && !(0xD800 <= v < 0xE000)
    ensures EncodeChar(((b0 - 0xE0) * 4096 + (b1 - 0x80) * 64 + (b2 - 0x80)) as char) == [b0, b1, b2]
  {
    var w := (b0 - 0xE0) * 64 + (b1 - 0x80);
    var v := w * 64 + (b2 - 0x80);
    DivMod64(v, w, b2 - 0x80);
    DivMod64(w, b0 - 0xE0, b1 - 0x80);
  }

  lemma EncodeFour(b0: int, b1: int, b2: int, b3: int)
    requires 0xF0 <= b0 < 0xF8 && 0x80 <= b1 < 0xC0 && 0x80 <= b2 < 0xC0 && 0x80 <= b3 < 0xC0
    requires var v := (b0 - 0xF0) * 262144 + (b1 - 0x80) * 4096 + (b2 - 0x80) * 64 + (b3 - 0x80);
      0x10000 <= v < 0x110000
    ensures EncodeChar(((b0 - 0xF0) * 262144 + (b1 - 0x80) * 4096 + (b2 - 0x80) * 64 + (b3 - 0x80)) as char)
         == [b0, b1, b2, b3]
  {
    var w1 := (b0 - 0xF0) * 64 + (b1 - 0x80);
    var w2 := w1 * 64 + (b2 - 0x80);
    var v := w2 * 64 + (b3 - 0x80);
    DivMod64(v, w2, b3 - 0x80);
    DivMod64(w2, w1, b2 - 0x80);
    DivMod64(w1, b0 - 0xF0, b1 - 0x80);
  }

  /** Strict decoding accepts only genuine encodings: whatever it returns
      re-encodes to the input, so no two byte strings decode to the same text. */
  lemma {:induction false} EncodeDecode(b: seq<byte>, s: string)
    requires Decode(b) == Some(s)
    ensures Encode(s) == b
    decreases |b|
  {
    if b != [] {
      var n := DecodeStep(b, s);
      EncodeDecode(b[n..], s[1..]);
      Reassemble(b, s, n);
    }
  }

  /** The encodings of the first character and of the rest, placed side by
      side at `n`, make up the encoding of the whole text. */
  lemma Reassemble(b: seq<byte>, s: string, n: nat)
    requires 1 <= n <= |b| && s != []
    requires EncodeChar(s[0]) == b[..n] && Encode(s[1..]) == b[n..]
    ensures Encode(s) == b
  {
    assert b == b[..n] + b[n..];
  }

  /** One step of `Decode` on a non-empty input that decodes: the first
      character came from the first `n` bytes, and the rest decodes to the
      rest of the text. */
  lemma DecodeStep(b: seq<byte>, s: string) returns (n: nat)
    requires b != [] && Decode(b) == Some(s)
    ensures 1 <= n <= |b| && s != []
    ensures EncodeChar(s[0]) == b[..n] && Decode(b[n..]) == Some(s[1..])
  {
    var (c, k) := DecodeFirst(b).value;
    var rest := Decode(b[k..]).value;
    assert s == [c] + rest;
    EncodeDecodeFirst(b);
    n := k;
  }

  /** ASCII text is its own encoding. */
  lemma {:induction false} EncodeAscii(s: string)
    requires forall i :: 0 <= i < |s| ==> s[i] as int < 0x80
    ensures |Encode(s)| == |s|
    ensures forall i :: 0 <= i < |s| ==> Encode(s)[i] == s[i] as int
  {
    if s != [] {
      EncodeAscii(s[1..]);
    }
  }
}
