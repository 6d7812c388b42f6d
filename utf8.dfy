// Rust strings are UTF-8: `String::from_utf8` accepts exactly the
// well-formed byte sequences, and `str::len` counts bytes, not characters.

module Utf8 {
  import opened Wrappers
  import opened Graphics

  /** The UTF-8 encoding of one Unicode scalar value. */
  function EncodeChar(c: char): (r: seq<u8>)
    ensures 1 <= |r| <= 4
  {
    var n := c as int;
    if n < 0x80 then [n]
    else if n < 0x800 then [0xC0 + n / 0x40, 0x80 + n % 0x40]
    else if n < 0x1_0000 then [0xE0 + n / 0x1000, 0x80 + (n / 0x40) % 0x40, 0x80 + n % 0x40]
    else [0xF0 + n / 0x4_0000, 0x80 + (n / 0x1000) % 0x40, 0x80 + (n / 0x40) % 0x40, 0x80 + n % 0x40]
  }

  /** `str::as_bytes`. */
  function Encode(s: string): seq<u8>
  {
    if s == [] then [] else EncodeChar(s[0]) + Encode(s[1..])
  }

  /** `str::len`: the length in bytes. */
  function ByteLen(s: string): nat
  {
    |Encode(s)|
  }

  /** Every character takes at least one byte. */
  lemma {:induction false} ByteLenAtLeastLength(s: string)
    ensures ByteLen(s) >= |s|
  {
    if s != [] {
      ByteLenAtLeastLength(s[1..]);
    }
  }

  predicate IsCont(b: u8) { 0x80 <= b <= 0xBF }

  /** The payload bits of a continuation byte. */
  function Low(b: u8): int { b as int - 0x80 }

  /** The first character of a byte sequence and the number of bytes it
      takes, or `None` if the sequence does not start with a well-formed
      UTF-8 encoding (overlong forms, surrogates and values past U+10FFFF are
      rejected). */
  function DecodeFirst(b: seq<u8>): (r: Option<(char, nat)>)
    ensures r.Some? ==> 1 <= r.value.1 <= |b|
  {
    if |b| == 0 then None
    else
      var b0 := b[0] as int;
      if b0 < 0x80 then Some((b0 as char, 1))
      else if 0xC2 <= b0 <= 0xDF then
        if |b| >= 2 && IsCont(b[1]) then
          Some((((b0 - 0xC0) * 0x40 + Low(b[1])) as char, 2))
        else None
      else if 0xE0 <= b0 <= 0xEF then
        if |b| >= 3 && IsCont(b[1]) && IsCont(b[2])
           && (b0 != 0xE0 || b[1] >= 0xA0) && (b0 != 0xED || b[1] <= 0x9F) then
          Some((((b0 - 0xE0) * 0x1000 + Low(b[1]) * 0x40 + Low(b[2])) as char, 3))
        else None
      else if 0xF0 <= b0 <= 0xF4 then
        if |b| >= 4 && IsCont(b[1]) && IsCont(b[2]) && IsCont(b[3])
           && (b0 != 0xF0 || b[1] >= 0x90) && (b0 != 0xF4 || b[1] <= 0x8F) then
          Some((((b0 - 0xF0) * 0x4_0000 + Low(b[1]) * 0x1000 + Low(b[2]) * 0x40 + Low(b[3])) as char, 4))
        else None
      else None
  }

  /** `String::from_utf8`: the decoded string, or `None` if the bytes are not
      well-formed UTF-8. */
  function Decode(b: seq<u8>): Option<string>
    decreases |b|
  {
    if b == [] then Some([])
    else match DecodeFirst(b)
      case None => None
      case Some((c, n)) =>
        match Decode(b[n..])
        case None => None
        case Some(s) => Some([c] + s)
  }

  lemma EncodeConcat(s: string, t: string)
    ensures Encode(s + t) == Encode(s) + Encode(t)
  {
    if s == [] {
      assert s + t == t;
    } else {
      assert (s + t)[0] == s[0];
      assert (s + t)[1..] == s[1..] + t;
      EncodeConcat(s[1..], t);
      calc {
        Encode(s + t);
        EncodeChar(s[0]) + Encode(s[1..] + t);
        EncodeChar(s[0]) + (Encode(s[1..]) + Encode(t));
        (EncodeChar(s[0]) + Encode(s[1..])) + Encode(t);
      }
    }
  }

  lemma DivMod64(q: int, r: int)
    requires q >= 0 && 0 <= r < 0x40
    ensures (q * 0x40 + r) / 0x40 == q && (q * 0x40 + r) % 0x40 == r
  {
  }

  lemma DivMod4096(q: int, r: int)
    requires q >= 0 && 0 <= r < 0x1000
    ensures (q * 0x1000 + r) / 0x1000 == q
  {
  }

  lemma DivMod262144(q: int, r: int)
    requires q >= 0 && 0 <= r < 0x4_0000
    ensures (q * 0x4_0000 + r) / 0x4_0000 == q
  {
  }

  /** Encoding a character and decoding it back gives that character. */
  lemma DecodeEncodeChar(c: char, rest: seq<u8>)
    ensures DecodeFirst(EncodeChar(c) + rest) == Some((c, |EncodeChar(c)|))
  {
    var n := c as int;
    if n < 0x80 {
    } else if n < 0x800 {
      DecodeEncodeTwo(c, rest);
    } else if n < 0x1_0000 {
      DecodeEncodeThree(c, rest);
    } else {
      DecodeEncodeFour(c, rest);
    }
  }

  lemma DecodeEncodeTwo(c: char, rest: seq<u8>)
    requires 0x80 <= c as int < 0x800
    ensures DecodeFirst(EncodeChar(c) + rest) == Some((c, 2))
  {
    var n := c as int;
    DivMod64(n / 0x40, n % 0x40);
    assert (n / 0x40) * 0x40 + n % 0x40 == n;
  }

  lemma DecodeEncodeThree(c: char, rest: seq<u8>)
    requires 0x800 <= c as int < 0x1_0000
    ensures DecodeFirst(EncodeChar(c) + rest) == Some((c, 3))
  {
    var n := c as int;
    var b := EncodeChar(c) + rest;
    var hi, mid, lo := n / 0x1000, (n / 0x40) % 0x40, n % 0x40;
    assert n / 0x40 == hi * 0x40 + mid;
    assert n == hi * 0x1000 + mid * 0x40 + lo;
    assert b[0] as int - 0xE0 == hi && Low(b[1]) == mid && Low(b[2]) == lo;
  }

  lemma DecodeEncodeFour(c: char, rest: seq<u8>)
    requires 0x1_0000 <= c as int
    ensures DecodeFirst(EncodeChar(c) + rest) == Some((c, 4))
  {
    var n := c as int;
    var b := EncodeChar(c) + rest;
    var top, hi, mid, lo := n / 0x4_0000, (n / 0x1000) % 0x40, (n / 0x40) % 0x40, n % 0x40;
    assert n / 0x1000 == top * 0x40 + hi;
    assert n / 0x40 == (n / 0x1000) * 0x40 + mid;
    assert n == top * 0x4_0000 + hi * 0x1000 + mid * 0x40 + lo;
    assert b[0] as int - 0xF0 == top && Low(b[1]) == hi && Low(b[2]) == mid && Low(b[3]) == lo;
  }

  /** Decoding recognises exactly one encoded character. */
  lemma EncodeDecodeChar(b: seq<u8>)
    requires DecodeFirst(b).Some?
    ensures EncodeChar(DecodeFirst(b).value.0) == b[..DecodeFirst(b).value.1]
  {
    var (c, len) := DecodeFirst(b).value;
    var n := c as int;
    var b0 := b[0] as int;
    if len == 2 {
      DivMod64(b0 - 0xC0, Low(b[1]));
    } else if len == 3 {
      DivMod4096(b0 - 0xE0, Low(b[1]) * 0x40 + Low(b[2]));
      DivMod64((b0 - 0xE0) * 0x40 + Low(b[1]), Low(b[2]));
      DivMod64(b0 - 0xE0, Low(b[1]));
    } else if len == 4 {
      DivMod262144(b0 - 0xF0, Low(b[1]) * 0x1000 + Low(b[2]) * 0x40 + Low(b[3]));
      DivMod4096((b0 - 0xF0) * 0x40 + Low(b[1]), Low(b[2]) * 0x40 + Low(b[3]));
      DivMod64((b0 - 0xF0) * 0x40 + Low(b[1]), Low(b[2]));
      DivMod64(((b0 - 0xF0) * 0x40 + Low(b[1])) * 0x40 + Low(b[2]), Low(b[3]));
      DivMod64(b0 - 0xF0, Low(b[1]));
    }
  }

  /** Every string's bytes decode back to it. */
  lemma {:induction false} DecodeEncode(s: string)
    ensures Decode(Encode(s)) == Some(s)
  {
    if s != [] {
      var b := Encode(s);
      var e := EncodeChar(s[0]);
      assert b == e + Encode(s[1..]);
      DecodeEncodeChar(s[0], Encode(s[1..]));
      assert b[|e|..] == Encode(s[1..]);
      DecodeEncode(s[1..]);
      assert [s[0]] + s[1..] == s;
    }
  }

  /** Whatever decodes is the encoding of its result, so the decoded
      string's byte length is the number of input bytes. */
  lemma {:induction false} EncodeDecode(b: seq<u8>)
    requires Decode(b).Some?
    ensures Encode(Decode(b).value) == b
    ensures ByteLen(Decode(b).value) == |b|
    decreases |b|
  {
    if b != [] {
      var c, n := DecodeStep(b);
      var t := Decode(b[n..]).value;
      EncodeDecode(b[n..]);
      EncodeCons(c, t);
      assert b == b[..n] + b[n..];
    }
  }

  /** One step of a successful decode: the first character's bytes, then a
      successful decode of the rest. */
  lemma DecodeStep(b: seq<u8>) returns (c: char, n: nat)
    requires Decode(b).Some? && b != []
    ensures 1 <= n <= |b| && Decode(b[n..]).Some?
    ensures Decode(b).value == [c] + Decode(b[n..]).value
    ensures EncodeChar(c) == b[..n]
  {
    c, n := DecodeFirst(b).value.0, DecodeFirst(b).value.1;
    EncodeDecodeChar(b);
  }

  lemma EncodeCons(c: char, t: string)
    ensures Encode([c] + t) == EncodeChar(c) + Encode(t)
  {
    var s := [c] + t;
    assert s[0] == c && s[1..] == t;
  }


  /** ASCII bytes decode one character per byte. */
  lemma {:induction false} DecodeAscii(b: seq<u8>)
    requires forall k :: 0 <= k < |b| ==> b[k] < 0x80
    ensures Decode(b).Some? && |Decode(b).value| == |b|
    ensures forall k :: 0 <= k < |b| ==> Decode(b).value[k] as int == b[k]
    decreases |b|
  {
    if b != [] {
      DecodeAscii(b[1..]);
    }
  }
}
