/** UTF-8 as defined by RFC 3629: the encoding of Python's `str.encode("utf-8")`
    and the strict decoding of `bytes.decode("utf-8")`. A `char` is a Unicode
    scalar value (U+0000..U+D7FF, U+E000..U+10FFFF). */
module Utf8 {
  import opened Outcomes
  import Seqs

  type byte = b: int | 0 <= b < 256

  /** The form feed, U+000C, and its one-byte encoding 0x0C. */
  const FormFeed: char := '\U{000C}'
  const FormFeedByte: byte := 0x0C

  /** The encoding of one scalar value (RFC 3629, section 3). */
  function EncodeChar(c: char): (r: seq<byte>)
    ensures 1 <= |r| <= 4
    ensures |r| == 1 <==> c as int < 0x80
    ensures |r| == 1 ==> r[0] == c as int
    ensures |r| > 1 ==> forall i :: 0 <= i < |r| ==> r[i] >= 0x80
  {
    var n := c as int;
    if n < 0x80 then [n]
    else if n < 0x800 then [0xC0 + n / 64, 0x80 + n % 64]
    else if n < 0x10000 then [0xE0 + n / 4096, 0x80 + (n / 64) % 64, 0x80 + n % 64]
    else [0xF0 + n / 262144, 0x80 + (n / 4096) % 64, 0x80 + (n / 64) % 64, 0x80 + n % 64]
  }

  /** `s.encode("utf-8")`: the encodings of the characters, in order. */
  function Encode(s: string): seq<byte>
  {
    if |s| == 0 then [] else EncodeChar(s[0]) + Encode(s[1..])
  }

  predicate IsContinuation(b: byte) { 0x80 <= b < 0xC0 }

  /** The scalar value carried by a two-, three- or four-byte sequence: the payload
      bits of the lead byte followed by six bits per continuation byte. */
  function Value2(b0: int, b1: int): (n: int)
    requires 0xC2 <= b0 < 0xE0 && 0x80 <= b1 < 0xC0
    ensures 0x80 <= n < 0x800
  {
    (b0 - 0xC0) * 64 + (b1 - 0x80)
  }

  function Value3(b0: int, b1: int, b2: int): (n: int)
    requires 0xE0 <= b0 < 0xF0 && 0x80 <= b1 < 0xC0 && 0x80 <= b2 < 0xC0
    ensures 0 <= n < 0x10000
  {
    (b0 - 0xE0) * 4096 + (b1 - 0x80) * 64 + (b2 - 0x80)
  }

  function Value4(b0: int, b1: int, b2: int, b3: int): (n: int)
    requires 0xF0 <= b0 < 0xF5 && 0x80 <= b1 < 0xC0 && 0x80 <= b2 < 0xC0 && 0x80 <= b3 < 0xC0
    ensures 0 <= n < 0x140000
  {
    (b0 - 0xF0) * 262144 + (b1 - 0x80) * 4096 + (b2 - 0x80) * 64 + (b3 - 0x80)
  }

  /** The first character of `bs` and the number of bytes it takes, or `None` when
      `bs` does not start with a well-formed sequence (RFC 3629, section 4: no
      overlong forms, no surrogates, nothing above U+10FFFF). */
  function DecodeFirst(bs: seq<byte>): (r: Option<(char, nat)>)
    requires |bs| > 0
    ensures r.Some? ==> 1 <= r.value.1 <= |bs| && r.value.1 <= 4
  {
    var b0 := bs[0] as int;
    if b0 < 0x80 then Some((b0 as char, 1))
    else if 0xC2 <= b0 < 0xE0 && |bs| >= 2 && IsContinuation(bs[1]) then
      Some((Value2(b0, bs[1]) as char, 2))
    else if 0xE0 <= b0 < 0xF0 && |bs| >= 3 && IsContinuation(bs[1]) && IsContinuation(bs[2]) then
      var n := Value3(b0, bs[1], bs[2]);
      if 0x800 <= n && !(0xD800 <= n < 0xE000) then Some((n as char, 3)) else None
    else if 0xF0 <= b0 < 0xF5 && |bs| >= 4 && IsContinuation(bs[1]) && IsContinuation(bs[2])
            && IsContinuation(bs[3]) then
      var n := Value4(b0, bs[1], bs[2], bs[3]);
      if 0x10000 <= n < 0x110000 then Some((n as char, 4)) else None
    else None
  }

  /** `bs.decode("utf-8")` (strict): the decoded text, or `None` where Python raises
      `UnicodeDecodeError`. */
  function Decode(bs: seq<byte>): Option<string>
    decreases |bs|
  {
    if |bs| == 0 then Some([])
    else
      match DecodeFirst(bs)
      case None => None
      case Some((c, len)) =>
        match Decode(bs[len..])
        case None => None
        case Some(s) => Some([c] + s)
  }

  /** The encodings of every page, in order (the generator inside the joins). */
  function EncodeAll(pages: seq<string>): (r: seq<seq<byte>>)
    ensures |r| == |pages|
    ensures forall i :: 0 <= i < |pages| ==> r[i] == Encode(pages[i])
  {
    if |pages| == 0 then [] else [Encode(pages[0])] + EncodeAll(pages[1..])
  }

  lemma {:induction false} EncodeAllSnoc(pages: seq<string>, p: string)
    ensures EncodeAll(pages + [p]) == EncodeAll(pages) + [Encode(p)]
  {
  }

  lemma {:induction false} EncodeAppend(a: string, b: string)
    ensures Encode(a + b) == Encode(a) + Encode(b)
  {
    if |a| == 0 {
      assert a + b == b;
    } else {
      assert (a + b)[1..] == a[1..] + b;
      EncodeAppend(a[1..], b);
    }
  }

  /** U+000C encodes as the single byte 0x0C (RFC 3629, section 3). */
  lemma FormFeedEncoding()
    ensures Encode([FormFeed]) == [FormFeedByte]
  {
  }

  /** Decoding the encoding of a character followed by anything yields that character. */
  lemma DecodeFirstOfEncoding(c: char, rest: seq<byte>)
    ensures DecodeFirst(EncodeChar(c) + rest) == Some((c, |EncodeChar(c)|))
  {
    var n := c as int;
    var e := EncodeChar(c);
    var bs := e + rest;
    assert bs[..|e|] == e;
    if n < 0x80 {
    } else if n < 0x800 {
      Split2(n);
    } else if n < 0x10000 {
      Split3(n);
    } else {
      Split4(n);
    }
  }

  lemma Split2(n: int)
    requires 0x80 <= n < 0x800
    ensures Value2(0xC0 + n / 64, 0x80 + n % 64) == n
  {
  }

  lemma Split3(n: int)
    requires 0x800 <= n < 0x10000
    ensures 0xE0 <= 0xE0 + n / 4096 < 0xF0
    ensures Value3(0xE0 + n / 4096, 0x80 + (n / 64) % 64, 0x80 + n % 64) == n
  {
    var q := n / 64;
    assert n == q * 64 + n % 64;
    assert q == (q / 64) * 64 + q % 64;
    assert q / 64 == n / 4096;
  }

  lemma Split4(n: int)
    requires 0x10000 <= n < 0x110000
    ensures 0xF0 <= 0xF0 + n / 262144 < 0xF5
    ensures Value4(0xF0 + n / 262144, 0x80 + (n / 4096) % 64, 0x80 + (n / 64) % 64, 0x80 + n % 64) == n
  {
    var q := n / 64;
    var p := q / 64;
    assert n == q * 64 + n % 64;
    assert q == p * 64 + q % 64;
    assert p == (p / 64) * 64 + p % 64;
    assert p == n / 4096;
    assert p / 64 == n / 262144;
  }

  /** A well-formed first sequence is exactly the encoding of the character it decodes to. */
  lemma DecodeFirstIsEncoding(bs: seq<byte>)
    requires |bs| > 0 && DecodeFirst(bs).Some?
    ensures bs[..DecodeFirst(bs).value.1] == EncodeChar(DecodeFirst(bs).value.0)
  {
    var b0 := bs[0] as int;
    var c := DecodeFirst(bs).value.0;
    var n := c as int;
    if b0 < 0x80 {
    } else if b0 < 0xE0 {
      Join2(b0 - 0xC0, bs[1] - 0x80);
    } else if b0 < 0xF0 {
      Join3(b0 - 0xE0, bs[1] - 0x80, bs[2] - 0x80);
    } else {
      Join4(b0 - 0xF0, bs[1] - 0x80, bs[2] - 0x80, bs[3] - 0x80);
    }
  }

  lemma Join2(x: int, y: int)
    requires 0 <= y < 64
    ensures (x * 64 + y) / 64 == x && (x * 64 + y) % 64 == y
  {
  }

  lemma Join3(x: int, y: int, z: int)
    requires 0 <= y < 64 && 0 <= z < 64
    ensures var n := x * 4096 + y * 64 + z; n / 4096 == x && (n / 64) % 64 == y && n % 64 == z
  {
    var n := x * 4096 + y * 64 + z;
    Join2(x * 64 + y, z);
    assert n == (x * 64 + y) * 64 + z;
    Join2(x, y);
    assert n / 4096 == (n / 64) / 64;
  }

  lemma Join4(w: int, x: int, y: int, z: int)
    requires 0 <= x < 64 && 0 <= y < 64 && 0 <= z < 64
    ensures var n := w * 262144 + x * 4096 + y * 64 + z;
      n / 262144 == w && (n / 4096) % 64 == x && (n / 64) % 64 == y && n % 64 == z
  {
    var n := w * 262144 + x * 4096 + y * 64 + z;
    var m := w * 4096 + x * 64 + y;
    assert n == m * 64 + z;
    Join2(m, z);
    Join3(w, x, y);
    assert n / 4096 == (n / 64) / 64;
    assert n / 262144 == (n / 64) / 4096;
  }

  /** Decoding undoes encoding: the UTF-8 round trip changes no text. */
  lemma {:induction false} DecodeEncode(s: string)
    ensures Decode(Encode(s)) == Some(s)
  {
    if |s| > 0 {
      var e := EncodeChar(s[0]);
      DecodeFirstOfEncoding(s[0], Encode(s[1..]));
      assert (e + Encode(s[1..]))[|e|..] == Encode(s[1..]);
      DecodeEncode(s[1..]);
      assert s == [s[0]] + s[1..];
    }
  }

  /** The decoder is strict: whatever it accepts is the encoding of what it returns. */
  lemma {:induction false} EncodeDecode(bs: seq<byte>)
    requires Decode(bs).Some?
    ensures Encode(Decode(bs).value) == bs
  {
    if |bs| > 0 {
      var len := DecodeFirst(bs).value.1;
      DecodeFirstIsEncoding(bs);
      EncodeDecode(bs[len..]);
      var s := Decode(bs).value;
      assert s[1..] == Decode(bs[len..]).value;
      assert bs == bs[..len] + bs[len..];
    }
  }

  /** 0x0C occurs in an encoding exactly where U+000C occurs in the text: no byte of a
      multi-byte sequence is below 0x80. */
  lemma {:induction false} CountFormFeedBytes(s: string)
    ensures Seqs.Count(Encode(s), FormFeedByte) == Seqs.Count(s, FormFeed)
  {
    if |s| > 0 {
      var e := EncodeChar(s[0]);
      Seqs.CountAppend(e, Encode(s[1..]), FormFeedByte);
      CountFormFeedBytes(s[1..]);
      if |e| > 1 {
        NoSmallByte(e);
      }
    }
  }

  lemma {:induction false} NoSmallByte(e: seq<byte>)
    requires forall i :: 0 <= i < |e| ==> e[i] >= 0x80
    ensures Seqs.Count(e, FormFeedByte) == 0
  {
    if |e| > 0 {
      NoSmallByte(e[1..]);
    }
  }
}
