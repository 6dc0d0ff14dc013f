/**
  UTF-8 as the splitter needs it: the strict decoding that `str::from_utf8` performs on a
  byte range (which fails on any ill-formed sequence), the lossy decoding that
  `String::from_utf8_lossy` performs (which replaces each maximal ill-formed subpart with
  U+FFFD), and the encoding of Unicode scalar values, which is the inverse of decoding.

  The well-formed byte sequences are those of Table 3-7 in section 3.9 of the Unicode
  Standard; `char` is a Unicode scalar value.
*/
module Utf8 {
  import opened Results

  newtype byte = x: int | 0 <= x < 0x100

  /** U+FFFD REPLACEMENT CHARACTER, which lossy decoding puts in place of ill-formed bytes. */
  const Replacement: char := '\U{FFFD}'

  /** The length of the well-formed sequence that `lead` starts, or 0 when no sequence starts with it. */
  function SequenceLength(lead: byte): (n: nat)
    ensures n <= 4
  {
    if lead <= 0x7F then 1
    else if 0xC2 <= lead <= 0xDF then 2
    else if 0xE0 <= lead <= 0xEF then 3
    else if 0xF0 <= lead <= 0xF4 then 4
    else 0
  }

  predicate IsContinuation(b: byte) {
    0x80 <= b <= 0xBF
  }

  /** Whether `b[k]` may stand at position `k` of a well-formed sequence led by `b[0]`. */
  predicate Fits(b: seq<byte>, k: nat)
    requires 1 <= k < |b|
  {
    if k > 1 then IsContinuation(b[k])
    else if b[0] == 0xE0 then 0xA0 <= b[1] <= 0xBF
    else if b[0] == 0xED then 0x80 <= b[1] <= 0x9F
    else if b[0] == 0xF0 then 0x90 <= b[1] <= 0xBF
    else if b[0] == 0xF4 then 0x80 <= b[1] <= 0x8F
    else IsContinuation(b[1])
  }

  /** `b[..k]` is a prefix of some well-formed sequence. */
  predicate StartsSequence(b: seq<byte>, k: nat)
    requires k <= |b|
  {
    && 1 <= k <= SequenceLength(b[0])
    && forall j :: 1 <= j < k ==> Fits(b, j)
  }

  /** The maximal subpart at the front of `b`: its longest prefix that begins a well-formed sequence. */
  function MaximalSubpart(b: seq<byte>): (k: nat)
    requires |b| > 0
    ensures k <= |b|
    ensures k == 0 <==> SequenceLength(b[0]) == 0
    ensures k > 0 ==> StartsSequence(b, k)
    ensures k > 0 && k < SequenceLength(b[0]) && k < |b| ==> !Fits(b, k)
  {
    if SequenceLength(b[0]) == 0 then 0 else Extend(b, 1)
  }

  function Extend(b: seq<byte>, k: nat): (m: nat)
    requires 1 <= k <= |b| && StartsSequence(b, k)
    ensures k <= m <= |b| && StartsSequence(b, m)
    ensures m < SequenceLength(b[0]) && m < |b| ==> !Fits(b, m)
    decreases SequenceLength(b[0]) - k
  {
    if k < SequenceLength(b[0]) && k < |b| && Fits(b, k) then Extend(b, k + 1) else k
  }

  /** The scalar value that the complete well-formed sequence at the front of `b` encodes. */
  function ScalarValue(b: seq<byte>): char
    requires |b| > 0 && SequenceLength(b[0]) <= |b| && StartsSequence(b, SequenceLength(b[0]))
  {
    var n := SequenceLength(b[0]);
    if n == 1 then
      b[0] as int as char
    else if n == 2 then
      ((b[0] as int - 0xC0) * 0x40 + (b[1] as int - 0x80)) as char
    else if n == 3 then
      assert Fits(b, 1) && Fits(b, 2);
      var v := (b[0] as int - 0xE0) * 0x1000 + (b[1] as int - 0x80) * 0x40 + (b[2] as int - 0x80);
      assert v < 0xD800 || 0xE000 <= v < 0x10000 by {
        if b[0] == 0xED {
          assert b[1] <= 0x9F;
        }
      }
      v as char
    else
      assert Fits(b, 1) && Fits(b, 2) && Fits(b, 3);
      var v := (b[0] as int - 0xF0) * 0x40000 + (b[1] as int - 0x80) * 0x1000
        + (b[2] as int - 0x80) * 0x40 + (b[3] as int - 0x80);
      assert 0x10000 <= v < 0x110000 by {
        if b[0] == 0xF4 {
          assert b[1] <= 0x8F;
        }
      }
      v as char
  }

  /** What a decoder finds at the front of non-empty bytes: one scalar value and its
      encoded length, or an ill-formed maximal subpart (at least one byte) to reject or replace. */
  datatype Step = Scalar(c: char, len: nat) | Invalid(len: nat)

  function Next(b: seq<byte>): (s: Step)
    requires |b| > 0
    ensures 1 <= s.len <= |b|
  {
    var k := MaximalSubpart(b);
    if k > 0 && k == SequenceLength(b[0]) then Scalar(ScalarValue(b), k)
    else Invalid(if k == 0 then 1 else k)
  }

  /** Strict decoding, as `str::from_utf8`: the scalar values of `b`, or `None` if any part is ill-formed. */
  function Decode(b: seq<byte>): (r: Option<string>)
    decreases |b|
  {
    if |b| == 0 then Some([])
    else
      match Next(b)
      case Invalid(_) => None
      case Scalar(c, n) =>
        match Decode(b[n..])
        case None => None
        case Some(rest) => Some([c] + rest)
  }

  /** Lossy decoding, as `String::from_utf8_lossy`: each maximal ill-formed subpart becomes
      U+FFFD. Well-formed bytes decode as strictly; ill-formed bytes always show a U+FFFD. */
  function DecodeLossy(b: seq<byte>): (text: string)
    ensures Decode(b).Some? ==> text == Decode(b).value
    ensures Decode(b).None? ==> Replacement in text
    decreases |b|
  {
    if |b| == 0 then []
    else
      match Next(b)
      case Invalid(n) => [Replacement] + DecodeLossy(b[n..])
      case Scalar(c, n) =>
        var rest := DecodeLossy(b[n..]);
        assert Replacement in rest ==> Replacement in [c] + rest;
        [c] + rest
  }

  /** The UTF-8 encoding of one scalar value (section 3.9 of the Unicode Standard, Table 3-6). */
  function EncodeScalar(c: char): (b: seq<byte>)
    ensures 1 <= |b| <= 4
  {
    var v := c as int;
    if v < 0x80 then
      [v as byte]
    else if v < 0x800 then
      [(0xC0 + v / 0x40) as byte, (0x80 + v % 0x40) as byte]
    else if v < 0x10000 then
      [(0xE0 + v / 0x1000) as byte, (0x80 + v / 0x40 % 0x40) as byte, (0x80 + v % 0x40) as byte]
    else
      [(0xF0 + v / 0x40000) as byte, (0x80 + v / 0x1000 % 0x40) as byte,
       (0x80 + v / 0x40 % 0x40) as byte, (0x80 + v % 0x40) as byte]
  }

  /** The UTF-8 encoding of a text: what a Rust `&str` holds in memory. */
  function Encode(s: string): seq<byte>
  {
    if |s| == 0 then [] else EncodeScalar(s[0]) + Encode(s[1..])
  }

  /** Number of bytes of `b` that are not continuation bytes. */
  function LeadBytes(b: seq<byte>): nat
  {
    if |b| == 0 then 0
    else LeadBytes(b[..|b| - 1]) + (if IsContinuation(b[|b| - 1]) then 0 else 1)
  }

  // ---------------------------------------------------------------------------------------
  // Encoding one scalar value and decoding it again

  /** A complete well-formed sequence at the front of `b` is its own maximal subpart. */
  lemma {:induction false} CompleteSubpart(b: seq<byte>, k: nat)
    requires |b| > 0 && SequenceLength(b[0]) <= |b| && StartsSequence(b, SequenceLength(b[0]))
    requires 1 <= k <= SequenceLength(b[0])
    ensures StartsSequence(b, k) && Extend(b, k) == SequenceLength(b[0])
    decreases SequenceLength(b[0]) - k
  {
    if k < SequenceLength(b[0]) {
      CompleteSubpart(b, k + 1);
    }
  }

  lemma NextOfComplete(b: seq<byte>)
    requires |b| > 0 && SequenceLength(b[0]) <= |b| && StartsSequence(b, SequenceLength(b[0]))
    ensures Next(b) == Scalar(ScalarValue(b), SequenceLength(b[0]))
  {
    CompleteSubpart(b, 1);
  }

  lemma EncodedTwo(c: char, rest: seq<byte>)
    requires 0x80 <= c as int < 0x800
    ensures Next(EncodeScalar(c) + rest) == Scalar(c, 2)
  {
    var b := EncodeScalar(c) + rest;
    var v := c as int;
    assert b[0] as int == 0xC0 + v / 0x40 && b[1] as int == 0x80 + v % 0x40;
    assert SequenceLength(b[0]) == 2 && Fits(b, 1);
    NextOfComplete(b);
  }

  lemma EncodedThree(c: char, rest: seq<byte>)
    requires 0x800 <= c as int < 0x10000
    ensures Next(EncodeScalar(c) + rest) == Scalar(c, 3)
  {
    var b := EncodeScalar(c) + rest;
    var v := c as int;
    var q := v / 0x40;
    assert q == v / 0x1000 * 0x40 + q % 0x40 && v == q * 0x40 + v % 0x40;
    assert b[0] as int == 0xE0 + v / 0x1000 && b[1] as int == 0x80 + q % 0x40 && b[2] as int == 0x80 + v % 0x40;
    assert SequenceLength(b[0]) == 3;
    assert Fits(b, 1) by {
      if b[0] == 0xE0 {
        assert v / 0x1000 == 0;
      }
      if b[0] == 0xED {
        assert v / 0x1000 == 13;
      }
    }
    assert Fits(b, 2);
    NextOfComplete(b);
  }

  lemma EncodedFour(c: char, rest: seq<byte>)
    requires 0x10000 <= c as int
    ensures Next(EncodeScalar(c) + rest) == Scalar(c, 4)
  {
    var b := EncodeScalar(c) + rest;
    var v := c as int;
    var q := v / 0x40;
    var p := q / 0x40;
    assert p == v / 0x1000;
    assert p == v / 0x40000 * 0x40 + p % 0x40 && q == p * 0x40 + q % 0x40 && v == q * 0x40 + v % 0x40;
    assert b[0] as int == 0xF0 + v / 0x40000 && b[1] as int == 0x80 + p % 0x40
      && b[2] as int == 0x80 + q % 0x40 && b[3] as int == 0x80 + v % 0x40;
    assert SequenceLength(b[0]) == 4;
    assert Fits(b, 1) by {
      if b[0] == 0xF0 {
        assert v / 0x40000 == 0;
      }
      if b[0] == 0xF4 {
        assert v / 0x40000 == 4;
      }
    }
    assert Fits(b, 2) && Fits(b, 3);
    NextOfComplete(b);
  }

  lemma NextOfEncoded(c: char, rest: seq<byte>)
    ensures Next(EncodeScalar(c) + rest) == Scalar(c, |EncodeScalar(c)|)
  {
    var v := c as int;
    if v < 0x80 {
      NextOfComplete(EncodeScalar(c) + rest);
    } else if v < 0x800 {
      EncodedTwo(c, rest);
    } else if v < 0x10000 {
      EncodedThree(c, rest);
    } else {
      EncodedFour(c, rest);
    }
  }

  // ---------------------------------------------------------------------------------------
  // Decoding a well-formed sequence and encoding it again

  lemma ReencodeTwo(b: seq<byte>)
    requires |b| > 0 && Next(b).Scalar? && SequenceLength(b[0]) == 2
    ensures EncodeScalar(Next(b).c) == b[..2]
  {
    var v := Next(b).c as int;
    assert Next(b).c == ScalarValue(b);
    assert Fits(b, 1);
    var x0, x1 := b[0] as int - 0xC0, b[1] as int - 0x80;
    assert v == x0 * 0x40 + x1;
    assert v / 0x40 == x0 && v % 0x40 == x1;
  }

  lemma ReencodeThree(b: seq<byte>)
    requires |b| > 0 && Next(b).Scalar? && SequenceLength(b[0]) == 3
    ensures EncodeScalar(Next(b).c) == b[..3]
  {
    var v := Next(b).c as int;
    assert Next(b).c == ScalarValue(b);
    assert Fits(b, 1) && Fits(b, 2);
    var x0, x1, x2 := b[0] as int - 0xE0, b[1] as int - 0x80, b[2] as int - 0x80;
    assert v == x0 * 0x1000 + x1 * 0x40 + x2;
    var q := x0 * 0x40 + x1;
    assert v == q * 0x40 + x2;
    assert v / 0x40 == q && v % 0x40 == x2;
    assert q / 0x40 == x0 && q % 0x40 == x1;
    assert v / 0x1000 == q / 0x40;
    assert 0x800 <= v < 0x10000 by {
      if b[0] == 0xE0 {
        assert x1 >= 0x20;
      }
    }
  }

  lemma ReencodeFour(b: seq<byte>)
    requires |b| > 0 && Next(b).Scalar? && SequenceLength(b[0]) == 4
    ensures EncodeScalar(Next(b).c) == b[..4]
  {
    var v := Next(b).c as int;
    assert Next(b).c == ScalarValue(b);
    assert Fits(b, 1) && Fits(b, 2) && Fits(b, 3);
    var x0, x1, x2, x3 := b[0] as int - 0xF0, b[1] as int - 0x80, b[2] as int - 0x80, b[3] as int - 0x80;
    var p := x0 * 0x40 + x1;
    var q := p * 0x40 + x2;
    assert v == q * 0x40 + x3;
    assert v / 0x40 == q && v % 0x40 == x3;
    assert q / 0x40 == p && q % 0x40 == x2;
    assert p / 0x40 == x0 && p % 0x40 == x1;
    assert v / 0x1000 == p;
    assert v / 0x40000 == x0;
    assert v >= 0x10000 by {
      if b[0] == 0xF0 {
        assert x1 >= 0x10;
      }
    }
  }

  lemma EncodedOfNext(b: seq<byte>)
    requires |b| > 0 && Next(b).Scalar?
    ensures EncodeScalar(Next(b).c) == b[..Next(b).len]
  {
    var n := SequenceLength(b[0]);
    assert Next(b).len == n;
    if n == 1 {
      assert Next(b).c as int == b[0] as int;
    } else if n == 2 {
      ReencodeTwo(b);
    } else if n == 3 {
      ReencodeThree(b);
    } else {
      ReencodeFour(b);
    }
  }

  /** Decoding undoes encoding: every text survives a UTF-8 round trip. */
  lemma {:induction false} DecodeEncode(s: string)
    ensures Decode(Encode(s)) == Some(s)
    decreases |s|
  {
    if |s| > 0 {
      var e := EncodeScalar(s[0]);
      var b := Encode(s);
      assert b == e + Encode(s[1..]);
      NextOfEncoded(s[0], Encode(s[1..]));
      assert b[|e|..] == Encode(s[1..]);
      DecodeEncode(s[1..]);
      assert [s[0]] + s[1..] == s;
    }
  }

  /** Well-formed non-empty bytes decode to the scalar value at their front, then the rest. */
  lemma DecodeFront(b: seq<byte>)
    requires |b| > 0 && Decode(b).Some?
    ensures Next(b).Scalar? && Decode(b[Next(b).len..]).Some?
    ensures Decode(b).value == [Next(b).c] + Decode(b[Next(b).len..]).value
  {
  }

  lemma EncodeCons(c: char, s: string)
    ensures Encode([c] + s) == EncodeScalar(c) + Encode(s)
  {
    assert ([c] + s)[0] == c && ([c] + s)[1..] == s;
  }

  /** If the rest after the front scalar value re-encodes to itself, so do the whole bytes. */
  lemma EncodeDecodeStep(b: seq<byte>)
    requires |b| > 0 && Decode(b).Some?
    requires Next(b).Scalar? && Decode(b[Next(b).len..]).Some?
    requires Encode(Decode(b[Next(b).len..]).value) == b[Next(b).len..]
    ensures Encode(Decode(b).value) == b
  {
    var c, n := Next(b).c, Next(b).len;
    var tail := Decode(b[n..]).value;
    assert Decode(b).value == [c] + tail by {
      DecodeFront(b);
    }
    assert EncodeScalar(c) == b[..n] by {
      EncodedOfNext(b);
    }
    EncodeGlue(b, n, c, tail);
  }

  lemma EncodeGlue(b: seq<byte>, n: nat, c: char, tail: string)
    requires n <= |b| && EncodeScalar(c) == b[..n] && Encode(tail) == b[n..]
    ensures Encode([c] + tail) == b
  {
    EncodeCons(c, tail);
    assert b == b[..n] + b[n..];
  }

  /** Encoding undoes decoding: bytes that decode are exactly the encoding of what they decode to. */
  lemma {:induction false} EncodeDecode(b: seq<byte>)
    requires Decode(b).Some?
    ensures Encode(Decode(b).value) == b
    decreases |b|
  {
    if |b| > 0 {
      DecodeFront(b);
      EncodeDecode(b[Next(b).len..]);
      EncodeDecodeStep(b);
    }
  }

  lemma {:induction false} LeadBytesAppend(a: seq<byte>, b: seq<byte>)
    ensures LeadBytes(a + b) == LeadBytes(a) + LeadBytes(b)
    decreases |b|
  {
    if |b| == 0 {
      assert a + b == a;
    } else {
      var ab := a + b;
      assert ab[..|ab| - 1] == a + b[..|b| - 1];
      LeadBytesAppend(a, b[..|b| - 1]);
    }
  }

  lemma {:induction false} LeadBytesOfContinuations(t: seq<byte>)
    requires forall j :: 0 <= j < |t| ==> IsContinuation(t[j])
    ensures LeadBytes(t) == 0
    decreases |t|
  {
    if |t| > 0 {
      LeadBytesOfContinuations(t[..|t| - 1]);
    }
  }

  lemma LeadBytesOfScalar(c: char)
    ensures LeadBytes(EncodeScalar(c)) == 1
  {
    var e := EncodeScalar(c);
    assert !IsContinuation(e[0]);
    assert forall j :: 1 <= j < |e| ==> IsContinuation(e[j]);
    assert e == [e[0]] + e[1..];
    LeadBytesAppend([e[0]], e[1..]);
    LeadBytesOfContinuations(e[1..]);
    assert LeadBytes([e[0]]) == 1 by {
      assert [e[0]][..0] == [];
    }
  }

  /** A decoded text has one scalar value per byte that is not a continuation byte. */
  lemma {:induction false} ScalarCount(b: seq<byte>)
    requires Decode(b).Some?
    ensures |Decode(b).value| == LeadBytes(b) <= |b|
    decreases |b|
  {
    if |b| > 0 {
      var n := Next(b).len;
      EncodedOfNext(b);
      ScalarCount(b[n..]);
      LeadBytesOfScalar(Next(b).c);
      assert b == b[..n] + b[n..];
      LeadBytesAppend(b[..n], b[n..]);
    }
  }

  /** Decoding distributes over concatenation of well-formed byte strings. */
  lemma {:induction false} DecodeAppend(a: seq<byte>, b: seq<byte>)
    requires Decode(a).Some? && Decode(b).Some?
    ensures Decode(a + b) == Some(Decode(a).value + Decode(b).value)
  {
    var s, t := Decode(a).value, Decode(b).value;
    EncodeDecode(a);
    EncodeDecode(b);
    EncodeAppend(s, t);
    DecodeEncode(s + t);
  }

  lemma {:induction false} EncodeAppend(s: string, t: string)
    ensures Encode(s + t) == Encode(s) + Encode(t)
    decreases |s|
  {
    if |s| == 0 {
      assert s + t == t;
    } else {
      assert (s + t)[1..] == s[1..] + t;
      EncodeAppend(s[1..], t);
    }
  }
}
