/**
 * Reversing a Go string by code point: the bytes are decoded as UTF-8
 * (RFC 3629), the sequence of code points is reversed, and the result is
 * encoded again. Decoding follows Go's utf8.DecodeRune: a byte that does not
 * start a well-formed sequence (section 4 of RFC 3629) decodes as U+FFFD and
 * consumes exactly one byte.
 */
module Utf8Reverse {

  newtype byte = b: int | 0 <= b < 0x100

  /** U+FFFD REPLACEMENT CHARACTER, Go's utf8.RuneError. */
  const Replacement: int := 0xFFFD

  /** A Unicode scalar value: a code point that is not a surrogate. */
  type Rune = c: int | 0 <= c < 0x11_0000 && !(0xD800 <= c < 0xE000)

  predicate IsContinuation(b: byte) {
    0x80 <= b < 0xC0
  }

  /** One decoding step: the rune read, how many bytes it took, and whether those bytes were well formed. */
  datatype Step = Step(rune: Rune, width: nat, ok: bool)

  const Bad: Step := Step(Replacement, 1, false)

  /** Decodes the first rune of a non-empty byte string. */
  function DecodeFirst(s: seq<byte>): (d: Step)
    requires |s| > 0
    ensures 1 <= d.width <= 4 && d.width <= |s|
    ensures !d.ok ==> d == Bad
  {
    var b0 := s[0];
    if b0 < 0x80 then
      Step(b0 as int, 1, true)
    else if 0xC2 <= b0 < 0xE0 then
      if |s| >= 2 && IsContinuation(s[1]) then
        Step((b0 as int - 0xC0) * 0x40 + (s[1] as int - 0x80), 2, true)
      else Bad
    else if 0xE0 <= b0 < 0xF0 then
      var lo: byte := if b0 == 0xE0 then 0xA0 else 0x80;
      var hi: byte := if b0 == 0xED then 0xA0 else 0xC0;
      if |s| >= 3 && lo <= s[1] < hi && IsContinuation(s[2]) then
        Step((b0 as int - 0xE0) * 0x1000 + (s[1] as int - 0x80) * 0x40 + (s[2] as int - 0x80), 3, true)
      else Bad
    else if 0xF0 <= b0 < 0xF5 then
      var lo: byte := if b0 == 0xF0 then 0x90 else 0x80;
      var hi: byte := if b0 == 0xF4 then 0x90 else 0xC0;
      if |s| >= 4 && lo <= s[1] < hi && IsContinuation(s[2]) && IsContinuation(s[3]) then
        Step((b0 as int - 0xF0) * 0x4_0000 + (s[1] as int - 0x80) * 0x1000
             + (s[2] as int - 0x80) * 0x40 + (s[3] as int - 0x80), 4, true)
      else Bad
    else
      Bad
  }

  /** The code points of a byte string, as Go's `[]rune(s)` yields them. */
  function Decode(s: seq<byte>): (rs: seq<Rune>)
    ensures |rs| <= |s| <= 4 * |rs|
    decreases |s|
  {
    if s == [] then [] else
      var d := DecodeFirst(s);
      [d.rune] + Decode(s[d.width..])
  }

  /** `s` is well-formed UTF-8: no step of decoding it met an invalid byte. */
  predicate Valid(s: seq<byte>)
    decreases |s|
  {
    s == [] || (DecodeFirst(s).ok && Valid(s[DecodeFirst(s).width..]))
  }

  /** The UTF-8 encoding of one scalar value (section 3 of RFC 3629). */
  function EncodeRune(c: Rune): (e: seq<byte>)
    ensures 1 <= |e| <= 4
    ensures |e| == 1 <==> c < 0x80
    ensures !IsContinuation(e[0])
    ensures forall i :: 1 <= i < |e| ==> IsContinuation(e[i])
  {
    if c < 0x80 then
      [c as byte]
    else if c < 0x800 then
      [(0xC0 + c / 0x40) as byte, (0x80 + c % 0x40) as byte]
    else if c < 0x1_0000 then
      [(0xE0 + c / 0x1000) as byte, (0x80 + c / 0x40 % 0x40) as byte, (0x80 + c % 0x40) as byte]
    else
      [(0xF0 + c / 0x4_0000) as byte, (0x80 + c / 0x1000 % 0x40) as byte,
       (0x80 + c / 0x40 % 0x40) as byte, (0x80 + c % 0x40) as byte]
  }

  /** The bytes of Go's `string(runes)`. */
  function Encode(rs: seq<Rune>): (s: seq<byte>)
    ensures |rs| <= |s| <= 4 * |rs|
  {
    if rs == [] then [] else EncodeRune(rs[0]) + Encode(rs[1..])
  }

  function Rev<T>(xs: seq<T>): (r: seq<T>)
    ensures |r| == |xs|
  {
    if xs == [] then [] else Rev(xs[1..]) + [xs[0]]
  }

  /**
   * reverse.Reverse: the code points of the input in the opposite order,
   * re-encoded. The output is always well-formed UTF-8.
   */
  function Reverse(s: seq<byte>): (r: seq<byte>)
    ensures Valid(r)
    ensures Decode(r) == Rev(Decode(s))
  {
    DecodeEncode(Rev(Decode(s)));
    EncodeValid(Rev(Decode(s)));
    Encode(Rev(Decode(s)))
  }

  // ---------------------------------------------------------------------------
  // Encoding and decoding are inverse

  /** Euclidean division by 64 is unique: the 6-bit groups of the encoding. */
  lemma Group(x: int, hi: int, lo: int)
    requires 0 <= lo < 0x40 && x == hi * 0x40 + lo
    ensures x / 0x40 == hi && x % 0x40 == lo
  {
  }

  /** Decoding the encoding of a rune, followed by anything, reads that rune back from exactly its bytes. */
  lemma DecodeEncodeRune(c: Rune, rest: seq<byte>)
    ensures DecodeFirst(EncodeRune(c) + rest) == Step(c, |EncodeRune(c)|, true)
  {
    if c < 0x80 {
    } else if c < 0x800 {
      DecodeEncodeTwo(c, rest);
    } else if c < 0x1_0000 {
      DecodeEncodeThree(c, rest);
    } else {
      DecodeEncodeFour(c, rest);
    }
  }

  lemma DecodeEncodeTwo(c: Rune, rest: seq<byte>)
    requires 0x80 <= c < 0x800
    ensures DecodeFirst(EncodeRune(c) + rest) == Step(c, 2, true)
  {
    Group(c, c / 0x40, c % 0x40);
  }

  lemma DecodeEncodeThree(c: Rune, rest: seq<byte>)
    requires 0x800 <= c < 0x1_0000
    ensures DecodeFirst(EncodeRune(c) + rest) == Step(c, 3, true)
  {
    var q := c / 0x40;
    Group(c, q, c % 0x40);
    Group(q, q / 0x40, q % 0x40);
    assert c / 0x1000 == q / 0x40;
    assert q / 0x40 == 0 ==> q % 0x40 >= 0x20;
    assert q / 0x40 == 0xD ==> q % 0x40 < 0x20;
  }

  lemma DecodeEncodeFour(c: Rune, rest: seq<byte>)
    requires 0x1_0000 <= c
    ensures DecodeFirst(EncodeRune(c) + rest) == Step(c, 4, true)
  {
    var q := c / 0x40;
    var q2 := q / 0x40;
    Group(c, q, c % 0x40);
    Group(q, q2, q % 0x40);
    Group(q2, q2 / 0x40, q2 % 0x40);
    assert c / 0x1000 == q2;
    assert c / 0x4_0000 == q2 / 0x40;
  }

  /** A well-formed step re-encodes to exactly the bytes it consumed. */
  lemma EncodeDecodeFirst(s: seq<byte>)
    requires |s| > 0 && DecodeFirst(s).ok
    ensures EncodeRune(DecodeFirst(s).rune) == s[..DecodeFirst(s).width]
  {
    var d := DecodeFirst(s);
    if d.width == 2 {
      EncodeDecodeTwo(s);
    } else if d.width == 3 {
      EncodeDecodeThree(s);
    } else if d.width == 4 {
      EncodeDecodeFour(s);
    }
  }

  lemma EncodeDecodeTwo(s: seq<byte>)
    requires |s| > 0 && DecodeFirst(s).ok && DecodeFirst(s).width == 2
    ensures EncodeRune(DecodeFirst(s).rune) == s[..2]
  {
    Group(DecodeFirst(s).rune, s[0] as int - 0xC0, s[1] as int - 0x80);
  }

  lemma EncodeDecodeThree(s: seq<byte>)
    requires |s| > 0 && DecodeFirst(s).ok && DecodeFirst(s).width == 3
    ensures EncodeRune(DecodeFirst(s).rune) == s[..3]
  {
    var c := DecodeFirst(s).rune;
    var q := (s[0] as int - 0xE0) * 0x40 + (s[1] as int - 0x80);
    Group(c, q, s[2] as int - 0x80);
    Group(q, s[0] as int - 0xE0, s[1] as int - 0x80);
    assert c / 0x1000 == q / 0x40;
  }

  lemma EncodeDecodeFour(s: seq<byte>)
    requires |s| > 0 && DecodeFirst(s).ok && DecodeFirst(s).width == 4
    ensures EncodeRune(DecodeFirst(s).rune) == s[..4]
  {
    var c := DecodeFirst(s).rune;
    var q2 := (s[0] as int - 0xF0) * 0x40 + (s[1] as int - 0x80);
    var q := q2 * 0x40 + (s[2] as int - 0x80);
    Group(c, q, s[3] as int - 0x80);
    Group(q, q2, s[2] as int - 0x80);
    Group(q2, s[0] as int - 0xF0, s[1] as int - 0x80);
    assert c / 0x1000 == q2;
    assert c / 0x4_0000 == q2 / 0x40;
  }

  /** Decoding undoes encoding, for every sequence of scalar values. */
  lemma {:induction false} DecodeEncode(rs: seq<Rune>)
    ensures Decode(Encode(rs)) == rs
  {
    if rs != [] {
      var e := EncodeRune(rs[0]);
      DecodeEncodeRune(rs[0], Encode(rs[1..]));
      assert (e + Encode(rs[1..]))[|e|..] == Encode(rs[1..]);
      DecodeEncode(rs[1..]);
    }
  }

  /** Whatever is encoded is well-formed UTF-8. */
  lemma {:induction false} EncodeValid(rs: seq<Rune>)
    ensures Valid(Encode(rs))
  {
    if rs != [] {
      var e := EncodeRune(rs[0]);
      DecodeEncodeRune(rs[0], Encode(rs[1..]));
      assert (e + Encode(rs[1..]))[|e|..] == Encode(rs[1..]);
      EncodeValid(rs[1..]);
    }
  }

  /** Encoding undoes decoding exactly when the input is well-formed UTF-8. */
  lemma {:induction false} EncodeDecode(s: seq<byte>)
    ensures Encode(Decode(s)) == s <==> Valid(s)
  {
    if Valid(s) {
      EncodeDecodeValid(s);
    } else if Encode(Decode(s)) == s {
      EncodeValid(Decode(s));
    }
  }

  lemma {:induction false} EncodeDecodeValid(s: seq<byte>)
    requires Valid(s)
    ensures Encode(Decode(s)) == s
    decreases |s|
  {
    if s != [] {
      var d := DecodeFirst(s);
      EncodeDecodeFirst(s);
      EncodeDecodeValid(s[d.width..]);
      DecodeStep(s);
      Reassemble(s, d.rune, d.width, Decode(s[d.width..]), Decode(s));
    }
  }

  /** A rune whose encoding is the first `w` bytes, then runes encoding the rest, encode to the whole. */
  lemma Reassemble(s: seq<byte>, r: Rune, w: nat, tail: seq<Rune>, rs: seq<Rune>)
    requires w <= |s| && EncodeRune(r) == s[..w] && Encode(tail) == s[w..]
    requires rs == [r] + tail
    ensures Encode(rs) == s
  {
    EncodeCons(r, tail);
    assert s[..w] + s[w..] == s;
  }

  lemma DecodeStep(s: seq<byte>)
    requires s != []
    ensures Decode(s) == [DecodeFirst(s).rune] + Decode(s[DecodeFirst(s).width..])
  {
  }

  lemma EncodeCons(r: Rune, rs: seq<Rune>)
    ensures Encode([r] + rs) == EncodeRune(r) + Encode(rs)
  {
    assert ([r] + rs)[0] == r && ([r] + rs)[1..] == rs;
  }

  /** Encoding distributes over concatenation. */
  lemma {:induction false} EncodeAppend(a: seq<Rune>, b: seq<Rune>)
    ensures Encode(a + b) == Encode(a) + Encode(b)
  {
    if a != [] {
      assert (a + b)[1..] == a[1..] + b;
      EncodeAppend(a[1..], b);
    } else {
      assert a + b == b;
    }
  }

  lemma {:induction false} RevAppend<T>(a: seq<T>, b: seq<T>)
    ensures Rev(a + b) == Rev(b) + Rev(a)
  {
    if a != [] {
      assert (a + b)[1..] == a[1..] + b;
      RevAppend(a[1..], b);
    } else {
      assert a + b == b;
    }
  }

  /** Reversing a sequence twice gives it back. */
  lemma {:induction false} RevRev<T>(xs: seq<T>)
    ensures Rev(Rev(xs)) == xs
  {
    if xs != [] {
      RevAppend(Rev(xs[1..]), [xs[0]]);
      RevRev(xs[1..]);
    }
  }

  /** The k-th element of the reversal is the k-th from the end of the original. */
  lemma {:induction false} RevAt<T>(xs: seq<T>, k: nat)
    requires k < |xs|
    ensures Rev(xs)[k] == xs[|xs| - 1 - k]
  {
    if k < |xs| - 1 {
      RevAt(xs[1..], k);
    }
  }

  /** A sequence whose k-th element is the k-th from the end of `xs` is the reversal of `xs`. */
  lemma RevUnique<T>(xs: seq<T>, ys: seq<T>)
    requires |ys| == |xs|
    requires forall k :: 0 <= k < |xs| ==> ys[k] == xs[|xs| - 1 - k]
    ensures Rev(xs) == ys
  {
    forall k | 0 <= k < |xs| ensures Rev(xs)[k] == ys[k] {
      RevAt(xs, k);
    }
  }

  // ---------------------------------------------------------------------------
  // What Reverse promises

  /** The output's k-th code point is the input's k-th from the end. */
  lemma ReverseDecode(s: seq<byte>)
    ensures forall k :: 0 <= k < |Decode(s)| ==>
      Decode(Reverse(s))[k] == Decode(s)[|Decode(s)| - 1 - k]
  {
    var rs := Decode(s);
    forall k | 0 <= k < |rs| ensures Rev(rs)[k] == rs[|rs| - 1 - k] {
      RevAt(rs, k);
    }
  }

  /** Reversing an encoded string is encoding the reversed code points. */
  lemma ReverseEncoded(rs: seq<Rune>)
    ensures Reverse(Encode(rs)) == Encode(Rev(rs))
  {
    DecodeEncode(rs);
  }

  /** On well-formed input, reversing twice returns the original bytes. */
  lemma ReverseTwice(s: seq<byte>)
    requires Valid(s)
    ensures Reverse(Reverse(s)) == s
  {
    DecodeEncode(Rev(Decode(s)));
    RevRev(Decode(s));
    EncodeDecodeValid(s);
  }

  lemma {:induction false} EncodeRevLength(rs: seq<Rune>)
    ensures |Encode(Rev(rs))| == |Encode(rs)|
  {
    if rs != [] {
      EncodeAppend(Rev(rs[1..]), [rs[0]]);
      EncodeRevLength(rs[1..]);
    }
  }

  /** On well-formed input the output has as many bytes as the input: no character is split or merged. */
  lemma ReverseLength(s: seq<byte>)
    requires Valid(s)
    ensures |Reverse(s)| == |s|
  {
    EncodeRevLength(Decode(s));
    EncodeDecodeValid(s);
  }

  /** A well-formed string of one code point is its own reversal, however many bytes encode it. */
  lemma ReverseSingle(s: seq<byte>)
    requires Valid(s) && |Decode(s)| == 1
    ensures Reverse(s) == s
  {
    var rs := Decode(s);
    assert rs[1..] == [];
    assert Rev(rs) == [rs[0]] == rs;
    EncodeDecodeValid(s);
    assert Reverse(s) == Encode(rs);
  }

  /** A byte that cannot start a well-formed sequence decodes as U+FFFD and consumes only itself. */
  lemma InvalidLead(s: seq<byte>)
    requires |s| > 0 && (0x80 <= s[0] < 0xC2 || 0xF5 <= s[0])
    ensures DecodeFirst(s) == Step(Replacement, 1, false)
    ensures Decode(s) == [Replacement] + Decode(s[1..])
  {
  }

  /** U+FFFD is written back as the three bytes EF BF BD. */
  lemma ReplacementBytes()
    ensures EncodeRune(Replacement) == [0xEF, 0xBF, 0xBD]
  {
  }
}
