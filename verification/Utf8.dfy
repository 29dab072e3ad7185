/** The UTF-8 encoding of RFC 3629, strict in both directions. */
module Utf8 {
  import opened Wrappers
  import opened Bytes

  /** The character's number in base 64: a leading digit and `|r| - 1` further ones, each in its octet. */
  function EncodeScalar(c: char): (r: seq<Byte>)
    ensures 1 <= |r| <= 4
  {
    var n := c as int;
    var m := n / 0x40;
    var l := m / 0x40;
    if n < 0x80 then [n]
    else if n < 0x800 then [0xC0 + m, 0x80 + n % 0x40]
    else if n < 0x10000 then [0xE0 + l, 0x80 + m % 0x40, 0x80 + n % 0x40]
    else [0xF0 + l / 0x40, 0x80 + l % 0x40, 0x80 + m % 0x40, 0x80 + n % 0x40]
  }

  predicate Tail(b: Byte) { 0x80 <= b < 0xC0 }

  /**
   * The table of section 4 of RFC 3629: how many octets the well-formed
   * character at the head of `b` takes, or 0 when there is none.
   */
  function Width(b: seq<Byte>): (w: nat)
    ensures w <= 4 && w <= |b|
  {
    if b == [] then 0
    else if b[0] < 0x80 then 1
    else if |b| < 2 || !Tail(b[1]) then 0
    else if 0xC2 <= b[0] < 0xE0 then 2
    else if |b| < 3 || !Tail(b[2]) then 0
    else if (b[0] == 0xE0 && 0xA0 <= b[1]) || 0xE1 <= b[0] < 0xED || (b[0] == 0xED && b[1] < 0xA0) then 3
    else if 0xEE <= b[0] < 0xF0 then 3
    else if |b| < 4 || !Tail(b[3]) then 0
    else if (b[0] == 0xF0 && 0x90 <= b[1]) || 0xF1 <= b[0] < 0xF4 || (b[0] == 0xF4 && b[1] < 0x90) then 4
    else 0
  }

  /** The payload bits of an octet whose marker is `marker`. */
  function Bits(b: Byte, marker: int): int { b - marker }

  function ScalarNumber(b: seq<Byte>): int
    requires Width(b) > 0
  {
    match Width(b)
    case 1 => Bits(b[0], 0)
    case 2 => Bits(b[0], 0xC0) * 0x40 + Bits(b[1], 0x80)
    case 3 => (Bits(b[0], 0xE0) * 0x40 + Bits(b[1], 0x80)) * 0x40 + Bits(b[2], 0x80)
    case _ => ((Bits(b[0], 0xF0) * 0x40 + Bits(b[1], 0x80)) * 0x40 + Bits(b[2], 0x80)) * 0x40 + Bits(b[3], 0x80)
  }

  function Scalar(b: seq<Byte>): char
    requires Width(b) > 0
  {
    ScalarNumber(b) as char
  }

  function Encode(s: string): seq<Byte> {
    if s == [] then [] else EncodeScalar(s[0]) + Encode(s[1..])
  }

  /** Python's strict `bytes.decode("utf-8")`; None stands for its UnicodeDecodeError. */
  function Decode(b: seq<Byte>): Option<string>
    decreases |b|
  {
    if b == [] then Some([]) else
      var w := Width(b);
      if w == 0 then None else
        var rest := Decode(b[w..]);
        if rest.None? then None else Some([Scalar(b)] + rest.value)
  }

  predicate Valid(b: seq<Byte>) { Decode(b).Some? }

  // ------------------------------------------------- one character

  lemma ReadsBackScalar(c: char, rest: seq<Byte>)
    ensures var b := EncodeScalar(c) + rest; Width(b) == |EncodeScalar(c)| && Scalar(b) == c
  {
    var e := EncodeScalar(c);
    assert Width(e) == |e| && ScalarNumber(e) == c as int;
    WidthIgnoresTheRest(e, e + rest);
  }

  lemma WritesBackScalar(b: seq<Byte>)
    requires Width(b) > 0
    ensures EncodeScalar(Scalar(b)) == b[..Width(b)]
  {
    var n := ScalarNumber(b);
    if Width(b) == 2 {
      assert n / 0x40 == Bits(b[0], 0xC0);
    } else if Width(b) == 3 {
      assert n / 0x40 == Bits(b[0], 0xE0) * 0x40 + Bits(b[1], 0x80);
    } else if Width(b) == 4 {
      assert n / 0x40 == (Bits(b[0], 0xF0) * 0x40 + Bits(b[1], 0x80)) * 0x40 + Bits(b[2], 0x80);
      assert n / 0x40 / 0x40 == Bits(b[0], 0xF0) * 0x40 + Bits(b[1], 0x80);
    }
  }

  /** The octets behind a character do not change how it reads. */
  lemma WidthIgnoresTheRest(a: seq<Byte>, b: seq<Byte>)
    requires a <= b && (0 < Width(a) || 0 < Width(b) <= |a|)
    ensures Width(a) == Width(b) && Scalar(a) == Scalar(b)
  {
    assert forall i :: 0 <= i < |a| ==> a[i] == b[i];
  }

  // ------------------------------------------------- whole texts

  lemma {:induction false} DecodeEncode(s: string)
    ensures Decode(Encode(s)) == Some(s)
  {
    if s != [] {
      hide Width, Scalar, EncodeScalar;
      var head, rest := EncodeScalar(s[0]), Encode(s[1..]);
      ReadsBackScalar(s[0], rest);
      assert (head + rest)[|head|..] == rest && head + rest != [];
      DecodeEncode(s[1..]);
      assert s == [s[0]] + s[1..];
    }
  }

  lemma EncodeCons(c: char, rest: string)
    ensures Encode([c] + rest) == EncodeScalar(c) + Encode(rest)
  {
    assert ([c] + rest)[1..] == rest;
  }

  lemma DecodeStep(b: seq<Byte>)
    requires Valid(b) && b != []
    ensures Width(b) > 0 && Valid(b[Width(b)..])
    ensures Decode(b).value == [Scalar(b)] + Decode(b[Width(b)..]).value
  {
    hide Width, Scalar;
  }

  lemma {:induction false} EncodeDecode(b: seq<Byte>)
    requires Valid(b)
    ensures Encode(Decode(b).value) == b
    decreases |b|
  {
    hide Width, Scalar, EncodeScalar;
    if b != [] {
      DecodeStep(b);
      WritesBackScalar(b);
      hide Decode, Encode;
      var rest := b[Width(b)..];
      EncodeDecode(rest);
      EncodeCons(Scalar(b), Decode(rest).value);
      assert b == b[..Width(b)] + rest;
    }
  }

  /** A valid text cut anywhere is a valid text and at most three stray octets. */
  lemma {:induction false} CutLosesAtMostThree(b: seq<Byte>, n: nat) returns (stray: nat)
    requires Valid(b) && n <= |b|
    ensures stray <= 3 && stray <= n && Valid(b[..n - stray])
    decreases |b|
  {
    hide Width, Scalar;
    var w := Width(b);
    if n == 0 || n < w {
      stray := n;
    } else {
      stray := CutLosesAtMostThree(b[w..], n - w);
      assert b[w..][..n - w - stray] == b[..n - stray][w..];
      WidthIgnoresTheRest(b[..n - stray], b);
    }
  }
}
