/**
 Decoding UTF-8 with replacement, as Python's `bytes.decode("utf-8", errors="replace")` does: the longest beginning of
 a well-formed sequence that is not continued becomes one replacement character (table 3-7 of the Unicode standard).
 */
module Utf8 {
  import opened Hex

  const REPLACEMENT: char := '\U{FFFD}'

  predicate IsContinuation(x: byte) {
    0x80 <= x < 0xC0
  }

  /** How many continuation bytes a leading byte announces; `None` when it cannot lead. */
  function Announced(lead: byte): int
  {
    if lead < 0x80 then 0
    else if 0xC2 <= lead < 0xE0 then 1
    else if 0xE0 <= lead < 0xF0 then 2
    else if 0xF0 <= lead < 0xF5 then 3
    else -1
  }

  /** The second byte keeps sequences short, out of the surrogates and below 0x110000. */
  predicate IsSecond(lead: byte, x: byte) {
    && IsContinuation(x)
    && (lead == 0xE0 ==> 0xA0 <= x) && (lead == 0xED ==> x < 0xA0)
    && (lead == 0xF0 ==> 0x90 <= x) && (lead == 0xF4 ==> x < 0x90)
  }

  /** How many bytes the first character, or its replacement, takes. */
  function Taken(b: seq<byte>): (n: nat)
    requires b != []
    ensures 1 <= n <= |b|
  {
    var more := Announced(b[0]);
    if more < 1 || |b| < 2 || !IsSecond(b[0], b[1]) then 1
    else if more < 2 || |b| < 3 || !IsContinuation(b[2]) then 2
    else if more < 3 || |b| < 4 || !IsContinuation(b[3]) then 3
    else 4
  }

  /** The six bits that a continuation byte carries. */
  function Bits(x: byte): (n: int)
    requires IsContinuation(x)
    ensures 0 <= n < 0x40
  {
    x - 0x80
  }

  function FirstChar(b: seq<byte>): char
    requires b != []
  {
    var x: int, n := b[0], Taken(b);
    if n != Announced(b[0]) + 1 then REPLACEMENT
    else if n == 1 then x as char
    else if n == 2 then ((x - 0xC0) * 0x40 + Bits(b[1])) as char
    else if n == 3 then ((x - 0xE0) * 0x1000 + Bits(b[1]) * 0x40 + Bits(b[2])) as char
    else ((x - 0xF0) * 0x4_0000 + Bits(b[1]) * 0x1000 + Bits(b[2]) * 0x40 + Bits(b[3])) as char
  }

  function Decode(b: seq<byte>): string {
    if b == [] then "" else [FirstChar(b)] + Decode(b[Taken(b)..])
  }

  /** A line feed ends whatever stands before it, so the first character of `a` does not depend on what follows. */
  lemma FirstStaysBeforeLineFeed(a: seq<byte>, b: seq<byte>)
    requires a != [] && a[|a| - 1] == 10
    ensures Taken(a + b) == Taken(a) && FirstChar(a + b) == FirstChar(a)
    ensures Taken(a) < |a| || (|a| == 1 && FirstChar(a) == '\n')
  {
    assert forall i :: 0 <= i < |a| ==> (a + b)[i] == a[i];
  }

  /** Decoding may be done piecewise behind a line feed. */
  lemma {:induction false} DecodeConcat(a: seq<byte>, b: seq<byte>)
    requires a == [] || a[|a| - 1] == 10
    ensures Decode(a + b) == Decode(a) + Decode(b)
    ensures a != [] ==> Decode(a) != "" && Decode(a)[|Decode(a)| - 1] == '\n'
    decreases |a|
  {
    if a == [] {
      assert a + b == b;
    } else {
      FirstStaysBeforeLineFeed(a, b);
      var rest := a[Taken(a)..];
      assert (a + b)[Taken(a)..] == rest + b;
      DecodeConcat(rest, b);
    }
  }

  /** The bytes of one character (section 3 of RFC 3629). */
  function EncodeChar(c: char): seq<byte>
  {
    var x := c as int;
    if x < 0x80 then [x]
    else if x < 0x800 then [0xC0 + x / 0x40, 0x80 + x % 0x40]
    else if x < 0x1_0000 then [0xE0 + x / 0x1000, 0x80 + x / 0x40 % 0x40, 0x80 + x % 0x40]
    else [0xF0 + x / 0x4_0000, 0x80 + x / 0x1000 % 0x40, 0x80 + x / 0x40 % 0x40, 0x80 + x % 0x40]
  }

  function Encode(s: string): seq<byte> {
    if s == "" then [] else EncodeChar(s[0]) + Encode(s[1..])
  }

  /** The groups of six bits of a number make it up. */
  lemma SixBits(x: nat)
    ensures x == x / 0x40 * 0x40 + x % 0x40
    ensures x / 0x40 == x / 0x1000 * 0x40 + x / 0x40 % 0x40
    ensures x / 0x1000 == x / 0x4_0000 * 0x40 + x / 0x1000 % 0x40
  {
  }

  lemma TwoBytesRead(c: char, b: seq<byte>)
    requires 0x80 <= c as int < 0x800 && |b| >= 2 && b[..2] == EncodeChar(c)
    ensures Taken(b) == 2 && FirstChar(b) == c
  {
    SixBits(c as int);
    assert b[0] == b[..2][0] && b[1] == b[..2][1];
  }

  lemma ThreeBytesRead(c: char, b: seq<byte>)
    requires 0x800 <= c as int < 0x1_0000 && |b| >= 3 && b[..3] == EncodeChar(c)
    ensures Taken(b) == 3 && FirstChar(b) == c
  {
    SixBits(c as int);
    assert b[0] == b[..3][0] && b[1] == b[..3][1] && b[2] == b[..3][2];
  }

  lemma FourBytesRead(c: char, b: seq<byte>)
    requires 0x1_0000 <= c as int && |b| >= 4 && b[..4] == EncodeChar(c)
    ensures Taken(b) == 4 && FirstChar(b) == c
  {
    SixBits(c as int);
    assert b[0] == b[..4][0] && b[1] == b[..4][1] && b[2] == b[..4][2] && b[3] == b[..4][3];
  }

  lemma EncodedCharReads(c: char, rest: seq<byte>)
    ensures Taken(EncodeChar(c) + rest) == |EncodeChar(c)| && FirstChar(EncodeChar(c) + rest) == c
  {
    var b, n := EncodeChar(c) + rest, |EncodeChar(c)|;
    assert b[..n] == EncodeChar(c);
    if n == 2 {
      TwoBytesRead(c, b);
    } else if n == 3 {
      ThreeBytesRead(c, b);
    } else if n == 4 {
      FourBytesRead(c, b);
    } else {
      assert b[0] == b[..n][0];
    }
  }

  lemma EncodedShape(c: char)
    ensures var e := EncodeChar(c);
            && Announced(e[0]) == |e| - 1 && (|e| > 1 ==> IsSecond(e[0], e[1]))
            && forall i :: 2 <= i < |e| ==> IsContinuation(e[i])
  {
  }

  lemma Joined(high: nat, low: nat)
    requires low < 0x40
    ensures (high * 0x40 + low) / 0x40 == high && (high * 0x40 + low) % 0x40 == low
  {
  }

  lemma TwoAreEncoded(b: seq<byte>)
    requires b != [] && Announced(b[0]) == 1 && Taken(b) == 2
    ensures EncodeChar(FirstChar(b)) == b[..2]
  {
    Joined(b[0] - 0xC0, b[1] - 0x80);
  }

  lemma ThreeAreEncoded(b: seq<byte>)
    requires b != [] && Announced(b[0]) == 2 && Taken(b) == 3
    ensures EncodeChar(FirstChar(b)) == b[..3]
  {
    var a: int, m: int, l: int, x: int := b[0] - 0xE0, b[1] - 0x80, b[2] - 0x80, FirstChar(b) as int;
    var high: int := a * 0x40 + m;
    assert x == high * 0x40 + l;
    Joined(high, l);
    Joined(a, m);
    SixBits(x);
    assert x / 0x1000 == x / 0x40 / 0x40;
  }

  lemma FourAreEncoded(b: seq<byte>)
    requires b != [] && Announced(b[0]) == 3 && Taken(b) == 4
    ensures EncodeChar(FirstChar(b)) == b[..4]
  {
    var a: int, k: int, m: int, l: int := b[0] - 0xF0, b[1] - 0x80, b[2] - 0x80, b[3] - 0x80;
    var x: int, top: int := FirstChar(b) as int, a * 0x40 + k;
    var high: int := top * 0x40 + m;
    assert x == high * 0x40 + l;
    Joined(high, l);
    Joined(top, m);
    Joined(a, k);
    assert x / 0x1000 == x / 0x40 / 0x40 && x / 0x4_0000 == x / 0x1000 / 0x40;
  }

  /** A whole sequence is the encoding of the character it is read as. */
  lemma WholeIsEncoded(b: seq<byte>)
    requires b != [] && Taken(b) == Announced(b[0]) + 1
    ensures EncodeChar(FirstChar(b)) == b[..Taken(b)]
  {
    if Taken(b) == 2 {
      TwoAreEncoded(b);
    } else if Taken(b) == 3 {
      ThreeAreEncoded(b);
    } else if Taken(b) == 4 {
      FourAreEncoded(b);
    }
  }

  /** Bytes that begin some character are taken together. */
  lemma BeginningIsTaken(b: seq<byte>, n: nat, c: char)
    requires 0 < n <= |b| && b[..n] <= EncodeChar(c)
    ensures Taken(b) >= n
  {
    hide EncodeChar;
    EncodedShape(c);
    assert forall i :: 0 <= i < n ==> b[i] == b[..n][i] == EncodeChar(c)[i];
  }

  /** Bytes that are taken together, more than one, begin some character. */
  lemma TakenBegins(b: seq<byte>) returns (c: char)
    requires b != [] && Taken(b) > 1
    ensures b[..Taken(b)] <= EncodeChar(c)
  {
    var n, more := Taken(b), Announced(b[0]);
    var whole := if n == more + 1 then b[..n]
                 else if n == 3 || more == 2 then b[..n] + [0x80]
                 else b[..n] + [0x80, 0x80];
    assert whole[0] == b[0] && whole[1] == b[1] && (n > 2 ==> whole[2] == b[2]);
    assert |whole| == more + 1 && Taken(whole) == |whole|;
    WholeIsEncoded(whole);
    c := FirstChar(whole);
    assert whole[..|whole|] == whole && whole[..n] == b[..n];
  }

  /**
   The first character is the one whose encoding the bytes begin with. When there is none, a replacement character
   stands for as many bytes as still begin the encoding of some character, and for one byte at least.
   */
  lemma FirstCharIs(b: seq<byte>)
    requires b != []
    ensures forall c :: EncodeChar(c) <= b ==> FirstChar(b) == c && Taken(b) == |EncodeChar(c)|
    ensures (forall c :: !(EncodeChar(c) <= b)) ==>
              && FirstChar(b) == REPLACEMENT
              && (Taken(b) == 1 || exists c :: b[..Taken(b)] <= EncodeChar(c))
              && forall c :: Taken(b) < |b| ==> !(b[..Taken(b) + 1] <= EncodeChar(c))
  {
    hide EncodeChar, Taken, FirstChar;
    forall c | EncodeChar(c) <= b
      ensures FirstChar(b) == c && Taken(b) == |EncodeChar(c)|
    {
      EncodedCharReads(c, b[|EncodeChar(c)|..]);
      assert EncodeChar(c) + b[|EncodeChar(c)|..] == b;
    }
    if forall c :: !(EncodeChar(c) <= b) {
      NotWhole(b);
      if Taken(b) > 1 {
        var c := TakenBegins(b);
      }
      forall c | Taken(b) < |b|
        ensures !(b[..Taken(b) + 1] <= EncodeChar(c))
      {
        if b[..Taken(b) + 1] <= EncodeChar(c) {
          BeginningIsTaken(b, Taken(b) + 1, c);
        }
      }
    }
  }

  lemma NotWhole(b: seq<byte>)
    requires b != []
    ensures FirstChar(b) == REPLACEMENT || EncodeChar(FirstChar(b)) <= b
  {
    hide EncodeChar;
    if Taken(b) == Announced(b[0]) + 1 {
      WholeIsEncoded(b);
    }
  }

  /** Decoding what was encoded gives the text back. */
  lemma {:induction false} DecodeEncode(s: string)
    ensures Decode(Encode(s)) == s
  {
    if s != "" {
      var rest := Encode(s[1..]);
      EncodedCharReads(s[0], rest);
      assert (EncodeChar(s[0]) + rest)[|EncodeChar(s[0])|..] == rest;
      DecodeEncode(s[1..]);
    }
  }

  /** ASCII text decodes to itself, byte by byte. */
  lemma {:induction false} AsciiDecodes(b: seq<byte>)
    requires forall x <- b :: x < 0x80
    ensures |Decode(b)| == |b| && forall i :: 0 <= i < |b| ==> Decode(b)[i] == b[i] as char
  {
    if b != [] {
      assert b[0] in b && forall x <- b[1..] :: x in b;
      assert Decode(b) == [b[0] as char] + Decode(b[1..]);
      AsciiDecodes(b[1..]);
    }
  }
}
