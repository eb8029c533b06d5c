/** Bytes, and the two directions of hexadecimal: `bytes.fromhex` and `bytes.hex`. */
module Hex {
  import opened Outcomes

  type byte = b: int | 0 <= b < 256
  type Bytes = seq<byte>

  predicate IsAsciiSpace(c: char) {
    c == ' ' || '\t' <= c <= '\r'
  }

  function Digit(c: char): (d: Option<int>)
    ensures d.Some? ==> 0 <= d.value < 16
  {
    if '0' <= c <= '9' then Some(c as int - '0' as int)
    else if 'a' <= c <= 'f' then Some(c as int - 'a' as int + 10)
    else if 'A' <= c <= 'F' then Some(c as int - 'A' as int + 10)
    else None
  }

  /** The sixteen digits, of either case. */
  lemma DigitIs(c: char, v: nat)
    requires v < 16
    ensures Digit(c) == Some(v) <==> c == "0123456789abcdef"[v] || c == "0123456789ABCDEF"[v]
  {
  }

  function LowerDigit(d: int): char
    requires 0 <= d < 16
  {
    if d < 10 then '0' + d as char else 'a' + (d - 10) as char
  }

  /** Reads hexadecimal digits of either case, two a byte, with spaces allowed between bytes. */
  function FromHex(s: string): Option<Bytes> {
    if s == "" then Some([])
    else if IsAsciiSpace(s[0]) then FromHex(s[1..])
    else if |s| < 2 || Digit(s[0]).None? || Digit(s[1]).None? then None
    else
      match FromHex(s[2..])
      case None => None
      case Some(rest) => Some([16 * Digit(s[0]).value + Digit(s[1]).value] + rest)
  }

  function ToHex(b: Bytes): string {
    if b == [] then "" else [LowerDigit(b[0] / 16), LowerDigit(b[0] % 16)] + ToHex(b[1..])
  }

  lemma LowerDigitReads(d: int)
    requires 0 <= d < 16
    ensures Digit(LowerDigit(d)) == Some(d) && !IsAsciiSpace(LowerDigit(d))
  {
  }

  /** Printing bytes in hexadecimal and reading them back gives the same bytes. */
  lemma {:induction false} FromHexToHex(b: Bytes)
    ensures FromHex(ToHex(b)) == Some(b)
  {
    if b != [] {
      var s := ToHex(b);
      LowerDigitReads(b[0] / 16);
      LowerDigitReads(b[0] % 16);
      assert s[2..] == ToHex(b[1..]);
      FromHexToHex(b[1..]);
      assert 16 * (b[0] / 16) + b[0] % 16 == b[0];
      assert [b[0]] + b[1..] == b;
    }
  }

  /** The spelling that `hex` gives: lower case and no spaces. */
  predicate IsCanonical(s: string) {
    FromHex(s).Some? && ToHex(FromHex(s).value) == s
  }
}
