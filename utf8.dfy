// Well-formed UTF-8, the check `String::from_utf8` applies to decoded strings
// (the byte patterns of table 3-7 of the Unicode Standard, chapter 3).
module Utf8 {
  import opened Bytes

  predicate Cont(b: byte, lo: byte, hi: byte)
  {
    lo <= b <= hi
  }

  /// The length of the well-formed character at the front of s, or 0 when the
  /// front of s is not one.
  function LeadLength(s: seq<byte>): (n: nat)
    ensures n <= 4 && n <= |s|
    ensures s != [] && s[0] < 0x80 ==> n == 1
  {
    if s == [] then 0
    else
      var b := s[0];
      if b <= 0x7F then 1
      else if 0xC2 <= b <= 0xDF then
        if |s| >= 2 && Cont(s[1], 0x80, 0xBF) then 2 else 0
      else if 0xE0 <= b <= 0xEF then
        var lo: byte := if b == 0xE0 then 0xA0 else 0x80;
        var hi: byte := if b == 0xED then 0x9F else 0xBF;
        if |s| >= 3 && Cont(s[1], lo, hi) && Cont(s[2], 0x80, 0xBF) then 3 else 0
      else if 0xF0 <= b <= 0xF4 then
        var lo: byte := if b == 0xF0 then 0x90 else 0x80;
        var hi: byte := if b == 0xF4 then 0x8F else 0xBF;
        if |s| >= 4 && Cont(s[1], lo, hi) && Cont(s[2], 0x80, 0xBF) && Cont(s[3], 0x80, 0xBF) then 4 else 0
      else 0
  }

  /// s splits into well-formed characters.
  predicate ValidUtf8(s: seq<byte>)
    decreases |s|
  {
    s == [] || (LeadLength(s) > 0 && ValidUtf8(s[LeadLength(s)..]))
  }

  /// Every ASCII byte string is valid UTF-8.
  lemma {:induction false} AsciiIsValid(s: seq<byte>)
    requires forall i :: 0 <= i < |s| ==> s[i] < 0x80
    ensures ValidUtf8(s)
    decreases |s|
  {
    if s != [] {
      assert LeadLength(s) == 1;
      AsciiIsValid(s[1..]);
    }
  }

  /// A three-byte character with a lead from E1 to EC takes any two
  /// continuation bytes; what follows must then be well-formed on its own.
  lemma ThreeByteChar(c: seq<byte>, rest: seq<byte>)
    requires |c| == 3 && 0xE1 <= c[0] <= 0xEC && Cont(c[1], 0x80, 0xBF) && Cont(c[2], 0x80, 0xBF)
    ensures ValidUtf8(c + rest) <==> ValidUtf8(rest)
  {
    assert (c + rest)[3..] == rest;
    assert LeadLength(c + rest) == 3;
  }

  /// A lone continuation byte is not a character.
  lemma ContinuationAloneInvalid(b: byte)
    requires 0x80 <= b <= 0xBF
    ensures !ValidUtf8([b])
  {
  }
}
