/** Well-formed UTF-8, as the standard library's `std::str::from_utf8` and
    `String::from_utf8` accept it: the byte sequences of section 4 of
    RFC 3629, which exclude overlong forms, the surrogates U+D800..U+DFFF and
    everything above U+10FFFF. */
module Utf8 {
  import opened Wire

  /** A continuation byte, 0x80..0xBF. */
  predicate Tail(b: byte) {
    0x80 <= b <= 0xBF
  }

  /** The length of the well-formed character that `s` starts with, or 0 if
      `s` does not start with one. */
  function CharLength(s: seq<byte>): (n: nat)
    requires |s| > 0
    ensures n <= 4 && n <= |s|
    ensures n == 1 <==> s[0] < 0x80
  {
    var b := s[0];
    if b < 0x80 then 1
    else if 0xC2 <= b <= 0xDF then
      if |s| >= 2 && Tail(s[1]) then 2 else 0
    else if 0xE0 <= b <= 0xEF then
      var second :=
        if |s| < 2 then false
        else if b == 0xE0 then 0xA0 <= s[1] <= 0xBF
        else if b == 0xED then 0x80 <= s[1] <= 0x9F
        else Tail(s[1]);
      if |s| >= 3 && second && Tail(s[2]) then 3 else 0
    else if 0xF0 <= b <= 0xF4 then
      var second :=
        if |s| < 2 then false
        else if b == 0xF0 then 0x90 <= s[1] <= 0xBF
        else if b == 0xF4 then 0x80 <= s[1] <= 0x8F
        else Tail(s[1]);
      if |s| >= 4 && second && Tail(s[2]) && Tail(s[3]) then 4 else 0
    else 0
  }

  /** `s` is a sequence of well-formed characters. */
  predicate ValidUtf8(s: seq<byte>)
    decreases |s|
  {
    s == [] || (CharLength(s) > 0 && ValidUtf8(s[CharLength(s)..]))
  }

  /** ASCII text is UTF-8. */
  lemma {:induction false} AsciiIsUtf8(s: seq<byte>)
    requires forall k :: 0 <= k < |s| ==> s[k] < 0x80
    ensures ValidUtf8(s)
    decreases |s|
  {
    if s != [] {
      AsciiIsUtf8(s[1..]);
    }
  }

  /** Text followed by text is text. */
  lemma {:induction false} Utf8Concat(a: seq<byte>, b: seq<byte>)
    requires ValidUtf8(a) && ValidUtf8(b)
    ensures ValidUtf8(a + b)
    decreases |a|
  {
    if a != [] {
      var n := CharLength(a);
      CharLengthPrefix(a, a + b);
      assert (a + b)[n..] == a[n..] + b;
      Utf8Concat(a[n..], b);
      assert CharLength(a + b) > 0 && ValidUtf8((a + b)[CharLength(a + b)..]);
    } else {
      assert a + b == b;
    }
  }

  /** A complete character is recognised however the input goes on. */
  lemma CharLengthPrefix(a: seq<byte>, s: seq<byte>)
    requires |a| > 0 && CharLength(a) > 0
    requires |a| <= |s| && s[..|a|] == a
    ensures CharLength(s) == CharLength(a)
  {
    assert s[0] == a[0];
    if |a| >= 2 { assert s[1] == a[1]; }
    if |a| >= 3 { assert s[2] == a[2]; }
    if |a| >= 4 { assert s[3] == a[3]; }
  }

  /** Two-byte `é` is accepted; the overlong NUL `C0 80` (which Java's
      modified UTF-8 uses) and the encoded surrogate `ED A0 80` are not. */
  lemma Utf8Examples()
    ensures ValidUtf8([0xC3, 0xA9])
    ensures !ValidUtf8([0xC0, 0x80])
    ensures !ValidUtf8([0xED, 0xA0, 0x80])
  {
    var e: seq<byte> := [0xC3, 0xA9];
    assert CharLength(e) == 2;
    assert e[2..] == [];
  }
}
