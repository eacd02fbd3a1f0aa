/**
 * Percent-decoding as Python's `urllib.parse.unquote` performs it on ASCII text:
 * each `%XX` escape of section 2.1 of RFC 3986 (two hexadecimal digits, either
 * case) becomes the character with that code; a `%` not followed by two
 * hexadecimal digits is kept as it is. `PercentEncode` is the reference encoder
 * that decoding undoes.
 */
module Percent {

  predicate IsHexDigit(c: char) {
    ('0' <= c <= '9') || ('a' <= c <= 'f') || ('A' <= c <= 'F')
  }

  function HexValue(c: char): (v: nat)
    requires IsHexDigit(c)
    ensures v < 16
  {
    if '0' <= c <= '9' then c as int - '0' as int
    else if 'a' <= c <= 'f' then c as int - 'a' as int + 10
    else c as int - 'A' as int + 10
  }

  /** Upper-case hexadecimal digit, as encoders write it. */
  function HexDigit(v: nat): (c: char)
    requires v < 16
    ensures IsHexDigit(c) && HexValue(c) == v
  {
    if v < 10 then ('0' as int + v) as char else ('A' as int + v - 10) as char
  }

  /** `s` starts with a well-formed escape `%XX`. */
  predicate StartsWithEscape(s: string) {
    |s| >= 3 && s[0] == '%' && IsHexDigit(s[1]) && IsHexDigit(s[2])
  }

  /**
   * `unquote(s)`: decodes every well-formed escape, scanning left to right.
   * Text without a `%` comes back unchanged, and decoding never lengthens.
   */
  function Unquote(s: string): (r: string)
    ensures |r| <= |s|
    ensures '%' !in s ==> r == s
    ensures '%' in r ==> '%' in s
    decreases |s|
  {
    if s == [] then []
    else if StartsWithEscape(s) then
      [(16 * HexValue(s[1]) + HexValue(s[2])) as char] + Unquote(s[3..])
    else
      assert '%' !in s ==> '%' !in s[1..];
      assert s == [s[0]] + s[1..];
      [s[0]] + Unquote(s[1..])
  }

  /** Characters section 2.3 of RFC 3986 leaves unescaped. */
  predicate IsUnreserved(c: char) {
    ('a' <= c <= 'z') || ('A' <= c <= 'Z') || ('0' <= c <= '9')
    || c == '-' || c == '.' || c == '_' || c == '~'
  }

  /** Escapes every character that is not unreserved as `%XX`. */
  function PercentEncode(s: string): (r: string)
    requires forall i :: 0 <= i < |s| ==> s[i] as int < 256
    ensures forall i :: 0 <= i < |r| ==> r[i] == '%' || IsUnreserved(r[i]) || IsHexDigit(r[i])
    decreases |s|
  {
    if s == [] then []
    else if IsUnreserved(s[0]) then [s[0]] + PercentEncode(s[1..])
    else
      var n := s[0] as int;
      ['%', HexDigit(n / 16), HexDigit(n % 16)] + PercentEncode(s[1..])
  }

  /** The escape an encoder writes for `c` decodes to `c`. */
  lemma UnquoteEscape(c: char, tail: string)
    requires c as int < 256
    ensures var n := c as int;
            Unquote(['%', HexDigit(n / 16), HexDigit(n % 16)] + tail) == [c] + Unquote(tail)
  {
    var n := c as int;
    var hi, lo := HexDigit(n / 16), HexDigit(n % 16);
    var e := ['%', hi, lo] + tail;
    assert Unquote(e) == [(16 * HexValue(hi) + HexValue(lo)) as char] + Unquote(tail) by {
      assert StartsWithEscape(e) && e[3..] == tail;
    }
    assert (16 * HexValue(hi) + HexValue(lo)) as char == c by {
      assert HexValue(hi) == n / 16 && HexValue(lo) == n % 16;
    }
  }

  /** Decoding undoes encoding, for every text of single-byte characters. */
  lemma {:induction false} UnquoteEncode(s: string)
    requires forall i :: 0 <= i < |s| ==> s[i] as int < 256
    ensures Unquote(PercentEncode(s)) == s
    decreases |s|
  {
    if s != [] {
      var e := PercentEncode(s);
      var tail := PercentEncode(s[1..]);
      UnquoteEncode(s[1..]);
      if IsUnreserved(s[0]) {
        assert Unquote(e) == [s[0]] + Unquote(tail) by {
          assert e == [s[0]] + tail && !StartsWithEscape(e);
          assert e[1..] == tail;
        }
      } else {
        UnquoteEscape(s[0], tail);
      }
      assert s == [s[0]] + s[1..];
    }
  }
}
