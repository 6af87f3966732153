/** Python 2's `urllib.unquote`, which decodes the `Path=` value of a record
    (trashcli/trash2.py:237): every `%` followed by two hexadecimal digits,
    in either case, becomes the byte they spell; any other `%` stays as it is.
    The encoder `Quote` is the partner the decoder is checked against. */
module Percent {

  predicate IsHex(c: char) {
    ('0' <= c <= '9') || ('a' <= c <= 'f') || ('A' <= c <= 'F')
  }

  function HexValue(c: char): (v: int)
    requires IsHex(c)
    ensures 0 <= v < 16
  {
    if '0' <= c <= '9' then c as int - '0' as int
    else if 'a' <= c <= 'f' then c as int - 'a' as int + 10
    else c as int - 'A' as int + 10
  }

  function HexDigit(v: int): (c: char)
    requires 0 <= v < 16
    ensures IsHex(c) && HexValue(c) == v
  {
    if v < 10 then (v + '0' as int) as char else (v - 10 + 'A' as int) as char
  }

  /** An escape `%XY` starts at index `i` of `s`. */
  predicate EscapeAt(s: string, i: int) {
    0 <= i && i + 2 < |s| && s[i] == '%' && IsHex(s[i + 1]) && IsHex(s[i + 2])
  }

  function Unquote(s: string): (r: string)
    ensures |r| <= |s|
    ensures '%' !in s ==> r == s
    ensures |r| == |s| ==> r == s
  {
    if s == "" then ""
    else if EscapeAt(s, 0) then
      [(16 * HexValue(s[1]) + HexValue(s[2])) as char] + Unquote(s[3..])
    else
      [s[0]] + Unquote(s[1..])
  }

  /** Characters `urllib.quote` leaves alone: letters, digits, `_.-` and `/`. */
  predicate Safe(c: char) {
    ('a' <= c <= 'z') || ('A' <= c <= 'Z') || ('0' <= c <= '9')
    || c == '_' || c == '.' || c == '-' || c == '/'
  }

  /** A byte string: every character fits in eight bits. */
  predicate IsBytes(s: string) {
    forall k :: 0 <= k < |s| ==> s[k] as int < 256
  }

  function Quote(s: string): (r: string)
    requires IsBytes(s)
    ensures |s| <= |r| <= 3 * |s|
    ensures forall k :: 0 <= k < |r| ==> r[k] == '%' || Safe(r[k]) || IsHex(r[k])
  {
    if s == "" then ""
    else
      var c := s[0];
      var head := if Safe(c) then [c]
                  else ['%', HexDigit(c as int / 16), HexDigit(c as int % 16)];
      head + Quote(s[1..])
  }

  /** A safe character decodes to itself. */
  lemma UnquoteSafe(c: char, t: string)
    requires Safe(c)
    ensures Unquote([c] + t) == [c] + Unquote(t)
  {
    assert ([c] + t)[1..] == t;
  }

  /** The escape `Quote` writes for a byte decodes to that byte. */
  lemma UnquoteEscape(c: char, t: string)
    requires c as int < 256
    ensures Unquote(['%', HexDigit(c as int / 16), HexDigit(c as int % 16)] + t) == [c] + Unquote(t)
  {
    var e := ['%', HexDigit(c as int / 16), HexDigit(c as int % 16)] + t;
    assert EscapeAt(e, 0);
    assert e[3..] == t;
    assert 16 * (c as int / 16) + c as int % 16 == c as int;
  }

  /** Decoding undoes encoding, for every byte string. */
  lemma {:induction false} UnquoteQuote(s: string)
    requires IsBytes(s)
    ensures Unquote(Quote(s)) == s
  {
    if s != "" {
      var c := s[0];
      var rest := Quote(s[1..]);
      UnquoteQuote(s[1..]);
      if Safe(c) {
        UnquoteSafe(c, rest);
      } else {
        UnquoteEscape(c, rest);
      }
      assert s == [c] + s[1..];
    }
  }
}
