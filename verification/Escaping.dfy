/** Percent-encoding as Go's net/url does it (sections 2.1 and 2.3 of RFC 3986), on byte strings. */
module Escaping {
  import opened Wrappers

  type byte = c: char | (c as int) < 256 witness 'a'
  type Bytes = seq<byte>

  /** Section 2.3 of RFC 3986. */
  predicate IsUnreserved(c: byte) {
    'a' <= c <= 'z' || 'A' <= c <= 'Z' || '0' <= c <= '9' || c == '-' || c == '_' || c == '.' || c == '~'
  }

  predicate Unreserved(s: Bytes) {
    forall i :: 0 <= i < |s| ==> IsUnreserved(s[i])
  }

  function HexDigit(n: nat): byte
    requires n < 16
  {
    "0123456789ABCDEF"[n]
  }

  function UnHex(c: char): (n: Option<nat>)
    ensures n.Some? ==> n.value < 16
  {
    if '0' <= c <= '9' then Some(c as nat - '0' as nat)
    else if 'a' <= c <= 'f' then Some(c as nat - 'a' as nat + 10)
    else if 'A' <= c <= 'F' then Some(c as nat - 'A' as nat + 10)
    else None
  }

  function EscapeByte(c: byte): Bytes {
    if IsUnreserved(c) then [c]
    else if c == ' ' then ['+']
    else ['%', HexDigit(c as nat / 16), HexDigit(c as nat % 16)]
  }

  /** url.QueryEscape. */
  function QueryEscape(s: Bytes): Bytes {
    if s == [] then [] else EscapeByte(s[0]) + QueryEscape(s[1..])
  }

  predicate IsBytes(s: string) {
    forall i :: 0 <= i < |s| ==> s[i] as int < 256
  }

  function Cons(c: char, rest: Option<string>): (r: Option<string>)
    ensures r.Some? <==> rest.Some?
    ensures r.Some? && IsBytes(rest.value) && c as int < 256 ==> IsBytes(r.value)
  {
    if rest.None? then None else Some([c] + rest.value)
  }

  /** url.PathUnescape: fails on a percent sign without two hexadecimal digits; a plus sign stays. */
  function PathUnescape(s: string): (r: Option<string>)
    ensures r.Some? && IsBytes(s) ==> IsBytes(r.value)
  {
    if s == [] then Some([])
    else if s[0] == '%' then
      if |s| < 3 || UnHex(s[1]).None? || UnHex(s[2]).None? then None
      else Cons(ByteOf(UnHex(s[1]).value, UnHex(s[2]).value), PathUnescape(s[3..]))
    else Cons(s[0], PathUnescape(s[1..]))
  }

  function ByteOf(high: nat, low: nat): byte
    requires high < 16 && low < 16
  {
    (16 * high + low) as char
  }

  /** Each space replaced by a plus sign. */
  function SpacesToPluses(s: Bytes): (r: Bytes)
    ensures |r| == |s|
  {
    if s == [] then [] else [if s[0] == ' ' then '+' else s[0]] + SpacesToPluses(s[1..])
  }

  lemma HexDigitDecodes(n: nat)
    requires n < 16
    ensures UnHex(HexDigit(n)) == Some(n) && IsUnreserved(HexDigit(n))
  {
  }

  /** One escaped byte in front of a string unescapes to that byte, or to a plus sign. */
  lemma UnescapeOfEscapeByte(c: byte, rest: Bytes)
    ensures PathUnescape(EscapeByte(c) + rest) == Cons(if c == ' ' then '+' else c, PathUnescape(rest))
  {
    var s := EscapeByte(c) + rest;
    if IsUnreserved(c) || c == ' ' {
      assert s[1..] == rest;
    } else {
      HexDigitDecodes(c as nat / 16);
      HexDigitDecodes(c as nat % 16);
      assert s[3..] == rest;
      assert s[0] == '%' && s[1] == HexDigit(c as nat / 16) && s[2] == HexDigit(c as nat % 16);
      assert ByteOf(c as nat / 16, c as nat % 16) == c;
    }
  }

  /** Path-unescaping a query-escaped string never fails; it gives the string back with each space
      turned into a plus sign. */
  lemma {:induction false} UnescapeOfEscape(s: Bytes)
    ensures PathUnescape(QueryEscape(s)) == Some(SpacesToPluses(s))
  {
    if s != [] {
      UnescapeOfEscapeByte(s[0], QueryEscape(s[1..]));
      UnescapeOfEscape(s[1..]);
    }
  }

  lemma {:induction false} PlusesIsIdentityIffSpaceFree(s: Bytes)
    ensures SpacesToPluses(s) == s <==> ' ' !in s
  {
    if s != [] {
      PlusesIsIdentityIffSpaceFree(s[1..]);
      assert s == [s[0]] + s[1..];
      var r := SpacesToPluses(s);
      assert r[0] == (if s[0] == ' ' then '+' else s[0]) && r[1..] == SpacesToPluses(s[1..]);
    }
  }

  /** So the round trip through the escapes is the identity exactly on space-free strings. */
  lemma UnescapeInvertsEscapeIffSpaceFree(s: Bytes)
    ensures PathUnescape(QueryEscape(s)) == Some(s) <==> ' ' !in s
  {
    UnescapeOfEscape(s);
    PlusesIsIdentityIffSpaceFree(s);
  }

  /** Unescaping never lengthens a string, and shortens it exactly when there is something to unescape. */
  lemma {:induction false} UnescapeShortens(s: string)
    requires PathUnescape(s).Some?
    ensures |PathUnescape(s).value| <= |s|
    ensures |PathUnescape(s).value| == |s| <==> '%' !in s
    ensures '%' !in s ==> PathUnescape(s).value == s
  {
    if s != [] {
      if s[0] == '%' {
        UnescapeShortens(s[3..]);
      } else {
        UnescapeShortens(s[1..]);
        assert s == [s[0]] + s[1..];
      }
    }
  }

  lemma {:induction false} UnescapeOfPlain(s: string)
    requires '%' !in s
    ensures PathUnescape(s) == Some(s)
  {
    if s != [] {
      UnescapeOfPlain(s[1..]);
      assert s == [s[0]] + s[1..];
    }
  }

  /** Query-escaping loses nothing: spaces and plus signs are escaped differently. */
  lemma {:induction false} EscapeInjective(a: Bytes, b: Bytes)
    requires QueryEscape(a) == QueryEscape(b)
    ensures a == b
    decreases |a|
  {
    if a == [] || b == [] {
      EscapeGrows(a);
      EscapeGrows(b);
    } else {
      var x, y := QueryEscape(a[1..]), QueryEscape(b[1..]);
      FirstByteDetermined(a[0], x, b[0], y);
      EscapeInjective(a[1..], b[1..]);
      assert a == [a[0]] + a[1..] && b == [b[0]] + b[1..];
    }
  }

  lemma FirstByteDetermined(c: byte, x: Bytes, d: byte, y: Bytes)
    requires EscapeByte(c) + x == EscapeByte(d) + y
    ensures c == d && x == y
  {
    var s, t := EscapeByte(c) + x, EscapeByte(d) + y;
    assert s[0] == EscapeByte(c)[0] && t[0] == EscapeByte(d)[0];
    if s[0] == '%' {
      assert s[1] == HexDigit(c as nat / 16) && s[2] == HexDigit(c as nat % 16);
      assert t[1] == HexDigit(d as nat / 16) && t[2] == HexDigit(d as nat % 16);
      HexDigitDecodes(c as nat / 16);
      HexDigitDecodes(c as nat % 16);
      HexDigitDecodes(d as nat / 16);
      HexDigitDecodes(d as nat % 16);
      assert c as nat == 16 * (c as nat / 16) + c as nat % 16;
      assert d as nat == 16 * (d as nat / 16) + d as nat % 16;
      assert x == s[3..] && y == t[3..];
    } else {
      assert x == s[1..] && y == t[1..];
    }
  }

  /** What an escaped string is made of. */
  predicate Escaped(s: Bytes) {
    forall i :: 0 <= i < |s| ==> IsUnreserved(s[i]) || s[i] == '%' || s[i] == '+'
  }

  lemma EscapeByteIsEscaped(c: byte)
    ensures Escaped(EscapeByte(c)) && EscapeByte(c) != []
  {
    HexDigitDecodes(c as nat / 16);
    HexDigitDecodes(c as nat % 16);
  }

  lemma {:induction false} EscapeIsEscaped(s: Bytes)
    ensures Escaped(QueryEscape(s))
    ensures QueryEscape(s) == [] <==> s == []
  {
    if s != [] {
      EscapeIsEscaped(s[1..]);
      EscapeByteIsEscaped(s[0]);
    }
  }

  lemma {:induction false} EscapeGrows(s: Bytes)
    ensures |QueryEscape(s)| >= |s|
  {
    if s != [] {
      EscapeGrows(s[1..]);
    }
  }

  /** Escaping changes nothing exactly when there is nothing to escape. */
  lemma {:induction false} EscapeIsIdentityIffUnreserved(s: Bytes)
    ensures QueryEscape(s) == s <==> Unreserved(s)
  {
    if s != [] {
      EscapeIsIdentityIffUnreserved(s[1..]);
      EscapeGrows(s[1..]);
      assert s == [s[0]] + s[1..];
      if IsUnreserved(s[0]) {
        assert QueryEscape(s)[1..] == QueryEscape(s[1..]);
      } else {
        assert QueryEscape(s)[0] == EscapeByte(s[0])[0] != s[0] || |EscapeByte(s[0])| == 3;
        assert !Unreserved(s);
      }
    }
  }

  /** Unreserved bytes stand for themselves, and every other byte but the space is a percent sign and two
      upper-case digits. */
  predicate Canonical(s: Bytes) {
    s == [] ||
    if IsUnreserved(s[0]) then Canonical(s[1..])
    else
      && |s| >= 3 && s[0] == '%' && IsUpperHex(s[1]) && IsUpperHex(s[2])
      && NeedsTriple(ByteOf(UnHex(s[1]).value, UnHex(s[2]).value))
      && Canonical(s[3..])
  }

  predicate NeedsTriple(c: byte) {
    !IsUnreserved(c) && c != ' '
  }

  predicate IsUpperHex(c: byte) {
    '0' <= c <= '9' || 'A' <= c <= 'F'
  }

  lemma HexOfUnHex(c: byte)
    requires IsUpperHex(c)
    ensures UnHex(c).Some? && HexDigit(UnHex(c).value) == c
  {
  }

  /** Canonical strings are the ones that unescaping and escaping again gives back. */
  lemma {:induction false} CanonicalIffReescapes(s: Bytes)
    ensures Canonical(s) <==> PathUnescape(s).Some? && QueryEscape(PathUnescape(s).value) == s
    decreases |s|
  {
    if s != [] {
      if IsUnreserved(s[0]) {
        CanonicalIffReescapes(s[1..]);
        ReescapeUnreserved(s);
      } else if s[0] == '%' && |s| >= 3 && UnHex(s[1]).Some? && UnHex(s[2]).Some? {
        CanonicalIffReescapes(s[3..]);
        ReescapeTriple(s);
      } else if s[0] != '%' && PathUnescape(s).Some? {
        var rest := PathUnescape(s[1..]).value;
        assert PathUnescape(s).value == [s[0]] + rest;
        EscapeHead(s[0], rest);
        assert EscapeByte(s[0])[0] != s[0];
      }
    }
  }

  lemma EscapeHead(c: byte, rest: Bytes)
    ensures QueryEscape([c] + rest) == EscapeByte(c) + QueryEscape(rest)
  {
    assert ([c] + rest)[1..] == rest;
  }

  lemma ReescapeUnreserved(s: Bytes)
    requires s != [] && IsUnreserved(s[0])
    ensures PathUnescape(s).Some? <==> PathUnescape(s[1..]).Some?
    ensures PathUnescape(s).Some? ==>
              (QueryEscape(PathUnescape(s).value) == s <==> QueryEscape(PathUnescape(s[1..]).value) == s[1..])
  {
    if PathUnescape(s).Some? {
      var rest := PathUnescape(s[1..]).value;
      EscapeHead(s[0], rest);
      assert s == [s[0]] + s[1..];
      assert ([s[0]] + QueryEscape(rest))[1..] == QueryEscape(rest);
    }
  }

  lemma ReescapeTriple(s: Bytes)
    requires |s| >= 3 && s[0] == '%' && UnHex(s[1]).Some? && UnHex(s[2]).Some?
    ensures PathUnescape(s).Some? <==> PathUnescape(s[3..]).Some?
    ensures
      var c := ByteOf(UnHex(s[1]).value, UnHex(s[2]).value);
      PathUnescape(s).Some? ==>
        (QueryEscape(PathUnescape(s).value) == s <==>
         && NeedsTriple(c) && IsUpperHex(s[1]) && IsUpperHex(s[2])
         && QueryEscape(PathUnescape(s[3..]).value) == s[3..])
  {
    if PathUnescape(s).Some? {
      var high, low := UnHex(s[1]).value, UnHex(s[2]).value;
      var c, rest := ByteOf(high, low), PathUnescape(s[3..]).value;
      assert c as nat / 16 == high && c as nat % 16 == low;
      EscapeHead(c, rest);
      var e := EscapeByte(c) + QueryEscape(rest);
      if NeedsTriple(c) {
        TripleThen(HexDigit(high), HexDigit(low), QueryEscape(rest), s);
        HexIsUpper(high);
        HexIsUpper(low);
        if IsUpperHex(s[1]) && IsUpperHex(s[2]) {
          HexOfUnHex(s[1]);
          HexOfUnHex(s[2]);
        }
      } else {
        assert e[0] != '%';
      }
    }
  }

  lemma TripleThen(high: byte, low: byte, rest: Bytes, s: Bytes)
    requires |s| >= 3 && s[0] == '%'
    ensures ['%', high, low] + rest == s <==> high == s[1] && low == s[2] && rest == s[3..]
  {
    var t := ['%', high, low] + rest;
    assert t[1] == high && t[2] == low && t[3..] == rest;
    assert s == [s[0], s[1], s[2]] + s[3..];
  }

  lemma HexIsUpper(n: nat)
    requires n < 16
    ensures IsUpperHex(HexDigit(n))
  {
  }

  // ------------------------------------------------------------------------
  // The tables, character by character
  // ------------------------------------------------------------------------

  /** The unreserved characters by their ASCII codes: the letters, the digits and four marks. */
  lemma UnreservedTable(c: byte)
    ensures IsUnreserved(c) <==>
            || 65 <= c as int <= 90 || 97 <= c as int <= 122 || 48 <= c as int <= 57
            || c as int in {45, 46, 95, 126}
  {
  }

  /** A hexadecimal digit has its value in either case, and no other character has one. */
  lemma UnHexIff(c: char, n: nat)
    ensures UnHex(c) == Some(n) <==> n < 16 && (c == "0123456789abcdef"[n] || c == "0123456789ABCDEF"[n])
  {
  }

  lemma HexDigitTable(n: nat)
    requires n < 16
    ensures HexDigit(n) == "0123456789ABCDEF"[n]
  {
  }

  lemma {:induction false} PlusesAt(s: Bytes, i: nat)
    requires i < |s|
    ensures SpacesToPluses(s)[i] == if s[i] == ' ' then '+' else s[i]
  {
    if i > 0 {
      PlusesAt(s[1..], i - 1);
    }
  }

  /** How unescaping goes on from each kind of beginning. */
  lemma UnescapeStep(c: char, rest: string)
    ensures PathUnescape("") == Some("")
    ensures c != '%' ==>
              PathUnescape([c] + rest) == if PathUnescape(rest).None? then None else Some([c] + PathUnescape(rest).value)
    ensures c == '%' && |rest| < 2 ==> PathUnescape([c] + rest) == None
  {
    var s := [c] + rest;
    assert s[1..] == rest;
  }

  /** A percent sign and two hexadecimal digits stand for the character of that value. */
  lemma UnescapeTripleStep(high: char, low: char, rest: string)
    ensures
      var s := ['%', high, low] + rest;
      PathUnescape(s) ==
      if UnHex(high).None? || UnHex(low).None? || PathUnescape(rest).None? then None
      else Some([(16 * UnHex(high).value + UnHex(low).value) as char] + PathUnescape(rest).value)
  {
    var s := ['%', high, low] + rest;
    assert s[1] == high && s[2] == low && s[3..] == rest;
  }
}
