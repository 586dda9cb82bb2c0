/** The percent-encoder of sync queries, against a decoder after sections 2.1 and 2.3 of RFC 3986. */
module UrlEncoding {
  import opened Basics

  type Byte = b: nat | b < 0x100

  const HEX := "0123456789ABCDEF"

  /** Letters, digits, hyphen, underscore, period, tilde. */
  predicate Unreserved(b: Byte) {
    0x41 <= b <= 0x5A || 0x61 <= b <= 0x7A || 0x30 <= b <= 0x39 || b == 0x2D || b == 0x5F || b == 0x2E || b == 0x7E
  }

  function EncodeByte(b: Byte): string {
    if Unreserved(b) then [b as char] else ['%', HEX[b / 16], HEX[b % 16]]
  }

  function Encode(s: seq<Byte>): string {
    if s == [] then "" else Encode(s[..|s| - 1]) + EncodeByte(s[|s| - 1])
  }

  method UrlencodingMinimal(s: seq<Byte>) returns (out: string)
    ensures out == Encode(s)
  {
    out := "";
    for i := 0 to |s|
      invariant out == Encode(s[..i])
    {
      assert s[..i + 1][..i] == s[..i];
      if Unreserved(s[i]) {
        out := out + [s[i] as char];
      } else {
        out := out + ['%', HEX[s[i] / 16], HEX[s[i] % 16]];
      }
    }
    assert s[..|s|] == s;
  }

  function HexValue(c: char): Option<nat> {
    if '0' <= c <= '9' then Some(c as nat - '0' as nat)
    else if 'A' <= c <= 'F' then Some(c as nat - 'A' as nat + 10)
    else if 'a' <= c <= 'f' then Some(c as nat - 'a' as nat + 10)
    else None
  }

  predicate UnreservedChar(c: char) {
    c < '\U{0100}' && Unreserved(c as nat)
  }

  /** The reference decoder: unreserved characters stand for themselves, a percent sign leads two hex digits. */
  function Decode(s: string): Option<seq<Byte>> {
    if s == "" then Some([])
    else if s[0] == '%' then
      if |s| < 3 || HexValue(s[1]).None? || HexValue(s[2]).None? then None
      else
        var rest := Decode(s[3..]);
        if rest.None? then None else Some([HexByte(s[1], s[2])] + rest.value)
    else if !UnreservedChar(s[0]) then None
    else
      var rest := Decode(s[1..]);
      if rest.None? then None else Some([s[0] as nat] + rest.value)
  }

  function HexByte(hi: char, lo: char): Byte
    requires HexValue(hi).Some? && HexValue(lo).Some?
  {
    HexValue(hi).value * 16 + HexValue(lo).value
  }

  lemma HexDigit(n: nat)
    requires n < 16
    ensures HexValue(HEX[n]) == Some(n)
  {
  }

  lemma DecodeByte(b: Byte, rest: string)
    requires Decode(rest).Some?
    ensures Decode(EncodeByte(b) + rest) == Some([b] + Decode(rest).value)
  {
    var s := EncodeByte(b) + rest;
    if Unreserved(b) {
      assert s[0] == b as char && s[1..] == rest;
    } else {
      HexDigit(b / 16);
      HexDigit(b % 16);
      assert s[0] == '%' && s[1] == HEX[b / 16] && s[2] == HEX[b % 16] && s[3..] == rest;
    }
  }

  lemma Regroup(init: seq<Byte>, last: Byte, rest: string, v: seq<Byte>)
    ensures Encode(init + [last]) + rest == Encode(init) + (EncodeByte(last) + rest)
    ensures init + ([last] + v) == (init + [last]) + v
  {
    assert (init + [last])[..|init|] == init;
  }

  lemma {:induction false} DecodeAppends(s: seq<Byte>, rest: string)
    requires Decode(rest).Some?
    ensures Decode(Encode(s) + rest) == Some(s + Decode(rest).value)
  {
    if s == [] {
      assert Encode(s) + rest == rest && s + Decode(rest).value == Decode(rest).value;
    } else {
      var init, last, v := s[..|s| - 1], s[|s| - 1], Decode(rest).value;
      var tail := EncodeByte(last) + rest;
      DecodeByte(last, rest);
      DecodeAppends(init, tail);
      Regroup(init, last, rest, v);
      assert s == init + [last];
    }
  }

  /** The decoder undoes the encoder on every byte string. */
  lemma DecodeUndoesEncode(s: seq<Byte>)
    ensures Decode(Encode(s)) == Some(s)
  {
    DecodeAppends(s, "");
    assert Encode(s) + "" == Encode(s);
    assert s + [] == s;
  }

  /** So different queries never look the same on the wire. */
  lemma EncodeInjective(s: seq<Byte>, t: seq<Byte>)
    requires Encode(s) == Encode(t)
    ensures s == t
  {
    DecodeUndoesEncode(s);
    DecodeUndoesEncode(t);
  }

  /**
   A byte on the wire: letters, digits and four marks as themselves, all else as a
   percent sign and two upper-case digits.
   */
  lemma ByteLaws(b: Byte)
    ensures var c, r := b as char, EncodeByte(b);
            if 'A' <= c <= 'Z' || 'a' <= c <= 'z' || '0' <= c <= '9' || c in "-_.~" then r == [c]
            else |r| == 3 && r[0] == '%' && (forall i :: 1 <= i <= 2 ==> '0' <= r[i] <= '9' || 'A' <= r[i] <= 'F')
                 && HexValue(r[1]) == Some(b / 16) && HexValue(r[2]) == Some(b % 16)
  {
    if !Unreserved(b) {
      HexDigit(b / 16);
      HexDigit(b % 16);
    }
  }

  lemma ByteAlphabet(b: Byte)
    ensures forall c :: c in EncodeByte(b) ==> UnreservedChar(c) || c == '%'
  {
  }

  /** Only unreserved characters and the percent sign appear in the output. */
  lemma {:induction false} OutputAlphabet(s: seq<Byte>)
    ensures forall c :: c in Encode(s) ==> UnreservedChar(c) || c == '%'
  {
    if s != [] {
      OutputAlphabet(s[..|s| - 1]);
      ByteAlphabet(s[|s| - 1]);
    }
  }
}
