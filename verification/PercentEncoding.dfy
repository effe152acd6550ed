/** Percent encoding of a path value, and the decoder the language server
    applies to a file URI. */
module PercentEncoding {
  import opened Text
  import opened Bytes

  /** The unreserved characters of section 2.3 of RFC 3986. */
  predicate IsUnreserved(b: Byte) {
    'a' <= b <= 'z' || 'A' <= b <= 'Z' || '0' <= b <= '9' || b == '-' || b == '.' || b == '_' || b == '~'
  }

  function UpperHex(n: int): (b: Byte)
    requires 0 <= n < 16
  {
    if n < 10 then ('0' as int + n) as char else ('A' as int + n - 10) as char
  }

  function Code(b: Byte): (code: ByteString)
    ensures code != []
  {
    if IsUnreserved(b) then [b] else ['%', UpperHex(b as int / 16), UpperHex(b as int % 16)]
  }

  function PercentEncode(value: ByteString): ByteString {
    if value == [] then [] else Code(value[0]) + PercentEncode(value[1..])
  }

  function HexValue(b: Byte): (r: Option<int>)
    ensures r.Some? ==> 0 <= r.value < 16
  {
    if '0' <= b <= '9' then Some(b as int - '0' as int)
    else if 'a' <= b <= 'f' then Some(b as int - 'a' as int + 10)
    else if 'A' <= b <= 'F' then Some(b as int - 'A' as int + 10)
    else None
  }

  /** `u8::from_str_radix` of two bytes: a leading plus sign is allowed. */
  function FromHex(high: Byte, low: Byte): Option<Byte> {
    match HexValue(low)
    case None => None
    case Some(l) =>
      if high == '+' then Some(l as char)
      else match HexValue(high)
        case None => None
        case Some(h) => Some((h * 16 + l) as char)
  }

  /** The byte that an escape at `at` stands for, when there is one. */
  function EscapeAt(s: ByteString, at: nat): (r: Option<Byte>)
    requires at < |s|
    ensures r.Some? ==> at + 3 <= |s|
  {
    if s[at] == '%' && at + 2 < |s| then FromHex(s[at + 1], s[at + 2]) else None
  }

  /** What the decoder makes of the bytes from `at` on. */
  function Unescaped(s: ByteString, at: nat): ByteString
    requires at <= |s|
    decreases |s| - at
  {
    if at == |s| then []
    else if EscapeAt(s, at).Some? then [EscapeAt(s, at).value] + Unescaped(s, at + 3)
    else [s[at]] + Unescaped(s, at + 1)
  }

  method Unescape(s: ByteString) returns (out: ByteString)
    ensures out == Unescaped(s, 0)
  {
    out := [];
    var at := 0;
    while at < |s|
      invariant at <= |s|
      invariant out + Unescaped(s, at) == Unescaped(s, 0)
    {
      if s[at] == '%' && at + 2 < |s| {
        var byte := FromHex(s[at + 1], s[at + 2]);
        if byte.Some? {
          Assoc(out, [byte.value], Unescaped(s, at + 3));
          out := out + [byte.value];
          at := at + 3;
          continue;
        }
      }
      Assoc(out, [s[at]], Unescaped(s, at + 1));
      out := out + [s[at]];
      at := at + 1;
    }
  }

  lemma {:induction false} HexRoundTrip(b: Byte)
    ensures FromHex(UpperHex(b as int / 16), UpperHex(b as int % 16)) == Some(b)
  {
    var h, l := b as int / 16, b as int % 16;
    assert HexValue(UpperHex(h)) == Some(h) && HexValue(UpperHex(l)) == Some(l);
    assert UpperHex(h) != '+';
    assert h * 16 + l == b as int;
  }

  lemma {:induction false} EscapeTail(head: ByteString, s: ByteString, at: nat)
    requires at < |s|
    ensures EscapeAt(head + s, |head| + at) == EscapeAt(s, at)
    ensures (head + s)[|head| + at] == s[at]
  {
    hide FromHex;
  }

  lemma {:induction false} UnescapedStep(s: ByteString, at: nat)
    requires at <= |s|
    ensures at == |s| ==> Unescaped(s, at) == []
    ensures at < |s| ==>
              var code := EscapeAt(s, at);
              Unescaped(s, at)
              == if code.Some? then [code.value] + Unescaped(s, at + 3) else [s[at]] + Unescaped(s, at + 1)
  {
    hide EscapeAt;
  }

  lemma {:induction false} UnescapedTail(head: ByteString, s: ByteString, at: nat)
    requires at <= |s|
    ensures Unescaped(head + s, |head| + at) == Unescaped(s, at)
    decreases |s| - at
  {
    hide *;
    UnescapedStep(s, at);
    UnescapedStep(head + s, |head| + at);
    if at < |s| {
      EscapeTail(head, s, at);
      UnescapedTail(head, s, if EscapeAt(s, at).Some? then at + 3 else at + 1);
    }
  }

  /** One code is decoded as its byte. */
  lemma {:induction false} CodeReads(b: Byte, rest: ByteString)
    ensures Unescaped(Code(b) + rest, 0) == [b] + Unescaped(rest, 0)
  {
    var code := Code(b);
    assert forall k | 0 <= k < |code| :: (code + rest)[k] == code[k];
    UnescapedTail(code, rest, 0);
    HexRoundTrip(b);
    CodeEscapes(b, rest);
    hide *;
    UnescapedStep(code + rest, 0);
  }

  lemma {:induction false} CodeEscapes(b: Byte, rest: ByteString)
    ensures (Code(b) + rest)[0] == if IsUnreserved(b) then b else '%'
    ensures EscapeAt(Code(b) + rest, 0) == if IsUnreserved(b) then None else Some(b)
    ensures |Code(b)| == if IsUnreserved(b) then 1 else 3
  {
    hide FromHex, UpperHex;
    HexRoundTrip(b);
  }

  /** Decoding undoes encoding, for every byte string. */
  lemma {:induction false} DecodeEncode(value: ByteString)
    ensures Unescaped(PercentEncode(value), 0) == value
  {
    hide Code;
    if value != [] {
      DecodeEncode(value[1..]);
      CodeReads(value[0], PercentEncode(value[1..]));
      assert value == [value[0]] + value[1..];
    }
  }

  lemma {:induction false} EncodingIsInjective(a: ByteString, b: ByteString)
    requires PercentEncode(a) == PercentEncode(b)
    ensures a == b
  {
    DecodeEncode(a);
    DecodeEncode(b);
  }

  /** Byte by byte: letters, digits and the four marks as they are, every other
      byte as a percent sign and its two hexadecimal digits. */
  lemma {:induction false} EncodeByte(value: ByteString, b: Byte)
    ensures
      var n := b as int;
      PercentEncode(value + [b])
      == PercentEncode(value)
         + (if 65 <= n <= 90 || 97 <= n <= 122 || 48 <= n <= 57 || b in "-._~" then [b]
            else ['%', "0123456789ABCDEF"[n / 16], "0123456789ABCDEF"[n % 16]])
    ensures PercentEncode([]) == []
  {
    hide Code;
    CodeIs(b);
    if value == [] {
      assert value + [b] == [b];
      assert [b][1..] == [];
    } else {
      assert (value + [b])[1..] == value[1..] + [b];
      EncodeByte(value[1..], b);
      Assoc(Code(value[0]), PercentEncode(value[1..]), Code(b));
    }
  }

  lemma {:induction false} CodeIs(b: Byte)
    ensures
      var n := b as int;
      Code(b) == if 65 <= n <= 90 || 97 <= n <= 122 || 48 <= n <= 57 || b in "-._~" then [b]
                 else ['%', "0123456789ABCDEF"[n / 16], "0123456789ABCDEF"[n % 16]]
  {
    hide UpperHex;
    UpperHexIs(b as int / 16);
    UpperHexIs(b as int % 16);
    assert "-._~"[0] == '-' && "-._~"[1] == '.' && "-._~"[2] == '_' && "-._~"[3] == '~';
  }

  lemma {:induction false} UpperHexIs(n: nat)
    requires n < 16
    ensures UpperHex(n) == "0123456789ABCDEF"[n]
  {
  }

  /** Decoding, one step: `%` and two hexadecimal digits in either case are one
      byte, a plus sign counting as the digit zero in front; anything else stands
      for itself. */
  lemma {:induction false} DecodeStep(s: ByteString, rest: ByteString, h: nat, l: nat)
    requires h < 16 && l < 16 && |s| == 2
    requires LowerChar(s[0]) == "0123456789abcdef"[h] || (h == 0 && s[0] == '+')
    requires LowerChar(s[1]) == "0123456789abcdef"[l]
    ensures Unescaped(['%'] + s + rest, 0) == [(16 * h + l) as char] + Unescaped(rest, 0)
  {
    hide *;
    var all := ['%'] + s + rest;
    FromHexIs(s[0], s[1], h, l);
    EscapeIs(s, rest);
    UnescapedStep(all, 0);
    UnescapedTail(['%'] + s, rest, 0);
  }

  lemma {:induction false} EscapeIs(s: ByteString, rest: ByteString)
    requires |s| == 2
    ensures EscapeAt(['%'] + s + rest, 0) == FromHex(s[0], s[1])
  {
    hide FromHex;
  }

  lemma {:induction false} FromHexIs(high: Byte, low: Byte, h: nat, l: nat)
    requires h < 16 && l < 16
    requires LowerChar(high) == "0123456789abcdef"[h] || (h == 0 && high == '+')
    requires LowerChar(low) == "0123456789abcdef"[l]
    ensures FromHex(high, low) == Some((16 * h + l) as char)
  {
    hide HexValue, LowerChar;
    HexIs(high, h);
    HexIs(low, l);
  }

  lemma {:induction false} HexIs(b: Byte, n: nat)
    requires n < 16
    ensures HexValue(b) == Some(n) <==> LowerChar(b) == "0123456789abcdef"[n]
    ensures HexValue('+') == None
  {
  }

  lemma {:induction false} DecodeOther(b: Byte, rest: ByteString)
    requires b != '%' || |rest| < 2 || FromHexIsNone(rest[0], rest[1])
    ensures Unescaped([b] + rest, 0) == [b] + Unescaped(rest, 0)
  {
    var all := [b] + rest;
    HexOnly();
    hide FromHex, HexValue;
    UnescapedStep(all, 0);
    UnescapedTail([b], rest, 0);
    assert |rest| >= 2 ==> all[1] == rest[0] && all[2] == rest[1];
  }

  /** The two bytes behind a percent sign are no number. */
  predicate FromHexIsNone(high: Byte, low: Byte) {
    LowerChar(low) !in "0123456789abcdef" || (LowerChar(high) !in "0123456789abcdef" && high != '+')
  }

  lemma {:induction false} HexOnly()
    ensures forall high, low: Byte :: FromHexIsNone(high, low) ==> FromHex(high, low) == None
  {
  }

  predicate IsUpperHex(b: Byte) {
    '0' <= b <= '9' || 'A' <= b <= 'F'
  }

  /** Unreserved bytes as themselves, every other byte as a percent sign and two
      upper-case digits (section 2.1 of RFC 3986). */
  predicate Canonical(s: ByteString)
    decreases |s|
  {
    s == []
    || (IsUnreserved(s[0]) && Canonical(s[1..]))
    || (|s| >= 3 && s[0] == '%' && IsUpperHex(s[1]) && IsUpperHex(s[2])
        && !IsUnreserved(FromHex(s[1], s[2]).value) && Canonical(s[3..]))
  }

  lemma {:induction false} CanonicalCode(b: Byte, rest: ByteString)
    requires Canonical(rest)
    ensures Canonical(Code(b) + rest)
  {
    HexRoundTrip(b);
    assert (Code(b) + rest)[|Code(b)|..] == rest;
    assert forall k | 0 <= k < |Code(b)| :: (Code(b) + rest)[k] == Code(b)[k];
  }

  lemma {:induction false} EncodingIsCanonical(value: ByteString)
    ensures Canonical(PercentEncode(value))
    ensures '{' !in PercentEncode(value) && '}' !in PercentEncode(value)
  {
    if value != [] {
      EncodingIsCanonical(value[1..]);
      CanonicalCode(value[0], PercentEncode(value[1..]));
    }
  }

  lemma {:induction false} HexIsUnique(high: Byte, low: Byte)
    requires IsUpperHex(high) && IsUpperHex(low)
    ensures FromHex(high, low).Some?
    ensures
      var b := FromHex(high, low).value;
      UpperHex(b as int / 16) == high && UpperHex(b as int % 16) == low
  {
    var h, l := HexValue(high).value, HexValue(low).value;
    assert UpperHex(h) == high && UpperHex(l) == low;
    assert (h * 16 + l) / 16 == h && (h * 16 + l) % 16 == l;
  }

  /** The first code of a canonical string, and the rest. */
  lemma {:induction false} CanonicalCut(s: ByteString) returns (b: Byte, rest: ByteString)
    requires Canonical(s) && s != []
    ensures s == Code(b) + rest && Canonical(rest)
  {
    if IsUnreserved(s[0]) && Canonical(s[1..]) {
      b, rest := s[0], s[1..];
    } else {
      HexIsUnique(s[1], s[2]);
      b, rest := FromHex(s[1], s[2]).value, s[3..];
      assert s[..3] == ['%', s[1], s[2]] && s == s[..3] + s[3..];
    }
  }

  lemma {:induction false} EncodeFirst(b: Byte, rest: ByteString)
    ensures PercentEncode([b] + rest) == Code(b) + PercentEncode(rest)
  {
    hide Code;
    assert ([b] + rest)[1..] == rest;
  }

  lemma {:induction false} EncodeDecode(s: ByteString)
    requires Canonical(s)
    ensures PercentEncode(Unescaped(s, 0)) == s
    decreases |s|
  {
    hide Code, Canonical;
    if s != [] {
      var b, rest := CanonicalCut(s);
      EncodeDecode(rest);
      CodeReads(b, rest);
      EncodeFirst(b, Unescaped(rest, 0));
    }
  }

  /** Exactly the canonical strings are what encoding produces. */
  lemma {:induction false} CanonicalIffEncoded(s: ByteString)
    ensures Canonical(s) <==> PercentEncode(Unescaped(s, 0)) == s
  {
    EncodingIsCanonical(Unescaped(s, 0));
    if Canonical(s) { EncodeDecode(s); }
  }
}
