/** Byte strings, written with character literals, and which of them are
    UTF-8. */
module Bytes {

  type Byte = c: char | (c as int) < 256 witness 'a'

  type ByteString = seq<Byte>

  predicate IsAscii(b: Byte) {
    (b as int) < 0x80
  }

  predicate In(b: Byte, low: int, high: int) {
    low <= b as int <= high
  }

  /** How many bytes the first character takes, or zero when the bytes do not
      start one (section 4 of RFC 3629). */
  function FirstLength(s: ByteString): (n: nat)
    requires s != []
    ensures n <= |s|
    ensures forall i | 0 <= i < n :: s[i] as int != 0xFF
    ensures IsAscii(s[0]) ==> n == 1
  {
    if IsAscii(s[0]) then 1
    else if In(s[0], 0xC2, 0xDF) then
      if |s| >= 2 && In(s[1], 0x80, 0xBF) then 2 else 0
    else if In(s[0], 0xE0, 0xEF) then
      var low := if s[0] as int == 0xE0 then 0xA0 else 0x80;
      var high := if s[0] as int == 0xED then 0x9F else 0xBF;
      if |s| >= 3 && In(s[1], low, high) && In(s[2], 0x80, 0xBF) then 3 else 0
    else if In(s[0], 0xF0, 0xF4) then
      var low := if s[0] as int == 0xF0 then 0x90 else 0x80;
      var high := if s[0] as int == 0xF4 then 0x8F else 0xBF;
      if |s| >= 4 && In(s[1], low, high) && In(s[2], 0x80, 0xBF) && In(s[3], 0x80, 0xBF) then 4 else 0
    else 0
  }

  predicate ValidUtf8(s: ByteString)
    decreases |s|
  {
    s == [] || (FirstLength(s) > 0 && ValidUtf8(s[FirstLength(s)..]))
  }

  lemma {:induction false} Utf8HasNoFF(s: ByteString)
    requires ValidUtf8(s)
    ensures forall i | 0 <= i < |s| :: s[i] as int != 0xFF
    decreases |s|
  {
    if s != [] {
      var n := FirstLength(s);
      Utf8HasNoFF(s[n..]);
      assert forall i | n <= i < |s| :: s[i] == s[n..][i - n];
    }
  }

  /** An ASCII byte never stands inside a character, so text can be cut there. */
  lemma {:induction false} Utf8Cut(s: ByteString, k: nat)
    requires ValidUtf8(s) && k < |s| && IsAscii(s[k])
    ensures ValidUtf8(s[..k])
    decreases |s|
  {
    var n := FirstLength(s);
    if k > 0 {
      FirstOf(s, k);
      Utf8Cut(s[n..], k - n);
      assert s[..k][n..] == s[n..][..k - n];
    }
  }

  lemma {:induction false} FirstOf(s: ByteString, k: nat)
    requires s != [] && FirstLength(s) > 0 && 0 < k < |s| && IsAscii(s[k])
    ensures FirstLength(s) <= k && FirstLength(s[..k]) == FirstLength(s)
  {
  }

  lemma {:induction false} AsciiIsUtf8(s: ByteString)
    requires forall i | 0 <= i < |s| :: IsAscii(s[i])
    ensures ValidUtf8(s)
    decreases |s|
  {
    if s != [] {
      AsciiIsUtf8(s[1..]);
    }
  }

  // ---- valid means encoded ----

  /** A Unicode scalar value. */
  predicate IsScalar(n: nat) {
    n < 0x110000 && !(0xD800 <= n <= 0xDFFF)
  }

  function Tail(n: nat): Byte {
    (0x80 + n % 64) as char
  }

  /** The bytes of one character (section 3 of RFC 3629). */
  function Encoded(n: nat): (r: ByteString)
    requires IsScalar(n)
    ensures r != []
  {
    if n < 0x80 then [n as char]
    else if n < 0x800 then [(0xC0 + n / 64) as char, Tail(n)]
    else if n < 0x10000 then [(0xE0 + n / 4096) as char, Tail(n / 64), Tail(n)]
    else [(0xF0 + n / 262144) as char, Tail(n / 4096), Tail(n / 64), Tail(n)]
  }

  function EncodedAll(ns: seq<nat>): ByteString
    requires forall i | 0 <= i < |ns| :: IsScalar(ns[i])
  {
    if ns == [] then [] else Encoded(ns[0]) + EncodedAll(ns[1..])
  }

  lemma {:induction false} EncodedIsFirst(n: nat, rest: ByteString)
    requires IsScalar(n)
    ensures FirstLength(Encoded(n) + rest) == |Encoded(n)|
  {
    var s := Encoded(n) + rest;
    assert forall i | 0 <= i < |Encoded(n)| :: s[i] == Encoded(n)[i];
    if n >= 0x10000 {
      Digits(n / 64);
      hide Encoded;
    } else if n >= 0x800 {
      Digits(n);
      hide Encoded;
    }
  }

  lemma {:induction false} Digits(n: nat)
    ensures (n / 64) % 64 == n / 64 - n / 4096 * 64
  {
  }

  lemma {:induction false} Digit64(high: nat, low: nat)
    requires low < 64
    ensures (high * 64 + low) / 64 == high && (high * 64 + low) % 64 == low
  {
  }

  lemma {:induction false} Two(a: nat, b: nat)
    requires 2 <= a < 32 && b < 64
    ensures IsScalar(a * 64 + b) && Encoded(a * 64 + b) == [(0xC0 + a) as char, (0x80 + b) as char]
  {
    Digit64(a, b);
  }

  lemma {:induction false} Three(a: nat, b: nat, c: nat)
    requires a < 16 && b < 64 && c < 64 && (a == 0 ==> b >= 32) && (a == 13 ==> b < 32)
    ensures
      var n := (a * 64 + b) * 64 + c;
      IsScalar(n) && Encoded(n) == [(0xE0 + a) as char, (0x80 + b) as char, (0x80 + c) as char]
  {
    var n := (a * 64 + b) * 64 + c;
    Digit64(a * 64 + b, c);
    Digit64(a, b);
    assert n / 4096 == a;
  }

  lemma {:induction false} Four(a: nat, b: nat, c: nat, d: nat)
    requires a < 5 && b < 64 && c < 64 && d < 64 && (a == 0 ==> b >= 16) && (a == 4 ==> b < 16)
    ensures
      var n := ((a * 64 + b) * 64 + c) * 64 + d;
      IsScalar(n)
      && Encoded(n) == [(0xF0 + a) as char, (0x80 + b) as char, (0x80 + c) as char, (0x80 + d) as char]
  {
    var n := ((a * 64 + b) * 64 + c) * 64 + d;
    Digit64((a * 64 + b) * 64 + c, d);
    Digit64(a * 64 + b, c);
    Digit64(a, b);
    assert n / 4096 == a * 64 + b;
    assert n / 262144 == a;
  }

  lemma {:induction false} FirstIsEncoded(s: ByteString) returns (n: nat)
    requires s != [] && FirstLength(s) > 0
    ensures IsScalar(n) && s[..FirstLength(s)] == Encoded(n)
  {
    var k := FirstLength(s);
    var a := s[0] as int;
    if k == 1 {
      n := a;
    } else if k == 2 {
      n := (a - 0xC0) * 64 + (s[1] as int - 0x80);
      Two(a - 0xC0, s[1] as int - 0x80);
      hide Encoded;
    } else if k == 3 {
      n := ((a - 0xE0) * 64 + (s[1] as int - 0x80)) * 64 + (s[2] as int - 0x80);
      Three(a - 0xE0, s[1] as int - 0x80, s[2] as int - 0x80);
      hide Encoded;
    } else {
      n := (((a - 0xF0) * 64 + (s[1] as int - 0x80)) * 64 + (s[2] as int - 0x80)) * 64 + (s[3] as int - 0x80);
      Four(a - 0xF0, s[1] as int - 0x80, s[2] as int - 0x80, s[3] as int - 0x80);
      hide Encoded;
    }
  }

  /** Bytes are valid exactly when they are characters, encoded one after the
      other. */
  lemma {:induction false} ValidIffEncoded(s: ByteString)
    ensures ValidUtf8(s)
            <==> exists ns: seq<nat> :: (forall i | 0 <= i < |ns| :: IsScalar(ns[i])) && EncodedAll(ns) == s
  {
    if ValidUtf8(s) { var ns := Decoded(s); }
    forall ns: seq<nat> | (forall i | 0 <= i < |ns| :: IsScalar(ns[i])) && EncodedAll(ns) == s ensures ValidUtf8(s) {
      EncodedIsValid(ns);
    }
  }

  lemma {:induction false} Decoded(s: ByteString) returns (ns: seq<nat>)
    requires ValidUtf8(s)
    ensures forall i | 0 <= i < |ns| :: IsScalar(ns[i])
    ensures EncodedAll(ns) == s
    decreases |s|
  {
    hide FirstLength, Encoded, IsScalar;
    if s == [] {
      ns := [];
    } else {
      var n := FirstIsEncoded(s);
      var k := FirstLength(s);
      var more := Decoded(s[k..]);
      ns := [n] + more;
      assert ns[1..] == more;
      assert s == s[..k] + s[k..];
    }
  }

  lemma {:induction false} EncodedIsValid(ns: seq<nat>)
    requires forall i | 0 <= i < |ns| :: IsScalar(ns[i])
    ensures ValidUtf8(EncodedAll(ns))
  {
    hide FirstLength, Encoded, IsScalar;
    if ns != [] {
      assert forall i | 0 <= i < |ns[1..]| :: ns[1..][i] == ns[i + 1];
      EncodedIsValid(ns[1..]);
      EncodedIsFirst(ns[0], EncodedAll(ns[1..]));
      var s, k := EncodedAll(ns), |Encoded(ns[0])|;
      assert s[k..] == EncodedAll(ns[1..]);
    }
  }
}
