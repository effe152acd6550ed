/** Strings the way the Rust sources handle them: searching, trimming,
    splitting at a character and joining. */
module Text {

  datatype Option<+T> = None | Some(value: T)

  datatype Result<+T, +E> = Ok(value: T) | Err(error: E)

  /** ASCII letters, digits and the underscore: the word characters of every
      whole-word test in the repository. */
  predicate IsWordChar(c: char) {
    'a' <= c <= 'z' || 'A' <= c <= 'Z' || '0' <= c <= '9' || c == '_'
  }

  predicate IsIdentifier(s: string) {
    s != [] && forall i | 0 <= i < |s| :: IsWordChar(s[i])
  }

  /** The Unicode White_Space property, which `str::trim` uses. */
  predicate IsSpace(c: char) {
    var n := c as int;
    9 <= n <= 13 || n == 0x20 || n == 0x85 || n == 0xA0 || n == 0x1680 || 0x2000 <= n <= 0x200A
    || n == 0x2028 || n == 0x2029 || n == 0x202F || n == 0x205F || n == 0x3000
  }

  lemma {:induction false} SpacesByCodePoint(c: char)
    ensures IsSpace(c)
            <==> c as int in {9, 10, 11, 12, 13, 32, 133, 160, 5760, 8192, 8193, 8194, 8195, 8196, 8197, 8198, 8199,
                              8200, 8201, 8202, 8232, 8233, 8239, 8287, 12288}
  {
  }

  predicate Blank(s: string) {
    forall i | 0 <= i < |s| :: IsSpace(s[i])
  }

  lemma {:induction false} Assoc<T>(a: seq<T>, b: seq<T>, c: seq<T>)
    ensures (a + b) + c == a + (b + c)
  {
  }

  lemma {:induction false} Regroup(a: string, b: string, c: string, d: string, e: string)
    ensures a + (b + c + d) + e == (a + b) + c + (d + e)
  {
  }

  lemma {:induction false} SliceCut(s: string, i: nat, j: nat, k: nat)
    requires i <= j <= k <= |s|
    ensures s[i..k] == s[i..j] + s[j..k]
  {
  }

  /** The three parts of a concatenation, cut out of it again. */
  lemma {:induction false} Mid<T>(a: seq<T>, b: seq<T>, c: seq<T>)
    ensures (a + b + c)[|a|..|a| + |b|] == b
    ensures (a + b + c)[..|a|] == a && (a + b + c)[|a| + |b|..] == c
  {
  }

  function Lookup<K, V>(m: map<K, V>, k: K): Option<V> {
    if k in m then Some(m[k]) else None
  }

  // ---- ASCII case ----

  function LowerChar(c: char): char {
    if 'A' <= c <= 'Z' then c - 'A' + 'a' else c
  }

  function Lower(s: string): (r: string)
    ensures |r| == |s| && forall i | 0 <= i < |s| :: r[i] == LowerChar(s[i])
  {
    seq(|s|, i requires 0 <= i < |s| => LowerChar(s[i]))
  }

  // ---- decimal numbers ----

  predicate IsDigit(b: char) {
    '0' <= b <= '9'
  }

  predicate AllDigits(s: string) {
    forall i | 0 <= i < |s| :: IsDigit(s[i])
  }

  function DecimalValue(s: string): nat
    requires AllDigits(s)
  {
    if s == [] then 0
    else DecimalValue(s[..|s| - 1]) * 10 + (s[|s| - 1] as int - '0' as int)
  }

  function Decimal(n: nat): (s: string)
    ensures s != [] && AllDigits(s) && DecimalValue(s) == n
    ensures |s| > 1 ==> s[0] != '0'
  {
    if n < 10 then
      var d := ('0' as int + n) as char;
      assert [d][..0] == [];
      [d]
    else
      var d := ('0' as int + n % 10) as char;
      var head := Decimal(n / 10);
      OneMoreDigit(head, n % 10);
      head + [d]
  }

  lemma {:induction false} OneMoreDigit(head: string, digit: nat)
    requires AllDigits(head) && digit < 10
    ensures
      var s := head + [('0' as int + digit) as char];
      AllDigits(s) && DecimalValue(s) == DecimalValue(head) * 10 + digit
  {
    var s := head + [('0' as int + digit) as char];
    assert s[..|s| - 1] == head;
  }

  // ---- searching ----

  predicate At(text: string, pat: string, i: nat) {
    i + |pat| <= |text| && text[i..i + |pat|] == pat
  }

  lemma {:induction false} ShiftAt(head: string, text: string, pat: string, j: nat)
    ensures At(head + text, pat, |head| + j) == At(text, pat, j)
  {
    if j + |pat| <= |text| { assert (head + text)[|head| + j..|head| + j + |pat|] == text[j..j + |pat|]; }
  }

  /** First occurrence of `pat` at or after `from`. */
  function FindFrom(text: string, pat: string, from: nat): (r: Option<nat>)
    requires from <= |text|
    ensures r.Some? ==> from <= r.value && At(text, pat, r.value)
    ensures r.Some? ==> forall j | from <= j < r.value :: !At(text, pat, j)
    ensures r.None? ==> forall j | from <= j :: !At(text, pat, j)
    decreases |text| - from
  {
    if At(text, pat, from) then Some(from)
    else if from == |text| then None
    else FindFrom(text, pat, from + 1)
  }

  function Find(text: string, pat: string): (r: Option<nat>)
    ensures r.Some? ==> At(text, pat, r.value) && forall j | 0 <= j < r.value :: !At(text, pat, j)
    ensures r.None? ==> forall j: nat :: !At(text, pat, j)
  {
    FindFrom(text, pat, 0)
  }

  /** `Find` is determined by what it promises. */
  lemma {:induction false} FindIs(text: string, pat: string, i: nat)
    requires At(text, pat, i)
    requires forall j | 0 <= j < i :: !At(text, pat, j)
    ensures Find(text, pat) == Some(i)
  {
    var r := Find(text, pat);
    assert r.Some?;
  }

  function FindChar(text: string, c: char): (r: Option<nat>)
    ensures r.Some? ==> r.value < |text| && text[r.value] == c && c !in text[..r.value]
    ensures r.None? <==> c !in text
  {
    if text == [] then None
    else if text[0] == c then Some(0)
    else
      match FindChar(text[1..], c)
      case None => None
      case Some(i) =>
        NotBefore(text, c, i);
        Some(i + 1)
  }

  lemma {:induction false} NotBefore(text: string, c: char, i: nat)
    requires i + 1 < |text| && text[0] != c && c !in text[1..][..i]
    ensures c !in text[..i + 1]
  {
    assert text[..i + 1] == [text[0]] + text[1..][..i];
  }

  lemma {:induction false} FindSkip(a: char, s: string, c: char)
    requires a != c
    ensures FindChar([a] + s, c) == match FindChar(s, c) case None => None case Some(i) => Some(i + 1)
  {
    assert ([a] + s)[1..] == s;
  }

  /** A text that opens with a piece free of `c`, then `c`. */
  lemma {:induction false} FindAt(a: string, c: char, b: string)
    requires c !in a
    ensures FindChar(a + [c] + b, c) == Some(|a|)
    ensures (a + [c] + b)[..|a|] == a && (a + [c] + b)[|a| + 1..] == b
  {
    if a != [] {
      assert (a + [c] + b)[1..] == a[1..] + [c] + b;
      FindAt(a[1..], c, b);
    }
  }

  /** Last occurrence of `c`, as `str::rfind`. */
  function FindLastChar(text: string, c: char): (r: Option<nat>)
    ensures r.Some? ==> r.value < |text| && text[r.value] == c && c !in text[r.value + 1..]
    ensures r.None? <==> c !in text
  {
    if text == [] then None
    else if text[|text| - 1] == c then Some(|text| - 1)
    else
      match FindLastChar(text[..|text| - 1], c)
      case None => None
      case Some(i) =>
        NotAfter(text, c, i);
        Some(i)
  }

  lemma {:induction false} NotAfter(text: string, c: char, i: nat)
    requires i + 1 < |text| && text[|text| - 1] != c && c !in text[..|text| - 1][i + 1..]
    ensures c !in text[i + 1..]
  {
    assert text[i + 1..] == text[..|text| - 1][i + 1..] + [text[|text| - 1]];
  }

  lemma {:induction false} FindLastStep(s: string, c: char)
    requires s != []
    ensures FindLastChar(s, c)
            == if s[|s| - 1] == c then Some(|s| - 1) else FindLastChar(s[..|s| - 1], c)
  {
  }

  /** A text that closes with `c`, then a piece free of it. */
  lemma {:induction false} FindLastAt(a: string, c: char, b: string)
    requires c !in b
    ensures FindLastChar(a + [c] + b, c) == Some(|a|)
  {
    hide FindLastChar;
    var s := a + [c] + b;
    FindLastStep(s, c);
    if b != [] {
      var shorter := b[..|b| - 1];
      assert s[|s| - 1] == b[|b| - 1];
      assert s[..|s| - 1] == a + [c] + shorter;
      FindLastAt(a, c, shorter);
    }
  }

  // ---- trimming ----

  function TrimStart(s: string): (r: string)
    ensures |r| <= |s| && r == s[|s| - |r|..] && Blank(s[..|s| - |r|])
    ensures r != [] ==> !IsSpace(r[0])
  {
    if s == [] || !IsSpace(s[0]) then s
    else
      var r := TrimStart(s[1..]);
      hide *;
      BlankCons(s, r);
      r
  }

  lemma {:induction false} BlankCons(s: string, r: string)
    requires |r| < |s| && IsSpace(s[0])
    requires r == s[1..][|s| - 1 - |r|..] && Blank(s[1..][..|s| - 1 - |r|])
    ensures r == s[|s| - |r|..] && Blank(s[..|s| - |r|])
  {
    hide IsSpace;
    var n := |s| - |r|;
    assert s[..n] == [s[0]] + s[1..][..n - 1];
  }

  function TrimEnd(s: string): (r: string)
    ensures |r| <= |s| && r == s[..|r|] && Blank(s[|r|..])
    ensures r != [] ==> !IsSpace(r[|r| - 1])
  {
    if s == [] || !IsSpace(s[|s| - 1]) then s
    else
      var r := TrimEnd(s[..|s| - 1]);
      hide *;
      BlankSnoc(s, r);
      r
  }

  lemma {:induction false} BlankSnoc(s: string, r: string)
    requires |r| < |s| && IsSpace(s[|s| - 1])
    requires r == s[..|s| - 1][..|r|] && Blank(s[..|s| - 1][|r|..])
    ensures r == s[..|r|] && Blank(s[|r|..])
  {
    hide IsSpace;
    assert forall k | 0 <= k < |s| - 1 - |r| :: s[|r|..][k] == s[..|s| - 1][|r|..][k];
  }

  function Trim(s: string): string {
    TrimEnd(TrimStart(s))
  }

  /** No white space at either end. */
  predicate Trimmed(s: string) {
    s != [] ==> !IsSpace(s[0]) && !IsSpace(s[|s| - 1])
  }

  lemma {:induction false} TrimStartSkips(before: string, s: string)
    requires Blank(before) && (s != [] ==> !IsSpace(s[0]))
    ensures TrimStart(before + s) == s
  {
    if before == [] {
      assert before + s == s;
    } else {
      assert (before + s)[1..] == before[1..] + s;
      TrimStartSkips(before[1..], s);
    }
  }

  lemma {:induction false} TrimEndSkips(s: string, after: string)
    requires Blank(after) && (s != [] ==> !IsSpace(s[|s| - 1]))
    ensures TrimEnd(s + after) == s
  {
    if after == [] {
      assert s + after == s;
    } else {
      assert (s + after)[..|s + after| - 1] == s + after[..|after| - 1];
      TrimEndSkips(s, after[..|after| - 1]);
    }
  }

  /** Trimming is determined by what it takes off and what it leaves. */
  lemma {:induction false} TrimIs(before: string, s: string, after: string)
    requires Blank(before) && Trimmed(s) && Blank(after)
    ensures Trim(before + s + after) == s
  {
    if s == [] {
      assert before + s + after == (before + after) + [];
      TrimStartSkips(before + after, []);
    } else {
      assert before + s + after == before + (s + after);
      TrimStartSkips(before, s + after);
      TrimEndSkips(s, after);
    }
  }

  /** The white space a text ends in. */
  function Trail(s: string): string {
    s[|TrimEnd(s)|..]
  }

  lemma {:induction false} TrailIs(s: string, blanks: string)
    requires Blank(blanks) && s != [] && !IsSpace(s[|s| - 1])
    ensures Trail(s + blanks) == blanks
  {
    hide TrimEnd;
    TrimEndSkips(s, blanks);
  }

  /** What stands before does not matter to it, once there is ink. */
  lemma {:induction false} TrailOfEnd(a: string, b: string)
    requires !Blank(b)
    ensures Trail(a + b) == Trail(b)
  {
    hide TrimEnd, IsSpace;
    var ink := TrimEnd(b);
    assert b == ink + Trail(b);
    var k :| 0 <= k < |b| && !IsSpace(b[k]);
    assert forall i | |ink| <= i < |b| :: b[i] == Trail(b)[i - |ink|];
    assert |ink| > k;
    Assoc(a, ink, Trail(b));
    assert (a + ink)[|a + ink| - 1] == ink[|ink| - 1];
    TrailIs(a + ink, Trail(b));
  }

  lemma {:induction false} TrimIsBoth(s: string)
    ensures Trim(s) == TrimEnd(TrimStart(s))
  {
  }

  lemma {:induction false} AreTrimmed(s: string)
    requires s != [] ==> !IsSpace(s[0]) && !IsSpace(s[|s| - 1])
    ensures Trimmed(s)
  {
  }

  lemma {:induction false} TrimTakesBlanks(s: string) returns (before: string, after: string)
    ensures s == before + Trim(s) + after
    ensures Blank(before) && Blank(after) && Trimmed(Trim(s))
  {
    hide *;
    var left := TrimStart(s);
    TrimIsBoth(s);
    before := s[..|s| - |left|];
    after := left[|Trim(s)|..];
    assert left == Trim(s) + after;
    assert s == before + left;
    Assoc(before, Trim(s), after);
    if Trim(s) != [] { assert Trim(s)[0] == left[0]; }
    AreTrimmed(Trim(s));
  }

  // ---- splitting and joining ----

  /** `str::split` at one character; never empty. */
  function SplitChar(s: string, c: char): (parts: seq<string>)
    ensures parts != []
    ensures forall i | 0 <= i < |parts| :: c !in parts[i]
  {
    if s == [] then [[]]
    else
      var rest := SplitChar(s[1..], c);
      if s[0] == c then [[]] + rest
      else [[s[0]] + rest[0]] + rest[1..]
  }

  function Join(parts: seq<string>, sep: string): string {
    if parts == [] then []
    else if |parts| == 1 then parts[0]
    else parts[0] + sep + Join(parts[1..], sep)
  }

  function AllButLast(parts: seq<string>): seq<string>
    requires parts != []
  {
    parts[..|parts| - 1]
  }

  lemma {:induction false} JoinOfNone(sep: string)
    ensures Join([], sep) == []
  {
  }

  /** A joined text ends with its last part. */
  lemma {:induction false} JoinEnds(parts: seq<string>, sep: string) returns (before: string)
    requires parts != []
    ensures Join(parts, sep) == before + parts[|parts| - 1]
  {
    JoinFirst(parts, sep);
    if |parts| == 1 {
      before := [];
    } else {
      var more := JoinEnds(parts[1..], sep);
      before := parts[0] + sep + more;
      Assoc(parts[0] + sep, more, parts[|parts| - 1]);
    }
  }

  lemma {:induction false} JoinFirst(parts: seq<string>, sep: string)
    requires parts != []
    ensures Join(parts, sep)
            == if parts[1..] == [] then parts[0] else parts[0] + sep + Join(parts[1..], sep)
  {
  }

  function TrimAll(parts: seq<string>): (r: seq<string>)
    ensures |r| == |parts| && forall i | 0 <= i < |parts| :: r[i] == Trim(parts[i])
  {
    seq(|parts|, i requires 0 <= i < |parts| => Trim(parts[i]))
  }

  function Concat(parts: seq<string>): string {
    if parts == [] then [] else parts[0] + Concat(parts[1..])
  }

  lemma {:induction false} ConcatCons(part: string, rest: seq<string>)
    ensures Concat([part] + rest) == part + Concat(rest) && Concat([]) == []
  {
    assert ([part] + rest)[1..] == rest;
  }

  lemma {:induction false} ConcatAppend(a: seq<string>, b: seq<string>)
    ensures Concat(a + b) == Concat(a) + Concat(b)
  {
    hide Concat;
    if a == [] {
      ConcatCons([], []);
      assert a + b == b;
    } else {
      ConcatAppend(a[1..], b);
      ConcatCons(a[0], a[1..]);
      ConcatCons(a[0], a[1..] + b);
      assert a == [a[0]] + a[1..] && a + b == [a[0]] + (a[1..] + b);
      Assoc(a[0], Concat(a[1..]), Concat(b));
    }
  }

  /** Splitting a text that starts with a separator-free piece. */
  lemma {:induction false} SplitCharPrefix(a: string, c: char, b: string)
    requires c !in a
    ensures SplitChar(a, c) == [a]
    ensures SplitChar(a + [c] + b, c) == [a] + SplitChar(b, c)
  {
    if a == [] {
      assert a + [c] + b == [c] + b;
    } else {
      SplitCharPrefix(a[1..], c, b);
      assert (a + [c] + b)[1..] == a[1..] + [c] + b;
      assert a == [a[0]] + a[1..];
    }
  }
}
