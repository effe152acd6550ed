/** Whole-identifier replacement in a stretch of JDL text. */
module IdentifierEdit {
  import opened Text

  // ---- the specification: text as maximal words and single separators ----

  function WordLength(text: string): (n: nat)
    ensures n <= |text| && forall i | 0 <= i < n :: IsWordChar(text[i])
    ensures n < |text| ==> !IsWordChar(text[n])
  {
    if text == [] || !IsWordChar(text[0]) then 0 else 1 + WordLength(text[1..])
  }

  function FirstTokenLength(text: string): (n: nat)
    requires text != []
    ensures 0 < n <= |text|
    ensures IsWordChar(text[0]) && n < |text| ==> !IsWordChar(text[n])
    ensures forall k | 0 <= k < n :: IsWordChar(text[k]) <==> IsWordChar(text[0])
    ensures !IsWordChar(text[0]) ==> n == 1
  {
    if IsWordChar(text[0]) then WordLength(text) else 1
  }

  /** The text cut into maximal runs of word characters and single other
      characters. */
  function Tokens(text: string): (ts: seq<string>)
    ensures Concat(ts) == text
    decreases |text|
  {
    if text == [] then []
    else
      var n := FirstTokenLength(text);
      [text[..n]] + Tokens(text[n..])
  }

  function Swap(token: string, was: string, next: string): string {
    if token == was then next else token
  }

  function Substitute(ts: seq<string>, was: string, next: string): (r: seq<string>)
    ensures |r| == |ts|
    ensures forall i | 0 <= i < |ts| :: r[i] == Swap(ts[i], was, next)
  {
    if ts == [] then []
    else [Swap(ts[0], was, next)] + Substitute(ts[1..], was, next)
  }

  /** Tokenwise substitution: what a rename means. */
  function Rename(text: string, was: string, next: string): string {
    Concat(Substitute(Tokens(text), was, next))
  }

  // ---- positions ----

  predicate BoundaryBefore(text: string, i: nat)
    requires i <= |text|
  {
    i == 0 || !IsWordChar(text[i - 1])
  }

  predicate BoundaryAfter(text: string, i: nat)
    requires i <= |text|
  {
    i == |text| || !IsWordChar(text[i])
  }

  /** `name` occurs at `i` and touches no word character on either side. */
  predicate WholeAt(text: string, name: string, i: nat) {
    At(text, name, i) && BoundaryBefore(text, i) && BoundaryAfter(text, i + |name|)
  }

  /** Every whole occurrence from `i` on replaced, one position at a time. */
  function ReplaceWhole(text: string, was: string, next: string, i: nat): string
    requires was != [] && i <= |text|
    decreases |text| - i
  {
    if i == |text| then []
    else if WholeAt(text, was, i) then next + ReplaceWhole(text, was, next, i + |was|)
    else [text[i]] + ReplaceWhole(text, was, next, i + 1)
  }

  lemma {:induction false} CopyUntilHit(text: string, was: string, next: string, i: nat, j: nat)
    requires was != [] && i <= j <= |text|
    requires forall k | i <= k < j :: !WholeAt(text, was, k)
    ensures ReplaceWhole(text, was, next, i) == text[i..j] + ReplaceWhole(text, was, next, j)
    decreases j - i
  {
    var rest := ReplaceWhole(text, was, next, j);
    if i < j {
      CopyUntilHit(text, was, next, i + 1, j);
      assert text[i..j] == [text[i]] + text[i + 1..j];
      assert [text[i]] + (text[i + 1..j] + rest) == text[i..j] + rest;
    } else {
      assert text[i..j] + rest == rest;
    }
  }

  // ---- the cursor loop ----

  /** `was` can begin again inside itself, right after a non-word character. */
  predicate Restarts(was: string, d: nat) {
    0 < d < |was| && was[d..] == was[..|was| - d] && !IsWordChar(was[d - 1])
  }

  lemma {:induction false} IdentifiersDoNotRestart(was: string, d: nat)
    requires IsIdentifier(was)
    ensures !Restarts(was, d)
  {
  }

  /** What the cursor loop computes: it jumps past a hit whether or not the
      hit was whole. */
  function Scanned(text: string, was: string, next: string, cursor: nat): string
    requires was != [] && cursor <= |text|
    decreases |text| - cursor
  {
    match FindFrom(text, was, cursor)
    case None => text[cursor..]
    case Some(at) =>
      text[cursor..at] + (if WholeAt(text, was, at) then next else was)
      + Scanned(text, was, next, at + |was|)
  }

  lemma {:induction false} ScanUnfolds(text: string, was: string, next: string, cursor: nat, at: nat)
    requires was != [] && cursor <= |text| && FindFrom(text, was, cursor) == Some(at)
    ensures text[cursor..at] + was == text[cursor..at + |was|]
    ensures
      var rest := Scanned(text, was, next, at + |was|);
      Scanned(text, was, next, cursor)
      == (if WholeAt(text, was, at) then text[cursor..at] + next else text[cursor..at + |was|]) + rest
  {
    hide FindFrom, WholeAt;
    SliceCut(text, cursor, at, at + |was|);
  }

  lemma {:induction false} ScanStep(text: string, was: string, next: string, cursor: nat, at: nat, sofar: string)
    requires was != [] && cursor <= |text| && FindFrom(text, was, cursor) == Some(at)
    ensures WholeAt(text, was, at) ==>
              sofar + text[cursor..at] + next + Scanned(text, was, next, at + |was|)
              == sofar + Scanned(text, was, next, cursor)
    ensures !WholeAt(text, was, at) ==>
              sofar + text[cursor..at + |was|] + Scanned(text, was, next, at + |was|)
              == sofar + Scanned(text, was, next, cursor)
  {
    hide Scanned, FindFrom, WholeAt;
    ScanUnfolds(text, was, next, cursor, at);
    var rest := Scanned(text, was, next, at + |was|);
    if WholeAt(text, was, at) {
      Assoc(sofar, text[cursor..at] + next, rest);
      Assoc(sofar, text[cursor..at], next);
    } else {
      Assoc(sofar, text[cursor..at + |was|], rest);
    }
  }

  lemma {:induction false} ScanEnd(text: string, was: string, next: string, cursor: nat)
    requires was != [] && cursor <= |text| && FindFrom(text, was, cursor).None?
    ensures Scanned(text, was, next, cursor) == text[cursor..]
  {
  }

  method ReplaceIdentifier(text: string, was: string, next: string) returns (result: string)
    requires was != []
    ensures result == Scanned(text, was, next, 0)
    ensures IsIdentifier(was) ==> result == Rename(text, was, next)
  {
    hide Scanned, FindFrom;
    result := [];
    var cursor := 0;
    while true
      invariant cursor <= |text|
      invariant result + Scanned(text, was, next, cursor) == Scanned(text, was, next, 0)
      decreases |text| - cursor
    {
      var hit := FindFrom(text, was, cursor);
      if hit.None? {
        ScanEnd(text, was, next, cursor);
        break;
      }
      var at := hit.value;
      var beforeOk := at == 0 || !IsWordChar(text[at - 1]);
      var after := at + |was|;
      var afterOk := after == |text| || !IsWordChar(text[after]);
      ScanStep(text, was, next, cursor, at, result);
      assert beforeOk && afterOk <==> WholeAt(text, was, at);
      if beforeOk && afterOk {
        result := result + text[cursor..at];
        result := result + next;
      } else {
        result := result + text[cursor..after];
      }
      cursor := after;
    }
    result := result + text[cursor..];
    if IsIdentifier(was) {
      ScanIsRename(text, was, next);
    }
  }

  /** Jumping past a hit that is not whole never misses one that is, as long
      as `was` cannot restart inside itself. */
  lemma {:induction false} ScanFindsEveryWhole(text: string, was: string, next: string, cursor: nat)
    requires was != [] && cursor <= |text|
    requires forall d :: !Restarts(was, d)
    ensures Scanned(text, was, next, cursor) == ReplaceWhole(text, was, next, cursor)
    decreases |text| - cursor
  {
    var hit := FindFrom(text, was, cursor);
    if hit.None? {
      ScanEnd(text, was, next, cursor);
      hide Scanned, FindFrom;
      CopyUntilHit(text, was, next, cursor, |text|);
      assert ReplaceWhole(text, was, next, |text|) == [];
    } else {
      var at := hit.value;
      ScanFindsEveryWhole(text, was, next, at + |was|);
      ScanStep(text, was, next, cursor, at, []);
      ReplaceUpToHit(text, was, next, cursor, at);
      hide Scanned, ReplaceWhole, FindFrom, WholeAt;
      assert [] + text[cursor..at + |was|] == text[cursor..at + |was|];
      assert [] + text[cursor..at] == text[cursor..at];
    }
  }

  lemma {:induction false} NoWholeBefore(text: string, was: string, cursor: nat, at: nat)
    requires was != [] && cursor <= |text| && FindFrom(text, was, cursor) == Some(at)
    requires forall d :: !Restarts(was, d)
    ensures forall k | cursor <= k < at + |was| && k != at :: !WholeAt(text, was, k)
  {
    hide FindFrom, Restarts;
    NoWholeInside(text, was, at);
  }

  lemma {:induction false} ReplaceUpToHit(text: string, was: string, next: string, cursor: nat, at: nat)
    requires was != [] && cursor <= |text| && FindFrom(text, was, cursor) == Some(at)
    requires forall d :: !Restarts(was, d)
    ensures WholeAt(text, was, at) ==>
              ReplaceWhole(text, was, next, cursor)
              == text[cursor..at] + next + ReplaceWhole(text, was, next, at + |was|)
    ensures !WholeAt(text, was, at) ==>
              ReplaceWhole(text, was, next, cursor)
              == text[cursor..at + |was|] + ReplaceWhole(text, was, next, at + |was|)
  {
    hide ReplaceWhole, FindFrom, WholeAt, Restarts;
    NoWholeBefore(text, was, cursor, at);
    ReplaceStep(text, was, next, at);
    if WholeAt(text, was, at) {
      CopyUntilHit(text, was, next, cursor, at);
      Assoc(text[cursor..at], next, ReplaceWhole(text, was, next, at + |was|));
    } else {
      CopyUntilHit(text, was, next, cursor, at + |was|);
    }
  }

  lemma {:induction false} ReplaceStep(text: string, was: string, next: string, at: nat)
    requires was != [] && At(text, was, at)
    ensures WholeAt(text, was, at) ==>
              ReplaceWhole(text, was, next, at) == next + ReplaceWhole(text, was, next, at + |was|)
  {
  }

  /** No whole occurrence starts inside another hit. */
  lemma {:induction false} NoWholeInside(text: string, was: string, at: nat)
    requires was != [] && At(text, was, at)
    requires forall d :: !Restarts(was, d)
    ensures forall k | at < k < at + |was| :: !WholeAt(text, was, k)
  {
    forall k | at < k < at + |was| && At(text, was, k) ensures !BoundaryBefore(text, k) {
      var d := k - at;
      assert forall i | 0 <= i < |was| :: was[i] == text[at..at + |was|][i] == text[at + i];
      assert forall i | 0 <= i < |was| :: was[i] == text[k..k + |was|][i] == text[k + i];
      assert was[d..] == was[..|was| - d];
      assert !Restarts(was, d);
    }
  }

  lemma {:induction false} AWholeHitShows(text: string, was: string, next: string, i: nat, j: nat)
    requires was != [] && i <= |text| && next != was
    ensures |next| >= |was| ==> |ReplaceWhole(text, was, next, i)| >= |text| - i
    ensures |next| <= |was| ==> |ReplaceWhole(text, was, next, i)| <= |text| - i
    ensures i <= j && WholeAt(text, was, j) ==> ReplaceWhole(text, was, next, i) != text[i..]
    decreases |text| - i
  {
    hide WholeAt;
    ReplaceCases(text, was, next, i);
    if i < |text| {
      hide ReplaceWhole;
      if WholeAt(text, was, i) {
        AWholeHitShows(text, was, next, i + |was|, j);
        ReplacedHead(next, was, ReplaceWhole(text, was, next, i + |was|), text[i..]);
      } else {
        AWholeHitShows(text, was, next, i + 1, j);
        assert text[i..] == [text[i]] + text[i + 1..];
        OtherTail(text[i], ReplaceWhole(text, was, next, i + 1), text[i + 1..]);
      }
    } else {
      NoneAtEnd(text, was, j);
    }
  }

  lemma {:induction false} NoneAtEnd(text: string, was: string, j: nat)
    requires was != []
    ensures j >= |text| ==> !WholeAt(text, was, j)
  {
  }

  lemma {:induction false} ReplaceCases(text: string, was: string, next: string, i: nat)
    requires was != [] && i <= |text|
    ensures WholeAt(text, was, i) ==> i + |was| <= |text| && was <= text[i..]
    ensures i == |text| ==> ReplaceWhole(text, was, next, i) == []
    ensures i < |text| ==>
              ReplaceWhole(text, was, next, i)
              == if WholeAt(text, was, i) then next + ReplaceWhole(text, was, next, i + |was|)
                 else [text[i]] + ReplaceWhole(text, was, next, i + 1)
  {
    if At(text, was, i) { assert text[i..][..|was|] == text[i..i + |was|]; }
  }

  lemma {:induction false} ReplacedHead(next: string, was: string, tail: string, text: string)
    requires was <= text && next != was
    requires |next| == |was| || (|next| > |was| && |tail| >= |text| - |was|)
             || (|next| < |was| && |tail| <= |text| - |was|)
    ensures next + tail != text
  {
    if |next| == |was| {
      assert (next + tail)[..|was|] == next && text[..|was|] == was;
    }
  }

  lemma {:induction false} OtherTail(c: char, a: string, b: string)
    ensures a != b ==> [c] + a != [c] + b
  {
    assert ([c] + a)[1..] == a && ([c] + b)[1..] == b;
  }

  /** A text in which a restarting name is stepped over. */
  function Stumble(was: string, d: nat): string
    requires d <= |was|
  {
    "x" + was[..d] + was
  }

  lemma {:induction false} StumbleHits(was: string, d: nat)
    requires Restarts(was, d)
    ensures At(Stumble(was, d), was, 1) && !WholeAt(Stumble(was, d), was, 1)
    ensures WholeAt(Stumble(was, d), was, 1 + d)
  {
    var text, n := Stumble(was, d), |was|;
    assert text[1 + d..1 + d + n] == was;
    assert text[d] == was[d - 1];
    forall i | 0 <= i < n ensures text[1 + i] == was[i] {
      if i >= d { assert was[i] == was[d..][i - d] == was[..n - d][i - d]; }
    }
    assert text[1..1 + n] == was;
    assert text[0] == 'x';
  }

  lemma {:induction false} StumbleStart(was: string, d: nat)
    requires Restarts(was, d)
    ensures !At(Stumble(was, d), was, 0)
  {
    var text, n := Stumble(was, d), |was|;
    StumbleHits(was, d);
    if At(text, was, 0) {
      var k := 0;
      while k < d
        invariant k <= d && forall i | 0 <= i < k :: was[i] == 'x'
      {
        assert was[k] == text[0..n][k] == text[k];
        if k > 0 { assert text[k] == text[1..1 + n][k - 1]; }
        k := k + 1;
      }
    }
  }

  lemma {:induction false} StumbleFinds(was: string, d: nat)
    requires Restarts(was, d)
    ensures |Stumble(was, d)| == 1 + d + |was|
    ensures FindFrom(Stumble(was, d), was, 0) == Some(1) && FindFrom(Stumble(was, d), was, 1 + |was|).None?
  {
    StumbleHits(was, d);
    StumbleStart(was, d);
  }

  /** The loop leaves that text as it is. */
  lemma {:induction false} StumbleStays(was: string, next: string, d: nat)
    requires Restarts(was, d)
    ensures Scanned(Stumble(was, d), was, next, 0) == Stumble(was, d)
  {
    hide Scanned, FindFrom, WholeAt, Stumble, At;
    var text, n := Stumble(was, d), |was|;
    StumbleFinds(was, d);
    StumbleHits(was, d);
    ScanUnfolds(text, was, next, 0, 1);
    ScanEnd(text, was, next, 1 + n);
    assert text[0..1 + n] + text[1 + n..] == text;
  }

  /** The condition is needed: when `was` restarts at `d`, the loop steps over
      a whole occurrence in this text. */
  lemma {:induction false} RestartMissesAHit(was: string, next: string, d: nat)
    requires Restarts(was, d) && next != was
    ensures Scanned(Stumble(was, d), was, next, 0) != ReplaceWhole(Stumble(was, d), was, next, 0)
  {
    hide Scanned, ReplaceWhole, WholeAt, Stumble;
    var text := Stumble(was, d);
    StumbleHits(was, d);
    StumbleStays(was, next, d);
    AWholeHitShows(text, was, next, 0, 1 + d);
    assert text[0..] == text;
  }

  // ---- the loop is the tokenwise substitution ----

  /** From one token to the next. */
  lemma {:induction false} NextToken(text: string, i: nat, rest: string)
    requires i < |text| && rest == text[i..]
    requires BoundaryBefore(text, i) || BoundaryAfter(text, i)
    ensures
      var n := FirstTokenLength(rest);
      0 < n && i + n <= |text| && rest[n..] == text[i + n..]
      && (BoundaryBefore(text, i + n) || BoundaryAfter(text, i + n))
    ensures IsWordChar(text[i]) ==> BoundaryBefore(text, i)
  {
    hide FirstTokenLength;
    var n := FirstTokenLength(rest);
    assert rest[0] == text[i] && rest[n - 1] == text[i + n - 1];
  }

  lemma {:induction false} NothingLeft(text: string, was: string, next: string)
    requires was != []
    ensures ReplaceWhole(text, was, next, |text|) == Rename([], was, next)
  {
  }

  lemma {:induction false} ReplaceWholeIsRename(text: string, was: string, next: string, i: nat, rest: string)
    requires IsIdentifier(was) && was != [] && i <= |text| && rest == text[i..]
    requires BoundaryBefore(text, i) || BoundaryAfter(text, i)
    ensures ReplaceWhole(text, was, next, i) == Rename(rest, was, next)
    decreases |rest|
  {
    hide *;
    if rest != [] {
      var n := FirstTokenLength(rest);
      NextToken(text, i, rest);
      TokenStep(text, was, next, i, rest);
      RenameStep(rest, was, next);
      ReplaceWholeIsRename(text, was, next, i + n, rest[n..]);
    } else {
      NothingLeft(text, was, next);
    }
  }

  lemma {:induction false} RenameStep(rest: string, was: string, next: string)
    requires rest != []
    ensures
      var n := FirstTokenLength(rest);
      Rename(rest, was, next)
      == Swap(rest[..n], was, next) + Rename(rest[n..], was, next)
  {
    var n, ts := FirstTokenLength(rest), Tokens(rest);
    assert ts[0] == rest[..n] && ts[1..] == Tokens(rest[n..]);
  }

  lemma {:induction false} TokenStep(text: string, was: string, next: string, i: nat, rest: string)
    requires IsIdentifier(was) && i < |text| && rest == text[i..]
    requires IsWordChar(text[i]) ==> BoundaryBefore(text, i)
    ensures
      var n := FirstTokenLength(rest);
      ReplaceWhole(text, was, next, i)
      == Swap(rest[..n], was, next) + ReplaceWhole(text, was, next, i + n)
  {
    hide ReplaceWhole;
    var n := FirstTokenLength(rest);
    FirstTokenHits(text, was, i, n);
    assert text[i..i + n] == rest[..n];
    if rest[..n] != was {
      CopyUntilHit(text, was, next, i, i + n);
    } else {
      ReplaceStep(text, was, next, i);
    }
  }

  /** Within the first token the only possible whole occurrence is the token. */
  lemma {:induction false} FirstTokenHits(text: string, was: string, i: nat, n: nat)
    requires IsIdentifier(was) && i < |text|
    requires IsWordChar(text[i]) ==> BoundaryBefore(text, i)
    requires n == FirstTokenLength(text[i..])
    ensures WholeAt(text, was, i) <==> text[i..][..n] == was
    ensures forall k | i < k < i + n :: !WholeAt(text, was, k)
  {
    var rest, m := text[i..], |was|;
    assert forall k | 0 <= k < |rest| :: rest[k] == text[i + k];
    if At(text, was, i) {
      assert forall k | 0 <= k < m :: was[k] == text[i..i + m][k] == rest[k];
      if BoundaryAfter(text, i + m) {
        assert m == n;
      }
    }
    assert i + n <= |text|;
    assert rest[..n] == text[i..i + n];
    if rest[..n] == was {
      assert was[0] == text[i];
      assert At(text, was, i);
    }
  }

  /** The cursor loop renames exactly the maximal words equal to `was`. */
  lemma {:induction false} ScanIsRename(text: string, was: string, next: string)
    requires IsIdentifier(was)
    ensures Scanned(text, was, next, 0) == Rename(text, was, next)
  {
    forall d ensures !Restarts(was, d) { IdentifiersDoNotRestart(was, d); }
    ScanFindsEveryWhole(text, was, next, 0);
    ReplaceWholeIsRename(text, was, next, 0, text);
  }

  // ---- renaming back ----

  predicate IsToken(t: string) {
    IsIdentifier(t) || (|t| == 1 && !IsWordChar(t[0]))
  }

  /** Token sequences that tokenizing can produce: no two words touch. */
  predicate Separated(ts: seq<string>) {
    (forall i | 0 <= i < |ts| :: IsToken(ts[i]))
    && forall i | 0 <= i < |ts| - 1 :: !(IsIdentifier(ts[i]) && IsIdentifier(ts[i + 1]))
  }

  lemma {:induction false} TokensAreSeparated(text: string)
    ensures Separated(Tokens(text))
    decreases |text|
  {
    if text != [] {
      var n := FirstTokenLength(text);
      TokensAreSeparated(text[n..]);
      var rest := Tokens(text[n..]);
      if text[n..] != [] {
        assert rest[0][0] == text[n];
      }
    }
  }

  lemma {:induction false} FirstTokenIs(token: string, rest: string)
    requires IsToken(token)
    requires IsIdentifier(token) && rest != [] ==> !IsWordChar(rest[0])
    ensures token + rest != [] && FirstTokenLength(token + rest) == |token|
  {
    hide WordLength;
    var text := token + rest;
    var w := WordLength(text);
    assert forall k | 0 <= k < |token| :: text[k] == token[k];
    assert rest != [] ==> text[|token|] == rest[0];
  }

  lemma {:induction false} HeadOfConcat(ts: seq<string>)
    requires ts != [] && IsToken(ts[0])
    ensures Concat(ts) != [] && Concat(ts)[0] == ts[0][0]
    ensures IsIdentifier(ts[0]) <==> IsWordChar(ts[0][0])
  {
  }

  lemma {:induction false} SeparatedTail(ts: seq<string>)
    requires Separated(ts) && ts != []
    ensures Separated(ts[1..]) && IsToken(ts[0])
    ensures IsIdentifier(ts[0]) && Concat(ts[1..]) != [] ==> !IsWordChar(Concat(ts[1..])[0])
  {
    hide IsToken, IsIdentifier, IsWordChar;
    var rest := ts[1..];
    assert forall i | 0 <= i < |rest| :: rest[i] == ts[i + 1];
    if rest != [] {
      HeadOfConcat(rest);
    }
  }

  lemma {:induction false} TokensOfConcat(ts: seq<string>)
    requires Separated(ts)
    ensures Tokens(Concat(ts)) == ts
  {
    hide IsToken, IsIdentifier, IsWordChar, FirstTokenLength, Separated;
    if ts != [] {
      var first, rest := ts[0], Concat(ts[1..]);
      SeparatedTail(ts);
      TokensOfConcat(ts[1..]);
      FirstTokenIs(first, rest);
      assert Concat(ts) == first + rest;
      assert (first + rest)[..|first|] == first && (first + rest)[|first|..] == rest;
    }
  }

  lemma {:induction false} SubstituteStaysSeparated(ts: seq<string>, was: string, next: string)
    requires Separated(ts) && IsIdentifier(was) && IsIdentifier(next)
    ensures Separated(Substitute(ts, was, next))
  {
    var r := Substitute(ts, was, next);
    forall i | 0 <= i < |r| ensures IsIdentifier(r[i]) <==> IsIdentifier(ts[i]) {
    }
  }

  lemma {:induction false} RenamedTokens(text: string, was: string, next: string)
    requires IsIdentifier(was) && IsIdentifier(next)
    ensures Tokens(Rename(text, was, next)) == Substitute(Tokens(text), was, next)
  {
    TokensAreSeparated(text);
    SubstituteStaysSeparated(Tokens(text), was, next);
    TokensOfConcat(Substitute(Tokens(text), was, next));
  }

  /** Renaming back restores the text exactly when the new name was free. */
  lemma {:induction false} RenameBack(text: string, was: string, next: string)
    requires IsIdentifier(was) && IsIdentifier(next) && was != next
    ensures Rename(Rename(text, was, next), next, was) == text <==> next !in Tokens(text)
  {
    var ts := Tokens(text);
    RenamedTokens(text, was, next);
    RenamedTokens(Rename(text, was, next), next, was);
    var back := Substitute(Substitute(ts, was, next), next, was);
    if next in ts {
      var i :| 0 <= i < |ts| && ts[i] == next;
      assert back[i] == was;
    } else {
      assert back == ts;
    }
  }

  // ---- word by word ----

  /** By code point: digits, capitals, the underscore, small letters. */
  predicate InWord(c: char) {
    var n := c as int;
    48 <= n <= 57 || 65 <= n <= 90 || n == 95 || 97 <= n <= 122
  }

  lemma {:induction false} TokensAround(before: string, word: string, after: string)
    requires word != [] && forall i | 0 <= i < |word| :: InWord(word[i])
    requires before == [] || !InWord(before[|before| - 1])
    requires after == [] || !InWord(after[0])
    ensures Tokens(before + word + after) == Tokens(before) + [word] + Tokens(after)
  {
    hide Tokens, FirstTokenLength, Concat, Separated;
    var a, b := Tokens(before), Tokens(after);
    TokensAreSeparated(before);
    TokensAreSeparated(after);
    WordBetween(a, word, b);
    ConcatAppend(a + [word], b);
    ConcatAppend(a, [word]);
    ConcatCons(word, []);
    assert [word] + [] == [word] && word + [] == word;
    TokensOfConcat(a + [word] + b);
  }

  lemma {:induction false} WordsAreIdentifiers(word: string)
    requires word != [] && forall i | 0 <= i < |word| :: InWord(word[i])
    ensures IsIdentifier(word)
  {
  }

  lemma {:induction false} InWordIs(c: char)
    ensures InWord(c) <==> IsWordChar(c)
  {
  }

  lemma {:induction false} WordBetween(a: seq<string>, word: string, b: seq<string>)
    requires Separated(a) && Separated(b) && word != [] && forall i | 0 <= i < |word| :: InWord(word[i])
    requires Concat(a) == [] || !InWord(Concat(a)[|Concat(a)| - 1])
    requires Concat(b) == [] || !InWord(Concat(b)[0])
    ensures Separated(a + [word] + b)
  {
    hide Concat, IsIdentifier, IsWordChar, InWord;
    WordsAreIdentifiers(word);
    forall c ensures InWord(c) <==> IsWordChar(c) { InWordIs(c); }
    assert a != [] ==> IsToken(a[|a| - 1]);
    if a != [] { LastOfConcat(a); }
    if b != [] { HeadOfConcat(b); }
    var all := a + [word] + b;
    forall i | 0 <= i < |all| ensures IsToken(all[i]) {
      assert all[i] == if i < |a| then a[i] else if i == |a| then word else b[i - |a| - 1];
    }
    forall i | 0 <= i < |all| - 1 ensures !(IsIdentifier(all[i]) && IsIdentifier(all[i + 1])) {
      if i < |a| - 1 {
        assert all[i] == a[i] && all[i + 1] == a[i + 1];
      } else if i > |a| {
        assert all[i] == b[i - |a| - 1] && all[i + 1] == b[i - |a|];
      } else if i == |a| {
        assert all[i + 1] == b[0];
      } else {
        assert all[i] == a[|a| - 1];
      }
    }
  }

  lemma {:induction false} LastOfConcat(ts: seq<string>)
    requires ts != [] && forall i | 0 <= i < |ts| :: IsToken(ts[i])
    ensures
      var text, last := Concat(ts), ts[|ts| - 1];
      last != [] && text != [] && text[|text| - 1] == last[|last| - 1]
      && (IsIdentifier(last) <==> IsWordChar(last[|last| - 1]))
  {
    hide IsWordChar;
    var rest := ts[1..];
    assert forall i | 0 <= i < |rest| :: rest[i] == ts[i + 1];
    assert IsToken(ts[0]);
    if rest != [] { LastOfConcat(rest); }
  }

  /** A word between other characters is replaced exactly when it is the one to
      be replaced, whatever stands around it. */
  lemma {:induction false} RenameWordByWord(before: string, word: string, after: string, was: string, next: string)
    requires word != [] && forall i | 0 <= i < |word| :: InWord(word[i])
    requires before == [] || !InWord(before[|before| - 1])
    requires after == [] || !InWord(after[0])
    ensures Rename(before + word + after, was, next)
            == Rename(before, was, next) + (if word == was then next else word) + Rename(after, was, next)
  {
    hide *;
    TokensAround(before, word, after);
    RenameIs(before + word + after, was, next);
    RenameIs(before, was, next);
    RenameIs(after, was, next);
    SubstituteAround(Tokens(before), word, Tokens(after), was, next);
  }

  lemma {:induction false} RenameIs(text: string, was: string, next: string)
    ensures Rename(text, was, next) == Concat(Substitute(Tokens(text), was, next))
  {
    hide Tokens;
  }

  lemma {:induction false} SubstituteAround(a: seq<string>, word: string, b: seq<string>, was: string, next: string)
    ensures Concat(Substitute(a + [word] + b, was, next))
            == Concat(Substitute(a, was, next)) + (if word == was then next else word)
               + Concat(Substitute(b, was, next))
  {
    hide Concat;
    var swapped := Swap(word, was, next);
    var x, y := Substitute(a, was, next), Substitute(b, was, next);
    assert Substitute(a + [word] + b, was, next) == x + [swapped] + y by { hide Swap; }
    hide Substitute;
    ConcatAppend(x + [swapped], y);
    ConcatAppend(x, [swapped]);
    ConcatCons(swapped, []);
    assert [swapped] + [] == [swapped] && swapped + [] == swapped;
  }

  /** Text without a word is kept. */
  lemma {:induction false} RenameKeepsSeparators(text: string, was: string, next: string)
    requires IsIdentifier(was) && forall i | 0 <= i < |text| :: !InWord(text[i])
    ensures Rename(text, was, next) == text
  {
    if text != [] {
      hide Tokens;
      RenameStep(text, was, next);
      RenameKeepsSeparators(text[1..], was, next);
      assert text == [text[0]] + text[1..];
      assert text[..1] == [text[0]];
    }
  }

  // ---- two replacements in a row ----

  /** `java_to_label`: lower snake case, one underscore per capital. */
  function Label(name: string): (r: string)
    ensures name != [] ==> r != []
  {
    LabelFrom(name, 0)
  }

  function LabelFrom(name: string, index: nat): (r: string)
    ensures name != [] ==> r != []
  {
    if name == [] then [] else LabelChar(name[0], index) + LabelFrom(name[1..], index + 1)
  }

  function LabelChar(c: char, index: nat): (r: string)
    ensures r != []
  {
    if 'A' <= c <= 'Z' then (if index > 0 then "_" else "") + [c - 'A' + 'a']
    else if c == '-' then "_" else [c]
  }

  predicate IsLabel(s: string) {
    forall i | 0 <= i < |s| :: !('A' <= s[i] <= 'Z') && s[i] != '-'
  }

  lemma {:induction false} LabelCharIsLabel(c: char, index: nat)
    ensures IsLabel(LabelChar(c, index))
    ensures !('A' <= c <= 'Z') && c != '-' ==> LabelChar(c, index) == [c]
    ensures IsWordChar(c) ==> forall i | 0 <= i < |LabelChar(c, index)| :: IsWordChar(LabelChar(c, index)[i])
  {
  }

  lemma {:induction false} LabelsAreLabels(name: string, index: nat)
    ensures IsLabel(LabelFrom(name, index))
    ensures IsLabel(name) ==> LabelFrom(name, index) == name
    ensures (forall i | 0 <= i < |name| :: IsWordChar(name[i])) ==>
              forall i | 0 <= i < |LabelFrom(name, index)| :: IsWordChar(LabelFrom(name, index)[i])
  {
    hide LabelChar, IsWordChar;
    if name != [] {
      LabelCharIsLabel(name[0], index);
      LabelsAreLabels(name[1..], index + 1);
      assert name == [name[0]] + name[1..];
    }
  }

  /** Written from the front: a capital becomes lower case behind an underscore,
      unless it is the first character, a dash becomes an underscore, and every
      other character is kept. */
  lemma {:induction false} LabelGrows(name: string, c: char)
    ensures Label([]) == []
    ensures 'A' <= c <= 'Z' && name != [] ==> Label(name + [c]) == Label(name) + ['_', c - 'A' + 'a']
    ensures 'A' <= c <= 'Z' && name == [] ==> Label(name + [c]) == [c - 'A' + 'a']
    ensures c == '-' ==> Label(name + [c]) == Label(name) + ['_']
    ensures !('A' <= c <= 'Z') && c != '-' ==> Label(name + [c]) == Label(name) + [c]
  {
    hide LabelFrom, LabelChar;
    LabelSnoc(name, c, 0);
    LabelOne(c, |name|);
    LabelOne(c, 0);
  }

  lemma {:induction false} LabelOne(c: char, index: nat)
    ensures LabelFrom([], index) == []
    ensures LabelChar(c, index)
            == if 'A' <= c <= 'Z' then (if index > 0 then ['_', c - 'A' + 'a'] else [c - 'A' + 'a'])
               else if c == '-' then ['_'] else [c]
  {
  }

  lemma {:induction false} LabelSnoc(name: string, c: char, index: nat)
    ensures LabelFrom(name + [c], index) == LabelFrom(name, index) + LabelChar(c, index + |name|)
  {
    hide LabelChar;
    if name == [] {
      assert name + [c] == [c] && [c][1..] == [];
    } else {
      assert (name + [c])[1..] == name[1..] + [c];
      LabelSnoc(name[1..], c, index + 1);
      Assoc(LabelChar(name[0], index), LabelFrom(name[1..], index + 1), LabelChar(c, index + |name|));
    }
  }

  /** The body both halves of the rename cascade share: the Java name first,
      then the label, when they differ. */
  method RenameBoth(text: string, field: string, nextName: string) returns (rewritten: string)
    requires IsIdentifier(field) && IsIdentifier(nextName)
    ensures rewritten == Concat(SubstituteBoth(Tokens(text), field, nextName))
  {
    var oldLabel := Label(field);
    var nextLabel := Label(nextName);
    LabelsAreLabels(field, 0);
    LabelsAreLabels(nextName, 0);
    rewritten := ReplaceIdentifier(text, field, nextName);
    RenamedTokens(text, field, nextName);
    if field != oldLabel {
      rewritten := ReplaceIdentifier(rewritten, oldLabel, nextLabel);
    }
    TwoPassesAreOne(Tokens(text), field, nextName);
  }

  /** Both spellings replaced at once. */
  function SubstituteBoth(ts: seq<string>, field: string, nextName: string): (r: seq<string>)
    ensures |r| == |ts|
    ensures forall i | 0 <= i < |ts| :: r[i] == SwapBoth(ts[i], field, nextName)
  {
    if ts == [] then []
    else [SwapBoth(ts[0], field, nextName)] + SubstituteBoth(ts[1..], field, nextName)
  }

  function SwapBoth(token: string, field: string, nextName: string): string {
    if token == field then nextName
    else if token == Label(field) then Label(nextName)
    else token
  }

  lemma {:induction false} SwapTwice(token: string, field: string, nextName: string)
    ensures Swap(Swap(token, field, nextName), Label(field), Label(nextName)) == SwapBoth(token, field, nextName)
    ensures field == Label(field) ==> Swap(token, field, nextName) == SwapBoth(token, field, nextName)
  {
    hide LabelFrom;
    LabelsAreLabels(field, 0);
    LabelsAreLabels(nextName, 0);
  }

  /** The second pass never rewrites what the first one wrote: a new name that
      collides with the old label is its own label. */
  lemma {:induction false} TwoPassesAreOne(ts: seq<string>, field: string, nextName: string)
    ensures Substitute(Substitute(ts, field, nextName), Label(field), Label(nextName))
            == SubstituteBoth(ts, field, nextName)
    ensures field == Label(field) ==>
              Substitute(ts, field, nextName) == SubstituteBoth(ts, field, nextName)
  {
    hide *;
    forall token
      ensures Swap(Swap(token, field, nextName), Label(field), Label(nextName)) == SwapBoth(token, field, nextName)
      ensures field == Label(field) ==> Swap(token, field, nextName) == SwapBoth(token, field, nextName)
    {
      SwapTwice(token, field, nextName);
    }
  }
}
