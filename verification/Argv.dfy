/** The command line that is printed for a tool, and the shell that reads it. */
module Argv {
  import opened Text
  import opened Bytes

  const QUOTE: Byte := '\''
  const BACKSLASH: Byte := '\\'

  predicate IsSafe(b: Byte) {
    'a' <= b <= 'z' || 'A' <= b <= 'Z' || '0' <= b <= '9' || b in "-._/:=@<>"
  }

  predicate AllSafe(arg: ByteString) {
    forall i | 0 <= i < |arg| :: IsSafe(arg[i])
  }

  /** Every single quote leaves the quoted stretch, stands escaped, and opens
      the next one. */
  function EscapeQuotes(arg: ByteString): ByteString {
    if arg == [] then []
    else (if arg[0] == QUOTE then [QUOTE, BACKSLASH, QUOTE, QUOTE] else [arg[0]]) + EscapeQuotes(arg[1..])
  }

  function Quoted(arg: ByteString): ByteString {
    if AllSafe(arg) then arg else [QUOTE] + EscapeQuotes(arg) + [QUOTE]
  }

  function JoinWords(words: seq<ByteString>): ByteString {
    if words == [] then []
    else if |words| == 1 then words[0]
    else words[0] + [' '] + JoinWords(words[1..])
  }

  function QuotedAll(args: seq<ByteString>): seq<ByteString> {
    if args == [] then [] else [Quoted(args[0])] + QuotedAll(args[1..])
  }

  function RenderArgv(program: ByteString, args: seq<ByteString>): ByteString {
    JoinWords([program] + QuotedAll(args))
  }

  /** An argument of letters, digits and `-._/:=@<>` is printed as it is; any other
      between single quotes, each quote in it closing, escaped, and opening again. */
  lemma {:induction false} QuotedIs(arg: ByteString)
    ensures
      var plain := forall i | 0 <= i < |arg| ::
                     var n := arg[i] as int;
                     48 <= n <= 57 || 65 <= n <= 90 || 97 <= n <= 122 || arg[i] in "-._/:=@<>";
      Quoted(arg) == if plain then arg else ['\''] + EscapeQuotes(arg) + ['\'']
  {
    hide EscapeQuotes;
  }

  lemma {:induction false} EscapeGrows(arg: ByteString, b: Byte)
    ensures EscapeQuotes([]) == []
    ensures EscapeQuotes(arg + [b]) == EscapeQuotes(arg) + (if b == '\'' then "'\\''" else [b])
  {
    if arg == [] {
      assert arg + [b] == [b] && [b][1..] == [];
    } else {
      assert (arg + [b])[1..] == arg[1..] + [b];
      EscapeGrows(arg[1..], b);
      hide EscapeQuotes;
      EscapeFirst(arg);
      EscapeFirst(arg + [b]);
    }
  }

  lemma {:induction false} EscapeFirst(arg: ByteString)
    requires arg != []
    ensures EscapeQuotes(arg)
            == (if arg[0] == QUOTE then [QUOTE, BACKSLASH, QUOTE, QUOTE] else [arg[0]]) + EscapeQuotes(arg[1..])
  {
  }

  /** One space between the words of the line. */
  lemma {:induction false} OneMoreWord(program: ByteString, args: seq<ByteString>, arg: ByteString)
    ensures RenderArgv(program, []) == program
    ensures RenderArgv(program, args + [arg]) == RenderArgv(program, args) + [' '] + Quoted(arg)
  {
    hide Quoted;
    QuotedAppend(args, arg);
    JoinAppend([program] + QuotedAll(args), Quoted(arg));
    Assoc([program], QuotedAll(args), [Quoted(arg)]);
  }

  lemma {:induction false} QuotedAppend(args: seq<ByteString>, arg: ByteString)
    ensures QuotedAll(args + [arg]) == QuotedAll(args) + [Quoted(arg)] && QuotedAll([]) == []
  {
    hide Quoted;
    if args == [] {
      assert args + [arg] == [arg] && [arg][1..] == [];
    } else {
      assert (args + [arg])[1..] == args[1..] + [arg];
      QuotedAppend(args[1..], arg);
    }
  }

  lemma {:induction false} JoinAppend(words: seq<ByteString>, word: ByteString)
    requires words != []
    ensures JoinWords(words + [word]) == JoinWords(words) + [' '] + word
  {
    var all := words + [word];
    if |words| == 1 {
      assert all[1..] == [word];
    } else {
      assert all[1..] == words[1..] + [word];
      JoinAppend(words[1..], word);
      Assoc(words[0] + [' '], JoinWords(words[1..]) + [' '], word);
      Assoc(words[0] + [' '], JoinWords(words[1..]), [' ']);
    }
  }

  // ---- the shell ----

  predicate IsBlank(b: Byte) {
    b == ' ' || b == '\t' || b == '\n'
  }

  function Flush(word: Option<ByteString>): seq<ByteString> {
    match word case None => [] case Some(w) => [w]
  }

  function Extend(word: Option<ByteString>, b: Byte): Option<ByteString> {
    match word case None => Some([b]) case Some(w) => Some(w + [b])
  }

  function Begun(word: Option<ByteString>): Option<ByteString> {
    match word case None => Some([]) case Some(_) => word
  }

  /** Field splitting with backslash and single quotes, as section 2.2 of the
      POSIX Shell Command Language has them; every other byte is ordinary. */
  function Words(line: ByteString, quoted: bool, word: Option<ByteString>): seq<ByteString>
    decreases |line|
  {
    if line == [] then Flush(word)
    else
      var b := line[0];
      if quoted then
        if b == QUOTE then Words(line[1..], false, word) else Words(line[1..], true, Extend(word, b))
      else if IsBlank(b) then Flush(word) + Words(line[1..], false, None)
      else if b == QUOTE then Words(line[1..], true, Begun(word))
      else if b == BACKSLASH && |line| >= 2 then
        if line[1] == '\n' then Words(line[2..], false, word)
        else Words(line[2..], false, Extend(word, line[1]))
      else Words(line[1..], false, Extend(word, b))
  }

  // ---- reading one argument ----

  lemma {:induction false} SafeReads(b: Byte, rest: ByteString, word: Option<ByteString>)
    requires IsSafe(b)
    ensures Words([b] + rest, false, word) == Words(rest, false, Extend(word, b))
  {
    assert ([b] + rest)[1..] == rest;
  }

  lemma {:induction false} SafeIsOrdinary(arg: ByteString, rest: ByteString, w: ByteString)
    requires AllSafe(arg)
    ensures Words(arg + rest, false, Some(w)) == Words(rest, false, Some(w + arg))
    decreases |arg|
  {
    hide Words;
    if arg != [] {
      var b, more := arg[0], arg[1..];
      SafeReads(b, more + rest, Some(w));
      SafeIsOrdinary(more, rest, w + [b]);
      assert arg + rest == [b] + (more + rest);
      assert w + [b] + more == w + arg;
    } else {
      assert arg + rest == rest && w + arg == w;
    }
  }

  lemma {:induction false} SafeStart(arg: ByteString, rest: ByteString)
    requires AllSafe(arg) && arg != []
    ensures Words(arg + rest, false, None) == Words(rest, false, Some(arg))
  {
    hide Words;
    SafeReads(arg[0], arg[1..] + rest, None);
    SafeIsOrdinary(arg[1..], rest, [arg[0]]);
    assert arg + rest == [arg[0]] + (arg[1..] + rest);
    assert arg == [arg[0]] + arg[1..];
  }

  /** Inside quotes, an escaped argument and the closing quote add the argument
      to the word. */
  lemma {:induction false} EscapedReads(arg: ByteString, rest: ByteString, w: ByteString)
    ensures Words(EscapeQuotes(arg) + [QUOTE] + rest, true, Some(w)) == Words(rest, false, Some(w + arg))
    decreases |arg|
  {
    var line := EscapeQuotes(arg) + [QUOTE] + rest;
    if arg == [] {
      assert line == [QUOTE] + rest && line[1..] == rest;
      assert w + arg == w;
    } else {
      var more := EscapeQuotes(arg[1..]) + [QUOTE] + rest;
      EscapedReads(arg[1..], rest, w + [arg[0]]);
      assert w + [arg[0]] + arg[1..] == w + arg;
      if arg[0] == QUOTE {
        assert line == [QUOTE, BACKSLASH, QUOTE, QUOTE] + more;
        QuoteReads(more, w);
      } else {
        assert line == [arg[0]] + more;
        assert line[1..] == more;
      }
    }
  }

  lemma {:induction false} QuoteReads(more: ByteString, w: ByteString)
    ensures Words([QUOTE, BACKSLASH, QUOTE, QUOTE] + more, true, Some(w)) == Words(more, true, Some(w + [QUOTE]))
  {
    var a, b, c := [BACKSLASH, QUOTE, QUOTE] + more, [QUOTE] + more, [QUOTE, BACKSLASH, QUOTE, QUOTE] + more;
    assert c[1..] == a && a[2..] == b && b[1..] == more;
    assert Words(c, true, Some(w)) == Words(a, false, Some(w));
    assert Words(a, false, Some(w)) == Words(b, false, Some(w + [QUOTE]));
    assert Words(b, false, Some(w + [QUOTE])) == Words(more, true, Some(w + [QUOTE]));
  }

  /** What an argument becomes: a word, unless it is empty. */
  lemma {:induction false} ArgumentReads(arg: ByteString, rest: ByteString)
    ensures Words(Quoted(arg) + rest, false, None) == Words(rest, false, if arg == [] then None else Some(arg))
  {
    hide Words, EscapeQuotes;
    if arg == [] {
      assert Quoted(arg) + rest == rest;
    } else if AllSafe(arg) {
      SafeStart(arg, rest);
    } else {
      var inner := EscapeQuotes(arg) + [QUOTE] + rest;
      assert Quoted(arg) + rest == [QUOTE] + inner;
      QuoteBegins(inner);
      EscapedReads(arg, rest, []);
      assert [] + arg == arg;
    }
  }

  lemma {:induction false} QuoteBegins(inner: ByteString)
    ensures Words([QUOTE] + inner, false, None) == Words(inner, true, Some([]))
  {
    assert ([QUOTE] + inner)[1..] == inner;
  }

  function NonEmpty(args: seq<ByteString>): (r: seq<ByteString>)
    ensures |r| <= |args|
    ensures |r| == |args| <==> forall i | 0 <= i < |args| :: args[i] != []
    ensures |r| == |args| ==> r == args
  {
    if args == [] then []
    else (if args[0] == [] then [] else [args[0]]) + NonEmpty(args[1..])
  }

  lemma {:induction false} LineReads(args: seq<ByteString>)
    ensures Words(JoinWords(QuotedAll(args)), false, None) == NonEmpty(args)
  {
    hide Quoted, NonEmpty;
    if args == [] {
      NonEmptyCases(args);
    } else {
      var rest := if |args| == 1 then [] else [' '] + JoinWords(QuotedAll(args[1..]));
      assert QuotedAll(args)[1..] == QuotedAll(args[1..]);
      QuotedLength(args);
      assert JoinWords(QuotedAll(args)) == Quoted(args[0]) + rest by {
        if |args| == 1 { assert Quoted(args[0]) + [] == Quoted(args[0]); }
        else { Assoc(Quoted(args[0]), [' '], JoinWords(QuotedAll(args[1..]))); }
      }
      ArgumentReads(args[0], rest);
      LineReads(args[1..]);
      if |args| > 1 {
        assert rest[1..] == JoinWords(QuotedAll(args[1..]));
      }
      NonEmptyCases(args);
    }
  }

  lemma {:induction false} QuotedLength(args: seq<ByteString>)
    ensures |QuotedAll(args)| == |args|
  {
    if args != [] { QuotedLength(args[1..]); }
  }

  lemma {:induction false} NonEmptyCases(args: seq<ByteString>)
    ensures args == [] ==> NonEmpty(args) == []
    ensures args != [] ==> NonEmpty(args) == (if args[0] == [] then [] else [args[0]]) + NonEmpty(args[1..])
    ensures |args| == 1 ==> NonEmpty(args) == (if args[0] == [] then [] else [args[0]])
  {
  }

  /** The shell reads back the program and every argument that is not empty. */
  lemma {:induction false} ShellReadsBack(program: ByteString, args: seq<ByteString>)
    requires program != [] && AllSafe(program)
    ensures Words(RenderArgv(program, args), false, None) == [program] + NonEmpty(args)
  {
    hide JoinWords, Words;
    LineReads([program] + args);
    assert ([program] + args)[1..] == args;
    assert QuotedAll([program] + args) == [program] + QuotedAll(args);
  }

  /** The whole command line survives exactly when no argument is empty. */
  lemma {:induction false} ArgvSurvivesIffNonEmpty(program: ByteString, args: seq<ByteString>)
    requires program != [] && AllSafe(program)
    ensures Words(RenderArgv(program, args), false, None) == [program] + args
            <==> forall i | 0 <= i < |args| :: args[i] != []
  {
    hide Words, RenderArgv;
    ShellReadsBack(program, args);
    if [program] + NonEmpty(args) == [program] + args {
      assert |[program] + NonEmpty(args)| == |[program] + args|;
    }
  }

  // ---- the private configuration file ----

  function ReplaceEach(s: ByteString, c: Byte, escaped: ByteString): ByteString {
    if s == [] then [] else (if s[0] == c then escaped else [s[0]]) + ReplaceEach(s[1..], c, escaped)
  }

  /** Backslashes first, then double quotes. */
  function CurlConfig(value: ByteString): ByteString {
    ReplaceEach(ReplaceEach(value, BACKSLASH, [BACKSLASH, BACKSLASH]), '"', [BACKSLASH, '"'])
  }

  /** A quoted configuration value up to its closing quote, and what follows. */
  function ReadQuoted(s: ByteString, sofar: ByteString): Option<(ByteString, ByteString)>
    decreases |s|
  {
    if s == [] then None
    else if s[0] == '"' then Some((sofar, s[1..]))
    else if s[0] == BACKSLASH then
      if |s| < 2 then None else ReadQuoted(s[2..], sofar + [s[1]])
    else ReadQuoted(s[1..], sofar + [s[0]])
  }

  lemma {:induction false} ReplaceFirst(b: Byte, rest: ByteString, c: Byte, escaped: ByteString)
    ensures ReplaceEach([b] + rest, c, escaped) == (if b == c then escaped else [b]) + ReplaceEach(rest, c, escaped)
  {
    assert ([b] + rest)[1..] == rest;
  }

  /** A backslash before each backslash and each double quote; every other byte as
      it is. */
  lemma {:induction false} TwoPassesPerByte(b: Byte, rest: ByteString)
    ensures CurlConfig([b] + rest) == (if b == '\\' || b == '"' then ['\\', b] else [b]) + CurlConfig(rest)
  {
    hide ReplaceEach;
    var twice: ByteString := [BACKSLASH, BACKSLASH];
    var once := ReplaceEach(rest, BACKSLASH, twice);
    ReplaceFirst(b, rest, BACKSLASH, twice);
    if b == BACKSLASH {
      assert twice + once == [BACKSLASH] + ([BACKSLASH] + once);
      ReplaceFirst(BACKSLASH, [BACKSLASH] + once, '"', [BACKSLASH, '"']);
      ReplaceFirst(BACKSLASH, once, '"', [BACKSLASH, '"']);
    } else {
      ReplaceFirst(b, once, '"', [BACKSLASH, '"']);
    }
  }

  /** A header written between quotes reads back whole, and the quote that ends
      it is the one that was written to end it. */
  lemma {:induction false} ConfigReadsBack(value: ByteString, rest: ByteString, sofar: ByteString)
    ensures ReadQuoted(CurlConfig(value) + ['"'] + rest, sofar) == Some((sofar + value, rest))
    decreases |value|
  {
    hide CurlConfig;
    var line := CurlConfig(value) + ['"'] + rest;
    if value == [] {
      NothingToConfigure();
      assert line == ['"'] + rest && line[1..] == rest && sofar + value == sofar;
    } else {
      var b, more := value[0], CurlConfig(value[1..]) + ['"'] + rest;
      assert value == [b] + value[1..];
      TwoPassesPerByte(b, value[1..]);
      ConfigReadsBack(value[1..], rest, sofar + [b]);
      assert sofar + [b] + value[1..] == sofar + value;
      if b == BACKSLASH || b == '"' {
        assert line == [BACKSLASH, b] + more;
        assert line[2..] == more;
      } else {
        assert line == [b] + more;
        assert line[1..] == more;
      }
    }
  }

  lemma {:induction false} NothingToConfigure()
    ensures CurlConfig([]) == []
  {
  }
}
