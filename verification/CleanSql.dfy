/** The migration linter's SQL cleaner (scripts/check-migrations.ts) against a token-level reading of SQL. */
module CleanSql {
  import opened Text

  /** `closed` is false for a comment or quote that runs into the end of the text. `qualifier` marks a quoted
      token that is followed by optional white space and a dot. */
  datatype Token =
    | Code(c: char)
    | LineComment(text: string)
    | BlockComment(text: string, closed: bool)
    | Quoted(open: char, content: string, closed: bool, qualifier: bool)

  predicate IsQuote(c: char) { c == '\'' || c == '"' || c == '`' || c == '[' }
  function CloserOf(open: char): char { if open == '[' then ']' else open }

  /** Quoted content as it is spelled: the closing quote doubled, except for brackets. */
  function Spelled(close: char, content: string): string {
    if content == "" then ""
    else (if content[0] == close && close != ']' then [close, close] else [content[0]]) + Spelled(close, content[1..])
  }

  /** What a token looks like in the source. */
  function Source(t: Token): string {
    match t
    case Code(c) => [c]
    case LineComment(text) => "--" + text
    case BlockComment(text, closed) => "/*" + text + if closed then "*/" else ""
    case Quoted(open, content, closed, _) =>
      [open] + Spelled(CloserOf(open), content) + if closed then [CloserOf(open)] else ""
  }

  predicate StartsWith(s: string, c: char) { s != "" && s[0] == c }

  predicate DotFollows(rest: string) {
    rest != "" && if IsSpace(rest[0]) then DotFollows(rest[1..]) else rest[0] == '.'
  }

  predicate NoCloser(text: string) {
    forall p :: 0 <= p < |text| - 1 ==> !(text[p] == '*' && text[p + 1] == '/')
  }

  /** `t` is the token that SQL sees in front of `rest`. */
  predicate Fits(t: Token, rest: string) {
    match t
    case Code(c) =>
      && c != '\'' && c != '"' && c != '`' && c != '['
      && !(c == '-' && StartsWith(rest, '-')) && !(c == '/' && StartsWith(rest, '*'))
    case LineComment(text) => '\n' !in text && (rest == "" || rest[0] == '\n')
    case BlockComment(text, closed) => NoCloser(text) && (closed || rest == "")
    case Quoted(open, content, closed, qualifier) =>
      && (open == '\'' || open == '"' || open == '`' || open == '[')
      && (open == '[' ==> ']' !in content)
      && (if closed then open == '[' || !StartsWith(rest, CloserOf(open)) else rest == "")
      && qualifier == (closed && DotFollows(rest))
  }

  /** The tokens read `s` up to `rest`. */
  predicate Lexes(ts: seq<Token>, s: string, rest: string)
    decreases |ts|
  {
    if ts == [] then s == rest
    else
      var n := |Source(ts[0])|;
      n <= |s| && s[..n] == Source(ts[0]) && Fits(ts[0], s[n..]) && Lexes(ts[1..], s[n..], rest)
  }

  /** Every character but a newline becomes a blank. */
  function BlankOut(text: string): (r: string)
    ensures |r| == |text|
    ensures forall i :: 0 <= i < |text| ==> r[i] == if text[i] == '\n' then '\n' else ' '
  {
    if text == "" then "" else [if text[0] == '\n' then '\n' else ' '] + BlankOut(text[1..])
  }

  /** What the cleaner writes for a token. */
  function Rendered(t: Token): string {
    match t
    case Code(c) => [c]
    case LineComment(text) => "  " + BlankOut(text)
    case BlockComment(text, closed) => "  " + BlankOut(text) + if closed then "  " else ""
    case Quoted(_, content, closed, qualifier) =>
      " " + (if qualifier then content else BlankOut(content)) + if closed then " " else ""
  }

  /** The texts of the tokens, one after the other. */
  function Concat(f: Token -> string, ts: seq<Token>): string {
    if ts == [] then "" else f(ts[0]) + Concat(f, ts[1..])
  }

  function Render(ts: seq<Token>): string { Concat(Rendered, ts) }

  // ---------- reading is unique ----------

  /** The length of the text before a newline or the end. */
  function LineEnd(s: string): (n: nat)
    ensures n <= |s|
  {
    if s == "" || s[0] == '\n' then 0 else 1 + LineEnd(s[1..])
  }

  /** The length of the text before the first comment closer or the end. */
  function BlockEnd(s: string): (n: nat)
    ensures n <= |s|
  {
    if s == "" || "*/" <= s then 0 else 1 + BlockEnd(s[1..])
  }

  datatype Body = Body(content: string, closed: bool, rest: string)

  /** A quoted body, after its opening quote. */
  function QuoteBody(close: char, s: string): Body {
    if s == "" then Body("", false, "")
    else if s[0] != close then
      var b := QuoteBody(close, s[1..]);
      b.(content := [s[0]] + b.content)
    else if close != ']' && StartsWith(s[1..], close) then
      var b := QuoteBody(close, s[2..]);
      b.(content := [close] + b.content)
    else Body("", true, s[1..])
  }

  /** The token in front of a non-empty text. */
  function NextToken(s: string): Token
    requires s != ""
  {
    if "--" <= s then LineComment(s[2..][..LineEnd(s[2..])])
    else if "/*" <= s then
      var n := BlockEnd(s[2..]);
      BlockComment(s[2..][..n], n < |s[2..]|)
    else if IsQuote(s[0]) then
      var b := QuoteBody(CloserOf(s[0]), s[1..]);
      Quoted(s[0], b.content, b.closed, b.closed && DotFollows(b.rest))
    else Code(s[0])
  }

  lemma {:induction false} LineEndOf(text: string, rest: string)
    requires '\n' !in text && (rest == "" || rest[0] == '\n')
    ensures LineEnd(text + rest) == |text|
  {
    if text == "" {
      assert text + rest == rest;
    } else {
      assert (text + rest)[1..] == text[1..] + rest;
      LineEndOf(text[1..], rest);
    }
  }

  lemma {:induction false} BlockEndOf(text: string, closed: bool, rest: string)
    requires NoCloser(text) && (closed || rest == "")
    ensures BlockEnd(text + (if closed then "*/" else "") + rest) == |text|
  {
    var s := text + (if closed then "*/" else "") + rest;
    if text == "" {
      assert s == (if closed then "*/" else "") + rest;
    } else {
      assert s[1..] == text[1..] + (if closed then "*/" else "") + rest;
      assert s[0] == text[0] && (|text| > 1 ==> s[1] == text[1]) && (|text| == 1 && closed ==> s[1] == '*');
      BlockEndOf(text[1..], closed, rest);
    }
  }

  /** Spelling and then ending a quote reads back as its content. */
  lemma {:induction false} QuoteBodyOf(close: char, content: string, closed: bool, rest: string, end: string)
    requires close == ']' ==> close !in content
    requires if closed then close == ']' || !StartsWith(rest, close) else rest == ""
    requires end == (if closed then [close] else "") + rest
    ensures QuoteBody(close, Spelled(close, content) + end) == Body(content, closed, rest)
  {
    if content == "" {
      assert Spelled(close, content) + end == end;
      if closed { assert end[1..] == rest; }
    } else {
      QuoteBodyOf(close, content[1..], closed, rest, end);
      QuoteBodyStep(close, content, end);
      assert content == [content[0]] + content[1..];
    }
  }

  function Prepended(c: char, b: Body): Body { b.(content := [c] + b.content) }

  lemma {:induction false} DoubledCloser(close: char, tail: string)
    requires close != ']'
    ensures QuoteBody(close, [close, close] + tail) == Prepended(close, QuoteBody(close, tail))
  {
    var s := [close, close] + tail;
    assert s[1..][0] == close && s[2..] == tail;
  }

  lemma {:induction false} PlainCharacter(close: char, c: char, tail: string)
    requires c != close
    ensures QuoteBody(close, [c] + tail) == Prepended(c, QuoteBody(close, tail))
  {
    assert ([c] + tail)[1..] == tail;
  }

  lemma {:induction false} QuoteBodyStep(close: char, content: string, end: string)
    requires content != "" && (close == ']' ==> content[0] != close)
    ensures QuoteBody(close, Spelled(close, content) + end)
      == Prepended(content[0], QuoteBody(close, Spelled(close, content[1..]) + end))
  {
    var tail := Spelled(close, content[1..]) + end;
    if content[0] == close {
      assert Spelled(close, content) + end == [close, close] + tail;
      DoubledCloser(close, tail);
    } else {
      assert Spelled(close, content) + end == [content[0]] + tail;
      PlainCharacter(close, content[0], tail);
    }
  }

  lemma {:induction false} NextCode(c: char, rest: string)
    requires Fits(Code(c), rest)
    ensures NextToken([c] + rest) == Code(c)
  {
    var s := [c] + rest;
    assert s[0] == c && s[1..] == rest;
    assert |s| > 1 ==> s[1] == rest[0];
  }

  lemma {:induction false} NextLineComment(text: string, rest: string)
    requires Fits(LineComment(text), rest)
    ensures NextToken("--" + text + rest) == LineComment(text)
  {
    var s := "--" + text + rest;
    assert s[..2] == "--" && s[2..] == text + rest;
    LineEndOf(text, rest);
    assert (text + rest)[..|text|] == text;
  }

  lemma {:induction false} NextBlockComment(text: string, closed: bool, rest: string)
    requires Fits(BlockComment(text, closed), rest)
    ensures NextToken("/*" + text + (if closed then "*/" else "") + rest) == BlockComment(text, closed)
  {
    var body := text + (if closed then "*/" else "") + rest;
    var s := "/*" + text + (if closed then "*/" else "") + rest;
    assert s[..2] == "/*" && s[2..] == body && s[0] == '/';
    BlockEndOf(text, closed, rest);
    assert body[..|text|] == text;
  }

  lemma {:induction false} NextQuoted(open: char, content: string, closed: bool, qualifier: bool, rest: string)
    requires Fits(Quoted(open, content, closed, qualifier), rest)
    ensures var close := CloserOf(open);
      NextToken([open] + Spelled(close, content) + (if closed then [close] else "") + rest)
        == Quoted(open, content, closed, qualifier)
  {
    var close := CloserOf(open);
    var end := (if closed then [close] else "") + rest;
    var s := [open] + Spelled(close, content) + (if closed then [close] else "") + rest;
    assert s[0] == open && s[1..] == Spelled(close, content) + end;
    QuoteBodyOf(close, content, closed, rest, end);
  }

  /** A token that fits what follows it is the one in front. */
  lemma {:induction false} NextTokenOf(t: Token, s: string)
    requires |Source(t)| <= |s| && s[..|Source(t)|] == Source(t) && Fits(t, s[|Source(t)|..])
    ensures s != "" && t == NextToken(s)
  {
    var rest := s[|Source(t)|..];
    assert s == Source(t) + rest;
    match t
    case Code(c) => NextCode(c, rest);
    case LineComment(text) => NextLineComment(text, rest);
    case BlockComment(text, closed) => NextBlockComment(text, closed, rest);
    case Quoted(open, content, closed, qualifier) => NextQuoted(open, content, closed, qualifier, rest);
  }

  lemma {:induction false} HeadsAreEqual(t: Token, u: Token, s: string)
    requires |Source(t)| <= |s| && s[..|Source(t)|] == Source(t) && Fits(t, s[|Source(t)|..])
    requires |Source(u)| <= |s| && s[..|Source(u)|] == Source(u) && Fits(u, s[|Source(u)|..])
    ensures t == u && s != ""
  {
    NextTokenOf(t, s);
    NextTokenOf(u, s);
  }

  /** Every text has at most one reading. */
  lemma {:induction false} ReadingIsUnique(ts: seq<Token>, us: seq<Token>, s: string)
    requires Lexes(ts, s, "") && Lexes(us, s, "")
    ensures ts == us
    decreases |ts|
  {
    if ts != [] { HeadsAreEqual(ts[0], ts[0], s); }
    if us != [] { HeadsAreEqual(us[0], us[0], s); }
    if ts != [] && us != [] {
      HeadsAreEqual(ts[0], us[0], s);
      ReadingIsUnique(ts[1..], us[1..], s[|Source(ts[0])|..]);
      assert ts == [ts[0]] + ts[1..] && us == [us[0]] + us[1..];
    }
  }

  // ---------- the cleaner ----------

  lemma {:induction false} LexesAppend(ts: seq<Token>, s: string, t: Token, rest: string)
    requires Lexes(ts, s, Source(t) + rest) && Fits(t, rest)
    ensures Lexes(ts + [t], s, rest)
    decreases |ts|
  {
    if ts == [] {
      assert ts + [t] == [t] && [t][1..] == [];
      assert s[..|Source(t)|] == Source(t) && s[|Source(t)|..] == rest;
    } else {
      assert (ts + [t])[1..] == ts[1..] + [t];
      LexesAppend(ts[1..], s[|Source(ts[0])|..], t, rest);
    }
  }

  lemma {:induction false} ConcatAppend(f: Token -> string, ts: seq<Token>, t: Token)
    ensures Concat(f, ts + [t]) == Concat(f, ts) + f(t)
  {
    if ts == [] {
      assert ts + [t] == [t] && [t][1..] == [];
    } else {
      assert (ts + [t])[1..] == ts[1..] + [t];
      ConcatAppend(f, ts[1..], t);
    }
  }

  lemma {:induction false} SpelledAppend(close: char, content: string, c: char)
    ensures Spelled(close, content + [c])
      == Spelled(close, content) + if c == close && close != ']' then [close, close] else [c]
  {
    if content == "" {
      assert content + [c] == [c] && [c][1..] == "";
    } else {
      assert (content + [c])[1..] == content[1..] + [c];
      SpelledAppend(close, content[1..], c);
    }
  }

  lemma {:induction false} BlankOutAppend(text: string, c: char)
    ensures BlankOut(text + [c]) == BlankOut(text) + [if c == '\n' then '\n' else ' ']
  {
  }

  lemma {:induction false} BlankOutSlice(sql: string, start: nat, i: nat)
    requires start <= i < |sql|
    ensures BlankOut(sql[start..i + 1]) == BlankOut(sql[start..i]) + [if sql[i] == '\n' then '\n' else ' ']
  {
    assert sql[start..i + 1] == sql[start..i] + [sql[i]];
    BlankOutAppend(sql[start..i], sql[i]);
  }

  method BlankLine(sql: string, start: nat) returns (blanks: string, i: nat)
    requires start <= |sql|
    ensures start <= i <= |sql| && (i == |sql| || sql[i] == '\n') && '\n' !in sql[start..i]
    ensures blanks == BlankOut(sql[start..i])
  {
    blanks, i := "", start;
    while i < |sql| && sql[i] != '\n'
      invariant start <= i <= |sql| && '\n' !in sql[start..i] && blanks == BlankOut(sql[start..i])
    {
      BlankOutSlice(sql, start, i);
      blanks := blanks + " ";
      i := i + 1;
    }
  }

  predicate CloserAt(sql: string, p: nat) {
    p + 1 < |sql| && sql[p] == '*' && sql[p + 1] == '/'
  }

  lemma {:induction false} NoCloserBetween(sql: string, start: nat, i: nat)
    requires start <= i <= |sql| && forall p :: start <= p < i ==> !CloserAt(sql, p)
    ensures NoCloser(sql[start..i])
  {
    forall p | 0 <= p < i - start - 1 ensures !(sql[start..i][p] == '*' && sql[start..i][p + 1] == '/') {
      assert !CloserAt(sql, start + p);
    }
  }

  method BlankBlock(sql: string, start: nat) returns (blanks: string, i: nat)
    requires start <= |sql|
    ensures start <= i <= |sql| && (i == |sql| || CloserAt(sql, i)) && NoCloser(sql[start..i])
    ensures blanks == BlankOut(sql[start..i])
  {
    blanks, i := "", start;
    while i < |sql| && !(sql[i] == '*' && i + 1 < |sql| && sql[i + 1] == '/')
      invariant start <= i <= |sql| && blanks == BlankOut(sql[start..i])
      invariant forall p :: start <= p < i ==> !CloserAt(sql, p)
    {
      BlankOutSlice(sql, start, i);
      blanks := blanks + if sql[i] == '\n' then "\n" else " ";
      i := i + 1;
    }
    NoCloserBetween(sql, start, i);
  }

  method ReadQuoted(sql: string, start: nat, close: char) returns (content: string, j: nat)
    requires start <= |sql|
    ensures start <= j <= |sql| && sql[start..j] == Spelled(close, content)
    ensures j < |sql| ==> sql[j] == close && (close == ']' || !StartsWith(sql[j + 1..], close))
    ensures close == ']' ==> ']' !in content
  {
    content, j := "", start;
    while j < |sql|
      invariant start <= j <= |sql| && sql[start..j] == Spelled(close, content)
      invariant close == ']' ==> ']' !in content
    {
      if sql[j] == close {
        if close != ']' && j + 1 < |sql| && sql[j + 1] == close {
          assert sql[start..j + 2] == sql[start..j] + [close, close];
          SpelledAppend(close, content, close);
          content := content + [close];
          j := j + 2;
          continue;
        }
        break;
      }
      assert sql[start..j + 1] == sql[start..j] + [sql[j]];
      SpelledAppend(close, content, sql[j]);
      content := content + [sql[j]];
      j := j + 1;
    }
  }

  method SeesDot(sql: string, start: nat) returns (sees: bool)
    ensures sees == (start <= |sql| && DotFollows(sql[start..]))
  {
    var k := start;
    while k < |sql| && IsSpace(sql[k])
      invariant start <= k && (start <= |sql| ==> k <= |sql| && DotFollows(sql[k..]) == DotFollows(sql[start..]))
    {
      assert sql[k..][1..] == sql[k + 1..];
      k := k + 1;
    }
    sees := k < |sql| && sql[k] == '.';
  }

  method BlankLineComment(sql: string, i: nat) returns (piece: string, next: nat, ghost t: Token)
    requires i + 1 < |sql| && sql[i] == '-' && sql[i + 1] == '-'
    ensures Cleaned(sql, i, t, next, piece)
  {
    var blanks, j := BlankLine(sql, i + 2);
    t := LineComment(sql[i + 2..j]);
    piece, next := "  " + blanks, j;
    Sliced(sql, i, "--", j, "");
  }

  method BlankBlockComment(sql: string, i: nat) returns (piece: string, next: nat, ghost t: Token)
    requires i + 1 < |sql| && sql[i] == '/' && sql[i + 1] == '*'
    ensures Cleaned(sql, i, t, next, piece)
  {
    var blanks, j := BlankBlock(sql, i + 2);
    t := BlockComment(sql[i + 2..j], j < |sql|);
    piece, next := "  " + blanks, j;
    if j < |sql| { piece, next := piece + "  ", j + 2; }
    Sliced(sql, i, "/*", j, if j < |sql| then "*/" else "");
  }

  lemma {:induction false} Sliced(s: string, i: nat, open: string, j: nat, close: string)
    requires i + |open| <= j <= |s| && open <= s[i..] && close <= s[j..]
    ensures s[i..] == open + s[i + |open|..j] + close + s[j + |close|..]
    ensures close == "" ==> s[i..] == open + s[i + |open|..j] + s[j + |close|..]
  {
    assert s[j..] == close + s[j + |close|..];
    assert s[i..j] == open + s[i + |open|..j];
    assert s[i..] == s[i..j] + s[j..];
  }

  method WriteContent(content: string, keep: bool) returns (piece: string)
    ensures piece == if keep then content else BlankOut(content)
  {
    piece := "";
    for p := 0 to |content|
      invariant piece == if keep then content[..p] else BlankOut(content[..p])
    {
      assert content[..p + 1] == content[..p] + [content[p]];
      BlankOutAppend(content[..p], content[p]);
      piece := piece + if keep then [content[p]] else if content[p] == '\n' then "\n" else " ";
    }
    assert content[..|content|] == content;
  }

  method CleanQuoted(sql: string, i: nat) returns (piece: string, next: nat, ghost t: Token)
    requires i < |sql| && IsQuote(sql[i])
    ensures Cleaned(sql, i, t, next, piece)
  {
    var content, j := ReadQuoted(sql, i + 1, CloserOf(sql[i]));
    var usedAsSchemaQualifier := SeesDot(sql, j + 1);
    var written := WriteContent(content, usedAsSchemaQualifier);
    t := Quoted(sql[i], content, j < |sql|, usedAsSchemaQualifier);
    piece, next := " " + written, j;
    if j < |sql| { piece, next := piece + " ", j + 1; }
    QuotedIsCleaned(sql, i, j, content, usedAsSchemaQualifier);
  }

  lemma {:induction false} QuotedIsCleaned(sql: string, i: nat, j: nat, content: string, qualifier: bool)
    requires i < j <= |sql| && IsQuote(sql[i]) && qualifier == (j + 1 <= |sql| && DotFollows(sql[j + 1..]))
    requires sql[i] == '[' ==> ']' !in content
    requires sql[i + 1..j] == Spelled(CloserOf(sql[i]), content) && (j < |sql| ==> sql[j] == CloserOf(sql[i]))
    requires j < |sql| ==> sql[i] == '[' || !StartsWith(sql[j + 1..], CloserOf(sql[i]))
    ensures var t := Quoted(sql[i], content, j < |sql|, qualifier);
      Cleaned(sql, i, t, if j < |sql| then j + 1 else j, Rendered(t))
  {
    QuotedSource(sql, i, j, content, qualifier);
    QuotedFits(sql, i, j, content, qualifier);
  }

  lemma {:induction false} QuotedFits(sql: string, i: nat, j: nat, content: string, qualifier: bool)
    requires i < j <= |sql| && IsQuote(sql[i]) && qualifier == (j + 1 <= |sql| && DotFollows(sql[j + 1..]))
    requires sql[i] == '[' ==> ']' !in content
    requires j < |sql| ==> sql[i] == '[' || !StartsWith(sql[j + 1..], CloserOf(sql[i]))
    ensures Fits(Quoted(sql[i], content, j < |sql|, qualifier), sql[if j < |sql| then j + 1 else j..])
  {
  }

  lemma {:induction false} QuotedSource(sql: string, i: nat, j: nat, content: string, qualifier: bool)
    requires i < j <= |sql| && sql[i + 1..j] == Spelled(CloserOf(sql[i]), content)
    requires (j < |sql| ==> sql[j] == CloserOf(sql[i]))
    ensures sql[i..] == Source(Quoted(sql[i], content, j < |sql|, qualifier)) + sql[if j < |sql| then j + 1 else j..]
  {
    Sliced(sql, i, [sql[i]], j, if j < |sql| then [sql[j]] else "");
  }

  /** `t` stands at `i` and ends at `next`, and `piece` is its rendering. */
  ghost predicate Cleaned(sql: string, i: nat, t: Token, next: nat, piece: string) {
    i < next <= |sql| && sql[i..] == Source(t) + sql[next..] && Fits(t, sql[next..]) && piece == Rendered(t)
  }

  lemma {:induction false} CodeIsCopied(sql: string, i: nat)
    requires i < |sql| && !IsQuote(sql[i])
    requires i + 1 < |sql| ==> !(sql[i] == '-' && sql[i + 1] == '-') && !(sql[i] == '/' && sql[i + 1] == '*')
    ensures Cleaned(sql, i, Code(sql[i]), i + 1, [sql[i]])
  {
    assert sql[i..] == [sql[i]] + sql[i + 1..];
    assert i + 1 < |sql| ==> sql[i + 1..][0] == sql[i + 1];
  }

  lemma {:induction false} CleanedStep(sql: string, ts: seq<Token>, i: nat, t: Token, next: nat, piece: string)
    requires Cleaned(sql, i, t, next, piece) && Lexes(ts, sql, sql[i..])
    ensures Lexes(ts + [t], sql, sql[next..]) && Render(ts + [t]) == Render(ts) + piece
  {
    LexesAppend(ts, sql, t, sql[next..]);
    ConcatAppend(Rendered, ts, t);
  }

  /** On every text, terminated or not, the cleaner renders the tokens of its one reading. */
  method CleanSql(sql: string) returns (out: string)
    ensures exists ts :: Lexes(ts, sql, "") && out == Render(ts)
  {
    ghost var ts: seq<Token> := [];
    out := "";
    var i := 0;
    assert sql[0..] == sql;
    while i < |sql|
      invariant 0 <= i <= |sql| && Lexes(ts, sql, sql[i..]) && out == Render(ts)
      decreases |sql| - i
    {
      var c := sql[i];
      var piece, next := [c], i + 1;
      ghost var t := Code(c);
      if c == '-' && i + 1 < |sql| && sql[i + 1] == '-' {
        piece, next, t := BlankLineComment(sql, i);
      } else if c == '/' && i + 1 < |sql| && sql[i + 1] == '*' {
        piece, next, t := BlankBlockComment(sql, i);
      } else if IsQuote(c) {
        piece, next, t := CleanQuoted(sql, i);
      } else {
        CodeIsCopied(sql, i);
      }
      CleanedStep(sql, ts, i, t, next, piece);
      out, i, ts := out + piece, next, ts + [t];
    }
    assert sql[i..] == "" && Lexes(ts, sql, "");
  }

  // ---------- what survives, and on which line ----------

  function Newlines(s: string): nat {
    if s == "" then 0 else (if s[0] == '\n' then 1 else 0) + Newlines(s[1..])
  }

  lemma {:induction false} NewlinesAppend(a: string, b: string)
    ensures Newlines(a + b) == Newlines(a) + Newlines(b)
  {
    if a == "" {
      assert a + b == b;
    } else {
      assert (a + b)[1..] == a[1..] + b;
      NewlinesAppend(a[1..], b);
    }
  }

  lemma {:induction false} BlankOutKeepsNewlines(text: string)
    ensures Newlines(BlankOut(text)) == Newlines(text)
  {
    if text != "" {
      assert BlankOut(text)[1..] == BlankOut(text[1..]);
      BlankOutKeepsNewlines(text[1..]);
    }
  }

  lemma {:induction false} SpellingKeepsNewlines(close: char, content: string)
    requires close != '\n'
    ensures Newlines(Spelled(close, content)) == Newlines(content)
  {
    if content != "" {
      SpellingKeepsNewlines(close, content[1..]);
      var head := if content[0] == close && close != ']' then [close, close] else [content[0]];
      NewlinesAppend(head, Spelled(close, content[1..]));
      if |head| == 2 { assert head[1..] == [close] && [close][1..] == ""; }
    }
  }

  /** Every token is rendered with as many newlines as it has. */
  lemma {:induction false} TokenKeepsNewlines(t: Token)
    requires t.Quoted? ==> IsQuote(t.open)
    ensures Newlines(Rendered(t)) == Newlines(Source(t))
  {
    match t
    case Code(c) =>
    case LineComment(text) =>
      BlankOutKeepsNewlines(text);
      NewlinesAppend("--", text);
      NewlinesAppend("  ", BlankOut(text));
    case BlockComment(text, closed) =>
      BlankOutKeepsNewlines(text);
      Bracketed("/*", text, if closed then "*/" else "");
      Bracketed("  ", BlankOut(text), if closed then "  " else "");
    case Quoted(open, content, closed, qualifier) =>
      BlankOutKeepsNewlines(content);
      SpellingKeepsNewlines(CloserOf(open), content);
      Bracketed([open], Spelled(CloserOf(open), content), if closed then [CloserOf(open)] else "");
      Bracketed(" ", if qualifier then content else BlankOut(content), if closed then " " else "");
  }

  lemma {:induction false} Bracketed(a: string, b: string, c: string)
    requires |a| <= 2 && |c| <= 2 && '\n' !in a && '\n' !in c
    ensures Newlines(a + b + c) == Newlines(b)
  {
    NewlinesAppend(a + b, c);
    NewlinesAppend(a, b);
    NoNewlines(a);
    NoNewlines(c);
  }

  lemma {:induction false} NoNewlines(a: string)
    requires '\n' !in a
    ensures Newlines(a) == 0
  {
    if a != "" { NoNewlines(a[1..]); }
  }

  function SourceOf(ts: seq<Token>): string { Concat(Source, ts) }

  /** Reading loses nothing: the tokens spell the text. */
  lemma {:induction false} ReadingIsLossless(ts: seq<Token>, s: string)
    requires Lexes(ts, s, "")
    ensures s == SourceOf(ts)
    decreases |ts|
  {
    if ts != [] {
      ReadingIsLossless(ts[1..], s[|Source(ts[0])|..]);
      assert s == s[..|Source(ts[0])|] + s[|Source(ts[0])|..];
    }
  }

  /** Character `i` of a rendered token is copied from the source: code, or the content of a qualifier. */
  ghost predicate Survives(t: Token, i: int) {
    (t.Code? && i == 0) || (t.Quoted? && t.qualifier && 1 <= i <= |t.content|)
  }

  ghost function SourceOffset(t: Token, i: int): nat
    requires Survives(t, i)
  {
    if t.Code? then 0 else 1 + |Spelled(CloserOf(t.open), t.content[..i - 1])|
  }

  /** Everything else in the output is a blank or a newline. */
  lemma {:induction false} OthersAreBlank(t: Token, i: nat)
    requires i < |Rendered(t)| && !Survives(t, i)
    ensures Rendered(t)[i] == ' ' || Rendered(t)[i] == '\n'
  {
  }

  lemma {:induction false} SpelledPrefix(close: char, content: string, k: nat)
    requires k < |content|
    ensures var n := |Spelled(close, content[..k])|;
      && n < |Spelled(close, content)| && Spelled(close, content)[n] == content[k]
      && Spelled(close, content)[..n] == Spelled(close, content[..k])
  {
    if k > 0 {
      assert content[..k][0] == content[0] && content[..k][1..] == content[1..][..k - 1];
      SpelledPrefix(close, content[1..], k - 1);
    }
  }

  /** The characters are equal and come after as many newlines. */
  ghost predicate SameAt(a: string, i: int, b: string, j: int) {
    0 <= i < |a| && 0 <= j < |b| && a[i] == b[j] && Newlines(a[..i]) == Newlines(b[..j])
  }

  lemma {:induction false} NewlinesBefore(pre: string, a: string, whole: string, i: nat)
    requires pre + a <= whole && i < |a|
    ensures whole[|pre| + i] == a[i] && Newlines(whole[..|pre| + i]) == Newlines(pre) + Newlines(a[..i])
  {
    assert whole[..|pre| + i] == pre + a[..i] && whole[|pre| + i] == (pre + a)[|pre| + i];
    NewlinesAppend(pre, a[..i]);
  }

  /** Equal positions stay equal behind prefixes with as many newlines. */
  lemma {:induction false} SameBehind(pre: string, a: string, whole: string, i: nat, pre': string, b: string,
          whole': string, j: nat)
    requires Newlines(pre) == Newlines(pre') && SameAt(a, i, b, j)
    requires pre + a <= whole && pre' + b <= whole'
    ensures SameAt(whole, |pre| + i, whole', |pre'| + j)
  {
    NewlinesBefore(pre, a, whole, i);
    NewlinesBefore(pre', b, whole', j);
  }

  lemma {:induction false} SpelledSurvivor(close: char, content: string, k: nat)
    requires close != '\n' && k < |content|
    ensures SameAt(content, k, Spelled(close, content), |Spelled(close, content[..k])|)
  {
    SpelledPrefix(close, content, k);
    SpellingKeepsNewlines(close, content[..k]);
  }

  lemma {:induction false} QuotedSurvivor(open: char, content: string, closed: bool, k: nat)
    requires IsQuote(open) && k < |content|
    ensures var t := Quoted(open, content, closed, true);
      SameAt(Rendered(t), 1 + k, Source(t), SourceOffset(t, 1 + k))
  {
    var close := CloserOf(open);
    SpelledSurvivor(close, content, k);
    var t := Quoted(open, content, closed, true);
    var n := |Spelled(close, content[..k])|;
    SameBehindOne(' ', content, Rendered(t), k, open, Spelled(close, content), Source(t), n);
  }

  lemma {:induction false} SameBehindOne(c: char, a: string, whole: string, i: nat, d: char, b: string, whole': string,
          j: nat)
    requires c != '\n' && d != '\n' && [c] + a <= whole && [d] + b <= whole' && SameAt(a, i, b, j)
    ensures SameAt(whole, 1 + i, whole', 1 + j)
  {
    NoNewlines([c]);
    NoNewlines([d]);
    SameBehind([c], a, whole, i, [d], b, whole', j);
  }

  /** Within a token a surviving character is the source character, after as many newlines. */
  lemma {:induction false} SurvivorInToken(t: Token, i: int)
    requires Survives(t, i) && (t.Quoted? ==> IsQuote(t.open))
    ensures SameAt(Rendered(t), i, Source(t), SourceOffset(t, i))
  {
    if t.Quoted? { QuotedSurvivor(t.open, t.content, t.closed, i - 1); }
  }

  ghost predicate ProperQuotes(ts: seq<Token>) {
    forall i :: 0 <= i < |ts| ==> (ts[i].Quoted? ==> IsQuote(ts[i].open))
  }

  lemma {:induction false} LexedQuotesAreProper(ts: seq<Token>, s: string)
    requires Lexes(ts, s, "")
    ensures ProperQuotes(ts)
    decreases |ts|
  {
    if ts != [] {
      LexedQuotesAreProper(ts[1..], s[|Source(ts[0])|..]);
      assert forall i :: 0 < i < |ts| ==> ts[i] == ts[1..][i - 1];
    }
  }

  lemma {:induction false} TokensKeepNewlines(ts: seq<Token>)
    requires ProperQuotes(ts)
    ensures Newlines(Render(ts)) == Newlines(SourceOf(ts))
  {
    if ts != [] {
      TokenKeepsNewlines(ts[0]);
      TokensKeepNewlines(ts[1..]);
      NewlinesAppend(Rendered(ts[0]), Render(ts[1..]));
      NewlinesAppend(Source(ts[0]), SourceOf(ts[1..]));
    }
  }

  lemma {:induction false} UpToToken(f: Token -> string, ts: seq<Token>, k: nat)
    requires k < |ts|
    ensures Concat(f, ts[..k]) + f(ts[k]) <= Concat(f, ts)
  {
    if k == 0 {
      assert ts[..0] == [];
    } else {
      UpToToken(f, ts[1..], k - 1);
      ConcatPrefix(f, ts, k - 1);
    }
  }

  lemma {:induction false} ConcatPrefix(f: Token -> string, ts: seq<Token>, j: nat)
    requires j < |ts|
    ensures Concat(f, ts[..j + 1]) == f(ts[0]) + Concat(f, ts[1..][..j])
  {
    assert ts[..j + 1][0] == ts[0] && ts[..j + 1][1..] == ts[1..][..j];
  }

  /** Where token `k` starts. */
  function StartOf(f: Token -> string, ts: seq<Token>, k: nat): nat
    requires k < |ts|
  {
    |Concat(f, ts[..k])|
  }

  /** The texts before token `k` have as many newlines, and token `k` stands behind them. */
  ghost predicate StartAlike(pre: string, text: string, whole: string, pre': string, text': string, whole': string) {
    Newlines(pre) == Newlines(pre') && pre + text <= whole && pre' + text' <= whole'
  }

  lemma {:induction false} TokensStartAlike(ts: seq<Token>, k: nat)
    requires k < |ts| && ProperQuotes(ts)
    ensures StartAlike(Render(ts[..k]), Rendered(ts[k]), Render(ts), SourceOf(ts[..k]), Source(ts[k]), SourceOf(ts))
  {
    UpToToken(Rendered, ts, k);
    UpToToken(Source, ts, k);
    TokensKeepNewlines(ts[..k]);
  }

  lemma {:induction false} SameAmongTokens(ts: seq<Token>, k: nat, i: nat, j: nat)
    requires k < |ts| && ProperQuotes(ts) && SameAt(Rendered(ts[k]), i, Source(ts[k]), j)
    ensures SameAt(Render(ts), StartOf(Rendered, ts, k) + i, SourceOf(ts), StartOf(Source, ts, k) + j)
  {
    TokensStartAlike(ts, k);
    SameBehind(Render(ts[..k]), Rendered(ts[k]), Render(ts), i, SourceOf(ts[..k]), Source(ts[k]), SourceOf(ts), j);
  }

  /** Every surviving character is the source character it came from, on the same line, even though doubled
      quotes make the output shorter. */
  lemma {:induction false} SurvivorsKeepTheirLine(ts: seq<Token>, s: string, k: nat, i: nat)
    requires Lexes(ts, s, "") && k < |ts| && Survives(ts[k], i)
    ensures SameAt(Render(ts), StartOf(Rendered, ts, k) + i, s, StartOf(Source, ts, k) + SourceOffset(ts[k], i))
  {
    ReadingIsLossless(ts, s);
    LexedQuotesAreProper(ts, s);
    SurvivorInToken(ts[k], i);
    SameAmongTokens(ts, k, i, SourceOffset(ts[k], i));
  }

  /** Every character belongs to one token. */
  lemma {:induction false} TokenAt(f: Token -> string, ts: seq<Token>, o: nat) returns (k: nat, i: nat)
    requires o < |Concat(f, ts)|
    ensures k < |ts| && i < |f(ts[k])| && o == StartOf(f, ts, k) + i && Concat(f, ts)[o] == f(ts[k])[i]
  {
    if o < |f(ts[0])| {
      k, i := 0, o;
      assert ts[..0] == [];
    } else {
      var j;
      j, i := TokenAt(f, ts[1..], o - |f(ts[0])|);
      k := j + 1;
      ConcatPrefix(f, ts, j);
    }
  }

  /** A character of the output that is neither blank nor newline survives from the source. */
  lemma {:induction false} EverythingElseIsBlank(ts: seq<Token>, o: nat) returns (k: nat, i: nat)
    requires o < |Render(ts)| && Render(ts)[o] != ' ' && Render(ts)[o] != '\n'
    ensures k < |ts| && Survives(ts[k], i) && o == StartOf(Rendered, ts, k) + i
  {
    k, i := TokenAt(Rendered, ts, o);
    if !Survives(ts[k], i) { OthersAreBlank(ts[k], i); }
  }
}
