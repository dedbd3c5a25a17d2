/** Resolving the CLI's template paths against the documented ones (scripts/gen-contract-api-schemas.ts). */
module TemplateCollapse {
  import opened Text

  // ---------- collapsing interpolations ----------

  /** The text after an interpolation that is `depth` braces deep. */
  function Skip(s: string, depth: nat): (rest: string)
    ensures |rest| <= |s|
    decreases |s|
  {
    if s == "" || depth == 0 then s
    else Skip(s[1..], if s[0] == '{' then depth + 1 else if s[0] == '}' then depth - 1 else depth)
  }

  /** Every `${...}` becomes `{}`. */
  function Collapse(s: string): string
    decreases |s|
  {
    if s == "" then ""
    else if "${" <= s then "{}" + Collapse(Skip(s[2..], 1))
    else [s[0]] + Collapse(s[1..])
  }

  /** The inner loop: past the brace that closes the interpolation. */
  method SkipInterpolation(raw: string, start: nat) returns (index: nat)
    requires start <= |raw|
    ensures start <= index <= |raw| && raw[index..] == Skip(raw[start..], 1)
  {
    index := start;
    var depth := 1;
    while index < |raw| && depth > 0
      invariant start <= index <= |raw| && 0 <= depth && Skip(raw[index..], depth) == Skip(raw[start..], 1)
    {
      assert raw[index..][1..] == raw[index + 1..];
      if raw[index] == '{' {
        depth := depth + 1;
      } else if raw[index] == '}' {
        depth := depth - 1;
      }
      index := index + 1;
    }
  }

  lemma {:induction false} CollapseStep(raw: string, index: nat, done: string)
    requires index < |raw|
    ensures done + Collapse(raw[index..]) ==
      if raw[index] == '$' && index + 1 < |raw| && raw[index + 1] == '{'
      then (done + "{}") + Collapse(Skip(raw[index + 2..], 1))
      else (done + [raw[index]]) + Collapse(raw[index + 1..])
  {
    var rest := raw[index..];
    assert rest[0] == raw[index] && (|rest| > 1 ==> rest[1] == raw[index + 1]);
    assert rest[1..] == raw[index + 1..] && (|rest| > 1 ==> rest[2..] == raw[index + 2..]);
  }

  method CollapseInterpolations(raw: string) returns (collapsed: string)
    ensures collapsed == Collapse(raw)
  {
    collapsed := "";
    var index := 0;
    assert raw[0..] == raw;
    while index < |raw|
      invariant 0 <= index <= |raw| && collapsed + Collapse(raw[index..]) == Collapse(raw)
      decreases |raw| - index
    {
      CollapseStep(raw, index, collapsed);
      if raw[index] == '$' && index + 1 < |raw| && raw[index + 1] == '{' {
        index := SkipInterpolation(raw, index + 2);
        collapsed := collapsed + "{}";
      } else {
        collapsed := collapsed + [raw[index]];
        index := index + 1;
      }
    }
    assert raw[index..] == "";
  }

  // ---------- shapes of documented paths ----------

  /** The length of the run of characters before the first closing brace, or None. */
  function UpToBrace(s: string): (n: Option<nat>)
    ensures n.Some? ==> n.value < |s| && s[n.value] == '}'
  {
    if s == "" then None
    else if s[0] == '}' then Some(0)
    else
      var n := UpToBrace(s[1..]);
      if n.None? then None else Some(n.value + 1)
  }

  /** `path.replace(/\{[^}]+\}/g, "{}")`. */
  function Shape(s: string): string
    decreases |s|
  {
    if s == "" then ""
    else if s[0] != '{' then [s[0]] + Shape(s[1..])
    else
      var n := UpToBrace(s[1..]);
      if n.Some? && n.value > 0 then "{}" + Shape(s[n.value + 2..]) else [s[0]] + Shape(s[1..])
  }

  /** The `shapes` map: later paths overwrite earlier ones with the same shape. */
  function ShapeTable(docs: seq<string>): map<string, string> {
    if docs == [] then map[]
    else
      var last := docs[|docs| - 1];
      var table := ShapeTable(docs[..|docs| - 1]);
      if '{' in last then table[Shape(last) := last] else table
  }

  method BuildShapeTable(docs: seq<string>) returns (table: map<string, string>)
    ensures table == ShapeTable(docs)
  {
    table := map[];
    for i := 0 to |docs|
      invariant table == ShapeTable(docs[..i])
    {
      assert docs[..i + 1][..i] == docs[..i];
      if '{' in docs[i] { table := table[Shape(docs[i]) := docs[i]]; }
    }
    assert docs[..|docs|] == docs;
  }

  function BeforeQuery(s: string): string {
    if s == "" || s[0] == '?' then "" else [s[0]] + BeforeQuery(s[1..])
  }

  /** `replace(/\/+$/, "")`. */
  function StripSlashes(s: string): (r: string)
    ensures r == "" || r[|r| - 1] != '/'
  {
    if s != "" && s[|s| - 1] == '/' then StripSlashes(s[..|s| - 1]) else s
  }

  predicate HasInterpolation(s: string) {
    s != "" && ("${" <= s || HasInterpolation(s[1..]))
  }

  /** The documented path of a template call, if there is one. */
  function Resolve(docs: seq<string>, raw: string): Option<string> {
    if !("/v1/" <= raw) || !HasInterpolation(raw) then None
    else
      var key := StripSlashes(BeforeQuery(Collapse(raw)));
      var table := ShapeTable(docs);
      if key in table then Some(table[key]) else None
  }

  // ---------- a leading declaration ----------

  predicate IsWordCharacter(c: char) {
    'A' <= c <= 'Z' || 'a' <= c <= 'z' || '0' <= c <= '9' || c == '_'
  }

  /** The length of the word in front. */
  function WordLength(s: string): (n: nat)
    ensures n <= |s|
  {
    if s == "" || !IsWordCharacter(s[0]) then 0 else 1 + WordLength(s[1..])
  }

  function SkipSpaces(s: string): string {
    if s != "" && IsSpace(s[0]) then SkipSpaces(s[1..]) else s
  }

  /** What follows the first closing parenthesis. */
  function PastParenthesis(s: string): Option<string> {
    if s == "" then None else if s[0] == ')' then Some(s[1..]) else PastParenthesis(s[1..])
  }

  /** A template that starts with the interpolation of a name or of a call. */
  datatype Lead = Lead(name: string, isCall: bool, rest: string)

  function CloseLead(name: string, isCall: bool, s: string): Option<Lead> {
    if s != "" && s[0] == '}' then Some(Lead(name, isCall, s[1..])) else None
  }

  /** What stands behind the name: nothing or an argument list, then the brace. */
  function LeadBehind(name: string, after: string): Option<Lead> {
    if after == "" || after[0] != '(' then CloseLead(name, false, after)
    else
      var behind := PastParenthesis(after[1..]);
      if behind.None? then None else CloseLead(name, true, SkipSpaces(behind.value))
  }

  /** `/^\$\{\s*([A-Za-z0-9_]+)\s*(\([^)]*\))?\s*\}/`. */
  function LeadOf(s: string): Option<Lead> {
    if !("${" <= s) then None
    else
      var word := SkipSpaces(s[2..]);
      var n := WordLength(word);
      if n == 0 then None else LeadBehind(word[..n], SkipSpaces(word[n..]))
  }

  function DeclaredName(name: string, isCall: bool): string {
    if isCall then name + "()" else name
  }

  /** A leading name or call becomes the path it was declared with. */
  function ResolveLead(declared: map<string, string>, template: string): string {
    var lead := LeadOf(template);
    if lead.Some? && DeclaredName(lead.value.name, lead.value.isCall) in declared
    then declared[DeclaredName(lead.value.name, lead.value.isCall)] + lead.value.rest
    else template
  }

  /** The documented path of a call, its leading declaration resolved. */
  function ResolveCall(docs: seq<string>, declared: map<string, string>, template: string): Option<string> {
    Resolve(docs, ResolveLead(declared, template))
  }

  function ArgumentText(arguments: Option<string>): string {
    if arguments.None? then "" else "(" + arguments.value + ")"
  }

  lemma {:induction false} WordLengthOf(name: string, tail: string)
    requires (forall i :: 0 <= i < |name| ==> IsWordCharacter(name[i])) && tail != "" && !IsWordCharacter(tail[0])
    ensures WordLength(name + tail) == |name|
  {
    if name == "" {
      assert name + tail == tail;
    } else {
      assert (name + tail)[1..] == name[1..] + tail;
      WordLengthOf(name[1..], tail);
    }
  }

  lemma {:induction false} PastParenthesisOf(arguments: string, tail: string)
    requires ')' !in arguments
    ensures PastParenthesis(arguments + ")" + tail) == Some(tail)
  {
    var s := arguments + ")" + tail;
    if arguments == "" {
      assert s[1..] == tail;
    } else {
      assert s[1..] == arguments[1..] + ")" + tail;
      PastParenthesisOf(arguments[1..], tail);
    }
  }

  ghost predicate OnlySpaces(s: string) {
    forall i :: 0 <= i < |s| ==> IsSpace(s[i])
  }

  ghost predicate IsWord(s: string) {
    s != "" && forall i :: 0 <= i < |s| ==> IsWordCharacter(s[i])
  }

  lemma {:induction false} SkipSpacesOf(spaces: string, s: string)
    requires OnlySpaces(spaces) && (s == "" || !IsSpace(s[0]))
    ensures SkipSpaces(spaces + s) == s
  {
    if spaces == "" {
      assert spaces + s == s;
    } else {
      assert (spaces + s)[1..] == spaces[1..] + s;
      SkipSpacesOf(spaces[1..], s);
    }
  }

  /** What stands in front of a template: a name with blanks around it, and an argument list or none. */
  function LeadText(gaps: (string, string, string), name: string, arguments: Option<string>, rest: string): string {
    "${" + (gaps.0 + (name + AfterName(gaps, arguments, rest)))
  }

  function AfterName(gaps: (string, string, string), arguments: Option<string>, rest: string): string {
    gaps.1 + (ArgumentText(arguments) + (gaps.2 + ("}" + rest)))
  }

  ghost predicate Blank(gaps: (string, string, string)) {
    OnlySpaces(gaps.0) && OnlySpaces(gaps.1) && OnlySpaces(gaps.2)
  }

  lemma {:induction false} CallBehind(gap: string, name: string, arguments: string, tail: string, rest: string)
    requires OnlySpaces(gap) && ')' !in arguments && SkipSpaces(tail) == "}" + rest
    ensures LeadBehind(name, SkipSpaces(gap + (ArgumentText(Some(arguments)) + tail))) == Some(Lead(name, true, rest))
  {
    var list := ArgumentText(Some(arguments)) + tail;
    SkipSpacesOf(gap, list);
    assert list[1..] == arguments + ")" + tail;
    PastParenthesisOf(arguments, tail);
    assert ("}" + rest)[1..] == rest;
  }

  lemma {:induction false} LeadBehindOf(gaps: (string, string, string), name: string, arguments: Option<string>,
          rest: string)
    requires Blank(gaps) && (arguments.Some? ==> ')' !in arguments.value)
    ensures LeadBehind(name, SkipSpaces(AfterName(gaps, arguments, rest))) == Some(Lead(name, arguments.Some?, rest))
  {
    var close := "}" + rest;
    match arguments
    case Some(list) =>
      SkipSpacesOf(gaps.2, close);
      CallBehind(gaps.1, name, list, gaps.2 + close, rest);
    case None =>
      assert AfterName(gaps, arguments, rest) == (gaps.1 + gaps.2) + close;
      SkipSpacesOf(gaps.1 + gaps.2, close);
      assert close[1..] == rest;
  }

  lemma {:induction false} NameEnds(gaps: (string, string, string), arguments: Option<string>, rest: string)
    requires Blank(gaps)
    ensures var after := AfterName(gaps, arguments, rest); after != "" && !IsWordCharacter(after[0])
  {
    var after := AfterName(gaps, arguments, rest);
    if gaps.1 != "" {
      assert after[0] == gaps.1[0];
    } else if arguments.Some? {
      assert after[0] == '(';
    } else {
      assert after == gaps.2 + ("}" + rest);
      assert after[0] == if gaps.2 == "" then '}' else gaps.2[0];
    }
  }

  /** The name or call in front of a template is read back, whatever blanks are around it. */
  lemma {:induction false} LeadOfTemplate(gaps: (string, string, string), name: string, arguments: Option<string>,
          rest: string)
    requires Blank(gaps) && IsWord(name) && (arguments.Some? ==> ')' !in arguments.value)
    ensures LeadOf(LeadText(gaps, name, arguments, rest)) == Some(Lead(name, arguments.Some?, rest))
  {
    var s, after := LeadText(gaps, name, arguments, rest), AfterName(gaps, arguments, rest);
    var word := name + after;
    assert s[..2] == "${" && s[2..] == gaps.0 + word;
    assert word[0] == name[0];
    SkipSpacesOf(gaps.0, word);
    NameEnds(gaps, arguments, rest);
    WordLengthOf(name, after);
    assert word[..|name|] == name && word[|name|..] == after;
    LeadBehindOf(gaps, name, arguments, rest);
  }

  // ---------- documented paths and their instances ----------

  datatype Piece = Lit(text: string) | Param(name: string)
  type Path = seq<Piece>

  /** Literal text has no brace and no query mark, and parameters have names, as in OpenAPI path templates. */
  ghost predicate ProperPiece(p: Piece) {
    match p
    case Lit(text) => '{' !in text && '?' !in text
    case Param(name) => name != "" && '}' !in name
  }

  ghost predicate WellFormed(path: Path) {
    forall i :: 0 <= i < |path| ==> ProperPiece(path[i])
  }

  function PrintPiece(p: Piece): string {
    match p case Lit(text) => text case Param(name) => "{" + name + "}"
  }

  function ShapePiece(p: Piece): string {
    match p case Lit(text) => text case Param(_) => "{}"
  }

  function FillPiece(p: Piece, e: string): string {
    match p case Lit(text) => text case Param(_) => "${" + e + "}"
  }

  function Print(path: Path): string {
    if path == [] then "" else PrintPiece(path[0]) + Print(path[1..])
  }

  function ShapeOf(path: Path): string {
    if path == [] then "" else ShapePiece(path[0]) + ShapeOf(path[1..])
  }

  /** The path with each parameter replaced by an interpolation of the expression at its place in `fill`. */
  function Fill(path: Path, fill: seq<string>): string
    requires |fill| == |path|
  {
    if path == [] then "" else FillPiece(path[0], fill[0]) + Fill(path[1..], fill[1..])
  }

  /** From `depth` braces deep, the text never closes the interpolation and ends one brace deep. */
  ghost predicate StaysInside(e: string, depth: nat)
    decreases |e|
  {
    depth >= 1 && if e == "" then depth == 1
      else StaysInside(e[1..], if e[0] == '{' then depth + 1 else if e[0] == '}' then depth - 1 else depth)
  }

  ghost predicate Balanced(e: string) {
    StaysInside(e, 1)
  }

  // ---------- collapsing undoes filling ----------

  lemma {:induction false} SkipBalanced(e: string, depth: nat, rest: string)
    requires StaysInside(e, depth)
    ensures Skip(e + "}" + rest, depth) == rest
    decreases |e|
  {
    var s := e + "}" + rest;
    if e == "" {
      assert s[1..] == rest;
    } else {
      assert s[1..] == e[1..] + "}" + rest;
      SkipBalanced(e[1..], if e[0] == '{' then depth + 1 else if e[0] == '}' then depth - 1 else depth, rest);
    }
  }

  lemma {:induction false} CollapsePlain(c: char, tail: string)
    requires tail == "" || tail[0] != '{'
    ensures Collapse([c] + tail) == [c] + Collapse(tail)
  {
    var s := [c] + tail;
    assert s[1..] == tail && (|s| > 1 ==> s[1] == tail[0]);
  }

  lemma {:induction false} CollapseLiteral(text: string, rest: string)
    requires '{' !in text && (rest == "" || rest[0] != '{')
    ensures Collapse(text + rest) == text + Collapse(rest)
  {
    if text == "" {
      assert text + rest == rest;
    } else {
      var tail := text[1..] + rest;
      assert text + rest == [text[0]] + tail;
      CollapseLiteral(text[1..], rest);
      CollapsePlain(text[0], tail);
      Reassociate([text[0]], text[1..], Collapse(rest));
      assert text == [text[0]] + text[1..];
    }
  }

  lemma {:induction false} CollapseInterpolation(e: string, rest: string)
    requires Balanced(e)
    ensures Collapse("${" + e + "}" + rest) == "{}" + Collapse(rest)
  {
    var s := "${" + e + "}" + rest;
    assert s[..2] == "${" && s[2..] == e + "}" + rest;
    SkipBalanced(e, 1, rest);
  }

  /** Text that cannot turn a preceding dollar sign into an interpolation. */
  predicate NoBraceFirst(s: string) {
    s == "" || s[0] != '{'
  }

  lemma {:induction false} CollapsePiece(p: Piece, e: string, tail: string)
    requires ProperPiece(p) && NoBraceFirst(tail) && (p.Param? ==> Balanced(e))
    ensures Collapse(FillPiece(p, e) + tail) == ShapePiece(p) + Collapse(tail)
    ensures NoBraceFirst(FillPiece(p, e) + tail)
  {
    match p
    case Lit(text) =>
      CollapseLiteral(text, tail);
      if text == "" { assert text + tail == tail; }
    case Param(_) => CollapseInterpolation(e, tail);
  }

  ghost predicate BalancedFill(path: Path, fill: seq<string>) {
    |fill| == |path| && forall i :: 0 <= i < |path| && path[i].Param? ==> Balanced(fill[i])
  }

  /** Collapsing a filled path gives its shape. */
  lemma {:induction false} CollapseFilled(path: Path, fill: seq<string>, rest: string)
    requires WellFormed(path) && BalancedFill(path, fill) && NoBraceFirst(rest)
    ensures Collapse(Fill(path, fill) + rest) == ShapeOf(path) + Collapse(rest)
    ensures NoBraceFirst(Fill(path, fill) + rest)
  {
    if path == [] {
      assert Fill(path, fill) + rest == rest;
    } else {
      var tail := Fill(path[1..], fill[1..]) + rest;
      CollapseFilled(path[1..], fill[1..], rest);
      CollapsePiece(path[0], fill[0], tail);
      Reassociate(FillPiece(path[0], fill[0]), Fill(path[1..], fill[1..]), rest);
      Reassociate(ShapePiece(path[0]), ShapeOf(path[1..]), Collapse(rest));
    }
  }

  lemma {:induction false} Reassociate(a: string, b: string, c: string)
    ensures (a + b) + c == a + (b + c)
  {
  }

  // ---------- the shape of the printed path ----------

  lemma {:induction false} UpToBraceOf(name: string, rest: string)
    requires '}' !in name
    ensures UpToBrace(name + "}" + rest) == Some(|name|)
  {
    var s := name + "}" + rest;
    if name != "" {
      assert s[1..] == name[1..] + "}" + rest;
      UpToBraceOf(name[1..], rest);
    }
  }

  lemma {:induction false} ShapeLiteral(text: string, rest: string)
    requires '{' !in text
    ensures Shape(text + rest) == text + Shape(rest)
  {
    if text == "" {
      assert text + rest == rest;
    } else {
      assert (text + rest)[1..] == text[1..] + rest;
      ShapeLiteral(text[1..], rest);
    }
  }

  lemma {:induction false} ShapePrintedPiece(p: Piece, rest: string)
    requires ProperPiece(p)
    ensures Shape(PrintPiece(p) + rest) == ShapePiece(p) + Shape(rest)
  {
    match p
    case Lit(text) => ShapeLiteral(text, rest);
    case Param(name) =>
      var s := "{" + name + "}" + rest;
      assert s[1..] == name + "}" + rest;
      UpToBraceOf(name, rest);
      assert s[|name| + 2..] == rest;
  }

  /** The regular expression finds exactly the parameters. */
  lemma {:induction false} ShapePrinted(path: Path)
    requires WellFormed(path)
    ensures Shape(Print(path)) == ShapeOf(path)
  {
    if path != [] {
      ShapePrinted(path[1..]);
      ShapePrintedPiece(path[0], Print(path[1..]));
    }
  }

  // ---------- lookup ----------

  /** The shape table names the last documented parameterised path of each shape. */
  ghost predicate IsLastWithShape(docs: seq<string>, k: int) {
    && 0 <= k < |docs| && '{' in docs[k]
    && forall j :: k < j < |docs| && '{' in docs[j] ==> Shape(docs[j]) != Shape(docs[k])
  }

  lemma {:induction false} TableHoldsLast(docs: seq<string>, k: int)
    requires IsLastWithShape(docs, k)
    ensures Shape(docs[k]) in ShapeTable(docs) && ShapeTable(docs)[Shape(docs[k])] == docs[k]
  {
    if k < |docs| - 1 {
      assert docs[..|docs| - 1][k] == docs[k];
      TableHoldsLast(docs[..|docs| - 1], k);
    }
  }

  lemma {:induction false} TableIsKeyedByShape(docs: seq<string>, key: string)
    requires key in ShapeTable(docs)
    ensures exists k :: IsLastWithShape(docs, k) && docs[k] == ShapeTable(docs)[key] && Shape(docs[k]) == key
  {
    var n := |docs| - 1;
    if '{' in docs[n] && Shape(docs[n]) == key {
      assert IsLastWithShape(docs, n);
    } else {
      TableIsKeyedByShape(docs[..n], key);
      var k :| IsLastWithShape(docs[..n], k) && docs[..n][k] == ShapeTable(docs[..n])[key]
        && Shape(docs[..n][k]) == key;
      assert IsLastWithShape(docs, k);
    }
  }

  lemma {:induction false} TableHoldsShape(docs: seq<string>, k: nat)
    requires k < |docs| && '{' in docs[k]
    ensures Shape(docs[k]) in ShapeTable(docs)
  {
    if k < |docs| - 1 {
      assert docs[..|docs| - 1][k] == docs[k];
      TableHoldsShape(docs[..|docs| - 1], k);
    }
  }

  /** An interpolation opens at position `i`. */
  predicate OpensAt(s: string, i: int) {
    0 <= i < |s| - 1 && s[i] == '$' && s[i + 1] == '{'
  }

  lemma {:induction false} InterpolationIff(s: string)
    ensures HasInterpolation(s) <==> exists i :: OpensAt(s, i)
  {
    if s != "" {
      InterpolationIff(s[1..]);
      if OpensAt(s, 0) { assert s[..2] == "${"; }
      if HasInterpolation(s[1..]) {
        var i :| OpensAt(s[1..], i);
        assert OpensAt(s, i + 1);
      }
      forall i | OpensAt(s, i) ensures HasInterpolation(s) {
        if i > 0 { assert OpensAt(s[1..], i - 1); } else { assert s[..2] == "${"; }
      }
    }
  }

  /** Path `k` of the document has the parameters and the shape that a call with this key asks for. */
  ghost predicate Answers(docs: seq<string>, k: int, key: string) {
    0 <= k < |docs| && '{' in docs[k] && Shape(docs[k]) == key
  }

  /** What the collapsed call is looked up under: no query, no trailing slashes. */
  function KeyOf(raw: string): string {
    StripSlashes(BeforeQuery(Collapse(raw)))
  }

  /** For every text: only a call of the API with an interpolation resolves; it resolves to a path exactly when that
      is the last parameterised path of its shape, and to nothing exactly when no parameterised path has it. */
  lemma {:induction false} ResolvesIff(docs: seq<string>, raw: string, d: string)
    ensures Resolve(docs, raw) == Some(d) <==>
      "/v1/" <= raw && (exists i :: OpensAt(raw, i))
      && exists k :: Answers(docs, k, KeyOf(raw)) && IsLastWithShape(docs, k) && docs[k] == d
    ensures Resolve(docs, raw) == None <==>
      ("/v1/" <= raw && (exists i :: OpensAt(raw, i)) ==> forall k :: !Answers(docs, k, KeyOf(raw)))
  {
    var key := KeyOf(raw);
    InterpolationIff(raw);
    if key in ShapeTable(docs) { TableIsKeyedByShape(docs, key); }
    forall k | Answers(docs, k, key) ensures key in ShapeTable(docs) { TableHoldsShape(docs, k); }
    forall k | Answers(docs, k, key) && IsLastWithShape(docs, k) ensures ShapeTable(docs)[key] == docs[k] {
      TableHoldsLast(docs, k);
    }
  }

  // ---------- trailing slashes and queries ----------

  lemma {:induction false} BeforeQueryOf(s: string, rest: string)
    requires '?' !in s && (rest == "" || rest[0] == '?')
    ensures BeforeQuery(s + rest) == s
  {
    if s == "" {
      assert s + rest == rest;
    } else {
      assert (s + rest)[1..] == s[1..] + rest;
      BeforeQueryOf(s[1..], rest);
    }
  }

  ghost predicate OnlySlashes(s: string) {
    forall i :: 0 <= i < |s| ==> s[i] == '/'
  }

  lemma {:induction false} StripSlashesOf(s: string, slashes: string)
    requires OnlySlashes(slashes)
    ensures StripSlashes(s + slashes) == StripSlashes(s)
  {
    if slashes == "" {
      assert s + slashes == s;
    } else {
      var n := |slashes| - 1;
      assert (s + slashes)[..|s + slashes| - 1] == s + slashes[..n];
      StripSlashesOf(s, slashes[..n]);
    }
  }

  lemma {:induction false} ShapeHasNoQuery(path: Path)
    requires WellFormed(path)
    ensures '?' !in ShapeOf(path)
  {
    if path != [] { ShapeHasNoQuery(path[1..]); }
  }

  /** What the lookup uses as its key, for any trailing slashes and any query. */
  lemma {:induction false} KeyOfFilled(path: Path, fill: seq<string>, slashes: string, query: string)
    requires WellFormed(path) && BalancedFill(path, fill) && OnlySlashes(slashes)
    requires query == "" || query[0] == '?'
    ensures StripSlashes(BeforeQuery(Collapse(Fill(path, fill) + (slashes + query)))) == StripSlashes(ShapeOf(path))
  {
    CollapseFilled(path, fill, slashes + query);
    CollapseTail(slashes, query);
    ShapeHasNoQuery(path);
    KeyOfShape(ShapeOf(path), slashes, Collapse(query));
  }

  lemma {:induction false} CollapseTail(slashes: string, query: string)
    requires OnlySlashes(slashes) && (query == "" || query[0] == '?')
    ensures Collapse(slashes + query) == slashes + Collapse(query)
    ensures Collapse(query) == "" || Collapse(query)[0] == '?'
  {
    CollapseLiteral(slashes, query);
  }

  lemma {:induction false} KeyOfShape(shape: string, slashes: string, query: string)
    requires '?' !in shape && OnlySlashes(slashes) && (query == "" || query[0] == '?')
    ensures StripSlashes(BeforeQuery(shape + (slashes + query))) == StripSlashes(shape)
  {
    assert shape + (slashes + query) == (shape + slashes) + query;
    BeforeQueryOf(shape + slashes, query);
    StripSlashesOf(shape, slashes);
  }

  lemma {:induction false} FilledHasInterpolation(path: Path, fill: seq<string>, rest: string, k: nat)
    requires |fill| == |path| && k < |path| && path[k].Param?
    ensures HasInterpolation(Fill(path, fill) + rest)
  {
    var tail := Fill(path[1..], fill[1..]) + rest;
    assert Fill(path, fill) + rest == FillPiece(path[0], fill[0]) + tail;
    if path[0].Lit? {
      FilledHasInterpolation(path[1..], fill[1..], rest, k - 1);
      InterpolationBehind(path[0].text, tail);
    } else {
      assert (FillPiece(path[0], fill[0]) + tail)[..2] == "${";
    }
  }

  lemma {:induction false} InterpolationBehind(text: string, tail: string)
    requires HasInterpolation(tail)
    ensures HasInterpolation(text + tail)
  {
    if text == "" {
      assert text + tail == tail;
    } else {
      assert (text + tail)[1..] == text[1..] + tail;
      InterpolationBehind(text[1..], tail);
    }
  }

  lemma {:induction false} PrintHasBrace(path: Path, k: nat)
    requires k < |path| && path[k].Param?
    ensures '{' in Print(path)
  {
    if k > 0 { PrintHasBrace(path[1..], k - 1); } else { assert PrintPiece(path[0])[0] == '{'; }
  }

  lemma {:induction false} ResolveUndoesFillOf(docs: seq<string>, d: nat, path: Path, fill: seq<string>,
          slashes: string, query: string, k: nat)
    requires IsInstance(docs, d, path, fill, slashes, query, k)
    ensures Resolve(docs, Fill(path, fill) + (slashes + query)) == Some(docs[d])
       <==> IsLastWithShape(docs, d) && StripSlashes(ShapeOf(path)) == ShapeOf(path)
  {
    var key := StripSlashes(ShapeOf(path));
    FilledHasInterpolation(path, fill, slashes + query, k);
    KeyOfFilled(path, fill, slashes, query);
    ShapePrinted(path);
    PrintHasBrace(path, k);
    if IsLastWithShape(docs, d) { TableHoldsLast(docs, d); }
    if key in ShapeTable(docs) { TableIsKeyedByShape(docs, key); }
  }

  /** Path `d` of the document has a parameter, piece `k`, and `fill` gives every parameter a balanced expression;
      the filled path starts as the API's paths do and is followed by slashes and a query. */
  ghost predicate IsInstance(docs: seq<string>, d: nat, path: Path, fill: seq<string>, slashes: string, query: string,
          k: nat)
  {
    && WellFormed(path) && BalancedFill(path, fill) && OnlySlashes(slashes) && (query == "" || query[0] == '?')
    && k < |path| && path[k].Param? && "/v1/" <= Fill(path, fill) + (slashes + query)
    && d < |docs| && docs[d] == Print(path) && (forall i, j :: 0 <= i < j < |docs| ==> docs[i] != docs[j])
  }

  /** A call that spells out an instance of documented path `d` resolves to exactly `d`, whatever balanced
      expressions fill its parameters and whatever slashes and query follow, if and only if no later documented
      path has the same shape and the path does not end in a slash. */
  lemma {:induction false} ResolveUndoesFill(docs: seq<string>, declared: map<string, string>, d: nat, path: Path,
          fill: seq<string>, slashes: string, query: string, k: nat)
    requires IsInstance(docs, d, path, fill, slashes, query, k)
    ensures ResolveCall(docs, declared, Fill(path, fill) + (slashes + query)) == Some(docs[d])
       <==> IsLastWithShape(docs, d) && StripSlashes(ShapeOf(path)) == ShapeOf(path)
  {
    ResolveUndoesFillOf(docs, d, path, fill, slashes, query, k);
    NoLead(Fill(path, fill) + (slashes + query));
  }

  lemma {:induction false} NoLead(template: string)
    requires "/v1/" <= template
    ensures LeadOf(template).None?
  {
    assert template[0] == "/v1/"[0] == '/';
  }

  /** A call composed on a declared base, by name or by helper call, resolves like the path it stands for. */
  lemma {:induction false} ComposedCallResolves(docs: seq<string>, declared: map<string, string>,
          gaps: (string, string, string), name: string, arguments: Option<string>, rest: string, d: nat, path: Path,
          fill: seq<string>, slashes: string, query: string, k: nat)
    requires Blank(gaps) && IsWord(name) && (arguments.Some? ==> ')' !in arguments.value)
    requires IsInstance(docs, d, path, fill, slashes, query, k)
    requires var base := if arguments.Some? then name + "()" else name;
      base in declared && declared[base] + rest == Fill(path, fill) + (slashes + query)
    ensures ResolveCall(docs, declared, LeadText(gaps, name, arguments, rest)) == Some(docs[d])
       <==> IsLastWithShape(docs, d) && StripSlashes(ShapeOf(path)) == ShapeOf(path)
  {
    LeadOfTemplate(gaps, name, arguments, rest);
    ResolveUndoesFillOf(docs, d, path, fill, slashes, query, k);
  }

  /** A call composed on a name or helper that is not declared is left alone. */
  lemma {:induction false} UndeclaredLeadResolvesToNone(docs: seq<string>, declared: map<string, string>,
          gaps: (string, string, string), name: string, arguments: Option<string>, rest: string)
    requires Blank(gaps) && IsWord(name) && (arguments.Some? ==> ')' !in arguments.value)
    requires (if arguments.Some? then name + "()" else name) !in declared
    ensures ResolveCall(docs, declared, LeadText(gaps, name, arguments, rest)) == None
  {
    LeadOfTemplate(gaps, name, arguments, rest);
    assert LeadText(gaps, name, arguments, rest)[0] == '$' && "/v1/"[0] == '/';
  }

  /** A path with one parameter, at its end. */
  function EndingIn(prefix: string, parameter: string): Path { [Lit(prefix), Param(parameter)] }

  lemma {:induction false} EndingInTexts(prefix: string, parameter: string, e: string)
    ensures Print(EndingIn(prefix, parameter)) == prefix + ("{" + parameter + "}")
    ensures ShapeOf(EndingIn(prefix, parameter)) == prefix + "{}"
    ensures Fill(EndingIn(prefix, parameter), ["", e]) == prefix + ("${" + e + "}")
  {
    var path := EndingIn(prefix, parameter);
    assert path[1..] == [Param(parameter)] && path[1..][1..] == [] && ["", e][1..] == [e] && [e][1..] == [];
    assert Print(path[1..]) == "{" + parameter + "}" && ShapeOf(path[1..]) == "{}";
    assert Fill(path[1..], [e]) == "${" + e + "}";
  }

  /** Two documented paths of one shape: every call of either resolves to the second. */
  lemma {:induction false} SharedShapeResolvesToLast(declared: map<string, string>, prefix: string, a: string,
          b: string, e: string)
    requires "/v1/" <= prefix && '{' !in prefix && '?' !in prefix && Balanced(e)
    requires a != b && a != "" && b != "" && '}' !in a && '}' !in b
    ensures var docs := [Print(EndingIn(prefix, a)), Print(EndingIn(prefix, b))];
      ResolveCall(docs, declared, prefix + ("${" + e + "}")) == Some(docs[1])
  {
    var docs := [Print(EndingIn(prefix, a)), Print(EndingIn(prefix, b))];
    EndingInTexts(prefix, a, e);
    EndingInTexts(prefix, b, e);
    PrintsDiffer(prefix, a, b);
    EndingInIsInstance(docs, prefix, b, e);
    EndingInIsStripped(prefix, b);
    assert Fill(EndingIn(prefix, b), ["", e]) + ("" + "") == prefix + ("${" + e + "}");
    ResolveUndoesFill(docs, declared, 1, EndingIn(prefix, b), ["", e], "", "", 1);
  }

  lemma {:induction false} EndingInIsInstance(docs: seq<string>, prefix: string, b: string, e: string)
    requires "/v1/" <= prefix && '{' !in prefix && '?' !in prefix && Balanced(e) && b != "" && '}' !in b
    requires |docs| == 2 && docs[1] == Print(EndingIn(prefix, b)) && docs[0] != docs[1]
    ensures IsInstance(docs, 1, EndingIn(prefix, b), ["", e], "", "", 1) && IsLastWithShape(docs, 1)
  {
    var path := EndingIn(prefix, b);
    EndingInIsLast(docs, path);
    EndingInIsProper(prefix, b, e);
    assert "/v1/" <= Fill(path, ["", e]) + ("" + "") by {
      EndingInTexts(prefix, b, e);
      StaysInFront("/v1/", prefix, "${" + e + "}");
    }
  }

  lemma {:induction false} EndingInIsLast(docs: seq<string>, path: Path)
    requires |docs| == 2 && docs[1] == Print(path) && |path| == 2 && path[1].Param?
    ensures IsLastWithShape(docs, 1)
  {
    PrintHasBrace(path, 1);
  }

  lemma {:induction false} EndingInIsProper(prefix: string, b: string, e: string)
    requires '{' !in prefix && '?' !in prefix && Balanced(e) && b != "" && '}' !in b
    ensures WellFormed(EndingIn(prefix, b)) && BalancedFill(EndingIn(prefix, b), ["", e])
  {
  }

  lemma {:induction false} StaysInFront(start: string, text: string, rest: string)
    requires start <= text
    ensures start <= text + rest + ("" + "")
  {
  }

  lemma {:induction false} EndingInIsStripped(prefix: string, b: string)
    ensures StripSlashes(ShapeOf(EndingIn(prefix, b))) == ShapeOf(EndingIn(prefix, b))
  {
    EndingInTexts(prefix, b, "");
    assert (prefix + "{}")[|prefix| + 1] == '}';
  }

  lemma {:induction false} PrintsDiffer(prefix: string, a: string, b: string)
    requires a != b
    ensures prefix + ("{" + a + "}") != prefix + ("{" + b + "}")
  {
    var p, q := prefix + ("{" + a + "}"), prefix + ("{" + b + "}");
    assert p[|prefix| + 1..|p| - 1] == a && q[|prefix| + 1..|q| - 1] == b;
  }

  /** A call that fills the first of two such paths, `/v1/users/{id}`, resolves to the other, `/v1/users/{login}`. */
  lemma {:induction false} UserPathResolvesToLogin(declared: map<string, string>)
    ensures var docs := [Print(EndingIn("/v1/users/", "id")), Print(EndingIn("/v1/users/", "login"))];
      ResolveCall(docs, declared, "/v1/users/" + ("${" + "who" + "}")) == Some(docs[1])
  {
    assert "/v1/users/"[..4] == "/v1/" && |"id"| != |"login"|;
    assert Balanced("who") by {
      assert "who"[1..] == "ho" && "ho"[1..] == "o" && "o"[1..] == "";
      assert StaysInside("", 1) && StaysInside("o", 1) && StaysInside("ho", 1);
    }
    SharedShapeResolvesToLast(declared, "/v1/users/", "id", "login", "who");
  }
}
