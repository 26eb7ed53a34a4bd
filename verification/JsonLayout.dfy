/** The canonical JSON layout: one line per scalar, and the compact form it
    agrees with up to layout. */
module JsonLayout {
  /** A JSON tree. A number carries its text; the key of an array's child plays
      no part. */
  datatype Json =
    | Null
    | Boolean(value: bool)
    | Integer(token: string)
    | Float(token: string)
    | Text(content: string)
    | Container(isObject: bool, children: seq<Child>)

  datatype Child = Child(key: string, value: Json)

  predicate IsBlank(c: char) {
    c == ' ' || c == '\n'
  }

  predicate IsPunctuation(c: char) {
    c == '{' || c == '}' || c == '[' || c == ']' || c == ',' || c == ':'
  }

  predicate IsWordChar(c: char) {
    !IsBlank(c) && !IsPunctuation(c) && c != '"'
  }

  predicate AllWordChars(t: string) {
    forall i :: 0 <= i < |t| ==> IsWordChar(t[i])
  }

  /** The text of a number: something, without blanks, punctuation or quotes. */
  predicate IsToken(t: string) {
    t != "" && AllWordChars(t)
  }

  predicate WellFormed(j: Json) {
    match j
    case Integer(t) => IsToken(t)
    case Float(t) => IsToken(t)
    case Container(_, children) => forall i :: 0 <= i < |children| ==> WellFormed(children[i].value)
    case _ => true
  }

  // ---------------------------------------------------------------------
  // Scalars.
  // ---------------------------------------------------------------------

  function HexDigit(n: nat): char
    requires n < 16
  {
    "0123456789abcdef"[n]
  }

  function EscapeChar(c: char): (r: string) {
    if c == '"' then "\\\""
    else if c == '\\' then "\\\\"
    else if c == '\n' then "\\n"
    else if c == '\r' then "\\r"
    else if c == '\t' then "\\t"
    else if c == '\U{0008}' then "\\b"
    else if c == '\U{000C}' then "\\f"
    else if c < ' ' then "\\u00" + [HexDigit((c as int) / 16 % 16), HexDigit((c as int) % 16)]
    else [c]
  }

  function EscapeChars(s: string): string {
    if s == "" then "" else EscapeChar(s[0]) + EscapeChars(s[1..])
  }

  /** A string as a quoted literal. */
  function Escaped(s: string): string {
    "\"" + EscapeChars(s) + "\""
  }

  function HasFraction(t: string): bool {
    exists i :: 0 <= i < |t| && (t[i] == '.' || t[i] == 'e' || t[i] == 'E')
  }

  function ScalarText(j: Json): string
    requires !j.Container?
  {
    match j
    case Null => "null"
    case Boolean(b) => if b then "true" else "false"
    case Integer(t) => t
    case Float(t) => if HasFraction(t) then t else t + ".0"
    case Text(s) => Escaped(s)
  }

  function Scalars(j: Json): nat {
    match j
    case Container(_, children) => ScalarsOf(children)
    case _ => 1
  }

  function ScalarsOf(children: seq<Child>): nat {
    if children == [] then 0 else Scalars(children[0].value) + ScalarsOf(children[1..])
  }

  // ---------------------------------------------------------------------
  // The two layouts.
  // ---------------------------------------------------------------------

  function Spaces(n: nat): (s: string)
    ensures |s| == n
  {
    seq(n, _ => ' ')
  }

  function Open(isObject: bool): char {
    if isObject then '{' else '['
  }

  function Close(isObject: bool): char {
    if isObject then '}' else ']'
  }

  function Separator(first: bool, newLine: bool, depth: nat): string {
    if first then "" else "," + (if newLine then "\n" + Spaces(depth + 1) else " ")
  }

  /** One child: what separates it from the one before, its key, its value. */
  function ChildText(isObject: bool, c: Child, depth: nat, first: bool, newLine: bool): string
    decreases c
  {
    Separator(first, newLine, depth) + (if isObject then Escaped(c.key) + ": " else "") + NodeText(c.value, depth + 1)
  }

  /** Children after some others: first says none came before, started that one
      of them held a scalar. */
  function ChildrenText(isObject: bool, children: seq<Child>, depth: nat, first: bool, started: bool): string
    decreases children
  {
    if children == [] then ""
    else
      var some := Scalars(children[0].value) > 0;
      ChildText(isObject, children[0], depth, first, some && started)
      + ChildrenText(isObject, children[1..], depth, false, started || some)
  }

  function NodeText(j: Json, depth: nat): string {
    match j
    case Container(isObject, children) =>
      if children == [] then [Open(isObject), Close(isObject)]
      else [Open(isObject)] + ChildrenText(isObject, children, depth, true, false) + [Close(isObject)]
    case _ => ScalarText(j)
  }

  function DocumentText(j: Json): string {
    NodeText(j, 0) + "\n"
  }

  function CompactChild(isObject: bool, c: Child, first: bool): string
    decreases c
  {
    (if first then "" else ",") + (if isObject then Escaped(c.key) + ":" else "") + CompactText(c.value)
  }

  function CompactChildren(isObject: bool, children: seq<Child>, first: bool): string
    decreases children
  {
    if children == [] then "" else CompactChild(isObject, children[0], first) + CompactChildren(isObject, children[1..], false)
  }

  function CompactText(j: Json): string {
    match j
    case Container(isObject, children) => [Open(isObject)] + CompactChildren(isObject, children, true) + [Close(isObject)]
    case _ => ScalarText(j)
  }

  // ---------------------------------------------------------------------
  // The writers.
  // ---------------------------------------------------------------------

  class Output {
    var text: string

    constructor ()
      ensures text == ""
    {
      text := "";
    }

    method Append(s: string)
      modifies this
      ensures text == old(text) + s
    {
      text := text + s;
    }
  }

  method CountScalars(node: Json) returns (n: nat)
    ensures n == Scalars(node)
    decreases node
  {
    match node {
      case Container(_, children) =>
        n := 0;
        assert children[0..] == children;
        for i := 0 to |children|
          invariant ScalarsOf(children) == n + ScalarsOf(children[i..])
        {
          assert children[i..][0] == children[i] && children[i..][1..] == children[i + 1..];
          var k := CountScalars(children[i].value);
          n := n + k;
        }
      case _ => n := 1;
    }
  }

  /** Appends the node's text. A child starts a line of its own only after an
      earlier sibling has put a scalar on the current one. */
  method WriteNode(out: Output, node: Json, depth: nat)
    modifies out
    ensures out.text == old(out.text) + NodeText(node, depth)
    decreases node
  {
    match node {
      case Container(isObject, children) =>
        if children == [] {
          out.Append([Open(isObject), Close(isObject)]);
          return;
        }
        out.Append([Open(isObject)]);
        WriteChildren(out, isObject, children, depth);
        out.Append([Close(isObject)]);
        Enclosed(old(out.text), isObject, ChildrenText(isObject, children, depth, true, false));
      case _ => out.Append(ScalarText(node));
    }
  }

  lemma Enclosed(before: string, isObject: bool, inner: string)
    ensures before + [Open(isObject)] + inner + [Close(isObject)] == before + ([Open(isObject)] + inner + [Close(isObject)])
  {}

  method WriteChildren(out: Output, isObject: bool, children: seq<Child>, depth: nat)
    modifies out
    ensures out.text == old(out.text) + ChildrenText(isObject, children, depth, true, false)
    decreases children
  {
    hide ChildrenText, ChildText, Scalars;
    var first, startedContent := true, false;
    assert children[0..] == children;
    for i := 0 to |children|
      invariant old(out.text) + ChildrenText(isObject, children, depth, true, false)
             == out.text + ChildrenText(isObject, children[i..], depth, first, startedContent)
    {
      ChildrenTextHead(isObject, children, i, depth, first, startedContent, out.text);
      var childScalars := CountScalars(children[i].value);
      WriteChild(out, isObject, children[i], depth, first, childScalars > 0 && startedContent);
      first := false;
      startedContent := startedContent || childScalars > 0;
    }
    NoChildrenText(isObject, children[|children|..], depth, first, startedContent, out.text);
  }

  method WriteChild(out: Output, isObject: bool, c: Child, depth: nat, first: bool, newLine: bool)
    modifies out
    ensures out.text == old(out.text) + ChildText(isObject, c, depth, first, newLine)
    decreases c
  {
    ghost var before, separator, key, value :=
      out.text, Separator(first, newLine, depth), (if isObject then Escaped(c.key) + ": " else ""), NodeText(c.value, depth + 1);
    Pieces(before, separator, key, value);
    NoSeparator(newLine, depth);
    hide NodeText, Separator, Escaped;
    if !first {
      out.Append(Separator(false, newLine, depth));
    }
    assert out.text == before + separator;
    if isObject {
      out.Append(Escaped(c.key) + ": ");
    }
    assert out.text == before + separator + key;
    WriteNode(out, c.value, depth + 1);
  }

  lemma Pieces(before: string, a: string, b: string, c: string)
    ensures before + a + b + c == before + (a + b + c)
    ensures before + "" == before && before + a + "" == before + a
  {}

  lemma NoSeparator(newLine: bool, depth: nat)
    ensures Separator(true, newLine, depth) == ""
  {}

  lemma ChildrenTextHead(isObject: bool, children: seq<Child>, i: nat, depth: nat, first: bool, started: bool, before: string)
    requires i < |children|
    ensures var some := Scalars(children[i].value) > 0;
      before + ChildrenText(isObject, children[i..], depth, first, started)
      == before + ChildText(isObject, children[i], depth, first, some && started)
         + ChildrenText(isObject, children[i + 1..], depth, false, started || some)
  {
    assert children[i..][0] == children[i] && children[i..][1..] == children[i + 1..];
    var some := Scalars(children[i].value) > 0;
    var head := ChildText(isObject, children[i], depth, first, some && started);
    var tail := ChildrenText(isObject, children[i + 1..], depth, false, started || some);
    assert ChildrenText(isObject, children[i..], depth, first, started) == head + tail;
    hide *;
    Regroup(before, head, tail);
  }

  lemma Regroup<T>(a: seq<T>, b: seq<T>, c: seq<T>)
    ensures a + (b + c) == a + b + c
  {}

  lemma RegroupFour<T>(a: seq<T>, b: seq<T>, c: seq<T>, d: seq<T>)
    ensures a + b + c + d == a + (b + (c + d))
  {}

  lemma NoChildrenText(isObject: bool, children: seq<Child>, depth: nat, first: bool, started: bool, before: string)
    requires children == []
    ensures before + ChildrenText(isObject, children, depth, first, started) == before
  {}

  /** Appends the node's text on one line, without blanks. */
  method WriteNodeCompact(out: Output, node: Json)
    modifies out
    ensures out.text == old(out.text) + CompactText(node)
    decreases node
  {
    match node {
      case Container(isObject, children) =>
        out.Append([Open(isObject)]);
        WriteChildrenCompact(out, isObject, children);
        out.Append([Close(isObject)]);
        Enclosed(old(out.text), isObject, CompactChildren(isObject, children, true));
      case _ => out.Append(ScalarText(node));
    }
  }

  method WriteChildrenCompact(out: Output, isObject: bool, children: seq<Child>)
    modifies out
    ensures out.text == old(out.text) + CompactChildren(isObject, children, true)
    decreases children
  {
    hide CompactChildren, CompactChild;
    var first := true;
    assert children[0..] == children;
    for i := 0 to |children|
      invariant old(out.text) + CompactChildren(isObject, children, true)
             == out.text + CompactChildren(isObject, children[i..], first)
    {
      CompactHead(isObject, children, i, first, out.text);
      WriteChildCompact(out, isObject, children[i], first);
      first := false;
    }
    NoCompactChildren(isObject, children[|children|..], first, out.text);
  }

  method WriteChildCompact(out: Output, isObject: bool, c: Child, first: bool)
    modifies out
    ensures out.text == old(out.text) + CompactChild(isObject, c, first)
    decreases c
  {
    ghost var before, separator, key, value :=
      out.text, (if first then "" else ","), (if isObject then Escaped(c.key) + ":" else ""), CompactText(c.value);
    Pieces(before, separator, key, value);
    hide CompactText, Escaped;
    if !first {
      out.Append(",");
    }
    assert out.text == before + separator;
    if isObject {
      out.Append(Escaped(c.key) + ":");
    }
    assert out.text == before + separator + key;
    WriteNodeCompact(out, c.value);
  }

  lemma CompactHead(isObject: bool, children: seq<Child>, i: nat, first: bool, before: string)
    requires i < |children|
    ensures before + CompactChildren(isObject, children[i..], first)
         == before + CompactChild(isObject, children[i], first) + CompactChildren(isObject, children[i + 1..], false)
  {
    assert children[i..][0] == children[i] && children[i..][1..] == children[i + 1..];
    var head, tail := CompactChild(isObject, children[i], first), CompactChildren(isObject, children[i + 1..], false);
    assert CompactChildren(isObject, children[i..], first) == head + tail;
    hide *;
    Regroup(before, head, tail);
  }

  lemma NoCompactChildren(isObject: bool, children: seq<Child>, first: bool, before: string)
    requires children == []
    ensures before + CompactChildren(isObject, children, first) == before
  {}

  method SerializeDocument(doc: Json) returns (text: string)
    ensures text == DocumentText(doc)
    ensures WellFormed(doc) ==> Tokens(text) == TokensOf(doc) && Newlines(text) == if Scalars(doc) > 0 then Scalars(doc) else 1
  {
    hide *;
    var out := new Output();
    WriteNode(out, doc, 0);
    out.Append("\n");
    DocumentTextIs(doc);
    if WellFormed(doc) {
      DocumentIsCompactUpToLayout(doc);
      DocumentLines(doc);
    }
    return out.text;
  }

  lemma DocumentTextIs(doc: Json)
    ensures "" + NodeText(doc, 0) + "\n" == DocumentText(doc)
  {
    hide NodeText;
  }

  method SerializeValueCompact(node: Json) returns (text: string)
    ensures text == CompactText(node)
    ensures WellFormed(node) ==> Tokens(text) == TokensOf(node) && Joined(TokensOf(node)) == text
  {
    var out := new Output();
    WriteNodeCompact(out, node);
    if WellFormed(node) {
      DocumentIsCompactUpToLayout(node);
    }
    return out.text;
  }

  // ---------------------------------------------------------------------
  // One line per scalar.
  // ---------------------------------------------------------------------

  function Newlines(s: string): (n: nat)
  {
    if s == "" then 0 else (if s[0] == '\n' then 1 else 0) + Newlines(s[1..])
  }

  lemma {:induction false} NewlinesAppend(a: string, b: string)
    ensures Newlines(a + b) == Newlines(a) + Newlines(b)
  {
    if a == "" {
      assert a + b == b;
    } else {
      NewlinesAppend(a[1..], b);
      assert (a + b)[1..] == a[1..] + b;
    }
  }

  lemma {:induction false} NoNewlines(s: string)
    requires '\n' !in s
    ensures Newlines(s) == 0
  {
    if s != "" {
      NoNewlines(s[1..]);
    }
  }

  lemma {:induction false} EscapedHasNoNewline(s: string)
    ensures '\n' !in EscapeChars(s) && '\n' !in Escaped(s)
  {
    if s != "" {
      EscapedHasNoNewline(s[1..]);
      EscapeCharHasNoNewline(s[0]);
    }
  }

  lemma EscapeCharHasNoNewline(c: char)
    ensures '\n' !in EscapeChar(c)
  {
    var digits := "0123456789abcdef";
    assert forall i :: 0 <= i < 16 ==> digits[i] != '\n';
  }

  lemma ScalarTextHasNoNewline(j: Json)
    requires !j.Container? && WellFormed(j)
    ensures Newlines(ScalarText(j)) == 0
  {
    if j.Text? {
      EscapedHasNoNewline(j.content);
    }
    NoNewlines(ScalarText(j));
  }

  lemma SeparatorNewlines(first: bool, newLine: bool, depth: nat)
    ensures Newlines(Separator(first, newLine, depth)) == if !first && newLine then 1 else 0
  {
    NoNewlines(Spaces(depth + 1));
    NoNewlines(", ");
    NoNewlines(",");
    NewlinesAppend("\n", Spaces(depth + 1));
    NewlinesAppend(",", "\n" + Spaces(depth + 1));
    NewlinesAppend(",", " ");
    assert "\n"[1..] == "" && Newlines("\n") == 1;
  }

  /** A node with scalars spans as many lines as it has scalars; one without
      spans one line. */
  lemma {:induction false} NodeLines(j: Json, depth: nat)
    requires WellFormed(j)
    ensures Newlines(NodeText(j, depth)) == if Scalars(j) > 0 then Scalars(j) - 1 else 0
    decreases j
  {
    match j {
      case Container(isObject, children) =>
        if children == [] {
          NoNewlines([Open(isObject), Close(isObject)]);
        } else {
          ChildrenLines(isObject, children, depth, true, false);
          var inner := ChildrenText(isObject, children, depth, true, false);
          NoNewlines([Open(isObject)]);
          NoNewlines([Close(isObject)]);
          NewlinesAppend([Open(isObject)], inner);
          NewlinesAppend([Open(isObject)] + inner, [Close(isObject)]);
        }
      case _ => ScalarTextHasNoNewline(j);
    }
  }

  /** Each scalar starts a line but the first. */
  lemma {:induction false} ChildrenLines(isObject: bool, children: seq<Child>, depth: nat, first: bool, started: bool)
    requires forall i :: 0 <= i < |children| ==> WellFormed(children[i].value)
    requires first ==> !started
    ensures Newlines(ChildrenText(isObject, children, depth, first, started))
         == if started || ScalarsOf(children) == 0 then ScalarsOf(children) else ScalarsOf(children) - 1
    decreases children
  {
    if children != [] {
      var c := children[0];
      var some := Scalars(c.value) > 0;
      ChildLines(isObject, c, depth, first, some && started);
      ChildrenLines(isObject, children[1..], depth, false, started || some);
      NewlinesAppend(ChildText(isObject, c, depth, first, some && started),
                     ChildrenText(isObject, children[1..], depth, false, started || some));
      hide ChildText, Scalars, WellFormed;
    }
  }

  lemma {:induction false} ChildLines(isObject: bool, c: Child, depth: nat, first: bool, newLine: bool)
    requires WellFormed(c.value) && (first ==> !newLine)
    ensures Newlines(ChildText(isObject, c, depth, first, newLine))
         == (if newLine then 1 else 0) + (if Scalars(c.value) > 0 then Scalars(c.value) - 1 else 0)
    decreases c
  {
    NodeLines(c.value, depth + 1);
    SeparatorNewlines(first, newLine, depth);
    var separator, key, value := Separator(first, newLine, depth), (if isObject then Escaped(c.key) + ": " else ""), NodeText(c.value, depth + 1);
    KeyLines(isObject, c.key);
    NewlinesAppend(separator, key);
    NewlinesAppend(separator + key, value);
    hide NodeText, Separator, Escaped, Scalars, WellFormed, Newlines;
  }

  lemma KeyLines(isObject: bool, key: string)
    ensures Newlines(if isObject then Escaped(key) + ": " else "") == 0
  {
    EscapedHasNoNewline(key);
    NoNewlines(Escaped(key));
    NoNewlines(": ");
    NewlinesAppend(Escaped(key), ": ");
  }

  /** A document has exactly as many lines as scalars; without any scalar it has
      one line. */
  lemma DocumentLines(j: Json)
    requires WellFormed(j)
    ensures Newlines(DocumentText(j)) == if Scalars(j) > 0 then Scalars(j) else 1
  {
    NodeLines(j, 0);
    NewlinesAppend(NodeText(j, 0), "\n");
    assert "\n"[1..] == "" && Newlines("\n") == 1;
  }

  // ---------------------------------------------------------------------
  // The same tokens in both forms.
  // ---------------------------------------------------------------------

  /** Up to the end of the run of word characters s starts with. */
  function WordLength(s: string): (n: nat)
    ensures n <= |s| && (s != "" && IsWordChar(s[0]) ==> n > 0)
  {
    if s == "" || !IsWordChar(s[0]) then 0 else 1 + WordLength(s[1..])
  }

  /** Up to and with the quote that closes the literal s is inside of. */
  function LiteralLength(s: string): (n: nat)
    ensures n <= |s|
  {
    if s == "" then 0
    else if s[0] == '"' then 1
    else if s[0] == '\\' && |s| >= 2 then 2 + LiteralLength(s[2..])
    else 1 + LiteralLength(s[1..])
  }

  /** The lexer: punctuation, quoted literals and maximal runs of other
      characters; blanks and line breaks only separate. */
  function Tokens(s: string): seq<string>
    decreases |s|
  {
    if s == "" then []
    else if IsBlank(s[0]) then Tokens(s[1..])
    else
      var n := if s[0] == '"' then 1 + LiteralLength(s[1..]) else if IsPunctuation(s[0]) then 1 else WordLength(s);
      [s[..n]] + Tokens(s[n..])
  }

  /** The tokens of a tree, in order. */
  function TokensOf(j: Json): seq<string> {
    match j
    case Container(isObject, children) => [[Open(isObject)]] + ChildrenTokens(isObject, children, true) + [[Close(isObject)]]
    case _ => [ScalarText(j)]
  }

  function ChildTokens(isObject: bool, c: Child, first: bool): seq<string>
    decreases c
  {
    (if first then [] else [","]) + (if isObject then [Escaped(c.key), ":"] else []) + TokensOf(c.value)
  }

  function ChildrenTokens(isObject: bool, children: seq<Child>, first: bool): seq<string>
    decreases children
  {
    if children == [] then [] else ChildTokens(isObject, children[0], first) + ChildrenTokens(isObject, children[1..], false)
  }

  /** Nothing here prolongs a word before it. */
  predicate Boundary(rest: string) {
    rest != "" ==> !IsWordChar(rest[0])
  }

  lemma {:induction false} WordLengthOf(t: string, rest: string)
    requires AllWordChars(t) && Boundary(rest)
    ensures WordLength(t + rest) == |t|
  {
    if t == "" {
      assert t + rest == rest;
    } else {
      WordLengthOf(t[1..], rest);
      assert (t + rest)[1..] == t[1..] + rest;
    }
  }

  lemma WordToken(t: string, rest: string)
    requires t != "" && AllWordChars(t) && Boundary(rest)
    ensures Tokens(t + rest) == [t] + Tokens(rest)
  {
    WordLengthOf(t, rest);
    assert (t + rest)[0] == t[0] && (t + rest)[..|t|] == t && (t + rest)[|t|..] == rest;
    hide WordLength, LiteralLength;
  }

  lemma PunctuationToken(c: char, rest: string)
    requires IsPunctuation(c)
    ensures Tokens([c] + rest) == [[c]] + Tokens(rest)
  {
    assert ([c] + rest)[1..] == rest && ([c] + rest)[..1] == [c];
  }

  lemma {:induction false} BlanksSeparate(t: string, rest: string)
    requires forall i :: 0 <= i < |t| ==> IsBlank(t[i])
    ensures Tokens(t + rest) == Tokens(rest)
  {
    if t == "" {
      assert t + rest == rest;
    } else {
      BlanksSeparate(t[1..], rest);
      assert (t + rest)[1..] == t[1..] + rest;
    }
  }

  /** An escaped character does not close a literal. */
  lemma EscapedCharIsInside(c: char, rest: string)
    ensures LiteralLength(EscapeChar(c) + rest) == |EscapeChar(c)| + LiteralLength(rest)
  {
    var e := EscapeChar(c);
    var s := e + rest;
    if |e| == 1 {
      assert s[1..] == rest && s[0] == c;
    } else {
      assert s[0] == '\\';
      if |e| == 2 {
        assert s[2..] == rest;
      } else {
        PlainIsInside(e[2..], rest);
        assert s[2..] == e[2..] + rest;
      }
    }
  }

  lemma {:induction false} PlainIsInside(t: string, rest: string)
    requires forall i :: 0 <= i < |t| ==> t[i] != '"' && t[i] != '\\'
    ensures LiteralLength(t + rest) == |t| + LiteralLength(rest)
  {
    if t == "" {
      assert t + rest == rest;
    } else {
      PlainIsInside(t[1..], rest);
      assert (t + rest)[1..] == t[1..] + rest;
    }
  }

  lemma {:induction false} EscapedIsInside(s: string, rest: string)
    ensures LiteralLength(EscapeChars(s) + rest) == |EscapeChars(s)| + LiteralLength(rest)
  {
    if s == "" {
      assert EscapeChars(s) + rest == rest;
    } else {
      var head, tail := EscapeChar(s[0]), EscapeChars(s[1..]);
      EscapedIsInside(s[1..], rest);
      EscapedCharIsInside(s[0], tail + rest);
      assert EscapeChars(s) == head + tail;
      hide *;
      Regroup(head, tail, rest);
    }
  }

  /** An escaped string is one token. */
  lemma LiteralToken(s: string, rest: string)
    ensures Tokens(Escaped(s) + rest) == [Escaped(s)] + Tokens(rest)
  {
    EscapedIsInside(s, "\"" + rest);
    assert ("\"" + rest)[0] == '"' && LiteralLength("\"" + rest) == 1;
    hide LiteralLength, WordLength, EscapeChars;
    LiteralSplits(EscapeChars(s), rest);
    QuotedToken(EscapeChars(s), rest);
  }

  lemma LiteralSplits(body: string, rest: string)
    ensures var text := "\"" + body + "\"" + rest;
      && |text| > 0 && text[0] == '"' && text[1..] == body + ("\"" + rest)
      && text[..|body| + 2] == "\"" + body + "\"" && text[|body| + 2..] == rest
  {}

  lemma QuotedToken(body: string, rest: string)
    requires LiteralLength(body + ("\"" + rest)) == |body| + 1
    ensures Tokens("\"" + body + "\"" + rest) == ["\"" + body + "\""] + Tokens(rest)
  {
    LiteralSplits(body, rest);
    hide LiteralLength, WordLength;
  }

  lemma ScalarToken(j: Json, rest: string)
    requires !j.Container? && WellFormed(j) && Boundary(rest)
    ensures Tokens(ScalarText(j) + rest) == [ScalarText(j)] + Tokens(rest)
  {
    if j.Text? {
      LiteralToken(j.content, rest);
    } else {
      WordToken(ScalarText(j), rest);
    }
  }

  lemma SeparatorTokens(first: bool, newLine: bool, depth: nat, rest: string)
    ensures Tokens(Separator(first, newLine, depth) + rest) == CommaTokens(first) + Tokens(rest)
  {
    if !first {
      var blanks := if newLine then "\n" + Spaces(depth + 1) else " ";
      PunctuationToken(',', blanks + rest);
      BlanksSeparate(blanks, rest);
      assert Separator(first, newLine, depth) + rest == [','] + (blanks + rest);
    } else {
      assert Separator(first, newLine, depth) + rest == rest;
    }
  }

  /** A key with its colon, and a blank or none. */
  lemma KeyTokens(isObject: bool, key: string, blank: string, rest: string)
    requires blank == "" || blank == " "
    ensures Tokens(KeyText(isObject, key, blank) + rest) == KeyTokensOf(isObject, key) + Tokens(rest)
  {
    if isObject {
      ObjectKeyTokens(key, blank, rest);
    } else {
      assert "" + rest == rest;
    }
  }

  lemma ObjectKeyTokens(key: string, blank: string, rest: string)
    requires blank == "" || blank == " "
    ensures Tokens(Escaped(key) + ":" + blank + rest) == [Escaped(key), ":"] + Tokens(rest)
  {
    var literal, colon := Escaped(key), ":";
    assert [':'] == colon;
    BlanksSeparate(blank, rest);
    assert IsPunctuation(':');
    hide *;
    LiteralToken(key, colon + (blank + rest));
    PunctuationToken(':', blank + rest);
    RegroupFour(literal, colon, blank, rest);
    Regroup([literal], [colon], Tokens(rest));
    assert [literal] + [colon] == [literal, ":"];
  }

  /** Text and tokens of a child, put together from those of its parts. */
  lemma AssembledTokens(separator: string, key: string, value: string, s: seq<string>, k: seq<string>, v: seq<string>, rest: string)
    requires Tokens(separator + (key + (value + rest))) == s + Tokens(key + (value + rest))
    requires Tokens(key + (value + rest)) == k + Tokens(value + rest)
    requires Tokens(value + rest) == v + Tokens(rest)
    ensures Tokens(separator + key + value + rest) == s + k + v + Tokens(rest)
  {
    hide *;
    RegroupFour(separator, key, value, rest);
    RegroupFour(s, k, v, Tokens(rest));
  }

  /** The canonical layout of a node holds the node's tokens. */
  lemma {:induction false} NodeTokens(j: Json, depth: nat, rest: string)
    requires WellFormed(j) && Boundary(rest)
    ensures Tokens(NodeText(j, depth) + rest) == TokensOf(j) + Tokens(rest)
    decreases j
  {
    match j {
      case Container(isObject, children) =>
        var open, close, inner := Open(isObject), Close(isObject), ChildrenText(isObject, children, depth, true, false);
        ChildrenTokensHold(isObject, children, depth, true, false, [close] + rest);
        assert NodeText(j, depth) == [open] + inner + [close];
        assert IsPunctuation(open) && IsPunctuation(close);
        hide *;
        EnclosedTokens(open, close, inner, ChildrenTokens(isObject, children, true), rest);
      case _ => ScalarToken(j, rest);
    }
  }

  lemma EnclosedTokens(open: char, close: char, inner: string, tokens: seq<string>, rest: string)
    requires IsPunctuation(open) && IsPunctuation(close)
    requires Tokens(inner + ([close] + rest)) == tokens + Tokens([close] + rest)
    ensures Tokens([open] + inner + [close] + rest) == [[open]] + tokens + [[close]] + Tokens(rest)
  {
    PunctuationToken(open, inner + ([close] + rest));
    PunctuationToken(close, rest);
    hide *;
    RegroupFour([open], inner, [close], rest);
  }

  lemma {:induction false} ChildrenTokensHold(isObject: bool, children: seq<Child>, depth: nat, first: bool, started: bool, rest: string)
    requires forall i :: 0 <= i < |children| ==> WellFormed(children[i].value)
    requires Boundary(rest)
    ensures Tokens(ChildrenText(isObject, children, depth, first, started) + rest)
         == ChildrenTokens(isObject, children, first) + Tokens(rest)
    decreases children
  {
    if children == [] {
      assert ChildrenText(isObject, children, depth, first, started) + rest == rest;
    } else {
      var some := Scalars(children[0].value) > 0;
      var head := ChildText(isObject, children[0], depth, first, some && started);
      var tail := ChildrenText(isObject, children[1..], depth, false, started || some);
      ChildrenTokensHold(isObject, children[1..], depth, false, started || some, rest);
      MoreChildrenAreApart(isObject, children[1..], depth, started || some, rest);
      ChildTokensHold(isObject, children[0], depth, first, some && started, tail + rest);
      assert ChildrenText(isObject, children, depth, first, started) == head + tail;
      assert ChildrenTokens(isObject, children, first)
          == ChildTokens(isObject, children[0], first) + ChildrenTokens(isObject, children[1..], false);
      hide *;
      Regroup(head, tail, rest);
      Regroup(ChildTokens(isObject, children[0], first), ChildrenTokens(isObject, children[1..], false), Tokens(rest));
    }
  }

  lemma MoreChildrenAreApart(isObject: bool, children: seq<Child>, depth: nat, started: bool, rest: string)
    requires Boundary(rest)
    ensures Boundary(ChildrenText(isObject, children, depth, false, started) + rest)
    ensures Boundary(CompactChildren(isObject, children, false) + rest)
  {
    if children == [] {
      assert "" + rest == rest;
    } else {
      var c := children[0];
      var newLine := Scalars(c.value) > 0 && started;
      assert Separator(false, newLine, depth)[0] == ',';
      assert ChildText(isObject, c, depth, false, newLine)[0] == ',';
      assert CompactChild(isObject, c, false)[0] == ',';
      hide NodeText, CompactText, Separator, Scalars, ChildText, CompactChild;
    }
  }

  lemma {:induction false} ChildTokensHold(isObject: bool, c: Child, depth: nat, first: bool, newLine: bool, rest: string)
    requires WellFormed(c.value) && Boundary(rest)
    ensures Tokens(ChildText(isObject, c, depth, first, newLine) + rest) == ChildTokens(isObject, c, first) + Tokens(rest)
    decreases c
  {
    ChildParts(isObject, c, depth, first, newLine);
    assert c.value < c;
    hide *;
    var separator, key, value := Separator(first, newLine, depth), KeyText(isObject, c.key, " "), NodeText(c.value, depth + 1);
    NodeTokens(c.value, depth + 1, rest);
    SeparatorTokens(first, newLine, depth, key + (value + rest));
    KeyTokens(isObject, c.key, " ", value + rest);
    AssembledTokens(separator, key, value, CommaTokens(first), KeyTokensOf(isObject, c.key), TokensOf(c.value), rest);
  }

  /** The parts of a child's text and of its tokens. */
  lemma ChildParts(isObject: bool, c: Child, depth: nat, first: bool, newLine: bool)
    ensures ChildText(isObject, c, depth, first, newLine)
         == Separator(first, newLine, depth) + KeyText(isObject, c.key, " ") + NodeText(c.value, depth + 1)
    ensures CompactChild(isObject, c, first) == (if first then "" else ",") + KeyText(isObject, c.key, "") + CompactText(c.value)
    ensures ChildTokens(isObject, c, first) == CommaTokens(first) + KeyTokensOf(isObject, c.key) + TokensOf(c.value)
  {
    hide Separator, NodeText, CompactText, TokensOf, Escaped;
    assert Escaped(c.key) + ":" + " " == Escaped(c.key) + ": " && Escaped(c.key) + ":" + "" == Escaped(c.key) + ":";
  }

  function KeyText(isObject: bool, key: string, blank: string): string {
    if isObject then Escaped(key) + ":" + blank else ""
  }

  function KeyTokensOf(isObject: bool, key: string): seq<string> {
    if isObject then [Escaped(key), ":"] else []
  }

  function CommaTokens(first: bool): seq<string> {
    if first then [] else [","]
  }

  /** The compact form holds the same tokens. */
  lemma {:induction false} CompactNodeTokens(j: Json, rest: string)
    requires WellFormed(j) && Boundary(rest)
    ensures Tokens(CompactText(j) + rest) == TokensOf(j) + Tokens(rest)
    decreases j
  {
    match j {
      case Container(isObject, children) =>
        var open, close, inner := Open(isObject), Close(isObject), CompactChildren(isObject, children, true);
        CompactChildrenTokens(isObject, children, true, [close] + rest);
        assert CompactText(j) == [open] + inner + [close];
        assert IsPunctuation(open) && IsPunctuation(close);
        hide *;
        EnclosedTokens(open, close, inner, ChildrenTokens(isObject, children, true), rest);
      case _ => ScalarToken(j, rest);
    }
  }

  lemma {:induction false} CompactChildrenTokens(isObject: bool, children: seq<Child>, first: bool, rest: string)
    requires forall i :: 0 <= i < |children| ==> WellFormed(children[i].value)
    requires Boundary(rest)
    ensures Tokens(CompactChildren(isObject, children, first) + rest) == ChildrenTokens(isObject, children, first) + Tokens(rest)
    decreases children
  {
    if children == [] {
      assert CompactChildren(isObject, children, first) + rest == rest;
    } else {
      var head, tail := CompactChild(isObject, children[0], first), CompactChildren(isObject, children[1..], false);
      CompactChildrenTokens(isObject, children[1..], false, rest);
      MoreChildrenAreApart(isObject, children[1..], 0, false, rest);
      CompactChildTokens(isObject, children[0], first, tail + rest);
      assert CompactChildren(isObject, children, first) == head + tail;
      assert ChildrenTokens(isObject, children, first)
          == ChildTokens(isObject, children[0], first) + ChildrenTokens(isObject, children[1..], false);
      hide *;
      Regroup(head, tail, rest);
      Regroup(ChildTokens(isObject, children[0], first), ChildrenTokens(isObject, children[1..], false), Tokens(rest));
    }
  }

  lemma {:induction false} CompactChildTokens(isObject: bool, c: Child, first: bool, rest: string)
    requires WellFormed(c.value) && Boundary(rest)
    ensures Tokens(CompactChild(isObject, c, first) + rest) == ChildTokens(isObject, c, first) + Tokens(rest)
    decreases c
  {
    ChildParts(isObject, c, 0, first, false);
    assert c.value < c;
    hide *;
    var separator, key, value := (if first then "" else ","), KeyText(isObject, c.key, ""), CompactText(c.value);
    CompactNodeTokens(c.value, rest);
    CommaToken(first, key + (value + rest));
    KeyTokens(isObject, c.key, "", value + rest);
    AssembledTokens(separator, key, value, CommaTokens(first), KeyTokensOf(isObject, c.key), TokensOf(c.value), rest);
  }

  lemma CommaToken(first: bool, rest: string)
    ensures Tokens((if first then "" else ",") + rest) == CommaTokens(first) + Tokens(rest)
  {
    PunctuationToken(',', rest);
    assert "" + rest == rest && [','] == ",";
  }

  /** The tokens one after the other. */
  function Joined(tokens: seq<string>): string {
    if tokens == [] then "" else tokens[0] + Joined(tokens[1..])
  }

  lemma {:induction false} JoinedAppend(a: seq<string>, b: seq<string>)
    ensures Joined(a + b) == Joined(a) + Joined(b)
  {
    if a == [] {
      assert a + b == b;
    } else {
      JoinedAppend(a[1..], b);
      assert (a + b)[1..] == a[1..] + b;
    }
  }

  lemma JoinedOne(t: string)
    ensures Joined([t]) == t
  {
    assert [t][1..] == [] && t + "" == t;
  }

  /** The compact form has nothing between its tokens. */
  lemma {:induction false} CompactIsJoined(j: Json)
    ensures Joined(TokensOf(j)) == CompactText(j)
    decreases j
  {
    match j {
      case Container(isObject, children) =>
        var open, close, tokens: seq<string> := [Open(isObject)], [Close(isObject)], ChildrenTokens(isObject, children, true);
        CompactChildrenJoined(isObject, children, true);
        JoinedAppend([open] + tokens, [close]);
        JoinedAppend([open], tokens);
        JoinedOne(open);
        JoinedOne(close);
      case _ => JoinedOne(ScalarText(j));
    }
  }

  lemma {:induction false} CompactChildrenJoined(isObject: bool, children: seq<Child>, first: bool)
    ensures Joined(ChildrenTokens(isObject, children, first)) == CompactChildren(isObject, children, first)
    decreases children
  {
    if children != [] {
      CompactChildJoined(isObject, children[0], first);
      CompactChildrenJoined(isObject, children[1..], false);
      JoinedAppend(ChildTokens(isObject, children[0], first), ChildrenTokens(isObject, children[1..], false));
    }
  }

  lemma {:induction false} CompactChildJoined(isObject: bool, c: Child, first: bool)
    ensures Joined(ChildTokens(isObject, c, first)) == CompactChild(isObject, c, first)
    decreases c
  {
    CompactIsJoined(c.value);
    var separator: seq<string>, key: seq<string> := (if first then [] else [","]), (if isObject then [Escaped(c.key), ":"] else []);
    JoinedAppend(separator + key, TokensOf(c.value));
    JoinedAppend(separator, key);
    JoinedOne(",");
    JoinedOne(":");
    assert isObject ==> key[1..] == [":"];
    hide TokensOf, CompactText, Escaped;
  }

  /** A document and the compact form have the same tokens, those of the tree,
      and the compact form has nothing between them. */
  lemma DocumentIsCompactUpToLayout(j: Json)
    requires WellFormed(j)
    ensures Tokens(DocumentText(j)) == TokensOf(j) == Tokens(CompactText(j))
    ensures CompactText(j) == Joined(TokensOf(j))
  {
    NodeTokens(j, 0, "\n");
    BlanksSeparate("\n", "");
    assert "\n" + "" == "\n" && Tokens("") == [];
    CompactNodeTokens(j, "");
    CompactIsJoined(j);
    assert CompactText(j) + "" == CompactText(j) && TokensOf(j) + [] == TokensOf(j);
  }
}
