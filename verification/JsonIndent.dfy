/** The indentation of the canonical JSON layout. */
module JsonIndent {
  import opened JsonLayout

  /** How many blanks s starts with. */
  function Blanks(s: string): nat {
    if s == "" || s[0] != ' ' then 0 else 1 + Blanks(s[1..])
  }

  /** Reading on with so many brackets open: every line break outside literals
      is followed by exactly one blank per open bracket. */
  predicate Indented(s: string, open: int)
    decreases |s|
  {
    if s == "" then true
    else if s[0] == '"' then Indented(s[1 + LiteralLength(s[1..])..], open)
    else if s[0] == '{' || s[0] == '[' then Indented(s[1..], open + 1)
    else if s[0] == '}' || s[0] == ']' then Indented(s[1..], open - 1)
    else (s[0] == '\n' ==> Blanks(s[1..]) == open) && Indented(s[1..], open)
  }

  predicate Solid(s: string) {
    s != "" && s[0] != ' '
  }

  /** Characters that open, close, quote and break nothing. */
  predicate IsInert(c: char) {
    c == ' ' || c == ',' || c == ':' || IsWordChar(c)
  }

  lemma {:induction false} InertIndented(t: string, rest: string, open: int)
    requires (forall i :: 0 <= i < |t| ==> IsInert(t[i])) && Indented(rest, open)
    ensures Indented(t + rest, open)
  {
    if t == "" {
      assert t + rest == rest;
    } else {
      InertIndented(t[1..], rest, open);
      assert (t + rest)[1..] == t[1..] + rest;
    }
  }

  lemma LiteralIndented(s: string, rest: string, open: int)
    requires Indented(rest, open)
    ensures Indented(Escaped(s) + rest, open) && Solid(Escaped(s) + rest)
  {
    EscapedIsInside(s, "\"" + rest);
    assert ("\"" + rest)[0] == '"' && LiteralLength("\"" + rest) == 1;
    var body := EscapeChars(s);
    var text := Escaped(s) + rest;
    LiteralSplits(body, rest);
    hide LiteralLength, EscapeChars;
    assert text == "\"" + body + "\"" + rest;
    assert text[1 + LiteralLength(text[1..])..] == rest;
  }

  lemma BracketIndented(c: char, rest: string, open: int)
    requires c == '{' || c == '[' || c == '}' || c == ']'
    requires Indented(rest, if c == '{' || c == '[' then open + 1 else open - 1)
    ensures Indented([c] + rest, open) && Solid([c] + rest)
  {
    assert ([c] + rest)[1..] == rest;
  }

  lemma {:induction false} SpacesThenSolid(n: nat, rest: string)
    requires Solid(rest)
    ensures Blanks(Spaces(n) + rest) == n
  {
    if n == 0 {
      assert Spaces(0) + rest == rest;
    } else {
      SpacesThenSolid(n - 1, rest);
      assert (Spaces(n) + rest)[1..] == Spaces(n - 1) + rest;
    }
  }

  lemma SeparatorIndented(first: bool, newLine: bool, depth: nat, rest: string)
    requires Indented(rest, depth + 1) && Solid(rest)
    ensures Indented(Separator(first, newLine, depth) + rest, depth + 1)
  {
    if first {
      assert Separator(first, newLine, depth) + rest == rest;
    } else if newLine {
      var blanks := Spaces(depth + 1);
      SpacesThenSolid(depth + 1, rest);
      InertIndented(blanks, rest, depth + 1);
      var line := "\n" + (blanks + rest);
      assert line[1..] == blanks + rest;
      assert Indented(line, depth + 1);
      InertIndented(",", line, depth + 1);
      hide Indented;
      assert Separator(first, newLine, depth) + rest == "," + line;
    } else {
      InertIndented(", ", rest, depth + 1);
    }
  }

  lemma KeyIndented(isObject: bool, key: string, rest: string, open: int)
    requires Indented(rest, open) && Solid(rest)
    ensures Indented(KeyText(isObject, key, " ") + rest, open) && Solid(KeyText(isObject, key, " ") + rest)
  {
    if isObject {
      InertIndented(": ", rest, open);
      LiteralIndented(key, ": " + rest, open);
      hide Indented, Escaped;
      assert ":" + " " == ": ";
      Regroup(Escaped(key), ": ", rest);
      assert Escaped(key) + ":" + " " == Escaped(key) + ": ";
    } else {
      assert KeyText(isObject, key, " ") + rest == rest;
    }
  }

  lemma ScalarIndented(j: Json, rest: string, open: int)
    requires !j.Container? && WellFormed(j) && Indented(rest, open)
    ensures Indented(ScalarText(j) + rest, open) && Solid(ScalarText(j) + rest)
  {
    if j.Text? {
      LiteralIndented(j.content, rest, open);
    } else {
      var t := ScalarText(j);
      assert t != "" && forall i :: 0 <= i < |t| ==> IsWordChar(t[i]);
      InertIndented(t, rest, open);
      assert (t + rest)[0] == t[0];
    }
  }

  /** A node's text leaves the brackets as it found them. */
  lemma {:induction false} NodeIndented(j: Json, depth: nat, rest: string)
    requires WellFormed(j) && Indented(rest, depth)
    ensures Indented(NodeText(j, depth) + rest, depth) && Solid(NodeText(j, depth) + rest)
    decreases j
  {
    match j {
      case Container(isObject, children) =>
        var open, close, inner := Open(isObject), Close(isObject), ChildrenText(isObject, children, depth, true, false);
        assert open in {'{', '['} && close in {'}', ']'};
        assert NodeText(j, depth) == [open] + inner + [close];
        ContainerChildren(j);
        hide *;
        BracketIndented(close, rest, depth + 1);
        ChildrenIndented(isObject, children, depth, true, false, [close] + rest);
        BracketIndented(open, inner + ([close] + rest), depth);
        RegroupFour([open], inner, [close], rest);
      case _ => ScalarIndented(j, rest, depth);
    }
  }

  lemma ContainerChildren(j: Json)
    requires j.Container? && WellFormed(j)
    ensures forall i :: 0 <= i < |j.children| ==> WellFormed(j.children[i].value)
  {}

  lemma {:induction false} ChildrenIndented(isObject: bool, children: seq<Child>, depth: nat, first: bool, started: bool, rest: string)
    requires (forall i :: 0 <= i < |children| ==> WellFormed(children[i].value)) && Indented(rest, depth + 1)
    ensures Indented(ChildrenText(isObject, children, depth, first, started) + rest, depth + 1)
    decreases children
  {
    hide *;
    if children == [] {
      NoChildrenText(isObject, children, depth, first, started, "");
      NoText(ChildrenText(isObject, children, depth, first, started), rest);
    } else {
      var some := Scalars(children[0].value) > 0;
      var head := ChildText(isObject, children[0], depth, first, some && started);
      var tail := ChildrenText(isObject, children[1..], depth, false, started || some);
      ChildrenIndented(isObject, children[1..], depth, false, started || some, rest);
      ChildIndented(isObject, children[0], depth, first, some && started, tail + rest);
      FirstChildText(isObject, children, depth, first, started);
      Regroup(head, tail, rest);
    }
  }

  lemma NoText(t: string, rest: string)
    requires "" + t == ""
    ensures t + rest == rest
  {
    assert |"" + t| == |t|;
  }

  lemma FirstChildText(isObject: bool, children: seq<Child>, depth: nat, first: bool, started: bool)
    requires children != []
    ensures var some := Scalars(children[0].value) > 0;
      ChildrenText(isObject, children, depth, first, started)
      == ChildText(isObject, children[0], depth, first, some && started)
         + ChildrenText(isObject, children[1..], depth, false, started || some)
  {}

  lemma {:induction false} ChildIndented(isObject: bool, c: Child, depth: nat, first: bool, newLine: bool, rest: string)
    requires WellFormed(c.value) && Indented(rest, depth + 1)
    ensures Indented(ChildText(isObject, c, depth, first, newLine) + rest, depth + 1)
    decreases c
  {
    ChildParts(isObject, c, depth, first, newLine);
    assert c.value < c;
    hide *;
    var separator, key, value := Separator(first, newLine, depth), KeyText(isObject, c.key, " "), NodeText(c.value, depth + 1);
    NodeIndented(c.value, depth + 1, rest);
    KeyIndented(isObject, c.key, value + rest, depth + 1);
    SeparatorIndented(first, newLine, depth, key + (value + rest));
    RegroupFour(separator, key, value, rest);
  }

  /** Every line of a document is indented by one blank per bracket open there. */
  lemma DocumentIsIndented(j: Json)
    requires WellFormed(j)
    ensures Indented(DocumentText(j), 0)
  {
    assert "\n"[1..] == "" && Indented("\n", 0);
    NodeIndented(j, 0, "\n");
  }
}
