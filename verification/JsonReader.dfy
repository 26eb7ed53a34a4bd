/** A reader of JSON texts (RFC 8259), and what it makes of the layouts. */
module JsonReader {
  import opened JsonLayout

  // ---------------------------------------------------------------------
  // Reading.
  // ---------------------------------------------------------------------

  /** What a JSON text says. A number is a float or an integer by its text. */
  datatype Value =
    | NullValue
    | BoolValue(b: bool)
    | IntegerValue(text: string)
    | FloatValue(text: string)
    | StringValue(s: string)
    | ArrayValue(elements: seq<Value>)
    | ObjectValue(members: seq<Member>)

  datatype Member = Member(name: string, value: Value)

  /** A number with a fraction or an exponent. */
  predicate IsFloatText(t: string) {
    '.' in t || 'e' in t || 'E' in t
  }

  /** The value of a hexadecimal digit. */
  function HexValue(c: char): (v: int)
    ensures 0 <= v < 16
  {
    if '0' <= c <= '9' then c as int - '0' as int
    else if 'a' <= c <= 'f' then c as int - 'a' as int + 10
    else if 'A' <= c <= 'F' then c as int - 'A' as int + 10
    else 0
  }

  /** What the escape \c stands for. */
  function Unescaped(c: char): char {
    match c
    case 'n' => '\n'
    case 'r' => '\r'
    case 't' => '\t'
    case 'b' => '\U{0008}'
    case 'f' => '\U{000C}'
    case _ => c
  }

  /** The characters of a literal's body (section 7 of RFC 8259). */
  function Unescape(s: string): string {
    if s == "" then ""
    else if s[0] != '\\' || |s| < 2 then [s[0]] + Unescape(s[1..])
    else if s[1] == 'u' && |s| >= 6 then [CodeUnit(s[2..6])] + Unescape(s[6..])
    else [Unescaped(s[1])] + Unescape(s[2..])
  }

  /** The character four hexadecimal digits stand for. Halves of surrogate
      pairs, which the writer never writes, are not put together. */
  function CodeUnit(h: string): char
    requires |h| == 4
  {
    var u := 0x1000 * HexValue(h[0]) + 0x100 * HexValue(h[1]) + 0x10 * HexValue(h[2]) + HexValue(h[3]);
    if 0xD800 <= u < 0xE000 then '\U{FFFD}' else u as char
  }

  predicate IsLiteral(t: string) {
    |t| >= 2 && t[0] == '"' && t[|t| - 1] == '"'
  }

  function Body(t: string): string
    requires IsLiteral(t)
  {
    t[1..|t| - 1]
  }

  /** A token that stands for a scalar. */
  function ReadScalar(t: string): Value {
    if t == "null" then NullValue
    else if t == "true" then BoolValue(true)
    else if t == "false" then BoolValue(false)
    else if IsLiteral(t) then StringValue(Unescape(Body(t)))
    else if IsFloatText(t) then FloatValue(t)
    else IntegerValue(t)
  }

  datatype Parsed = Parsed(value: Value, rest: seq<string>) | NoValue
  datatype ParsedElements = Elements(elements: seq<Value>, rest: seq<string>) | NoElements
  datatype ParsedMembers = Members(members: seq<Member>, rest: seq<string>) | NoMembers

  predicate IsMark(t: string) {
    t == "{" || t == "}" || t == "[" || t == "]" || t == "," || t == ":"
  }

  /** The value the tokens start with. */
  function ReadValue(ts: seq<string>): (r: Parsed)
    ensures r.Parsed? ==> |r.rest| < |ts|
    decreases |ts|, 1
  {
    if ts == [] then NoValue
    else if ts[0] == "[" then
      if |ts| > 1 && ts[1] == "]" then Parsed(ArrayValue([]), ts[2..])
      else
        var e := ReadElements(ts[1..]);
        if e.NoElements? then NoValue else Parsed(ArrayValue(e.elements), e.rest)
    else if ts[0] == "{" then
      if |ts| > 1 && ts[1] == "}" then Parsed(ObjectValue([]), ts[2..])
      else
        var m := ReadMembers(ts[1..]);
        if m.NoMembers? then NoValue else Parsed(ObjectValue(m.members), m.rest)
    else if IsMark(ts[0]) then NoValue
    else Parsed(ReadScalar(ts[0]), ts[1..])
  }

  /** One or more values up to the bracket that closes the array. */
  function ReadElements(ts: seq<string>): (r: ParsedElements)
    ensures r.Elements? ==> |r.rest| < |ts|
    decreases |ts|, 2
  {
    var v := ReadValue(ts);
    if v.NoValue? || v.rest == [] then NoElements
    else if v.rest[0] == "]" then Elements([v.value], v.rest[1..])
    else if v.rest[0] == "," then
      var more := ReadElements(v.rest[1..]);
      if more.NoElements? then NoElements else Elements([v.value] + more.elements, more.rest)
    else NoElements
  }

  /** One or more members up to the brace that closes the object. */
  function ReadMembers(ts: seq<string>): (r: ParsedMembers)
    ensures r.Members? ==> |r.rest| < |ts|
    decreases |ts|, 2
  {
    if |ts| < 2 || !IsLiteral(ts[0]) || ts[1] != ":" then NoMembers
    else
      var name, v := Unescape(Body(ts[0])), ReadValue(ts[2..]);
      if v.NoValue? || v.rest == [] then NoMembers
      else if v.rest[0] == "}" then Members([Member(name, v.value)], v.rest[1..])
      else if v.rest[0] == "," then
        var more := ReadMembers(v.rest[1..]);
        if more.NoMembers? then NoMembers else Members([Member(name, v.value)] + more.members, more.rest)
      else NoMembers
  }

  /** The value of a text that is one JSON value and nothing else. */
  function ReadText(text: string): Parsed {
    var p := ReadValue(Tokens(text));
    if p.Parsed? && p.rest != [] then NoValue else p
  }

  // ---------------------------------------------------------------------
  // What a tree says.
  // ---------------------------------------------------------------------

  predicate IsNumeral(t: string) {
    t != "" && (t[0] == '-' || '0' <= t[0] <= '9')
  }

  /** Numbers look like numbers, and an integer like an integer. */
  predicate Numeric(j: Json) {
    match j
    case Integer(t) => IsNumeral(t) && !IsFloatText(t)
    case Float(t) => IsNumeral(t)
    case Container(_, children) => forall i :: 0 <= i < |children| ==> Numeric(children[i].value)
    case _ => true
  }

  /** A float without fraction or exponent is said with a zero fraction. */
  function ValueOf(j: Json): Value {
    match j
    case Null => NullValue
    case Boolean(b) => BoolValue(b)
    case Integer(t) => IntegerValue(t)
    case Float(t) => FloatValue(if IsFloatText(t) then t else t + ".0")
    case Text(s) => StringValue(s)
    case Container(isObject, children) =>
      if isObject then ObjectValue(MembersOf(children)) else ArrayValue(ElementsOf(children))
  }

  function ElementsOf(children: seq<Child>): seq<Value> {
    if children == [] then [] else [ValueOf(children[0].value)] + ElementsOf(children[1..])
  }

  function MembersOf(children: seq<Child>): seq<Member> {
    if children == [] then [] else [Member(children[0].key, ValueOf(children[0].value))] + MembersOf(children[1..])
  }

  // ---------------------------------------------------------------------
  // The round trip.
  // ---------------------------------------------------------------------

  lemma EscapedCharReadsBack(c: char, rest: string)
    ensures Unescape(EscapeChar(c) + rest) == [c] + Unescape(rest)
  {
    var e := EscapeChar(c);
    var s := e + rest;
    if |e| == 1 {
      assert s[0] == c && s[1..] == rest;
    } else if |e| == 2 {
      assert s[0] == '\\' && s[1] == e[1] && s[2..] == rest;
    } else {
      CodeReadsBack(c);
      hide EscapeChar, HexValue, HexDigit, CodeUnit;
      assert s[0] == e[0] && s[1] == e[1] && s[2..6] == e[2..] && s[6..] == rest;
    }
  }

  lemma CodeReadsBack(c: char)
    requires |EscapeChar(c)| > 2
    ensures |EscapeChar(c)| == 6 && EscapeChar(c)[0] == '\\' && EscapeChar(c)[1] == 'u'
    ensures CodeUnit(EscapeChar(c)[2..]) == c
  {
    HexReadsBack(c);
    hide HexDigit;
    assert EscapeChar(c)[2..] == ['0', '0', HexDigit((c as int) / 16 % 16), HexDigit((c as int) % 16)];
  }

  lemma HexReadsBack(c: char)
    requires c < ' '
    ensures HexValue(HexDigit((c as int) / 16 % 16)) == (c as int) / 16 && HexValue(HexDigit((c as int) % 16)) == (c as int) % 16
  {}

  lemma {:induction false} EscapedReadsBack(s: string)
    ensures Unescape(EscapeChars(s)) == s
  {
    if s != "" {
      EscapedCharReadsBack(s[0], EscapeChars(s[1..]));
      EscapedReadsBack(s[1..]);
    }
  }

  /** A quoted string is a literal that reads back to the string. */
  lemma LiteralReadsBack(s: string)
    ensures IsLiteral(Escaped(s)) && Unescape(Body(Escaped(s))) == s && !IsMark(Escaped(s))
  {
    EscapedReadsBack(s);
    var t := Escaped(s);
    assert t[0] == '"' && t[|t| - 1] == '"' && t[1..|t| - 1] == EscapeChars(s);
    hide Unescape, EscapeChars;
  }

  /** A scalar's text reads back to the scalar. */
  lemma ScalarReadsBack(j: Json)
    requires !j.Container? && Numeric(j)
    ensures ReadScalar(ScalarText(j)) == ValueOf(j) && !IsMark(ScalarText(j))
  {
    if j.Text? {
      LiteralReadsBack(j.content);
    } else if j.Float? {
      assert HasFraction(j.token) <==> IsFloatText(j.token);
      assert '.' in j.token + ".0" by { assert (j.token + ".0")[|j.token|] == '.'; }
      assert ScalarText(j)[0] == j.token[0];
    } else if j.Integer? {
      assert ScalarText(j)[0] == j.token[0];
    }
    hide Unescape, EscapeChars;
  }

  /** The tokens of a nonempty list of children and the bracket behind it. */
  function ListTokens(isObject: bool, children: seq<Child>, rest: seq<string>): seq<string> {
    ChildrenTokens(isObject, children, true) + [[Close(isObject)]] + rest
  }

  /** A tree's tokens are read as what the tree says, whatever follows. */
  lemma {:induction false} TokensReadBack(j: Json, rest: seq<string>)
    requires Numeric(j)
    ensures ReadValue(TokensOf(j) + rest) == Parsed(ValueOf(j), rest)
    decreases j, 1
  {
    match j {
      case Container(isObject, children) =>
        hide *;
        ContainerTokens(isObject, children, rest);
        NumericChildren(isObject, children);
        if children == [] {
          EmptyContainerIsRead(isObject, rest);
        } else if isObject {
          MembersReadBack(children, rest, j);
          ObjectIsRead(children, rest);
        } else {
          ElementsReadBack(children, rest, j);
          ArrayIsRead(children, rest);
        }
      case _ =>
        ScalarReadsBack(j);
        var ts := TokensOf(j) + rest;
        assert ts[0] == ScalarText(j) && ts[1..] == rest;
        hide ReadScalar, ScalarText;
    }
  }

  lemma ContainerTokens(isObject: bool, children: seq<Child>, rest: seq<string>)
    ensures TokensOf(Container(isObject, children)) + rest == [[Open(isObject)]] + ListTokens(isObject, children, rest)
    ensures ValueOf(Container(isObject, children))
         == if isObject then ObjectValue(MembersOf(children)) else ArrayValue(ElementsOf(children))
  {
    var o, l, c := [[Open(isObject)]], ChildrenTokens(isObject, children, true), [[Close(isObject)]];
    assert TokensOf(Container(isObject, children)) == o + l + c;
    hide *;
    FourTokenLists(o, l, c, rest);
    ListTokensAre(isObject, children, rest);
  }

  lemma FourTokenLists(a: seq<string>, b: seq<string>, c: seq<string>, d: seq<string>)
    ensures a + b + c + d == a + (b + c + d)
  {}

  lemma ListTokensAre(isObject: bool, children: seq<Child>, rest: seq<string>)
    ensures ListTokens(isObject, children, rest) == ChildrenTokens(isObject, children, true) + [[Close(isObject)]] + rest
  {}

  lemma NumericChildren(isObject: bool, children: seq<Child>)
    requires Numeric(Container(isObject, children))
    ensures forall i :: 0 <= i < |children| ==> Numeric(children[i].value)
  {}

  lemma EmptyContainerIsRead(isObject: bool, rest: seq<string>)
    ensures ReadValue([[Open(isObject)]] + ListTokens(isObject, [], rest))
         == Parsed(if isObject then ObjectValue(MembersOf([])) else ArrayValue(ElementsOf([])), rest)
  {
    var ts := [[Open(isObject)]] + ListTokens(isObject, [], rest);
    assert ts == [[Open(isObject)], [Close(isObject)]] + rest;
    assert ts[2..] == rest;
    hide ReadElements, ReadMembers;
  }

  lemma ArrayIsRead(children: seq<Child>, rest: seq<string>)
    requires ReadElements(ListTokens(false, children, rest)) == Elements(ElementsOf(children), rest)
    requires ListTokens(false, children, rest) != [] && ListTokens(false, children, rest)[0] != "]"
    ensures ReadValue([[Open(false)]] + ListTokens(false, children, rest)) == Parsed(ArrayValue(ElementsOf(children)), rest)
  {
    var ts := [[Open(false)]] + ListTokens(false, children, rest);
    assert ts[1..] == ListTokens(false, children, rest);
    hide ListTokens, ReadElements, ReadMembers;
  }

  lemma ObjectIsRead(children: seq<Child>, rest: seq<string>)
    requires ReadMembers(ListTokens(true, children, rest)) == Members(MembersOf(children), rest)
    requires ListTokens(true, children, rest) != [] && ListTokens(true, children, rest)[0] != "}"
    ensures ReadValue([[Open(true)]] + ListTokens(true, children, rest)) == Parsed(ObjectValue(MembersOf(children)), rest)
  {
    var ts := [[Open(true)]] + ListTokens(true, children, rest);
    assert ts[1..] == ListTokens(true, children, rest);
    hide ListTokens, ReadElements, ReadMembers;
  }

  /** The children of an array, from its first one on. */
  lemma {:induction false} ElementsReadBack(children: seq<Child>, rest: seq<string>, j: Json)
    requires children != [] && (forall i :: 0 <= i < |children| ==> Numeric(children[i].value) && children[i].value < j)
    ensures ReadElements(ListTokens(false, children, rest)) == Elements(ElementsOf(children), rest)
    ensures ListTokens(false, children, rest) != [] && ListTokens(false, children, rest)[0] != "]"
    decreases j, 0, children
  {
    hide *;
    var v, more := children[0].value, children[1..];
    if more == [] {
      LastElement(children, rest);
      TokensReadBack(v, ["]"] + rest);
      LastElementIsRead(TokensOf(v), ValueOf(v), rest);
    } else {
      MoreElements(children, rest);
      var tail := ListTokens(false, more, rest);
      TokensReadBack(v, [","] + tail);
      ElementsReadBack(more, rest, j);
      MoreElementsAreRead(TokensOf(v), ValueOf(v), ElementsOf(more), tail, rest);
    }
    FirstToken(v, rest);
  }

  /** No value starts with a closing bracket. */
  lemma FirstToken(j: Json, rest: seq<string>)
    requires Numeric(j)
    ensures TokensOf(j) != [] && TokensOf(j)[0] != "]" && TokensOf(j)[0] != "}"
  {
    if !j.Container? {
      ScalarReadsBack(j);
    }
    hide ScalarText, ReadScalar, ChildrenTokens;
  }

  lemma OnlyChild(isObject: bool, children: seq<Child>)
    requires |children| == 1
    ensures ChildrenTokens(isObject, children, true)
         == KeyTokensOf(isObject, children[0].key) + TokensOf(children[0].value)
  {
    assert children[1..] == [];
    NothingBefore(KeyTokensOf(isObject, children[0].key), TokensOf(children[0].value));
    NothingAfter(ChildTokens(isObject, children[0], true));
    hide TokensOf, Escaped;
  }

  lemma NothingAfter(a: seq<string>)
    ensures a + [] == a && [] + a == a
  {}

  lemma RegroupLast(a: seq<string>, b: seq<string>, c: seq<string>, d: seq<string>)
    ensures a + b + c + d == a + (b + (c + d)) && b + c + d == b + (c + d)
  {}

  lemma LastElement(children: seq<Child>, rest: seq<string>)
    requires |children| == 1
    ensures ListTokens(false, children, rest) == TokensOf(children[0].value) + (["]"] + rest)
    ensures ElementsOf(children) == [ValueOf(children[0].value)]
  {
    assert children[1..] == [];
    OnlyChild(false, children);
    var ts := TokensOf(children[0].value);
    assert KeyTokensOf(false, children[0].key) == [];
    NothingAfter(ts);
    hide TokensOf, ValueOf, ChildrenTokens;
    RegroupLast([], ts, ["]"], rest);
  }

  /** After another child the others only gain a comma. */
  lemma LaterChildren(isObject: bool, children: seq<Child>)
    requires children != []
    ensures ChildrenTokens(isObject, children, false) == [","] + ChildrenTokens(isObject, children, true)
  {
    var c := children[0];
    var key, first, others :=
      (if isObject then [Escaped(c.key), ":"] else []), TokensOf(c.value), ChildrenTokens(isObject, children[1..], false);
    assert ChildTokens(isObject, c, true) == key + first by {
      NothingBefore(key, first);
    }
    hide TokensOf, Escaped;
    RegroupFive([","], key, first, others, []);
  }

  lemma NothingBefore(a: seq<string>, b: seq<string>)
    ensures [] + a + b == a + b
  {}

  lemma RegroupFive(a: seq<string>, b: seq<string>, c: seq<string>, d: seq<string>, e: seq<string>)
    ensures a + b + c + d == a + (b + c + d)
    ensures a + (b + c) + d + e == a + (b + (c + d + e))
  {}

  lemma ChildrenSplit(isObject: bool, children: seq<Child>)
    requires |children| > 1
    ensures ChildrenTokens(isObject, children, true)
         == KeyTokensOf(isObject, children[0].key) + TokensOf(children[0].value)
            + ([","] + ChildrenTokens(isObject, children[1..], true))
  {
    LaterChildren(isObject, children[1..]);
    NothingBefore(KeyTokensOf(isObject, children[0].key), TokensOf(children[0].value));
    hide TokensOf, Escaped;
  }

  lemma MoreElements(children: seq<Child>, rest: seq<string>)
    requires |children| > 1
    ensures ListTokens(false, children, rest) == TokensOf(children[0].value) + ([","] + ListTokens(false, children[1..], rest))
    ensures ElementsOf(children) == [ValueOf(children[0].value)] + ElementsOf(children[1..])
  {
    ChildrenSplit(false, children);
    var ts, tail := TokensOf(children[0].value), ChildrenTokens(false, children[1..], true);
    assert KeyTokensOf(false, children[0].key) == [];
    NoKey(ts, tail);
    hide TokensOf, ValueOf, ChildrenTokens;
    RegroupFive(ts, [","], tail, ["]"], rest);
  }

  lemma NoKey(ts: seq<string>, tail: seq<string>)
    ensures [] + ts + ([","] + tail) == ts + ([","] + tail)
  {}

  lemma LastElementIsRead(ts: seq<string>, v: Value, rest: seq<string>)
    requires ReadValue(ts + (["]"] + rest)) == Parsed(v, ["]"] + rest)
    ensures ReadElements(ts + (["]"] + rest)) == Elements([v], rest)
  {
    assert (["]"] + rest)[1..] == rest;
    hide ReadValue;
  }

  lemma MoreElementsAreRead(ts: seq<string>, v: Value, vs: seq<Value>, tail: seq<string>, rest: seq<string>)
    requires ReadValue(ts + ([","] + tail)) == Parsed(v, [","] + tail) && ReadElements(tail) == Elements(vs, rest)
    ensures ReadElements(ts + ([","] + tail)) == Elements([v] + vs, rest)
  {
    assert ([","] + tail)[1..] == tail;
    hide ReadValue;
  }

  /** The members of an object, from its first one on. */
  lemma {:induction false} MembersReadBack(children: seq<Child>, rest: seq<string>, j: Json)
    requires children != [] && (forall i :: 0 <= i < |children| ==> Numeric(children[i].value) && children[i].value < j)
    ensures ReadMembers(ListTokens(true, children, rest)) == Members(MembersOf(children), rest)
    ensures ListTokens(true, children, rest) != [] && ListTokens(true, children, rest)[0] != "}"
    decreases j, 0, children
  {
    hide *;
    var k, v, more := children[0].key, children[0].value, children[1..];
    LiteralReadsBack(k);
    if more == [] {
      LastMember(children, rest);
      TokensReadBack(v, ["}"] + rest);
      LastMemberIsRead(k, TokensOf(v), ValueOf(v), rest);
    } else {
      MoreMembers(children, rest);
      var tail := ListTokens(true, more, rest);
      TokensReadBack(v, [","] + tail);
      MembersReadBack(more, rest, j);
      MoreMembersAreRead(k, TokensOf(v), ValueOf(v), MembersOf(more), tail, rest);
    }
    LiteralIsNoBrace(k);
  }

  lemma LiteralIsNoBrace(k: string)
    ensures Escaped(k) != "}"
  {
    assert Escaped(k)[0] == '"';
  }

  /** A key, its colon, the value's tokens and what follows. */
  function MemberTokens(k: string, ts: seq<string>, rest: seq<string>): seq<string> {
    [Escaped(k), ":"] + (ts + rest)
  }

  lemma LastMember(children: seq<Child>, rest: seq<string>)
    requires |children| == 1
    ensures ListTokens(true, children, rest) == MemberTokens(children[0].key, TokensOf(children[0].value), ["}"] + rest)
    ensures ListTokens(true, children, rest) != [] && ListTokens(true, children, rest)[0] == Escaped(children[0].key)
    ensures MembersOf(children) == [Member(children[0].key, ValueOf(children[0].value))]
  {
    assert children[1..] == [];
    OnlyChild(true, children);
    var k, ts := [Escaped(children[0].key), ":"], TokensOf(children[0].value);
    assert KeyTokensOf(true, children[0].key) == k;
    hide TokensOf, ValueOf, ChildrenTokens, Escaped;
    RegroupLast(k, ts, ["}"], rest);
  }

  lemma MoreMembers(children: seq<Child>, rest: seq<string>)
    requires |children| > 1
    ensures ListTokens(true, children, rest)
         == MemberTokens(children[0].key, TokensOf(children[0].value), [","] + ListTokens(true, children[1..], rest))
    ensures ListTokens(true, children, rest) != [] && ListTokens(true, children, rest)[0] == Escaped(children[0].key)
    ensures MembersOf(children) == [Member(children[0].key, ValueOf(children[0].value))] + MembersOf(children[1..])
  {
    ChildrenSplit(true, children);
    var k, ts, tail := [Escaped(children[0].key), ":"], TokensOf(children[0].value), ChildrenTokens(true, children[1..], true);
    assert KeyTokensOf(true, children[0].key) == k;
    hide TokensOf, ValueOf, ChildrenTokens, Escaped;
    RegroupSix(k, ts, [","], tail, ["}"], rest);
  }

  lemma RegroupSix(a: seq<string>, b: seq<string>, c: seq<string>, d: seq<string>, e: seq<string>, f: seq<string>)
    ensures a + b + (c + d) + e + f == a + (b + (c + (d + e + f)))
  {}

  lemma LastMemberIsRead(k: string, ts: seq<string>, v: Value, rest: seq<string>)
    requires ReadValue(ts + (["}"] + rest)) == Parsed(v, ["}"] + rest)
    requires IsLiteral(Escaped(k)) && Unescape(Body(Escaped(k))) == k
    ensures ReadMembers(MemberTokens(k, ts, ["}"] + rest)) == Members([Member(k, v)], rest)
  {
    assert (["}"] + rest)[1..] == rest;
    var all := MemberTokens(k, ts, ["}"] + rest);
    assert all[2..] == ts + (["}"] + rest);
    hide ReadValue, Escaped, Unescape, IsLiteral;
  }

  lemma MoreMembersAreRead(k: string, ts: seq<string>, v: Value, ms: seq<Member>, tail: seq<string>, rest: seq<string>)
    requires ReadValue(ts + ([","] + tail)) == Parsed(v, [","] + tail) && ReadMembers(tail) == Members(ms, rest)
    requires IsLiteral(Escaped(k)) && Unescape(Body(Escaped(k))) == k
    ensures ReadMembers(MemberTokens(k, ts, [","] + tail)) == Members([Member(k, v)] + ms, rest)
  {
    assert ([","] + tail)[1..] == tail;
    var all := MemberTokens(k, ts, [","] + tail);
    assert all[2..] == ts + ([","] + tail);
    hide ReadValue, Escaped, Unescape, IsLiteral;
  }

  /** The document and the compact text are both read as what the tree says:
      the same keys and values in order, strings with their characters, and
      every number as the integer or float it is. */
  lemma TextsReadBack(j: Json)
    requires WellFormed(j) && Numeric(j)
    ensures ReadText(DocumentText(j)) == ReadText(CompactText(j)) == Parsed(ValueOf(j), [])
  {
    DocumentIsCompactUpToLayout(j);
    TokensReadBack(j, []);
    assert TokensOf(j) + [] == TokensOf(j);
    hide DocumentText, CompactText, Tokens, TokensOf, ReadValue, ValueOf;
  }
}
