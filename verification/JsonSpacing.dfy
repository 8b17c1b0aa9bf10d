/** That the indented form differs from the compact one in space alone. */
module JsonSpacing {
  import opened Wrappers
  import opened Integers
  import opened Sequences
  import opened Json

  /** A text without the spaces and line breaks that stand outside strings. */
  function Stripped(t: string): string
    decreases |t|
  {
    if t == [] then []
    else if t[0] == ' ' || t[0] == '\n' then Stripped(t[1..])
    else if t[0] == '"' then ['"'] + InString(t[1..])
    else [t[0]] + Stripped(t[1..])
  }

  /** The same, from inside a string. */
  function InString(t: string): string
    decreases |t|
  {
    if t == [] then []
    else if t[0] == '"' then ['"'] + Stripped(t[1..])
    else if t[0] == '\\' && |t| > 1 then [t[0], t[1]] + InString(t[2..])
    else [t[0]] + InString(t[1..])
  }

  predicate Solid(s: string) {
    forall k :: 0 <= k < |s| ==> s[k] != ' ' && s[k] != '\n' && s[k] != '"'
  }

  lemma {:induction false} SolidStays(s: string, rest: string)
    requires Solid(s)
    ensures Stripped(s + rest) == s + Stripped(rest)
  {
    if s == [] {
      assert s + rest == rest;
    } else {
      assert (s + rest)[1..] == s[1..] + rest;
      SolidStays(s[1..], rest);
      Regroup([s[0]], s[1..], Stripped(rest));
      assert [s[0]] + s[1..] == s;
    }
  }

  lemma {:induction false} SpacesGo(n: nat, rest: string)
    ensures Stripped(Spaces(n) + rest) == Stripped(rest)
  {
    if n == 0 {
      assert Spaces(n) + rest == rest;
    } else {
      assert (Spaces(n) + rest)[1..] == Spaces(n - 1) + rest;
      SpacesGo(n - 1, rest);
    }
  }

  lemma BreakGoes(indent: Option<nat>, depth: nat, rest: string)
    ensures Stripped(Break(indent, depth) + rest) == Stripped(rest)
  {
    match indent
    case None => assert Break(indent, depth) + rest == rest;
    case Some(step) =>
      assert (Break(indent, depth) + rest)[1..] == Spaces(step * depth) + rest;
      SpacesGo(step * depth, rest);
  }

  predicate Unquoted(s: string) {
    forall k :: 0 <= k < |s| ==> s[k] != '"' && s[k] != '\\'
  }

  lemma {:induction false} UnquotedStays(s: string, rest: string)
    requires Unquoted(s)
    ensures InString(s + rest) == s + InString(rest)
  {
    if s == [] {
      assert s + rest == rest;
    } else {
      assert (s + rest)[1..] == s[1..] + rest;
      UnquotedStays(s[1..], rest);
      Regroup([s[0]], s[1..], InString(rest));
      assert [s[0]] + s[1..] == s;
    }
  }

  lemma EscapedCharStays(c: char, rest: string)
    ensures InString(EscapedChar(c) + rest) == EscapedChar(c) + InString(rest)
  {
    var w := EscapedChar(c);
    if w == [c] {
      UnquotedStays(w, rest);
    } else {
      assert w[0] == '\\' && Unquoted(w[2..]);
      assert (w + rest)[2..] == w[2..] + rest;
      UnquotedStays(w[2..], rest);
      Regroup([w[0], w[1]], w[2..], InString(rest));
      assert [w[0], w[1]] + w[2..] == w;
    }
  }

  lemma {:induction false} EscapedStays(s: string, rest: string)
    ensures InString(Escaped(s) + rest) == Escaped(s) + InString(rest)
  {
    hide EscapedChar, InString;
    if s == [] {
      assert Escaped(s) + rest == rest && Escaped(s) + InString(rest) == InString(rest);
    } else {
      Regroup(EscapedChar(s[0]), Escaped(s[1..]), rest);
      EscapedCharStays(s[0], Escaped(s[1..]) + rest);
      EscapedStays(s[1..], rest);
      Regroup(EscapedChar(s[0]), Escaped(s[1..]), InString(rest));
    }
  }

  lemma Opens(t: string)
    ensures Stripped("\"" + t) == "\"" + InString(t)
  {
    assert ("\"" + t)[1..] == t;
  }

  lemma Closes(t: string)
    ensures InString("\"" + t) == "\"" + Stripped(t)
  {
    assert ("\"" + t)[1..] == t;
  }

  lemma QuotedStays(s: string, rest: string)
    ensures Stripped(Quoted(s) + rest) == Quoted(s) + Stripped(rest)
  {
    hide Escaped;
    var body, tail := Escaped(s), "\"" + rest;
    Regroup("\"", body + "\"", rest);
    Regroup(body, "\"", rest);
    Opens(body + tail);
    EscapedStays(s, tail);
    Closes(rest);
    Regroup("\"", body + "\"", Stripped(rest));
    Regroup(body, "\"", Stripped(rest));
  }

  lemma ShownStays(n: int, rest: string)
    ensures Stripped(Show(n) + rest) == Show(n) + Stripped(rest)
  {
    SolidStays(Show(n), rest);
  }

  lemma {:induction false} ValueStays(v: Value, indent: Option<nat>, depth: nat, rest: string)
    ensures Stripped(Printed(v, indent, depth) + rest) == Printed(v, None, depth) + Stripped(rest)
    decreases v, 0
  {
    hide Stripped, Quoted, Show;
    match v {
      case Null => SolidStays("null", rest);
      case Bool(b) => SolidStays(if b then "true" else "false", rest);
      case Int(n) => ShownStays(n, rest);
      case Str(s) => QuotedStays(s, rest);
      case Arr(items) =>
        if items == [] {
          SolidStays("[]", rest);
        } else {
          var inner := PrintedItems(items, indent, depth);
          Regroup("[", inner, rest);
          SolidStays("[", inner + rest);
          ItemsStay(items, indent, depth, rest);
          Regroup("[", PrintedItems(items, None, depth), Stripped(rest));
        }
      case Obj(fields) =>
        if fields == [] {
          SolidStays("{}", rest);
        } else {
          var inner := PrintedFields(fields, indent, depth);
          Regroup("{", inner, rest);
          SolidStays("{", inner + rest);
          FieldsStay(fields, indent, depth, rest);
          Regroup("{", PrintedFields(fields, None, depth), Stripped(rest));
        }
    }
  }

  /** The end of a container, or a comma and what is left of it. */
  lemma EndStays(indent: Option<nat>, depth: nat, bracket: string, rest: string)
    requires Solid(bracket)
    ensures Stripped((Break(indent, depth) + bracket) + rest) == (Break(None, depth) + bracket) + Stripped(rest)
  {
    hide Stripped;
    Regroup(Break(indent, depth), bracket, rest);
    BreakGoes(indent, depth, bracket + rest);
    SolidStays(bracket, rest);
    assert Break(None, depth) + bracket == bracket;
  }

  lemma CommaStays(more: string, plain: string, rest: string)
    requires Stripped(more + rest) == plain + Stripped(rest)
    ensures Stripped(("," + more) + rest) == ("," + plain) + Stripped(rest)
  {
    hide Stripped;
    Regroup(",", more, rest);
    SolidStays(",", more + rest);
    Regroup(",", plain, Stripped(rest));
  }

  lemma {:induction false} ItemsStay(items: seq<Value>, indent: Option<nat>, depth: nat, rest: string)
    requires items != []
    ensures Stripped(PrintedItems(items, indent, depth) + rest) == PrintedItems(items, None, depth) + Stripped(rest)
    decreases items, 1
  {
    hide Stripped, Printed, Break;
    var last := |items| == 1;
    var text, plain := Printed(items[0], indent, depth + 1), Printed(items[0], None, depth + 1);
    var after := if last then Break(indent, depth) + "]" else "," + PrintedItems(items[1..], indent, depth);
    var bare := if last then Break(None, depth) + "]" else "," + PrintedItems(items[1..], None, depth);
    if last {
      EndStays(indent, depth, "]", rest);
    } else {
      ItemsStay(items[1..], indent, depth, rest);
      CommaStays(PrintedItems(items[1..], indent, depth), PrintedItems(items[1..], None, depth), rest);
    }
    ValueStays(items[0], indent, depth + 1, after + rest);
    LeadStays(indent, depth + 1, text, plain, after, bare, rest);
  }

  /** A break, a piece that keeps its own text, and what follows it. */
  lemma LeadStays(indent: Option<nat>, depth: nat, text: string, plain: string, after: string, bare: string,
                  rest: string)
    requires Stripped(text + (after + rest)) == plain + Stripped(after + rest)
    requires Stripped(after + rest) == bare + Stripped(rest)
    ensures Stripped((Break(indent, depth) + (text + after)) + rest)
            == (Break(None, depth) + (plain + bare)) + Stripped(rest)
  {
    hide Stripped;
    Regroup(Break(indent, depth), text + after, rest);
    Regroup(text, after, rest);
    BreakGoes(indent, depth, text + (after + rest));
    Regroup(plain, bare, Stripped(rest));
    assert Break(None, depth) + (plain + bare) == plain + bare;
  }

  lemma ColonStays(indent: Option<nat>, rest: string)
    ensures Stripped(Colon(indent) + rest) == Colon(None) + Stripped(rest)
  {
    if indent.Some? {
      Regroup(":", " ", rest);
      assert Colon(indent) == ":" + " ";
      SolidStays(":", " " + rest);
      assert (" " + rest)[1..] == rest;
    } else {
      SolidStays(":", rest);
    }
  }

  lemma KeyStays(key: string, indent: Option<nat>, text: string, plain: string, rest: string)
    requires Stripped(text + rest) == plain + Stripped(rest)
    ensures Stripped((Quoted(key) + (Colon(indent) + text)) + rest)
         == (Quoted(key) + (Colon(None) + plain)) + Stripped(rest)
  {
    hide Stripped, Quoted, Colon;
    Regroup(Quoted(key), Colon(indent) + text, rest);
    Regroup(Colon(indent), text, rest);
    QuotedStays(key, Colon(indent) + (text + rest));
    ColonStays(indent, text + rest);
    Regroup(Colon(None), plain, Stripped(rest));
    Regroup(Quoted(key), Colon(None) + plain, Stripped(rest));
  }

  lemma {:induction false} FieldsStay(fields: seq<Field>, indent: Option<nat>, depth: nat, rest: string)
    requires fields != []
    ensures Stripped(PrintedFields(fields, indent, depth) + rest) == PrintedFields(fields, None, depth) + Stripped(rest)
    decreases fields, 1
  {
    hide Stripped, Printed, Break, Quoted, Colon;
    var last, key := |fields| == 1, fields[0].key;
    var text, plain := Printed(fields[0].value, indent, depth + 1), Printed(fields[0].value, None, depth + 1);
    var after := if last then Break(indent, depth) + "}" else "," + PrintedFields(fields[1..], indent, depth);
    var bare := if last then Break(None, depth) + "}" else "," + PrintedFields(fields[1..], None, depth);
    if last {
      EndStays(indent, depth, "}", rest);
    } else {
      FieldsStay(fields[1..], indent, depth, rest);
      CommaStays(PrintedFields(fields[1..], indent, depth), PrintedFields(fields[1..], None, depth), rest);
    }
    ValueStays(fields[0].value, indent, depth + 1, after + rest);
    Regroup(text, after, rest);
    Regroup(plain, bare, Stripped(rest));
    KeyStays(key, indent, text + after, plain + bare, rest);
    Regroup(Break(indent, depth + 1), Quoted(key) + (Colon(indent) + (text + after)), rest);
    BreakGoes(indent, depth + 1, (Quoted(key) + (Colon(indent) + (text + after))) + rest);
    NoBreak(depth + 1, Quoted(key) + (Colon(None) + (plain + bare)));
  }

  lemma NoBreak(depth: nat, t: string)
    ensures Break(None, depth) + t == t
  {
  }

  /** The indented text is the compact text with space outside its strings,
      and the compact text has none there, whatever the value. */
  lemma PrettyIsCompactSpaced(v: Value)
    ensures Stripped(Pretty(v)) == Compact(v)
    ensures Stripped(Compact(v)) == Compact(v)
  {
    ValueStays(v, Some(2), 0, []);
    ValueStays(v, None, 0, []);
    assert Pretty(v) + [] == Pretty(v) && Compact(v) + [] == Compact(v);
  }
}
