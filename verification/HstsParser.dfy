/** Parsing a `Strict-Transport-Security` value (section 6.1 of RFC 6797). */
module HstsParser {
  import opened Text
  import opened QuotedString

  datatype Directive = Directive(name: string, value: Option<string>)

  predicate Blanks(s: string) {
    forall i | 0 <= i < |s| :: IsBlank(s[i])
  }

  /** How many spaces and tabs the text begins with. */
  function BlankLength(s: string): (n: nat)
    ensures n <= |s| && (forall i | 0 <= i < n :: IsBlank(s[i])) && (n < |s| ==> !IsBlank(s[n]))
  {
    if s != "" && IsBlank(s[0]) then 1 + BlankLength(s[1..]) else 0
  }

  /** What is left after them. */
  function SkipBlanks(s: string): (r: string)
    ensures |r| <= |s| && Blanks(s[..|s| - |r|]) && s == s[..|s| - |r|] + r
    ensures r != "" ==> !IsBlank(r[0])
  {
    s[BlankLength(s)..]
  }

  /** How many token characters the text begins with. */
  function TokenLength(s: string): (n: nat)
    ensures n <= |s| && (forall i | 0 <= i < n :: IsTokenChar(s[i])) && (n < |s| ==> !IsTokenChar(s[n]))
  {
    if s != "" && IsTokenChar(s[0]) then 1 + TokenLength(s[1..]) else 0
  }

  /** The value after an `=` and what follows it. */
  function ParseValue(s: string): Option<(string, string)> {
    var v := SkipBlanks(s);
    if v != "" && v[0] == '"' then Read(v[1..])
    else
      var n := TokenLength(v);
      if n == 0 then None else Some((v[..n], v[n..]))
  }

  /** What follows a directive's name: its value if it has one, and the rest. */
  function ParseAfterName(s: string): Option<(Option<string>, string)> {
    var r := SkipBlanks(s);
    if r != "" && r[0] == '=' then
      match ParseValue(r[1..])
      case Some((v, rest)) => Some((Some(v), SkipBlanks(rest)))
      case None => None
    else Some((None, r))
  }

  lemma ParseAfterNameShortens(s: string)
    requires ParseAfterName(s).Some?
    ensures |ParseAfterName(s).value.1| <= |s|
  {
    var r := SkipBlanks(s);
    if r != "" && r[0] == '=' {
      var v := SkipBlanks(r[1..]);
      if v != "" && v[0] == '"' {
        ReadShortens(v[1..]);
      }
    }
  }

  function Prepend(d: Directive, ds: Option<seq<Directive>>): Option<seq<Directive>> {
    match ds case Some(rest) => Some([d] + rest) case None => None
  }

  /** The directives of a value, in order; none when it does not follow the grammar. */
  function Parse(s: string): Option<seq<Directive>>
    decreases |s|
  {
    var r := SkipBlanks(s);
    if r == "" then Some([])
    else if r[0] == ';' then Parse(r[1..])
    else
      var n := TokenLength(r);
      if n == 0 then None
      else
        match ParseAfterName(r[n..])
        case None => None
        case Some((value, rest)) =>
          ParseAfterNameShortens(r[n..]);
          var d := Directive(r[..n], value);
          if rest == "" then Some([d])
          else if rest[0] == ';' then Prepend(d, Parse(rest[1..]))
          else None
  }

  /** One unfolding, from the text after the blanks. */
  lemma ParseUnfolds(s: string)
    ensures var r := SkipBlanks(s);
            Parse(s)
            == if r == "" then Some([])
               else if r[0] == ';' then Parse(r[1..])
               else
                 var n := TokenLength(r);
                 if n == 0 then None
                 else
                   match ParseAfterName(r[n..])
                   case None => None
                   case Some((value, rest)) =>
                     if rest == "" then Some([Directive(r[..n], value)])
                     else if rest[0] == ';' then Prepend(Directive(r[..n], value), Parse(rest[1..]))
                     else None
  {
    hide SkipBlanks, TokenLength, IsTokenChar, ParseAfterName;
  }

  // ----- The parser -------------------------------------------------------------------------

  function Prefixed(text: string, read: Option<(string, string)>): Option<(string, string)> {
    match read case Some((more, rest)) => Some((text + more, rest)) case None => None
  }

  lemma PrefixedStep(text: string, c: char, read: Option<(string, string)>)
    ensures Prefixed(text, Prefixed([c], read)) == Prefixed(text + [c], read)
    ensures Prefixed("", read) == read
  {
    if read.Some? {
      assert text + ([c] + read.value.0) == text + [c] + read.value.0;
      assert "" + read.value.0 == read.value.0;
    }
  }

  /** The inner loop: a quoted-string from after its opening quote. */
  method ReadQuoted(quoted: string) returns (r: Option<(string, string)>)
    ensures r == Read(quoted)
  {
    var unescaped, i := "", 0;
    assert quoted[0..] == quoted;
    PrefixedStep("", ' ', Read(quoted));
    while i < |quoted|
      invariant 0 <= i <= |quoted|
      invariant Read(quoted) == Prefixed(unescaped, Read(quoted[i..]))
    {
      var c := quoted[i];
      assert quoted[i..][1..] == quoted[i + 1..];
      if c == '"' {
        assert unescaped + "" == unescaped;
        return Some((unescaped, quoted[i + 1..]));
      }
      if c == '\\' {
        if i + 1 == |quoted| {
          return None;
        }
        assert quoted[i..][2..] == quoted[i + 2..];
        PrefixedStep(unescaped, quoted[i + 1], Read(quoted[i + 2..]));
        unescaped := unescaped + [quoted[i + 1]];
        i := i + 2;
      } else {
        PrefixedStep(unescaped, c, Read(quoted[i + 1..]));
        unescaped := unescaped + [c];
        i := i + 1;
      }
    }
    return None;
  }

  function Joined(out: seq<Directive>, ds: Option<seq<Directive>>): Option<seq<Directive>> {
    match ds case Some(rest) => Some(out + rest) case None => None
  }

  /** What follows a name: blanks, and after an `=` a value. */
  method ReadAfterName(text: string) returns (r: Option<(Option<string>, string)>)
    ensures r == ParseAfterName(text)
  {
    hide IsTokenChar, Read, SkipBlanks, TokenLength;
    var rest := SkipBlanks(text);
    var directiveValue := None;
    if rest != "" && rest[0] == '=' {
      rest := SkipBlanks(rest[1..]);
      if rest != "" && rest[0] == '"' {
        var read := ReadQuoted(rest[1..]);
        if read.None? {
          return None;
        }
        directiveValue, rest := Some(read.value.0), read.value.1;
      } else {
        var length := TokenLength(rest);
        if length == 0 {
          return None;
        }
        directiveValue, rest := Some(rest[..length]), rest[length..];
      }
      rest := SkipBlanks(rest);
    }
    return Some((directiveValue, rest));
  }

  /** `directives`: one pass over a remainder that shrinks. */
  method Directives(value: string) returns (r: Option<seq<Directive>>)
    ensures r == Parse(value)
  {
    hide IsTokenChar, SkipBlanks, TokenLength, Parse, ParseAfterName, Joined, Prepend;
    var out: seq<Directive> := [];
    var rest := value;
    JoinedToNothing(Parse(value));
    while true
      invariant Parse(value) == Joined(out, Parse(rest))
      decreases |rest|
    {
      ParseUnfolds(rest);
      rest := SkipBlanks(rest);
      if rest == "" {
        JoinedTo(out, []);
        return Some(out);
      }
      if rest[0] == ';' {
        rest := rest[1..];
        continue;
      }
      var n := TokenLength(rest);
      if n == 0 {
        JoinedTo(out, []);
        return None;
      }
      var name := rest[..n];
      var read := ReadAfterName(rest[n..]);
      if read.None? {
        JoinedTo(out, []);
        return None;
      }
      ParseAfterNameShortens(rest[n..]);
      rest := read.value.1;
      var d := Directive(name, read.value.0);
      if rest == "" {
        JoinedTo(out, [d]);
        return Some(out + [d]);
      }
      if rest[0] != ';' {
        JoinedTo(out, []);
        return None;
      }
      rest := rest[1..];
      PrependJoined(out, d, Parse(rest));
      out := out + [d];
    }
  }

  lemma JoinedTo(out: seq<Directive>, ds: seq<Directive>)
    ensures Joined(out, Some(ds)) == Some(out + ds) && Joined(out, None) == None && out + [] == out
  {
  }

  lemma JoinedToNothing(ds: Option<seq<Directive>>)
    ensures Joined([], ds) == ds
  {
    if ds.Some? {
      assert [] + ds.value == ds.value;
    }
  }

  lemma PrependJoined(out: seq<Directive>, d: Directive, ds: Option<seq<Directive>>)
    ensures Joined(out, Prepend(d, ds)) == Joined(out + [d], ds)
  {
    if ds.Some? {
      assert out + ([d] + ds.value) == out + [d] + ds.value;
    }
  }

  // ----- The grammar ------------------------------------------------------------------------

  /** How a directive's value is written: not at all, or after an `=` with blanks around it. */
  datatype WrittenValue =
    | Absent
    | AsToken(before: string, after: string, token: string)
    | AsQuoted(before: string, after: string, pieces: seq<Piece>)

  /** One place between semicolons: nothing, or a directive. */
  datatype Item =
    | Nothing(blanks: string)
    | Written(before: string, name: string, value: WrittenValue, after: string)

  predicate ValidValue(v: WrittenValue) {
    match v
    case Absent => true
    case AsToken(b, a, t) => Blanks(b) && Blanks(a) && IsToken(t)
    case AsQuoted(b, a, ps) => Blanks(b) && Blanks(a) && WellWritten(ps)
  }

  predicate ValidItem(item: Item) {
    match item
    case Nothing(b) => Blanks(b)
    case Written(b, name, v, a) => Blanks(b) && IsToken(name) && ValidValue(v) && Blanks(a)
  }

  function RenderValue(v: WrittenValue): string {
    match v
    case Absent => ""
    case AsToken(b, a, t) => b + "=" + a + t
    case AsQuoted(b, a, ps) => b + "=" + a + "\"" + Write(ps) + "\""
  }

  function RenderItem(item: Item): string {
    match item
    case Nothing(b) => b
    case Written(b, name, v, a) => b + name + RenderValue(v) + a
  }

  /** `[ directive ] *( ";" [ directive ] )` */
  function Render(items: seq<Item>): string
    requires items != []
  {
    if |items| == 1 then RenderItem(items[0]) else RenderItem(items[0]) + ";" + Render(items[1..])
  }

  function ValueMeaning(v: WrittenValue): Option<string> {
    match v
    case Absent => None
    case AsToken(_, _, t) => Some(t)
    case AsQuoted(_, _, ps) => Some(QuotedString.Meaning(ps))
  }

  function ItemMeaning(item: Item): seq<Directive> {
    match item
    case Nothing(_) => []
    case Written(_, name, v, _) => [Directive(name, ValueMeaning(v))]
  }

  function DirectivesOf(items: seq<Item>): seq<Directive> {
    if items == [] then [] else ItemMeaning(items[0]) + DirectivesOf(items[1..])
  }

  predicate ValidItems(items: seq<Item>) {
    items != [] && forall i | 0 <= i < |items| :: ValidItem(items[i])
  }

  // ----- Every rendering parses back --------------------------------------------------------

  lemma {:induction false} BlankLengthOf(b: string, s: string)
    requires Blanks(b) && (s != "" ==> !IsBlank(s[0]))
    ensures BlankLength(b + s) == |b|
  {
    if b == "" {
      assert b + s == s;
    } else {
      assert (b + s)[1..] == b[1..] + s;
      BlankLengthOf(b[1..], s);
    }
  }

  lemma SkipBlanksOf(b: string, s: string)
    requires Blanks(b) && (s != "" ==> !IsBlank(s[0]))
    ensures SkipBlanks(b + s) == s
  {
    hide BlankLength, Blanks;
    BlankLengthOf(b, s);
  }

  lemma {:induction false} TokenLengthOf(t: string, s: string)
    requires (forall i | 0 <= i < |t| :: IsTokenChar(t[i])) && (s != "" ==> !IsTokenChar(s[0]))
    ensures TokenLength(t + s) == |t|
  {
    if t == "" {
      assert t + s == s;
    } else {
      assert (t + s)[1..] == t[1..] + s;
      TokenLengthOf(t[1..], s);
    }
  }

  predicate AtBoundary(s: string) {
    s == "" || s[0] == ';'
  }

  lemma NotTokenChars()
    ensures !IsTokenChar(' ') && !IsTokenChar('\t') && !IsTokenChar(';') && !IsTokenChar('=') && !IsTokenChar('"')
  {
  }

  lemma Regroup(a: string, b: string, c: string, d: string)
    ensures a + b + c + d == a + (b + (c + d))
  {
  }

  lemma TailOf(c: char, s: string)
    ensures ([c] + s)[0] == c && ([c] + s)[1..] == s
  {
  }

  /** What `ParseAfterName` finds after blanks, an `=` and more blanks. */
  lemma ReadsAfterEquals(before: string, after: string, v: string)
    requires Blanks(before) && Blanks(after) && (v != "" ==> !IsBlank(v[0]))
    ensures ParseAfterName(before + "=" + after + v)
         == match (if v != "" && v[0] == '"' then Read(v[1..])
                   else if TokenLength(v) == 0 then None else Some((v[..TokenLength(v)], v[TokenLength(v)..])))
            case Some((text, rest)) => Some((Some(text), SkipBlanks(rest)))
            case None => None
  {
    hide SkipBlanks, TokenLength, Read, Blanks;
    Regroup(before, "=", after, v);
    SkipBlanksOf(before, "=" + (after + v));
    TailOf('=', after + v);
    SkipBlanksOf(after, v);
  }

  lemma ReadsRenderedToken(v: WrittenValue, a: string, t: string)
    requires ValidValue(v) && v.AsToken? && Blanks(a) && AtBoundary(t)
    ensures ParseAfterName(RenderValue(v) + a + t) == Some((ValueMeaning(v), t))
  {
    hide SkipBlanks, TokenLength, Read, IsTokenChar, ParseAfterName;
    var text := v.token + (a + t);
    NotTokenChars();
    assert RenderValue(v) + a + t == v.before + "=" + v.after + text;
    assert a + t != "" ==> !IsTokenChar((a + t)[0]);
    TokenLengthOf(v.token, a + t);
    assert IsTokenChar(text[0]);
    assert text[..|v.token|] == v.token && text[|v.token|..] == a + t;
    ReadsAfterEquals(v.before, v.after, text);
    SkipBlanksOf(a, t);
  }

  lemma ReadsRenderedQuoted(v: WrittenValue, a: string, t: string)
    requires ValidValue(v) && v.AsQuoted? && Blanks(a) && AtBoundary(t)
    ensures ParseAfterName(RenderValue(v) + a + t) == Some((ValueMeaning(v), t))
  {
    hide SkipBlanks, TokenLength, Read, ParseAfterName, Write, QuotedString.Meaning;
    var tail := Write(v.pieces) + "\"" + (a + t);
    assert RenderValue(v) + a + t == v.before + "=" + v.after + ("\"" + tail);
    assert ("\"" + tail)[1..] == tail;
    ReadsWhatIsWritten(v.pieces, a + t);
    ReadsAfterEquals(v.before, v.after, "\"" + tail);
    SkipBlanksOf(a, t);
  }

  /** Reading a value and the blanks behind it. */
  lemma ReadsRenderedValue(v: WrittenValue, a: string, t: string)
    requires ValidValue(v) && Blanks(a) && AtBoundary(t)
    ensures ParseAfterName(RenderValue(v) + a + t) == Some((ValueMeaning(v), t))
  {
    hide SkipBlanks, ParseValue;
    match v {
      case Absent =>
        assert RenderValue(v) + a + t == a + t;
        SkipBlanksOf(a, t);
      case AsToken(_, _, _) => ReadsRenderedToken(v, a, t);
      case AsQuoted(_, _, _) => ReadsRenderedQuoted(v, a, t);
    }
  }

  /** What follows a name is no part of it. */
  lemma AfterNameIsNoToken(v: WrittenValue, a: string, t: string)
    requires ValidValue(v) && Blanks(a) && AtBoundary(t)
    ensures RenderValue(v) + a + t != "" ==> !IsTokenChar((RenderValue(v) + a + t)[0])
  {
    hide IsTokenChar, Write;
    NotTokenChars();
  }

  lemma ReadsRenderedDirective(item: Item, t: string)
    requires ValidItem(item) && item.Written? && AtBoundary(t)
    ensures Parse(RenderItem(item) + t)
         == if t == "" then Some(ItemMeaning(item)) else Prepend(ItemMeaning(item)[0], Parse(t[1..]))
  {
    hide SkipBlanks, TokenLength, IsTokenChar, ParseAfterName, Parse, RenderValue;
    NotTokenChars();
    var tail := RenderValue(item.value) + item.after + t;
    assert RenderItem(item) + t == item.before + (item.name + tail);
    SkipBlanksOf(item.before, item.name + tail);
    AfterNameIsNoToken(item.value, item.after, t);
    TokenLengthOf(item.name, tail);
    assert (item.name + tail)[0] == item.name[0];
    assert (item.name + tail)[..|item.name|] == item.name && (item.name + tail)[|item.name|..] == tail;
    ReadsRenderedValue(item.value, item.after, t);
    ParseUnfolds(RenderItem(item) + t);
  }

  lemma ReadsNothing(item: Item, t: string)
    requires ValidItem(item) && item.Nothing? && AtBoundary(t)
    ensures Parse(RenderItem(item) + t) == if t == "" then Some([]) else Parse(t[1..])
  {
    hide SkipBlanks, TokenLength, Parse, ParseAfterName;
    assert RenderItem(item) == item.blanks;
    SkipBlanksOf(item.blanks, t);
    ParseUnfolds(item.blanks + t);
    assert t != "" ==> t[0] == ';';
  }

  /** Every way to write a list of directives parses back to that list. */
  lemma {:induction false} RenderedParses(items: seq<Item>)
    requires ValidItems(items)
    ensures Parse(Render(items)) == Some(DirectivesOf(items))
  {
    hide Parse, RenderItem;
    var item, rest := items[0], items[1..];
    var t := if rest == [] then "" else ";" + Render(rest);
    if rest != [] {
      assert Render(items) == RenderItem(item) + t;
      assert t[1..] == Render(rest);
      RenderedParses(rest);
    } else {
      assert Render(items) == RenderItem(item) + t;
      assert DirectivesOf(rest) == [];
    }
    if item.Written? {
      ReadsRenderedDirective(item, t);
    } else {
      ReadsNothing(item, t);
    }
    assert ItemMeaning(item) + [] == ItemMeaning(item) && [] + DirectivesOf(rest) == DirectivesOf(rest);
  }

  // ----- Whatever parses is a rendering -----------------------------------------------------

  lemma QuotedWasWritten(c: string, text: string) returns (v: WrittenValue)
    requires Blanks(c) && text != "" && text[0] == '"' && Read(text[1..]).Some?
    ensures ValidValue(v) && !v.Absent? && v.before == "" && ValueMeaning(v) == Some(Read(text[1..]).value.0)
    ensures "=" + c + text == RenderValue(v) + Read(text[1..]).value.1
  {
    hide Read, Write, QuotedString.Meaning, WellWritten;
    var ps := WhatIsReadWasWritten(text[1..]);
    v := AsQuoted("", c, ps);
    assert text == "\"" + text[1..];
    assert "" + "=" + c == "=" + c;
  }

  lemma TokenWasWritten(c: string, text: string) returns (v: WrittenValue)
    requires Blanks(c) && TokenLength(text) > 0
    ensures ValidValue(v) && !v.Absent? && v.before == "" && ValueMeaning(v) == Some(text[..TokenLength(text)])
    ensures "=" + c + text == RenderValue(v) + text[TokenLength(text)..]
  {
    hide IsTokenChar;
    var n := TokenLength(text);
    v := AsToken("", c, text[..n]);
    assert text == text[..n] + text[n..];
    assert "" + "=" + c == "=" + c;
  }

  lemma TextWasWritten(s: string) returns (v: WrittenValue)
    requires ParseValue(s).Some?
    ensures ValidValue(v) && !v.Absent? && v.before == "" && ValueMeaning(v) == Some(ParseValue(s).value.0)
    ensures "=" + s == RenderValue(v) + ParseValue(s).value.1
  {
    hide SkipBlanks, TokenLength, Read, ValidValue, RenderValue, ValueMeaning;
    var text := SkipBlanks(s);
    var c := s[..|s| - |text|];
    assert "=" + s == "=" + c + text;
    if text != "" && text[0] == '"' {
      v := QuotedWasWritten(c, text);
    } else {
      v := TokenWasWritten(c, text);
    }
  }

  lemma Relead(v: WrittenValue, b: string)
    requires !v.Absent? && ValidValue(v) && v.before == "" && Blanks(b)
    ensures ValidValue(v.(before := b)) && ValueMeaning(v.(before := b)) == ValueMeaning(v)
    ensures RenderValue(v.(before := b)) == b + RenderValue(v)
  {
    hide Write, WellWritten, IsToken, Blanks, QuotedString.Meaning;
    match v {
      case AsToken(_, a, t) => LeadWith(b, "=", a, t);
      case AsQuoted(_, a, ps) =>
        var tail := "\"" + Write(ps) + "\"";
        LeadWith(b, "=", a, tail);
        assert b + "=" + a + tail == b + "=" + a + "\"" + Write(ps) + "\"";
        assert "" + "=" + a + tail == "" + "=" + a + "\"" + Write(ps) + "\"";
    }
  }

  lemma LeadWith(b: string, x: string, y: string, z: string)
    ensures b + x + y + z == b + ("" + x + y + z)
  {
    assert "" + x == x;
    assert b + x + y == b + (x + y);
  }

  lemma ValueWasWritten(s: string) returns (v: WrittenValue, a: string)
    requires ParseAfterName(s).Some?
    ensures ValidValue(v) && Blanks(a) && ValueMeaning(v) == ParseAfterName(s).value.0
    ensures s == RenderValue(v) + a + ParseAfterName(s).value.1
  {
    hide SkipBlanks, ParseValue, Blanks;
    var r := SkipBlanks(s);
    var b := s[..|s| - |r|];
    assert s == b + r;
    if r != "" && r[0] == '=' {
      hide ValidValue, RenderValue, ValueMeaning;
      var w := TextWasWritten(r[1..]);
      var rest := ParseValue(r[1..]).value.1;
      a := rest[..|rest| - |SkipBlanks(rest)|];
      v := w.(before := b);
      Relead(w, b);
      assert r == "=" + r[1..];
      Regroup(b, RenderValue(w), a, SkipBlanks(rest));
    } else {
      v, a := Absent, b;
    }
  }

  lemma AssembleItem(s: string, b: string, name: string, v: WrittenValue, a: string, after: string, tail: string)
    requires s == b + (name + tail) && tail == RenderValue(v) + a + after
    ensures s == RenderItem(Written(b, name, v, a)) + after
  {
    hide RenderValue;
  }

  /** Whatever parses is a way to write the list it parses to. */
  lemma {:induction false} ParsedWasWritten(s: string) returns (items: seq<Item>)
    requires Parse(s).Some?
    ensures ValidItems(items) && Render(items) == s && DirectivesOf(items) == Parse(s).value
    decreases |s|
  {
    hide SkipBlanks, TokenLength, IsTokenChar, ParseAfterName, Parse, RenderValue, ValidValue, Render, DirectivesOf,
      ValidItems;
    ParseUnfolds(s);
    var r := SkipBlanks(s);
    var b := s[..|s| - |r|];
    if r == "" {
      items := [Nothing(b)];
      assert s == b;
      OneItem(Nothing(b));
    } else if r[0] == ';' {
      var rest := ParsedWasWritten(r[1..]);
      assert r == ";" + r[1..];
      assert s == b + ";" + r[1..];
      items := [Nothing(b)] + rest;
      ConsItems(Nothing(b), rest);
      assert [] + DirectivesOf(rest) == DirectivesOf(rest);
    } else {
      var n := TokenLength(r);
      var v, a := ValueWasWritten(r[n..]);
      var after := ParseAfterName(r[n..]).value.1;
      ParseAfterNameShortens(r[n..]);
      var item := Written(b, r[..n], v, a);
      assert r == r[..n] + r[n..];
      AssembleItem(s, b, r[..n], v, a, after, r[n..]);
      if after == "" {
        items := [item];
        assert s == RenderItem(item);
        OneItem(item);
      } else {
        var rest := ParsedWasWritten(after[1..]);
        assert after == ";" + after[1..];
        items := [item] + rest;
        ConsItems(item, rest);
        assert s == RenderItem(item) + ";" + after[1..];
      }
    }
  }

  lemma OneItem(item: Item)
    requires ValidItem(item)
    ensures ValidItems([item]) && Render([item]) == RenderItem(item) && DirectivesOf([item]) == ItemMeaning(item)
  {
    hide ValidItem, RenderItem, ItemMeaning;
    assert [item][1..] == [];
    assert ItemMeaning(item) + [] == ItemMeaning(item);
  }

  lemma ConsItems(item: Item, rest: seq<Item>)
    requires ValidItem(item) && ValidItems(rest)
    ensures ValidItems([item] + rest)
    ensures Render([item] + rest) == RenderItem(item) + ";" + Render(rest)
    ensures DirectivesOf([item] + rest) == ItemMeaning(item) + DirectivesOf(rest)
  {
    hide ValidItem, RenderItem, ItemMeaning;
    assert ([item] + rest)[1..] == rest;
  }

  /** The parser is the grammar: a value parses to a list exactly when it is a way to write it. */
  lemma ParsesExactlyTheGrammar(s: string, ds: seq<Directive>)
    ensures Parse(s) == Some(ds)
            <==> exists items :: ValidItems(items) && Render(items) == s && DirectivesOf(items) == ds
  {
    if Parse(s) == Some(ds) {
      var items := ParsedWasWritten(s);
    }
    forall items | ValidItems(items) && Render(items) == s && DirectivesOf(items) == ds
      ensures Parse(s) == Some(ds)
    {
      RenderedParses(items);
    }
  }
}
