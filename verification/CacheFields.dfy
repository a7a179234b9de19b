/** What the list fields the cache reads mean as they are written: `Vary` and `Connection`, whose every
    comma separates, and `Cache-Control`, whose commas inside quoted-strings do not. */
module CacheFields {
  import opened Text
  import opened Headers
  import opened CacheEntries

  // ----- Members between commas -------------------------------------------------------------

  predicate StandsBetween(value: string, before: string, part: string, after: string) {
    && value == before + part + after && ',' !in part
    && (before == "" || before[|before| - 1] == ',') && (after == "" || after[0] == ',')
  }

  /** Between two commas of the value, or one and an end of it, stands just this. */
  ghost predicate IsMember(value: string, part: string) {
    exists before, after :: StandsBetween(value, before, part, after)
  }

  /** Some visible line of the field has this member. */
  ghost predicate Lists(h: HeaderMap, name: string, part: string) {
    exists value :: Line(name, value) in h && IsVisible(value) && IsMember(value, part)
  }

  /** The first member, and what follows the comma that ends it. */
  lemma {:induction false} FirstSplit(s: string)
    ensures var n, r := Find(s, ','), SplitCommas(s);
            r[0] == s[..n] && r[1..] == (if n < |s| then SplitCommas(s[n + 1..]) else [])
  {
    if s != "" && s[0] != ',' {
      FirstSplit(s[1..]);
      var n := Find(s, ',');
      assert [s[0]] + s[1..][..n - 1] == s[..n];
      if n < |s| {
        assert s[1..][n..] == s[n + 1..];
      }
    }
  }

  lemma {:induction false} SplitCommasMembers(value: string, part: string)
    ensures part in SplitCommas(value) <==> IsMember(value, part)
    decreases |value|
  {
    hide Find, SplitCommas, StandsBetween;
    FirstSplit(value);
    var n, r := Find(value, ','), SplitCommas(value);
    assert r == [r[0]] + r[1..];
    FirstMemberStands(value);
    if n < |value| {
      SplitCommasMembers(value[n + 1..], part);
      if IsMember(value[n + 1..], part) {
        var before, after :| StandsBetween(value[n + 1..], before, part, after);
        MemberOfTheRest(value, n, before, part, after);
      }
    }
    if IsMember(value, part) {
      var before, after :| StandsBetween(value, before, part, after);
      MemberIsFirstOrLater(value, before, part, after);
    }
  }

  lemma FirstMemberStands(value: string)
    ensures StandsBetween(value, "", value[..Find(value, ',')], value[Find(value, ',')..])
  {
    hide Find;
    var n := Find(value, ',');
    assert value == "" + value[..n] + value[n..];
  }

  lemma MemberOfTheRest(value: string, n: nat, before: string, part: string, after: string)
    requires n < |value| && value[n] == ',' && StandsBetween(value[n + 1..], before, part, after)
    ensures StandsBetween(value, value[..n + 1] + before, part, after)
  {
    var first := value[..n + 1];
    assert first[n] == ',';
    assert value == first + (before + part + after) == first + before + part + after;
  }

  lemma MemberIsFirstOrLater(value: string, before: string, part: string, after: string)
    requires StandsBetween(value, before, part, after)
    ensures var n := Find(value, ',');
            if before == "" then part == value[..n] else n < |value| && IsMember(value[n + 1..], part)
  {
    hide Find, StandsBetween;
    if before == "" {
      FirstStandsFirst(value, part, after);
    } else {
      var n := CutBefore(value, before, part, after);
      CutTheFront(value, before, part, after, n);
    }
  }

  lemma FirstStandsFirst(value: string, part: string, after: string)
    requires StandsBetween(value, "", part, after)
    ensures part == value[..Find(value, ',')]
  {
    hide Find;
    FirstMemberIsFirst(part, after);
    assert value == part + after;
  }

  lemma CutBefore(value: string, before: string, part: string, after: string) returns (n: nat)
    requires StandsBetween(value, before, part, after) && before != ""
    ensures n == Find(value, ',') < |before| <= |value|
  {
    hide Find;
    n := Find(value, ',');
    FindsInTheFront(before, part + after);
    assert value == before + (part + after);
  }

  lemma FindsInTheFront(before: string, rest: string)
    requires before != "" && before[|before| - 1] == ','
    ensures Find(before + rest, ',') < |before|
  {
    hide Find;
    var value := before + rest;
    var n := Find(value, ',');
    assert forall i | 0 <= i < n :: value[..n][i] == value[i];
    assert value[|before| - 1] == ',';
  }

  lemma CutTheFront(value: string, before: string, part: string, after: string, n: nat)
    requires StandsBetween(value, before, part, after) && n < |before|
    ensures StandsBetween(value[n + 1..], before[n + 1..], part, after)
  {
    var left := before[n + 1..];
    assert before == before[..n + 1] + left;
    assert value == before[..n + 1] + (left + part + after);
  }

  lemma FirstMemberIsFirst(part: string, after: string)
    requires ',' !in part && (after == "" || after[0] == ',')
    ensures Find(part + after, ',') == |part|
  {
    hide Find;
    if after == "" {
      assert part + after == part;
      FindsNothing(part, ',');
    } else {
      var rest := after[1..];
      assert after == [','] + rest;
      FindsAfter(part, ',', rest);
      calc {
        part + [','] + rest;
        part + ([','] + rest);
        part + after;
      }
    }
  }

  lemma {:induction false} LowerTrimmedNames(parts: seq<string>, name: string)
    ensures name in LowerTrimmed(parts) <==> name != "" && exists i | 0 <= i < |parts| :: Lower(Trim(parts[i])) == name
  {
    hide Lower, Trim;
    if parts != [] {
      LowerTrimmedNames(parts[1..], name);
      assert forall i | 0 < i < |parts| :: parts[i] == parts[1..][i - 1];
      assert forall i | 0 <= i < |parts| - 1 :: parts[1..][i] == parts[i + 1];
    }
  }

  lemma {:induction false} HeaderNamesNames(parts: seq<string>, name: string)
    ensures name in HeaderNames(parts) <==> exists i | 0 <= i < |parts| :: HeaderName(Trim(parts[i])) == Some(name)
  {
    hide HeaderName, Trim;
    if parts != [] {
      HeaderNamesNames(parts[1..], name);
      assert forall i | 0 < i < |parts| :: parts[i] == parts[1..][i - 1];
      assert forall i | 0 <= i < |parts| - 1 :: parts[1..][i] == parts[i + 1];
    }
  }

  /** The members of all visible lines of a field. */
  lemma MembersAreListed(h: HeaderMap, name: string, part: string)
    ensures part in FlatMap(SplitCommas, TextLines(GetAll(h, name))) <==> Lists(h, name, part)
  {
    hide FlatMap, TextLines, GetAll, IsMember, SplitCommas, IsVisible;
    var lines := TextLines(GetAll(h, name));
    FlatMapHas(SplitCommas, lines, part);
    forall value
      ensures value in lines <==> Line(name, value) in h && IsVisible(value)
      ensures part in SplitCommas(value) <==> IsMember(value, part)
    {
      TextLinesAreItsLines(h, name, value);
      SplitCommasMembers(value, part);
    }
    assert forall i | 0 <= i < |lines| :: lines[i] in lines;
  }

  /** The names `Vary` selects by are its members without the whitespace around them, in lower case. */
  lemma VaryNamesAreListed(h: HeaderMap, name: string)
    ensures name in VaryNames(h) <==> name != "" && exists part :: Lists(h, "vary", part) && Lower(Trim(part)) == name
  {
    hide FlatMap, TextLines, GetAll, Lists, Lower, Trim, LowerTrimmed;
    var parts := FlatMap(SplitCommas, TextLines(GetAll(h, "vary")));
    LowerTrimmedNames(parts, name);
    forall part
      ensures part in parts <==> Lists(h, "vary", part)
    {
      MembersAreListed(h, "vary", part);
    }
    assert forall i | 0 <= i < |parts| :: parts[i] in parts;
  }

  /** The fields `Connection` names are its members that are tokens, likewise. */
  lemma ConnectionNamesAreListed(h: HeaderMap, name: string)
    ensures name in ConnectionListed(h)
            <==> exists part :: Lists(h, "connection", part) && IsToken(Trim(part)) && Lower(Trim(part)) == name
  {
    hide FlatMap, TextLines, GetAll, Lists, Lower, Trim, HeaderNames, IsToken;
    var parts := FlatMap(SplitCommas, TextLines(GetAll(h, "connection")));
    HeaderNamesNames(parts, name);
    forall part
      ensures part in parts <==> Lists(h, "connection", part)
    {
      MembersAreListed(h, "connection", part);
    }
    assert forall i | 0 <= i < |parts| :: parts[i] in parts;
  }

  // ----- Written directives -----------------------------------------------------------------

  datatype SaidValue = NoValue | AsToken(before: string, text: string) | AsQuoted(before: string, text: string)

  /** A directive as it can be written, with whitespace wherever it may stand. */
  datatype Said = Said(before: string, name: string, gap: string, value: SaidValue, after: string)
  {
    predicate Valid() {
      && AllWhitespace(before) && AllWhitespace(after) && AllWhitespace(gap) && IsToken(name)
      && match value
         case NoValue => gap == ""
         case AsToken(ws, text) => AllWhitespace(ws) && IsToken(text)
         case AsQuoted(ws, text) => AllWhitespace(ws) && '"' !in text && '\\' !in text
    }

    function ValueText(): string {
      match value
      case NoValue => ""
      case AsToken(_, text) => text
      case AsQuoted(_, text) => "\"" + text + "\""
    }

    function Core(): string {
      if value.NoValue? then name else name + gap + "=" + value.before + ValueText()
    }

    function Text(): string {
      before + Core() + after
    }

    /** What it gives its name: the text of its value, if it has one. */
    function Gives(): Option<string> {
      if value.NoValue? then None else Some(value.text)
    }

    function Means(): Directive {
      Directive(NameOf(Lower(name)), Gives())
    }
  }

  predicate AllValid(said: seq<Said>) {
    forall i | 0 <= i < |said| :: said[i].Valid()
  }

  function Texts(said: seq<Said>): seq<string> {
    seq(|said|, i requires 0 <= i < |said| => said[i].Text())
  }

  function Meanings(said: seq<Said>): seq<Directive> {
    seq(|said|, i requires 0 <= i < |said| => said[i].Means())
  }

  lemma TokenIsPlain(s: string)
    requires IsToken(s)
    ensures Trimmed(s) && s != "" && '=' !in s && ',' !in s && '"' !in s
  {
    hide IsTokenChar, IsWhitespace;
    forall i | 0 <= i < |s|
      ensures !IsWhitespace(s[i]) && s[i] != '=' && s[i] != ',' && s[i] != '"'
    {
      TokenCharIsPlain(s[i]);
    }
  }

  lemma TokenCharIsPlain(c: char)
    requires IsTokenChar(c)
    ensures !IsWhitespace(c) && c != '=' && c != ',' && c != '"'
  {
  }

  lemma WhitespaceIsPlain(s: string)
    requires AllWhitespace(s)
    ensures '=' !in s && ',' !in s && '"' !in s
  {
    assert forall i | 0 <= i < |s| :: IsWhitespace(s[i]);
  }

  lemma CoreIsTrimmed(d: Said)
    requires d.Valid()
    ensures Trimmed(d.Core()) && d.Core() != ""
  {
    hide AllWhitespace, IsToken, Trimmed;
    TokenIsPlain(d.name);
    match d.value {
      case NoValue =>
      case AsToken(_, text) =>
        TokenIsPlain(text);
        TrimmedAtBothEnds(d.name, d.gap + "=" + d.value.before, text);
        assert d.Core() == d.name + (d.gap + "=" + d.value.before) + text;
      case AsQuoted(_, text) =>
        TrimmedQuote(text);
        TrimmedAtBothEnds(d.name, d.gap + "=" + d.value.before, d.ValueText());
        assert d.Core() == d.name + (d.gap + "=" + d.value.before) + d.ValueText();
    }
  }

  lemma TrimmedAtBothEnds(a: string, between: string, b: string)
    requires a != "" && b != "" && Trimmed(a) && Trimmed(b)
    ensures Trimmed(a + between + b)
  {
  }

  lemma TrimmedQuote(text: string)
    ensures Trimmed("\"" + text + "\"") && "\"" + text + "\"" != ""
  {
    var s := "\"" + text + "\"";
    assert s[0] == '"' && s[|s| - 1] == '"';
  }

  lemma TrimQuotesOfPlain(text: string)
    requires '"' !in text
    ensures TrimQuotes(text) == text && TrimQuotes("\"" + text + "\"") == text
  {
    hide TrimQuotes;
    NothingToUnquote(text);
    QuoteAtTheEnd(text);
    QuoteAtTheStart(text + "\"");
    assert "\"" + text + "\"" == "\"" + (text + "\"");
  }

  lemma NothingToUnquote(text: string)
    requires '"' !in text
    ensures TrimQuotes(text) == text
  {
    assert text != "" ==> text[0] in text && text[|text| - 1] in text;
  }

  lemma QuoteAtTheEnd(text: string)
    requires '"' !in text
    ensures TrimQuotes(text + "\"") == text
  {
    var half := text + "\"";
    NothingToUnquote(text);
    if text == "" {
      assert half[1..] == "";
    } else {
      assert half[0] == text[0] && text[0] in text;
      assert half[..|half| - 1] == text;
    }
  }

  lemma QuoteAtTheStart(s: string)
    ensures TrimQuotes("\"" + s) == TrimQuotes(s)
  {
    assert ("\"" + s)[1..] == s;
  }

  /** A directive is read as what it says. */
  lemma SaidIsRead(d: Said)
    requires d.Valid()
    ensures DirectiveOf(d.Text()) == [d.Means()]
  {
    hide Trim, AllWhitespace, IsToken, Trimmed, DirectiveOf;
    CoreIsTrimmed(d);
    TrimOf(d.before, d.Core(), d.after);
    TokenIsPlain(d.name);
    if d.value.NoValue? {
      BareDirective(d.Text(), d.name);
    } else {
      var head, rest := d.name + d.gap, d.value.before + d.ValueText();
      WhitespaceIsPlain(d.gap);
      assert d.Core() == head + "=" + rest;
      ValuedDirective(d.Text(), head, rest);
      NameIsTrimmed(d.name, d.gap);
      ValueIsTrimmed(d);
    }
  }

  lemma BareDirective(text: string, name: string)
    requires Trim(text) == name != "" && '=' !in name
    ensures DirectiveOf(text) == [Directive(NameOf(Lower(name)), None)]
  {
    hide Trim, Find, Lower, NameOf;
    FindsNothing(name, '=');
  }

  lemma ValuedDirective(text: string, head: string, rest: string)
    requires Trim(text) == head + "=" + rest && '=' !in head
    ensures DirectiveOf(text) == [Directive(NameOf(Lower(Trim(head))), Some(TrimQuotes(Trim(rest))))]
  {
    hide Trim, Find, Lower, NameOf, TrimQuotes;
    var p := head + "=" + rest;
    FindsAfter(head, '=', rest);
    assert p == head + ['='] + rest && p[..|head|] == head && p[|head| + 1..] == rest;
  }

  lemma NameIsTrimmed(name: string, gap: string)
    requires Trimmed(name) && AllWhitespace(gap)
    ensures Trim(name + gap) == name
  {
    hide Trim;
    TrimOf("", name, gap);
    assert "" + name + gap == name + gap;
  }

  lemma ValueIsTrimmed(d: Said)
    requires d.Valid() && !d.value.NoValue?
    ensures TrimQuotes(Trim(d.value.before + d.ValueText())) == d.value.text
  {
    hide Trim, TrimQuotes, AllWhitespace, IsToken, Trimmed;
    var text, v := d.value.text, d.ValueText();
    if d.value.AsToken? {
      TokenIsPlain(text);
    } else {
      TrimmedQuote(text);
    }
    TrimOf(d.value.before, v, "");
    assert d.value.before + v + "" == d.value.before + v;
    TrimQuotesOfPlain(text);
  }

  lemma {:induction false} PlainInsideQuotes(text: string)
    requires '"' !in text && '\\' !in text
    ensures Whole(text, Inside) && End(text, Inside) == Inside
  {
    if text != "" {
      assert text[0] in text;
      PlainInsideQuotes(text[1..]);
    }
  }

  lemma QuotedTextIsClosed(text: string)
    requires '"' !in text && '\\' !in text
    ensures Closed("\"" + text + "\"")
  {
    hide Whole, End;
    PlainInsideQuotes(text);
    ClosingQuote();
    WholeAppend(text, "\"", Inside);
    EndAppend(text, "\"", Inside);
    WholeAppend("\"", text + "\"", Outside);
    EndAppend("\"", text + "\"", Outside);
    assert "\"" + text + "\"" == "\"" + (text + "\"");
  }

  lemma SaidIsClosed(d: Said)
    requires d.Valid()
    ensures Closed(d.Text())
  {
    hide Closed, AllWhitespace, IsToken, Trimmed;
    WhitespaceIsPlain(d.before);
    WhitespaceIsPlain(d.gap);
    WhitespaceIsPlain(d.after);
    TokenIsPlain(d.name);
    PlainIsClosed(d.after);
    if d.value.NoValue? {
      PlainIsClosed(d.before + d.name);
      assert d.Text() == d.before + d.name + d.after;
      ClosedAppend(d.before + d.name, d.after);
    } else {
      WhitespaceIsPlain(d.value.before);
      var head := d.before + d.name + d.gap + "=" + d.value.before;
      PlainIsClosed(head);
      if d.value.AsToken? {
        TokenIsPlain(d.value.text);
        PlainIsClosed(d.ValueText());
      } else {
        QuotedTextIsClosed(d.value.text);
      }
      ClosedAppend(head, d.ValueText());
      ClosedAppend(head + d.ValueText(), d.after);
      assert d.Text() == head + d.ValueText() + d.after;
    }
  }

  lemma {:induction false} AllSaidAreRead(said: seq<Said>)
    requires AllValid(said)
    ensures FlatMap(DirectiveOf, Texts(said)) == Meanings(said)
  {
    hide Said.Text, Said.Valid, Said.Means, DirectiveOf;
    if said != [] {
      SaidIsRead(said[0]);
      AllSaidAreRead(said[1..]);
      assert Texts(said)[1..] == Texts(said[1..]);
      assert Meanings(said) == [said[0].Means()] + Meanings(said[1..]);
    }
  }

  /** A line of directives is read as what they say, one after the other. */
  lemma SaidLineIsRead(said: seq<Said>)
    requires said != [] && AllValid(said)
    ensures LineDirectives(Join(Texts(said), ",")) == Meanings(said)
  {
    hide Join, Split, Closed, FlatMap, Said.Text, Said.Valid, Meanings;
    var texts := Texts(said);
    forall i | 0 <= i < |texts|
      ensures Closed(texts[i])
    {
      SaidIsClosed(said[i]);
    }
    ClosedPartsSplit(texts);
    AllSaidAreRead(said);
  }

  /** The lines of a `Cache-Control` field, each of one directive or more. */
  predicate GoodLines(lines: seq<seq<Said>>) {
    forall i | 0 <= i < |lines| :: lines[i] != [] && AllValid(lines[i])
  }

  function LineTexts(lines: seq<seq<Said>>): seq<string> {
    seq(|lines|, i requires 0 <= i < |lines| => Join(Texts(lines[i]), ","))
  }

  /** All the directives said, in their order. */
  function AllSaid(lines: seq<seq<Said>>): seq<Said> {
    if lines == [] then [] else lines[0] + AllSaid(lines[1..])
  }

  lemma {:induction false} SaidLinesAreRead(lines: seq<seq<Said>>)
    requires GoodLines(lines)
    ensures FlatMap(LineDirectives, LineTexts(lines)) == Meanings(AllSaid(lines))
  {
    hide LineDirectives, Join, Texts, Meanings, AllValid;
    if lines == [] {
      NothingMeant();
    } else {
      SaidLineIsRead(lines[0]);
      SaidLinesAreRead(lines[1..]);
      assert LineTexts(lines)[1..] == LineTexts(lines[1..]);
      MeaningsConcat(lines[0], AllSaid(lines[1..]));
    }
  }

  lemma NothingMeant()
    ensures Meanings([]) == []
  {
  }

  lemma MeaningsConcat(a: seq<Said>, b: seq<Said>)
    ensures Meanings(a + b) == Meanings(a) + Meanings(b)
  {
  }

  // ----- What they come to ------------------------------------------------------------------

  predicate SaidAs(said: seq<Said>, i: nat, name: string) {
    i < |said| && SameButCase(said[i].name, name)
  }

  ghost predicate IsSaid(said: seq<Said>, name: string) {
    exists i: nat :: SaidAs(said, i, name)
  }

  ghost predicate FirstSaid(said: seq<Said>, i: nat, name: string) {
    i < |said| && SaidAs(said, i, name) && forall j | 0 <= j < i :: !SaidAs(said, j, name)
  }

  ghost predicate LastSaid(said: seq<Said>, i: nat, name: string) {
    i < |said| && SaidAs(said, i, name) && forall j | i < j < |said| :: !SaidAs(said, j, name)
  }

  /** The directive names, as the standards write them. */
  function WrittenName(name: Name): string {
    match name
    case NoStore => "no-store"
    case NoCache => "no-cache"
    case MustRevalidate => "must-revalidate"
    case Immutable => "immutable"
    case Private => "private"
    case Public => "public"
    case MustUnderstand => "must-understand"
    case MaxAge => "max-age"
    case StaleWhileRevalidate => "stale-while-revalidate"
    case OnlyIfCached => "only-if-cached"
    case MaxStale => "max-stale"
    case MinFresh => "min-fresh"
    case Unknown => ""
  }

  lemma WrittenNames()
    ensures WrittenName(NoStore) == "no-store" && WrittenName(NoCache) == "no-cache"
    ensures WrittenName(MustRevalidate) == "must-revalidate" && WrittenName(Immutable) == "immutable"
    ensures WrittenName(Private) == "private" && WrittenName(Public) == "public"
    ensures WrittenName(MustUnderstand) == "must-understand" && WrittenName(MaxAge) == "max-age"
    ensures WrittenName(StaleWhileRevalidate) == "stale-while-revalidate"
    ensures WrittenName(OnlyIfCached) == "only-if-cached"
    ensures WrittenName(MaxStale) == "max-stale" && WrittenName(MinFresh) == "min-fresh"
  {
  }

  lemma NameOfIsTheWrittenName(s: string, name: Name)
    requires !name.Unknown?
    ensures NameOf(s) == name <==> s == WrittenName(name)
  {
    hide NameOf, WrittenName;
    NamedIsWritten(s);
    WrittenIsNamed(name);
  }

  lemma NamedIsWritten(s: string)
    ensures !NameOf(s).Unknown? ==> s == WrittenName(NameOf(s))
  {
    hide WrittenName;
    WrittenNames();
  }

  lemma WrittenIsNamed(name: Name)
    ensures !name.Unknown? ==> NameOf(WrittenName(name)) == name
  {
    match name {
      case NoStore =>
      case NoCache =>
      case MustRevalidate =>
      case Immutable =>
      case Private =>
      case Public =>
      case MustUnderstand =>
      case MaxAge =>
      case StaleWhileRevalidate =>
      case OnlyIfCached =>
      case MaxStale =>
      case MinFresh =>
      case Unknown =>
    }
  }

  predicate NoUpper(s: string) {
    forall i | 0 <= i < |s| :: !IsUpper(s[i])
  }

  lemma FlagNamesAreLower()
    ensures NoUpper("no-store") && NoUpper("no-cache") && NoUpper("immutable") && NoUpper("private") && NoUpper("public")
  {
  }

  lemma MustNamesAreLower()
    ensures NoUpper("must-revalidate") && NoUpper("must-understand") && NoUpper("")
  {
  }

  lemma AgeNamesAreLower()
    ensures NoUpper("max-age") && NoUpper("max-stale") && NoUpper("min-fresh")
  {
  }

  lemma LongNamesAreLower()
    ensures NoUpper("stale-while-revalidate") && NoUpper("only-if-cached")
  {
  }

  lemma WrittenNamesAreLower(name: Name)
    ensures Lower(WrittenName(name)) == WrittenName(name)
  {
    NoUpperInNames(name);
    LowerOfLower(WrittenName(name));
  }

  lemma NoUpperInNames(name: Name)
    ensures NoUpper(WrittenName(name))
  {
    hide NoUpper;
    FlagNamesAreLower();
    MustNamesAreLower();
    AgeNamesAreLower();
    LongNamesAreLower();
  }

  lemma LowerOfLower(s: string)
    requires NoUpper(s)
    ensures Lower(s) == s
  {
  }

  lemma NameIsTold(written: string, name: Name)
    requires !name.Unknown?
    ensures NameOf(Lower(written)) == name <==> SameButCase(written, WrittenName(name))
  {
    hide NameOf, WrittenName, SameButCase, Lower;
    NameOfIsTheWrittenName(Lower(written), name);
    WrittenNamesAreLower(name);
    LowerTellsAllButCase(written, WrittenName(name));
  }

  predicate NamedAt(ds: seq<Directive>, i: nat, name: Name) {
    i < |ds| && ds[i].name == name
  }

  lemma {:induction false} FirstValueIsFirst(ds: seq<Directive>, name: Name)
    ensures name in FirstValues(ds) <==> exists i: nat :: NamedAt(ds, i, name)
    ensures forall i: nat | NamedAt(ds, i, name) && (forall j | 0 <= j < i :: !NamedAt(ds, j, name)) ::
              FirstValues(ds)[name] == ds[i].value
  {
    if ds != [] {
      var front := ds[..|ds| - 1];
      FirstValueIsFirst(front, name);
      assert forall i: nat | i < |front| :: NamedAt(front, i, name) == NamedAt(ds, i, name);
      if ds[|ds| - 1].name == name {
        assert NamedAt(ds, |ds| - 1, name);
      }
    }
  }

  lemma {:induction false} LastValueIsLast(ds: seq<Directive>, name: Name)
    ensures name in LastValues(ds) <==> exists i: nat :: NamedAt(ds, i, name)
    ensures forall i: nat | NamedAt(ds, i, name) && (forall j | i < j < |ds| :: !NamedAt(ds, j, name)) ::
              LastValues(ds)[name] == ds[i].value
  {
    hide NamedAt, LastValues;
    if ds == [] {
      NothingNamed(name);
    } else {
      var front, n := ds[..|ds| - 1], |ds| - 1;
      LastValuesStep(ds);
      LastValueIsLast(front, name);
      forall i: nat
        ensures NamedAt(ds, i, name) <==> if i == n then ds[n].name == name else NamedAt(front, i, name)
        ensures NamedAt(front, i, name) ==> i < n && front[i] == ds[i]
      {
        NamedInFront(ds, i, name);
      }
    }
  }

  lemma NothingNamed(name: Name)
    ensures name !in LastValues([]) && forall i: nat :: !NamedAt([], i, name)
  {
  }

  lemma LastValuesStep(ds: seq<Directive>)
    requires ds != []
    ensures LastValues(ds) == LastValues(ds[..|ds| - 1])[ds[|ds| - 1].name := ds[|ds| - 1].value]
  {
  }

  lemma NamedInFront(ds: seq<Directive>, i: nat, name: Name)
    requires ds != []
    ensures var front, n := ds[..|ds| - 1], |ds| - 1;
            && (NamedAt(ds, i, name) <==> if i == n then ds[n].name == name else NamedAt(front, i, name))
            && (NamedAt(front, i, name) ==> i < n && front[i] == ds[i])
  {
  }

  /** What is said under a name, and what is read under it. */
  lemma SaidIsNamed(said: seq<Said>, i: nat, name: Name)
    requires !name.Unknown?
    ensures NamedAt(Meanings(said), i, name) <==> SaidAs(said, i, WrittenName(name))
  {
    hide SameButCase, WrittenName, NameOf, Lower;
    if i < |said| {
      NameIsTold(said[i].name, name);
      assert Meanings(said)[i] == said[i].Means();
    }
  }

  lemma FirstGiven(said: seq<Said>, name: Name)
    requires !name.Unknown?
    ensures var values := FirstValues(Meanings(said));
            && (name in values <==> IsSaid(said, WrittenName(name)))
            && forall i: nat | FirstSaid(said, i, WrittenName(name)) :: values[name] == said[i].Gives()
  {
    hide SaidAs, NamedAt, FirstValues, WrittenName, NameOf, Lower;
    var ds := Meanings(said);
    FirstValueIsFirst(ds, name);
    forall i: nat
      ensures NamedAt(ds, i, name) <==> SaidAs(said, i, WrittenName(name))
    {
      SaidIsNamed(said, i, name);
    }
    forall i: nat | FirstSaid(said, i, WrittenName(name))
      ensures FirstValues(ds)[name] == said[i].Gives()
    {
      assert ds[i] == said[i].Means();
    }
  }

  lemma LastGiven(said: seq<Said>, name: Name)
    requires !name.Unknown?
    ensures var values := LastValues(Meanings(said));
            && (name in values <==> IsSaid(said, WrittenName(name)))
            && forall i: nat | LastSaid(said, i, WrittenName(name)) :: values[name] == said[i].Gives()
  {
    hide SaidAs, NamedAt, LastValues, WrittenName, NameOf, Lower;
    var ds := Meanings(said);
    LastValueIsLast(ds, name);
    forall i: nat
      ensures NamedAt(ds, i, name) <==> SaidAs(said, i, WrittenName(name))
    {
      SaidIsNamed(said, i, name);
    }
    forall i: nat | LastSaid(said, i, WrittenName(name))
      ensures LastValues(ds)[name] == said[i].Gives()
    {
      assert ds[i] == said[i].Means();
    }
  }

  /** The directive is given this number, whatever whitespace its quotes hold around it. */
  ghost predicate GivesNumber(d: Said, digits: string) {
    && digits != "" && AllDigits(digits)
    && exists ws, after :: AllWhitespace(ws) && AllWhitespace(after) && d.Gives() == Some(ws + digits + after)
  }

  /** The seconds the directive is given, up to the limit, or that it is given none. */
  ghost predicate SecondsAre(d: Said, secs: Option<nat>) {
    match secs
    case Some(n) => exists digits :: GivesNumber(d, digits) && n == Min(DecimalValue(digits), MAX_DELTA_SECS)
    case None => forall digits :: !GivesNumber(d, digits)
  }

  lemma SecondsAreRead(d: Said)
    ensures SecondsAre(d, SecondsOf(d.Gives()))
  {
    hide DecimalValue, DeltaSeconds;
    if d.Gives().Some? {
      var text := d.Gives().value;
      if DeltaSeconds(text).Some? {
        NumberIsRead(d);
      } else {
        forall digits
          ensures !GivesNumber(d, digits)
        {
          if GivesNumber(d, digits) {
            var ws, after :|
              AllWhitespace(ws) && AllWhitespace(after) && d.Gives() == Some(ws + digits + after);
            DeltaSecondsReads(ws, digits, after);
          }
        }
      }
    }
  }

  lemma NumberIsRead(d: Said)
    requires d.Gives().Some? && DeltaSeconds(d.Gives().value).Some?
    ensures SecondsAre(d, DeltaSeconds(d.Gives().value))
  {
    hide DecimalValue, Trim;
    var text := d.Gives().value;
    var ws, after := TrimCuts(text);
    assert GivesNumber(d, Trim(text));
  }

  /** The field says these directives: its visible lines are theirs. */
  ghost predicate Says(h: HeaderMap, lines: seq<seq<Said>>) {
    GoodLines(lines) && TextLines(GetAll(h, "cache-control")) == LineTexts(lines)
  }

  lemma FirstSeconds(said: seq<Said>, name: Name)
    requires !name.Unknown?
    ensures var values := FirstValues(Meanings(said));
            && (name in values <==> IsSaid(said, WrittenName(name)))
            && forall i: nat | FirstSaid(said, i, WrittenName(name)) :: SecondsAre(said[i], SecondsOf(values[name]))
  {
    hide SecondsAre, SecondsOf, WrittenName, FirstValues, Meanings;
    FirstGiven(said, name);
    forall i: nat | FirstSaid(said, i, WrittenName(name))
      ensures SecondsAre(said[i], SecondsOf(FirstValues(Meanings(said))[name]))
    {
      SecondsAreRead(said[i]);
    }
  }

  lemma LastSeconds(said: seq<Said>, name: Name)
    requires !name.Unknown?
    ensures var values := LastValues(Meanings(said));
            && (name in values <==> IsSaid(said, WrittenName(name)))
            && forall i: nat | LastSaid(said, i, WrittenName(name)) :: SecondsAre(said[i], SecondsOf(values[name]))
  {
    hide SecondsAre, SecondsOf, WrittenName, LastValues, Meanings;
    LastGiven(said, name);
    forall i: nat | LastSaid(said, i, WrittenName(name))
      ensures SecondsAre(said[i], SecondsOf(LastValues(Meanings(said))[name]))
    {
      SecondsAreRead(said[i]);
    }
  }

  /** The directives of a response mean what they say, in any case, on any lines, quoted or not: a flag is
      set exactly when it is said, and of a `max-age` or `stale-while-revalidate` said twice the first
      counts, a `max-age` without a number as zero. */
  lemma ResponseMeansWhatItSays(h: HeaderMap, lines: seq<seq<Said>>)
    requires Says(h, lines)
    ensures var said, r := AllSaid(lines), ResponseDirectivesOf(h);
            && (r.noStore <==> IsSaid(said, "no-store")) && (r.noCache <==> IsSaid(said, "no-cache"))
            && (r.mustRevalidate <==> IsSaid(said, "must-revalidate")) && (r.immutable <==> IsSaid(said, "immutable"))
            && (r.isPrivate <==> IsSaid(said, "private")) && (r.isPublic <==> IsSaid(said, "public"))
            && (r.mustUnderstand <==> IsSaid(said, "must-understand"))
            && (r.maxAge.Some? <==> IsSaid(said, "max-age"))
            && (forall i: nat | FirstSaid(said, i, "max-age") ::
                  SecondsAre(said[i], r.maxAge) || (r.maxAge == Some(0) && SecondsAre(said[i], None)))
            && (r.staleWhileRevalidate.Some? ==> IsSaid(said, "stale-while-revalidate"))
            && (forall i: nat | FirstSaid(said, i, "stale-while-revalidate") ::
                  SecondsAre(said[i], r.staleWhileRevalidate))
  {
    hide SecondsAre, SecondsOf, WrittenName, FirstValues, Meanings, IsSaid, SaidAs, AllSaid, LineDirectives, FlatMap,
      TextLines, GetAll, LineTexts;
    var said := AllSaid(lines);
    var values := FirstValues(Meanings(said));
    SaidLinesAreRead(lines);
    WrittenNames();
    forall name: Name | !name.Unknown?
      ensures name in values <==> IsSaid(said, WrittenName(name))
    {
      FirstSeconds(said, name);
    }
    FirstSeconds(said, MaxAge);
    FirstSeconds(said, StaleWhileRevalidate);
    FirstIsSaid(said);
  }

  lemma FirstIsSaid(said: seq<Said>)
    ensures forall i: nat, name | FirstSaid(said, i, name) :: IsSaid(said, name)
    ensures forall i: nat, name | LastSaid(said, i, name) :: IsSaid(said, name)
  {
  }

  /** Those of a request likewise, but that of one said twice the last counts, that one without a number
      asks for nothing but a `max-stale`, and that `no-cache` may be said by `Pragma` alone. */
  lemma RequestMeansWhatItSays(h: HeaderMap, lines: seq<seq<Said>>)
    requires Says(h, lines)
    ensures var said, r := AllSaid(lines), RequestDirectivesOf(h);
            && (r.noStore <==> IsSaid(said, "no-store"))
            && (r.noCache <==> IsSaid(said, "no-cache") || PragmaNoCache(h))
            && (r.onlyIfCached <==> IsSaid(said, "only-if-cached"))
            && (r.maxAge.Some? ==> IsSaid(said, "max-age"))
            && (forall i: nat | LastSaid(said, i, "max-age") :: SecondsAre(said[i], r.maxAge))
            && (r.minFresh.Some? ==> IsSaid(said, "min-fresh"))
            && (forall i: nat | LastSaid(said, i, "min-fresh") :: SecondsAre(said[i], r.minFresh))
            && (r.maxStale.Some? <==> IsSaid(said, "max-stale"))
            && (forall i: nat | LastSaid(said, i, "max-stale") :: r.maxStale.Some? && SecondsAre(said[i], r.maxStale.value))
  {
    hide SecondsAre, SecondsOf, WrittenName, LastValues, Meanings, IsSaid, SaidAs, AllSaid, LineDirectives, FlatMap,
      TextLines, GetAll, LineTexts, PragmaNoCache;
    var said := AllSaid(lines);
    var values := LastValues(Meanings(said));
    SaidLinesAreRead(lines);
    WrittenNames();
    forall name: Name | !name.Unknown?
      ensures name in values <==> IsSaid(said, WrittenName(name))
    {
      LastSeconds(said, name);
    }
    LastSeconds(said, MaxAge);
    LastSeconds(said, MinFresh);
    LastSeconds(said, MaxStale);
    FirstIsSaid(said);
  }

  /** `Pragma: no-cache` counts when there is no `Cache-Control` at all. */
  lemma PragmaIsListed(h: HeaderMap)
    ensures PragmaNoCache(h)
            <==> && (forall i | 0 <= i < |h| :: h[i].name != "cache-control")
                 && exists part :: Lists(h, "pragma", part) && SameButCase(Trim(part), "no-cache")
  {
    hide FlatMap, TextLines, GetAll, Lists, Lower, Trim, SameButCase;
    NoLineOf(h, "cache-control");
    var parts := FlatMap(SplitCommas, TextLines(GetAll(h, "pragma")));
    WrittenNamesAreLower(NoCache);
    forall part
      ensures part in parts <==> Lists(h, "pragma", part)
      ensures Lower(Trim(part)) == "no-cache" <==> SameButCase(Trim(part), "no-cache")
    {
      MembersAreListed(h, "pragma", part);
      LowerTellsAllButCase(Trim(part), "no-cache");
    }
  }

  lemma {:induction false} NoLineOf(h: HeaderMap, name: string)
    ensures GetAll(h, name) == [] <==> forall i | 0 <= i < |h| :: h[i].name != name
  {
    if h != [] {
      NoLineOf(h[1..], name);
      assert forall i | 0 < i < |h| :: h[i] == h[1..][i - 1];
      assert forall i | 0 <= i < |h| - 1 :: h[1..][i] == h[i + 1];
    }
  }
}
