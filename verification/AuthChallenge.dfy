/** Reading the challenges of a `WWW-Authenticate` or `Proxy-Authenticate` header, in whose grammar
    one comma separates both the challenges and the parameters of a challenge. */
module AuthChallenges {
  import opened Text
  import Q = QuotedString

  datatype Challenge = Challenge(scheme: string, params: seq<(string, string)>, token68: Option<string>)

  // ----- Parameters -------------------------------------------------------------------------

  /** The text with each backslash gone and the character after it kept; a last one stands for none. */
  function Unquoted(s: string): string {
    if s == "" then ""
    else if s[0] != '\\' then [s[0]] + Unquoted(s[1..])
    else if |s| == 1 then ""
    else [s[1]] + Unquoted(s[2..])
  }

  lemma {:induction false} NothingToUnquote(s: string)
    requires '\\' !in s
    ensures Unquoted(s) == s
  {
    if s != "" {
      NothingToUnquote(s[1..]);
      assert [s[0]] + s[1..] == s;
    }
  }

  /** `unquote`: one pass, with a shortcut for a text without escapes. */
  method Unquote(inner: string) returns (r: string)
    ensures r == Unquoted(inner)
  {
    if '\\' !in inner {
      NothingToUnquote(inner);
      return inner;
    }
    hide Unquoted;
    r := "";
    var i := 0;
    while i < |inner|
      invariant 0 <= i <= |inner|
      invariant r + Unquoted(inner[i..]) == Unquoted(inner)
    {
      UnquotedStep(inner, i);
      if inner[i] == '\\' {
        if i + 1 < |inner| {
          r := r + [inner[i + 1]];
        }
        i := if i + 2 <= |inner| then i + 2 else |inner|;
      } else {
        r := r + [inner[i]];
        i := i + 1;
      }
    }
    NothingToUnquote("");
  }

  lemma UnquotedStep(s: string, i: nat)
    requires i < |s|
    ensures Unquoted(s[i..])
         == if s[i] != '\\' then [s[i]] + Unquoted(s[i + 1..])
            else if i + 1 == |s| then Unquoted(s[i + 1..])
            else [s[i + 1]] + Unquoted(s[i + 2..])
  {
    assert s[i..][1..] == s[i + 1..];
    if i + 2 <= |s| {
      assert s[i..][2..] == s[i + 2..];
    }
  }

  function ParamValue(raw: string): Option<string> {
    if raw != "" && raw[0] == '"' then
      if |raw| >= 2 && raw[|raw| - 1] == '"' then Some(Unquoted(raw[1..|raw| - 1])) else None
    else if IsToken(raw) then Some(raw)
    else None
  }

  /** `name=value`, the name in lower case and the value unquoted; none when the text is not one. */
  function AsParam(text: string): Option<(string, string)> {
    var eq := Find(text, '=');
    if eq == |text| then None
    else
      var name := Trim(text[..eq]);
      if !IsToken(name) then None
      else
        match ParamValue(Trim(text[eq + 1..]))
        case Some(v) => Some((Lower(name), v))
        case None => None
  }

  // ----- Challenges -------------------------------------------------------------------------

  function FindWhitespace(s: string): (n: nat)
    ensures n <= |s| && (forall i | 0 <= i < n :: !IsWhitespace(s[i])) && (n < |s| ==> IsWhitespace(s[n]))
  {
    if s == "" || IsWhitespace(s[0]) then 0 else 1 + FindWhitespace(s[1..])
  }

  function WithParam(c: Challenge, param: (string, string)): Challenge {
    c.(params := c.params + [param])
  }

  /** A parameter of the challenge before it; one with nothing before it is lost. */
  function Attach(out: seq<Challenge>, param: (string, string)): seq<Challenge> {
    if out == [] then [] else out[|out| - 1 := WithParam(out[|out| - 1], param)]
  }

  /** The challenge an element opens: its first word is the scheme. */
  function Opened(element: string): Challenge {
    var i := FindWhitespace(element);
    var scheme, rest := element[..i], Trim(element[i..]);
    if rest == "" then Challenge(scheme, [], None)
    else
      match AsParam(rest)
      case Some(param) => Challenge(scheme, [param], None)
      case None => Challenge(scheme, [], Some(rest))
  }

  /** The challenges once one part between commas has been read. */
  function Absorb(out: seq<Challenge>, part: string): seq<Challenge> {
    var element := Trim(part);
    if element == "" then out
    else
      match AsParam(element)
      case Some(param) => Attach(out, param)
      case None => out + [Opened(element)]
  }

  function AbsorbAll(out: seq<Challenge>, parts: seq<string>): seq<Challenge>
    decreases |parts|
  {
    if parts == [] then out else AbsorbAll(Absorb(out, parts[0]), parts[1..])
  }

  function Parse(value: string): seq<Challenge> {
    AbsorbAll([], Split(value, Outside))
  }

  /** `parse_challenge_list`. */
  method ParseChallengeList(value: string) returns (out: seq<Challenge>)
    ensures out == Parse(value)
  {
    hide Split, AsParam, Trim, FindWhitespace;
    out := [];
    var parts := SplitOutsideQuotes(value);
    var i := 0;
    while i < |parts|
      invariant 0 <= i <= |parts|
      invariant AbsorbAll(out, parts[i..]) == Parse(value)
    {
      assert parts[i..][1..] == parts[i + 1..];
      var element := Trim(parts[i]);
      i := i + 1;
      if element == "" {
        continue;
      }
      match AsParam(element) {
        case Some(param) =>
          if out != [] {
            out := out[|out| - 1 := WithParam(out[|out| - 1], param)];
          }
          continue;
        case None =>
      }
      var space := FindWhitespace(element);
      var scheme, rest := element[..space], Trim(element[space..]);
      var challenge := Challenge(scheme, [], None);
      if rest != "" {
        match AsParam(rest) {
          case Some(param) => challenge := challenge.(params := [param]);
          case None => challenge := challenge.(token68 := Some(rest));
        }
      }
      out := out + [challenge];
    }
    assert AbsorbAll(out, []) == out;
  }

  /** What a parsed challenge looks like, whatever the header: its scheme is one word, its parameter
      names are tokens in lower case, and a token68 is not empty. */
  predicate Shaped(c: Challenge) {
    && c.scheme != "" && (forall i | 0 <= i < |c.scheme| :: !IsWhitespace(c.scheme[i]))
    && (forall i | 0 <= i < |c.params| :: IsToken(c.params[i].0) && Lower(c.params[i].0) == c.params[i].0)
    && c.token68 != Some("")
  }

  lemma LowerIsToken(name: string)
    requires IsToken(name)
    ensures IsToken(Lower(name)) && Lower(Lower(name)) == Lower(name)
  {
    forall i | 0 <= i < |name|
      ensures IsTokenChar(Lower(name)[i])
    {
      assert IsTokenChar(name[i]);
    }
  }

  lemma ParamNameIsLower(text: string)
    requires AsParam(text).Some?
    ensures var name := AsParam(text).value.0; IsToken(name) && Lower(name) == name
  {
    hide Lower, IsToken, Trim, ParamValue;
    LowerIsToken(Trim(text[..Find(text, '=')]));
  }

  lemma OpenedIsShaped(element: string)
    requires element != "" && Trimmed(element)
    ensures Shaped(Opened(element))
  {
    hide AsParam, Trim, IsToken, Lower;
    var rest := Trim(element[FindWhitespace(element)..]);
    if AsParam(rest).Some? {
      ParamNameIsLower(rest);
    }
  }

  lemma AbsorbedAreShaped(out: seq<Challenge>, part: string)
    requires forall c | c in out :: Shaped(c)
    ensures forall c | c in Absorb(out, part) :: Shaped(c)
  {
    hide AsParam, Trim, IsToken, Lower, Opened, Trimmed;
    var element := Trim(part);
    TrimIsTrimmed(part);
    if element != "" {
      match AsParam(element) {
        case Some(param) =>
          ParamNameIsLower(element);
          if out != [] {
            assert Shaped(out[|out| - 1]);
          }
        case None => OpenedIsShaped(element);
      }
    }
  }

  lemma {:induction false} AbsorbedAllAreShaped(out: seq<Challenge>, parts: seq<string>)
    requires forall c | c in out :: Shaped(c)
    ensures forall c | c in AbsorbAll(out, parts) :: Shaped(c)
    decreases |parts|
  {
    hide Absorb, Shaped;
    if parts != [] {
      AbsorbedAreShaped(out, parts[0]);
      AbsorbedAllAreShaped(Absorb(out, parts[0]), parts[1..]);
    }
  }

  lemma ParsedChallengesAreShaped(value: string)
    ensures forall c | c in Parse(value) :: Shaped(c)
  {
    AbsorbedAllAreShaped([], Split(value, Outside));
  }

  // ----- Spelling a header ------------------------------------------------------------------

  /** How a parameter's value is written: as a token or as a quoted-string. */
  datatype SpelledValue = AsToken(text: string) | AsQuoted(pieces: seq<Q.Piece>)

  datatype SpelledParam = SpelledParam(name: string, before: string, after: string, value: SpelledValue)

  /** What can stand between two commas (section 11.6.1 of RFC 9110), the whitespace around apart. */
  datatype Core =
    | Nothing
    | Scheme(scheme: string)
    | SchemeToken68(scheme: string, gap: string, token68: string)
    | SchemeParam(scheme: string, gap: string, param: SpelledParam)
    | Continued(param: SpelledParam)

  datatype Element = Element(before: string, core: Core, after: string)

  predicate IsToken68Char(c: char) {
    IsAlphanumeric(c) || c in "-._~+/"
  }

  /** `1*( ALPHA / DIGIT / "-" / "." / "_" / "~" / "+" / "/" ) *"="` (section 11.2 of RFC 9110). */
  predicate IsToken68(s: string) {
    var n := Find(s, '=');
    n > 0 && (forall i | 0 <= i < n :: IsToken68Char(s[i])) && forall i | n <= i < |s| :: s[i] == '='
  }

  predicate GoodValue(v: SpelledValue) {
    match v
    case AsToken(text) => IsToken(text)
    case AsQuoted(pieces) => Q.WellWritten(pieces)
  }

  predicate GoodParam(p: SpelledParam) {
    IsToken(p.name) && AllWhitespace(p.before) && AllWhitespace(p.after) && GoodValue(p.value)
  }

  predicate IsGap(gap: string) {
    gap != "" && AllWhitespace(gap)
  }

  predicate GoodCore(c: Core) {
    match c
    case Nothing => true
    case Scheme(scheme) => IsToken(scheme)
    case SchemeToken68(scheme, gap, token68) => IsToken(scheme) && IsGap(gap) && IsToken68(token68)
    case SchemeParam(scheme, gap, param) => IsToken(scheme) && IsGap(gap) && GoodParam(param)
    case Continued(param) => GoodParam(param)
  }

  predicate GoodElement(e: Element) {
    AllWhitespace(e.before) && AllWhitespace(e.after) && GoodCore(e.core)
  }

  predicate GoodElements(es: seq<Element>) {
    forall i | 0 <= i < |es| :: GoodElement(es[i])
  }

  function ValueText(v: SpelledValue): string {
    match v
    case AsToken(text) => text
    case AsQuoted(pieces) => "\"" + Q.Write(pieces) + "\""
  }

  function ParamText(p: SpelledParam): string {
    p.name + p.before + "=" + (p.after + ValueText(p.value))
  }

  function CoreText(c: Core): string {
    match c
    case Nothing => ""
    case Scheme(scheme) => scheme
    case SchemeToken68(scheme, gap, token68) => scheme + gap + token68
    case SchemeParam(scheme, gap, param) => scheme + gap + ParamText(param)
    case Continued(param) => ParamText(param)
  }

  function ElementText(e: Element): string {
    e.before + CoreText(e.core) + e.after
  }

  function Texts(es: seq<Element>): seq<string> {
    seq(|es|, i requires 0 <= i < |es| => ElementText(es[i]))
  }

  function ValueMeant(v: SpelledValue): string {
    match v
    case AsToken(text) => text
    case AsQuoted(pieces) => Q.Meaning(pieces)
  }

  function ParamMeant(p: SpelledParam): (string, string) {
    (Lower(p.name), ValueMeant(p.value))
  }

  /** The challenges once one more element has been said. */
  function Say(out: seq<Challenge>, c: Core): seq<Challenge> {
    match c
    case Nothing => out
    case Scheme(scheme) => out + [Challenge(scheme, [], None)]
    case SchemeToken68(scheme, _, token68) => out + [Challenge(scheme, [], Some(token68))]
    case SchemeParam(scheme, _, param) => out + [Challenge(scheme, [ParamMeant(param)], None)]
    case Continued(param) => Attach(out, ParamMeant(param))
  }

  function SayAll(out: seq<Challenge>, es: seq<Element>): seq<Challenge>
    decreases |es|
  {
    if es == [] then out else SayAll(Say(out, es[0].core), es[1..])
  }

  // ----- Reading a parameter back -----------------------------------------------------------

  lemma {:induction false} UnquotesWhatIsWritten(ps: seq<Q.Piece>)
    requires Q.WellWritten(ps)
    ensures Unquoted(Q.Write(ps)) == Q.Meaning(ps)
  {
    if ps != [] {
      UnquotesWhatIsWritten(ps[1..]);
      Q.WriteCons(ps);
      var s, rest := Q.Write(ps), Q.Write(ps[1..]);
      if ps[0].Plain? {
        assert s[0] == ps[0].c && s[1..] == rest;
      } else {
        assert s[0] == '\\' && s[1] == ps[0].c && s[2..] == rest;
      }
    }
  }

  lemma TokenHasNoSpecials(s: string)
    requires IsToken(s)
    ensures '=' !in s && '"' !in s && ',' !in s && forall i | 0 <= i < |s| :: !IsWhitespace(s[i])
    ensures Trimmed(s)
  {
    forall i | 0 <= i < |s|
      ensures s[i] != '=' && s[i] != '"' && s[i] != ',' && !IsWhitespace(s[i])
    {
      assert IsTokenChar(s[i]);
    }
  }

  lemma WhitespaceHasNoSpecials(s: string)
    requires AllWhitespace(s)
    ensures '=' !in s && '"' !in s && ',' !in s
  {
  }

  lemma ValueReadBack(v: SpelledValue)
    requires GoodValue(v)
    ensures Trimmed(ValueText(v)) && ValueText(v) != ""
    ensures ParamValue(ValueText(v)) == Some(ValueMeant(v))
  {
    match v {
      case AsToken(text) => TokenHasNoSpecials(text);
      case AsQuoted(pieces) =>
        var written := Q.Write(pieces);
        var raw := "\"" + written + "\"";
        assert raw[1..|raw| - 1] == written;
        UnquotesWhatIsWritten(pieces);
    }
  }

  lemma AsParamOf(head: string, tail: string, v: string)
    requires '=' !in head && IsToken(Trim(head)) && ParamValue(Trim(tail)) == Some(v)
    ensures AsParam(head + "=" + tail) == Some((Lower(Trim(head)), v))
  {
    hide Find, Trim, ParamValue, IsToken, Lower;
    var text := head + "=" + tail;
    FindsAfter(head, '=', tail);
    assert text == head + ['='] + tail;
    assert text[..|head|] == head && text[|head| + 1..] == tail;
  }

  /** Name, `=` and value, with whitespace around them, are read back as that parameter. */
  lemma ParamReadBack(p: SpelledParam)
    requires GoodParam(p)
    ensures AsParam(ParamText(p)) == Some(ParamMeant(p))
    ensures ParamText(p) != "" && Trimmed(ParamText(p))
  {
    hide Trim, AsParam, ParamValue, GoodValue, ValueText, ValueMeant, Lower, AllWhitespace, IsToken;
    var head, value := p.name + p.before, ValueText(p.value);
    TokenHasNoSpecials(p.name);
    TokenIsNotEmpty(p.name);
    WhitespaceHasNoSpecials(p.before);
    ValueReadBack(p.value);
    NoWhitespace();
    TrimOf("", p.name, p.before);
    assert "" + p.name + p.before == head;
    TrimOf(p.after, value, "");
    assert p.after + value + "" == p.after + value;
    AsParamOf(head, p.after + value, ValueMeant(p.value));
    TrimmedEnds(p.name, p.before + "=" + p.after, value);
    assert ParamText(p) == p.name + (p.before + "=" + p.after) + value;
  }

  lemma NoWhitespace()
    ensures AllWhitespace("")
  {
  }

  lemma TokenIsNotEmpty(s: string)
    requires IsToken(s)
    ensures s != ""
  {
  }

  lemma TrimmedEnds(first: string, middle: string, last: string)
    requires first != "" && last != "" && Trimmed(first) && Trimmed(last)
    ensures first + middle + last != "" && Trimmed(first + middle + last)
  {
    hide IsWhitespace;
  }

  // ----- Reading an element back ------------------------------------------------------------

  lemma NoEqualsNoParam(text: string)
    requires '=' !in text
    ensures AsParam(text).None?
  {
  }

  /** Two words before the `=` are no parameter name. */
  lemma TwoWordsAreNoParam(word: string, gap: string, rest: string)
    requires IsToken(word) && IsGap(gap) && rest != "" && !IsWhitespace(rest[0])
    requires '=' in rest ==> rest[0] != '='
    ensures AsParam(word + gap + rest).None?
  {
    hide Find, Trim, ParamValue;
    var text := word + gap + rest;
    TokenHasNoSpecials(word);
    WhitespaceHasNoSpecials(gap);
    var eq := Find(text, '=');
    if eq < |text| {
      var before := |word| + |gap|;
      assert text[before] == rest[0];
      assert forall i | 0 <= i < |word| :: text[i] == word[i];
      assert forall i | |word| <= i < before :: text[i] == gap[i - |word|];
      assert eq > before;
      TrimKeepsMiddle(text[..eq], |word|);
    }
  }

  /** Trimming never reaches whitespace that has other characters on both sides. */
  lemma TrimKeepsMiddle(s: string, i: nat)
    requires 0 < i < |s| && IsWhitespace(s[i]) && !IsWhitespace(s[0])
    requires exists j | i < j < |s| :: !IsWhitespace(s[j])
    ensures !IsToken(Trim(s))
  {
    var j :| i < j < |s| && !IsWhitespace(s[j]);
    assert TrimStart(s) == s;
    TrimEndKeeps(s, j);
    assert TrimEnd(s)[i] == s[i];
    WhitespaceIsNoTokenChar(s[i]);
  }

  lemma WhitespaceIsNoTokenChar(c: char)
    requires IsWhitespace(c)
    ensures !IsTokenChar(c)
  {
  }

  lemma {:induction false} TrimEndKeeps(s: string, j: nat)
    requires j < |s| && !IsWhitespace(s[j])
    ensures |TrimEnd(s)| > j
  {
    if IsWhitespace(s[|s| - 1]) {
      TrimEndKeeps(s[..|s| - 1], j);
    }
  }

  lemma FindsGap(word: string, gap: string, rest: string)
    requires IsToken(word) && IsGap(gap)
    ensures FindWhitespace(word + gap + rest) == |word|
  {
    hide FindWhitespace;
    TokenHasNoSpecials(word);
    var s := word + gap + rest;
    assert s[|word|] == gap[0] && forall i | 0 <= i < |word| :: s[i] == word[i];
  }

  /** A scheme and the rest after a gap are told apart there. */
  lemma OpenedWithRest(scheme: string, gap: string, rest: string)
    requires IsToken(scheme) && IsGap(gap) && rest != "" && Trimmed(rest)
    ensures Opened(scheme + gap + rest)
         == match AsParam(rest)
            case Some(param) => Challenge(scheme, [param], None)
            case None => Challenge(scheme, [], Some(rest))
  {
    hide FindWhitespace, Trim, AsParam;
    var element := scheme + gap + rest;
    FindsGap(scheme, gap, rest);
    assert element[..|scheme|] == scheme && element[|scheme|..] == gap + rest;
    TrimOf(gap, rest, "");
    assert gap + rest + "" == gap + rest;
  }

  lemma OpenedAlone(scheme: string)
    requires IsToken(scheme)
    ensures Opened(scheme) == Challenge(scheme, [], None)
  {
    hide FindWhitespace;
    TokenHasNoSpecials(scheme);
    assert FindWhitespace(scheme) == |scheme|;
    assert scheme[|scheme|..] == "" && scheme[..|scheme|] == scheme;
  }

  lemma Token68Characters(s: string)
    requires IsToken68(s)
    ensures s != "" && Trimmed(s) && s[0] != '=' && ',' !in s && '"' !in s
  {
    hide Find;
    var n := Find(s, '=');
    forall i | 0 <= i < |s|
      ensures !IsWhitespace(s[i]) && s[i] != ',' && s[i] != '"'
    {
      if i < n {
        assert IsToken68Char(s[i]);
      }
    }
    assert IsToken68Char(s[0]);
  }

  lemma EqualsIsNoTokenChar()
    ensures !IsTokenChar('=')
  {
  }

  lemma PaddingIsNoValue(raw: string)
    requires forall i | 0 <= i < |raw| :: raw[i] == '='
    ensures ParamValue(Trim(raw)).None?
  {
    hide Trim, Unquoted, IsTokenChar;
    TrimOfTrimmed(raw);
    EqualsIsNoTokenChar();
    if raw != "" {
      assert raw[0] == '=';
    }
  }

  /** Padding makes a token68 no parameter: what follows its first `=` is not a value. */
  lemma Token68IsNoParam(s: string)
    requires IsToken68(s)
    ensures AsParam(s).None?
  {
    hide Find, Trim, IsToken, ParamValue;
    var n := Find(s, '=');
    if n < |s| {
      PaddingIsNoValue(s[n + 1..]);
    }
  }

  lemma ElementReadBack(out: seq<Challenge>, e: Element)
    requires GoodElement(e)
    ensures Absorb(out, ElementText(e)) == Say(out, e.core)
  {
    hide AsParam, Trim, Opened, ParamText, IsToken68, IsToken, IsGap, GoodParam, ParamMeant, Trimmed;
    var text := CoreText(e.core);
    CoreIsTrimmed(e.core);
    TrimOf(e.before, text, e.after);
    match e.core {
      case Nothing =>
      case Scheme(scheme) =>
        TokenHasNoSpecials(scheme);
        NoEqualsNoParam(scheme);
        OpenedAlone(scheme);
      case SchemeToken68(scheme, gap, token68) =>
        Token68IsNoParam(token68);
        Token68Characters(token68);
        TrimmedStart(token68);
        TwoWordsAreNoParam(scheme, gap, token68);
        OpenedWithRest(scheme, gap, token68);
      case SchemeParam(scheme, gap, param) =>
        ParamReadBack(param);
        ParamStartsAWord(param);
        TwoWordsAreNoParam(scheme, gap, ParamText(param));
        OpenedWithRest(scheme, gap, ParamText(param));
      case Continued(param) => ParamReadBack(param);
    }
  }

  lemma TrimmedStart(s: string)
    requires Trimmed(s) && s != ""
    ensures !IsWhitespace(s[0])
  {
  }

  lemma ParamStartsAWord(p: SpelledParam)
    requires GoodParam(p)
    ensures ParamText(p) != "" && !IsWhitespace(ParamText(p)[0]) && ParamText(p)[0] != '='
  {
    TokenHasNoSpecials(p.name);
    assert ParamText(p)[0] == p.name[0];
  }

  lemma CoreIsTrimmed(c: Core)
    requires GoodCore(c)
    ensures Trimmed(CoreText(c)) && (c.Nothing? <==> CoreText(c) == "")
  {
    hide ParamText, IsToken68, IsToken, GoodParam, IsGap, Trimmed;
    match c {
      case Nothing => NothingIsTrimmed();
      case Scheme(scheme) => TokenHasNoSpecials(scheme); TokenIsNotEmpty(scheme);
      case SchemeToken68(scheme, gap, token68) =>
        TokenHasNoSpecials(scheme);
        TokenIsNotEmpty(scheme);
        Token68Characters(token68);
        TrimmedEnds(scheme, gap, token68);
      case SchemeParam(scheme, gap, param) =>
        TokenHasNoSpecials(scheme);
        TokenIsNotEmpty(scheme);
        ParamReadBack(param);
        TrimmedEnds(scheme, gap, ParamText(param));
      case Continued(param) => ParamReadBack(param);
    }
  }

  lemma NothingIsTrimmed()
    ensures Trimmed("")
  {
  }

  // ----- Commas -----------------------------------------------------------------------------

  lemma QuotedIsClosed(pieces: seq<Q.Piece>)
    requires Q.WellWritten(pieces)
    ensures Closed("\"" + Q.Write(pieces) + "\"")
  {
    hide Whole, End, Q.Write;
    var written := Q.Write(pieces);
    Q.WriteKeepsScan(pieces);
    WholeAppend(written, "\"", Inside);
    EndAppend(written, "\"", Inside);
    ClosingQuote();
    var tail := written + "\"";
    WholeAppend("\"", tail, Outside);
    EndAppend("\"", tail, Outside);
    assert "\"" + written + "\"" == "\"" + tail;
  }

  lemma ParamIsClosed(p: SpelledParam)
    requires GoodParam(p)
    ensures Closed(ParamText(p))
  {
    hide Closed, IsToken, Q.Write;
    var head := p.name + p.before + "=";
    TokenHasNoSpecials(p.name);
    WhitespaceHasNoSpecials(p.before);
    WhitespaceHasNoSpecials(p.after);
    PlainIsClosed(head);
    PlainIsClosed(p.after);
    match p.value {
      case AsToken(text) =>
        TokenHasNoSpecials(text);
        PlainIsClosed(text);
      case AsQuoted(pieces) => QuotedIsClosed(pieces);
    }
    ClosedAppend(p.after, ValueText(p.value));
    ClosedAppend(head, p.after + ValueText(p.value));
  }

  lemma ElementIsClosed(e: Element)
    requires GoodElement(e)
    ensures Closed(ElementText(e))
  {
    hide Closed, IsToken, IsToken68, GoodParam, ParamText, AllWhitespace;
    WhitespaceHasNoSpecials(e.before);
    WhitespaceHasNoSpecials(e.after);
    PlainIsClosed(e.before);
    PlainIsClosed(e.after);
    match e.core {
      case Nothing => PlainIsClosed("");
      case Scheme(scheme) => TokenHasNoSpecials(scheme); PlainIsClosed(scheme);
      case SchemeToken68(scheme, gap, token68) =>
        TokenHasNoSpecials(scheme);
        WhitespaceHasNoSpecials(gap);
        Token68Characters(token68);
        PlainIsClosed(scheme + gap + token68);
      case SchemeParam(scheme, gap, param) =>
        TokenHasNoSpecials(scheme);
        WhitespaceHasNoSpecials(gap);
        PlainIsClosed(scheme + gap);
        ParamIsClosed(param);
        ClosedAppend(scheme + gap, ParamText(param));
      case Continued(param) => ParamIsClosed(param);
    }
    ClosedAppend(e.before, CoreText(e.core));
    ClosedAppend(e.before + CoreText(e.core), e.after);
  }

  /** The commas between the elements are the only ones that split. */
  lemma SplitsIntoElements(es: seq<Element>)
    requires es != [] && GoodElements(es)
    ensures Split(Join(Texts(es), ","), Outside) == Texts(es)
  {
    hide ElementText, GoodElement, Split, Join, Closed;
    var texts := Texts(es);
    forall i | 0 <= i < |texts|
      ensures Closed(texts[i])
    {
      ElementIsClosed(es[i]);
    }
    ClosedPartsSplit(texts);
  }

  lemma {:induction false} AbsorbsWhatIsSaid(out: seq<Challenge>, es: seq<Element>)
    requires GoodElements(es)
    ensures AbsorbAll(out, Texts(es)) == SayAll(out, es)
    decreases |es|
  {
    hide Absorb, Say, ElementText, GoodElement;
    if es != [] {
      ElementReadBack(out, es[0]);
      AbsorbsWhatIsSaid(Say(out, es[0].core), es[1..]);
      assert Texts(es)[1..] == Texts(es[1..]);
    }
  }

  /** Every spelling of a list of elements, whatever whitespace, empty elements, tokens,
      quoted-strings and escapes it uses, is read as the challenges the elements say. */
  lemma SpelledListParses(es: seq<Element>)
    requires es != [] && GoodElements(es)
    ensures Parse(Join(Texts(es), ",")) == SayAll([], es)
  {
    SplitsIntoElements(es);
    AbsorbsWhatIsSaid([], es);
  }

  // ----- Printing challenges ----------------------------------------------------------------

  /** A challenge a server can state: a bare scheme, a scheme with a token68, or one with
      parameters under lower-case names, their values any text. */
  predicate Statable(c: Challenge) {
    && IsToken(c.scheme)
    && (c.token68.Some? ==> IsToken68(c.token68.value) && c.params == [])
    && forall i | 0 <= i < |c.params| :: IsToken(c.params[i].0) && Lower(c.params[i].0) == c.params[i].0
  }

  function Escape(text: string): (ps: seq<Q.Piece>)
    ensures Q.WellWritten(ps)
  {
    seq(|text|, i requires 0 <= i < |text| =>
      if text[i] == '"' || text[i] == '\\' then Q.Quoted(text[i]) else Q.Plain(text[i]))
  }

  function Spell(param: (string, string)): SpelledParam {
    SpelledParam(param.0, "", "", AsQuoted(Escape(param.1)))
  }

  function ParamElements(params: seq<(string, string)>): (es: seq<Element>)
    ensures |es| == |params|
  {
    seq(|params|, i requires 0 <= i < |params| => Element(" ", Continued(Spell(params[i])), ""))
  }

  function ChallengeElements(c: Challenge): (es: seq<Element>)
    ensures es != []
  {
    if c.token68.Some? then [Element(" ", SchemeToken68(c.scheme, " ", c.token68.value), "")]
    else if c.params == [] then [Element(" ", Scheme(c.scheme), "")]
    else [Element(" ", SchemeParam(c.scheme, " ", Spell(c.params[0])), "")] + ParamElements(c.params[1..])
  }

  /** The header value that states the challenges, separated by commas. */
  function Print(cs: seq<Challenge>): string {
    Join(Texts(FlatMap(ChallengeElements, cs)), ",")
  }

  lemma {:induction false} EscapeMeans(text: string)
    ensures Q.Meaning(Escape(text)) == text
  {
    if text != "" {
      EscapeMeans(text[1..]);
      assert Escape(text)[1..] == Escape(text[1..]);
      assert [text[0]] + text[1..] == text;
    }
  }

  lemma SpellMeans(param: (string, string))
    requires IsToken(param.0) && Lower(param.0) == param.0
    ensures ParamMeant(Spell(param)) == param && GoodParam(Spell(param))
  {
    EscapeMeans(param.1);
  }

  lemma {:induction false} SayConcat(out: seq<Challenge>, a: seq<Element>, b: seq<Element>)
    ensures SayAll(out, a + b) == SayAll(SayAll(out, a), b)
    decreases |a|
  {
    hide Say;
    if a == [] {
      assert a + b == b;
    } else {
      assert (a + b)[1..] == a[1..] + b;
      SayConcat(Say(out, a[0].core), a[1..], b);
    }
  }

  predicate StatableParams(params: seq<(string, string)>) {
    forall i | 0 <= i < |params| :: IsToken(params[i].0) && Lower(params[i].0) == params[i].0
  }

  lemma {:induction false} ParamsAreAttached(out: seq<Challenge>, c: Challenge, params: seq<(string, string)>)
    requires StatableParams(params)
    ensures SayAll(out + [c], ParamElements(params)) == out + [c.(params := c.params + params)]
    ensures GoodElements(ParamElements(params))
    decreases |params|
  {
    hide Spell, IsToken, GoodParam, ParamMeant, Lower, ParamElements, Attach;
    var es := ParamElements(params);
    if params == [] {
      assert c.params + params == c.params;
    } else {
      SpellMeans(params[0]);
      var more := WithParam(c, params[0]);
      ParamElementsStep(params);
      AttachedToLast(out, c, params[0]);
      ParamsAreAttached(out, more, params[1..]);
      assert more.params + params[1..] == c.params + params;
      assert GoodElement(es[0]) by {
        NoWhitespace();
      }
      assert es == [es[0]] + es[1..];
    }
  }

  lemma ParamElementsStep(params: seq<(string, string)>)
    requires params != []
    ensures ParamElements(params) == [Element(" ", Continued(Spell(params[0])), "")] + ParamElements(params[1..])
  {
    hide Spell;
  }

  lemma AttachedToLast(out: seq<Challenge>, c: Challenge, param: (string, string))
    ensures Attach(out + [c], param) == out + [WithParam(c, param)]
  {
  }

  lemma ChallengeIsSaid(out: seq<Challenge>, c: Challenge)
    requires Statable(c)
    ensures SayAll(out, ChallengeElements(c)) == out + [c] && GoodElements(ChallengeElements(c))
  {
    hide Spell, IsToken, IsToken68, GoodParam, ParamMeant, Lower, ParamElements;
    var es := ChallengeElements(c);
    assert SayAll(Say(out, es[0].core), []) == Say(out, es[0].core);
    if c.token68.Some? || c.params == [] {
      assert es[1..] == [];
    } else {
      SpellMeans(c.params[0]);
      var first := Challenge(c.scheme, [c.params[0]], None);
      assert es[1..] == ParamElements(c.params[1..]);
      ParamsAreAttached(out, first, c.params[1..]);
      assert [c.params[0]] + c.params[1..] == c.params;
    }
  }

  lemma {:induction false} ChallengesAreSaid(out: seq<Challenge>, cs: seq<Challenge>)
    requires forall i | 0 <= i < |cs| :: Statable(cs[i])
    ensures var es := FlatMap(ChallengeElements, cs); SayAll(out, es) == out + cs && GoodElements(es)
    decreases |cs|
  {
    hide ChallengeElements, Statable, GoodElement, Say;
    if cs != [] {
      var first, rest := ChallengeElements(cs[0]), FlatMap(ChallengeElements, cs[1..]);
      ChallengeIsSaid(out, cs[0]);
      ChallengesAreSaid(out + [cs[0]], cs[1..]);
      SayConcat(out, first, rest);
      assert out + [cs[0]] + cs[1..] == out + cs;
    } else {
      assert out + cs == out;
    }
  }

  /** Printing any list of challenges and reading it gives the list back, though commas separate
      both the challenges and the parameters, and may stand in the values too. */
  lemma PrintedChallengesParse(cs: seq<Challenge>)
    requires forall i | 0 <= i < |cs| :: Statable(cs[i])
    ensures Parse(Print(cs)) == cs
  {
    hide Parse, Statable;
    ChallengesAreSaid([], cs);
    var es := FlatMap(ChallengeElements, cs);
    if cs == [] {
      EmptyParses();
      assert Texts(es) == [];
    } else {
      assert [] + cs == cs;
      assert es == ChallengeElements(cs[0]) + FlatMap(ChallengeElements, cs[1..]);
      SpelledListParses(es);
    }
  }

  lemma EmptyParses()
    ensures Parse("") == []
  {
    assert Split("", Outside) == [""] && [""][1..] == [];
    assert Trim("") == "";
    assert Absorb([], "") == [];
  }
}
