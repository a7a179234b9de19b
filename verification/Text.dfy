/** Strings the way the header code handles them: trimming, ASCII case, token and digit classes,
    and splitting a list on the commas that stand outside quoted-strings. */
module Text {

  datatype Option<+T> = None | Some(value: T)

  newtype Byte = n: int | 0 <= n < 256

  type Bytes = seq<Byte>

  function Flat(chunks: seq<Bytes>): Bytes {
    if chunks == [] then [] else chunks[0] + Flat(chunks[1..])
  }

  lemma {:induction false} FlatSnoc(chunks: seq<Bytes>, chunk: Bytes)
    ensures Flat(chunks + [chunk]) == Flat(chunks) + chunk
  {
    if chunks == [] {
      assert [chunk][1..] == [] && [] + [chunk] == [chunk];
    } else {
      assert (chunks + [chunk])[1..] == chunks[1..] + [chunk];
      FlatSnoc(chunks[1..], chunk);
    }
  }

  lemma {:induction false} FlatPrefix(chunks: seq<Bytes>, i: nat)
    requires i <= |chunks|
    ensures |Flat(chunks[..i])| <= |Flat(chunks)|
  {
    if i > 0 {
      assert chunks[..i][1..] == chunks[1..][..i - 1];
      FlatPrefix(chunks[1..], i - 1);
    }
  }

  function Min(a: nat, b: nat): nat {
    if a < b then a else b
  }

  // ----- Character classes ------------------------------------------------------------------

  /** Unicode White_Space, what trimming removes. */
  predicate IsWhitespace(c: char) {
    var n := c as int;
    || 9 <= n <= 13 || n == 32 || n == 0x85 || n == 0xA0 || n == 0x1680
    || 0x2000 <= n <= 0x200A || n == 0x2028 || n == 0x2029 || n == 0x202F || n == 0x205F || n == 0x3000
  }

  predicate IsDigit(c: char) {
    '0' <= c <= '9'
  }

  predicate IsUpper(c: char) {
    'A' <= c <= 'Z'
  }

  predicate IsAlphanumeric(c: char) {
    IsDigit(c) || IsUpper(c) || 'a' <= c <= 'z'
  }

  predicate IsBlank(c: char) {
    c == ' ' || c == '\t'
  }

  /** A tchar (section 5.6.2 of RFC 9110). */
  predicate IsTokenChar(c: char) {
    IsAlphanumeric(c) || c in "!#$%&'*+-.^_`|~"
  }

  predicate IsToken(s: string) {
    s != "" && forall i | 0 <= i < |s| :: IsTokenChar(s[i])
  }

  predicate AllDigits(s: string) {
    forall i | 0 <= i < |s| :: IsDigit(s[i])
  }

  predicate AllWhitespace(s: string) {
    forall i | 0 <= i < |s| :: IsWhitespace(s[i])
  }

  /** The number a string of decimal digits denotes. */
  function DecimalValue(s: string): nat
    requires AllDigits(s)
  {
    if s == "" then 0 else 10 * DecimalValue(s[..|s| - 1]) + (s[|s| - 1] as int - '0' as int)
  }

  /** A number in decimal, without leading zeros. */
  function Decimal(n: nat): (s: string)
    ensures s != "" && AllDigits(s)
  {
    var digit := (n % 10 + '0' as int) as char;
    if n < 10 then [digit] else Decimal(n / 10) + [digit]
  }

  /** Reading a number gives back the one written, whatever zeros lead it. */
  lemma {:induction false} DecimalIsRead(zeros: string, n: nat)
    requires forall i | 0 <= i < |zeros| :: zeros[i] == '0'
    ensures AllDigits(zeros + Decimal(n)) && DecimalValue(zeros + Decimal(n)) == n
  {
    var s := zeros + Decimal(n);
    if n < 10 {
      ZerosAreZero(zeros);
      assert s[..|s| - 1] == zeros;
    } else {
      assert s[..|s| - 1] == zeros + Decimal(n / 10);
      DecimalIsRead(zeros, n / 10);
    }
  }

  lemma {:induction false} ZerosAreZero(zeros: string)
    requires forall i | 0 <= i < |zeros| :: zeros[i] == '0'
    ensures AllDigits(zeros) && DecimalValue(zeros) == 0
  {
    if zeros != "" {
      ZerosAreZero(zeros[..|zeros| - 1]);
    }
  }

  // ----- ASCII case -------------------------------------------------------------------------

  function LowerChar(c: char): char {
    if IsUpper(c) then (c as int + 32) as char else c
  }

  function Lower(s: string): (r: string)
    ensures |r| == |s|
  {
    seq(|s|, i requires 0 <= i < |s| => LowerChar(s[i]))
  }

  const UPPER := "ABCDEFGHIJKLMNOPQRSTUVWXYZ"
  const LOWER := "abcdefghijklmnopqrstuvwxyz"

  /** One letter and its other case. */
  predicate IsCasePair(upper: char, lower: char) {
    exists i | 0 <= i < |UPPER| :: upper == UPPER[i] && lower == LOWER[i]
  }

  predicate SameButCase(a: string, b: string) {
    |a| == |b| && forall i | 0 <= i < |a| :: a[i] == b[i] || IsCasePair(a[i], b[i]) || IsCasePair(b[i], a[i])
  }

  lemma CasePairs(upper: char, lower: char)
    ensures IsCasePair(upper, lower) <==> IsUpper(upper) && lower == LowerChar(upper)
  {
    assert forall i | 0 <= i < 26 :: UPPER[i] == (65 + i) as char && LOWER[i] == (97 + i) as char;
    if IsUpper(upper) {
      assert upper == UPPER[upper as int - 65];
    }
  }

  /** Two texts are lower-cased alike exactly when they differ in the case of ASCII letters at most. */
  lemma LowerTellsAllButCase(a: string, b: string)
    ensures Lower(a) == Lower(b) <==> SameButCase(a, b)
  {
    hide IsCasePair;
    if |a| == |b| {
      forall i | 0 <= i < |a|
        ensures Lower(a)[i] == Lower(b)[i]
                <==> a[i] == b[i] || IsCasePair(a[i], b[i]) || IsCasePair(b[i], a[i])
      {
        CasePairs(a[i], b[i]);
        CasePairs(b[i], a[i]);
      }
    }
  }

  // ----- Trimming ---------------------------------------------------------------------------

  function TrimStart(s: string): (r: string)
    ensures |r| <= |s| && r == s[|s| - |r|..]
    ensures r != "" ==> !IsWhitespace(r[0])
  {
    if s != "" && IsWhitespace(s[0]) then
      TrimStart(s[1..])
    else s
  }

  function TrimEnd(s: string): (r: string)
    ensures r <= s
    ensures r != "" ==> !IsWhitespace(r[|r| - 1])
  {
    if s != "" && IsWhitespace(s[|s| - 1]) then TrimEnd(s[..|s| - 1]) else s
  }

  function Trim(s: string): (r: string) {
    TrimEnd(TrimStart(s))
  }

  predicate Trimmed(s: string) {
    s != "" ==> !IsWhitespace(s[0]) && !IsWhitespace(s[|s| - 1])
  }

  lemma {:induction false} TrimStartOf(ws: string, p: string)
    requires AllWhitespace(ws) && (p != "" ==> !IsWhitespace(p[0]))
    ensures TrimStart(ws + p) == p
  {
    if ws == "" {
      assert ws + p == p;
    } else {
      assert (ws + p)[1..] == ws[1..] + p;
      TrimStartOf(ws[1..], p);
    }
  }

  lemma {:induction false} TrimEndOf(p: string, ws: string)
    requires AllWhitespace(ws) && (p != "" ==> !IsWhitespace(p[|p| - 1]))
    ensures TrimEnd(p + ws) == p
  {
    if ws == "" {
      assert p + ws == p;
    } else {
      assert (p + ws)[..|p + ws| - 1] == p + ws[..|ws| - 1];
      TrimEndOf(p, ws[..|ws| - 1]);
    }
  }

  lemma {:induction false} TrimStartAll(ws: string)
    requires AllWhitespace(ws)
    ensures TrimStart(ws) == ""
  {
    assert ws + "" == ws;
    TrimStartOf(ws, "");
  }

  /** Whitespace around a text that neither begins nor ends with any is what trimming removes. */
  lemma TrimOf(pre: string, p: string, post: string)
    requires AllWhitespace(pre) && AllWhitespace(post) && Trimmed(p)
    ensures Trim(pre + p + post) == p
  {
    if p == "" {
      assert pre + p + post == pre + post;
      TrimStartAll(pre + post);
    } else {
      assert pre + p + post == pre + (p + post);
      TrimStartOf(pre, p + post);
      TrimEndOf(p, post);
    }
  }

  lemma {:induction false} TrimStartCuts(s: string)
    ensures AllWhitespace(s[..|s| - |TrimStart(s)|])
  {
    if s != "" && IsWhitespace(s[0]) {
      TrimStartCuts(s[1..]);
      var cut := |s| - |TrimStart(s)|;
      assert s[1..][..cut - 1] == s[1..cut];
      assert forall i | 0 < i < cut :: s[i] == s[1..][..cut - 1][i - 1];
    }
  }

  lemma {:induction false} TrimEndCuts(s: string)
    ensures AllWhitespace(s[|TrimEnd(s)|..])
  {
    if s != "" && IsWhitespace(s[|s| - 1]) {
      var front := s[..|s| - 1];
      TrimEndCuts(front);
      var cut := |TrimEnd(s)|;
      assert forall i | cut <= i < |s| - 1 :: s[i] == front[cut..][i - cut];
    }
  }

  /** What trimming takes off is whitespace. */
  lemma TrimCuts(s: string) returns (pre: string, post: string)
    ensures s == pre + Trim(s) + post && AllWhitespace(pre) && AllWhitespace(post)
  {
    hide AllWhitespace, IsWhitespace, TrimStart, TrimEnd;
    TrimStartCuts(s);
    var rest := TrimStart(s);
    TrimEndCuts(rest);
    pre, post := s[..|s| - |rest|], rest[|Trim(s)|..];
    assert rest == Trim(s) + post;
  }

  lemma TrimIsTrimmed(s: string)
    ensures Trimmed(Trim(s))
  {
  }

  // ----- Searching --------------------------------------------------------------------------

  /** Where `c` first stands, or the length. */
  function Find(s: string, c: char): (n: nat)
    ensures n <= |s| && c !in s[..n] && (n < |s| ==> s[n] == c)
  {
    if s == "" || s[0] == c then 0 else 1 + Find(s[1..], c)
  }

  lemma FindsNothing(s: string, c: char)
    requires c !in s
    ensures Find(s, c) == |s|
  {
    hide Find;
  }

  lemma FindsAfter(a: string, c: char, b: string)
    requires c !in a
    ensures Find(a + [c] + b, c) == |a|
  {
    hide Find;
    var s := a + [c] + b;
    assert s[|a|] == c && forall i | 0 <= i < |a| :: s[i] == a[i];
    var n := Find(s, c);
    assert forall i | 0 <= i < n :: s[..n][i] == s[i];
  }

  // ----- Lists ------------------------------------------------------------------------------

  function FlatMap<A, B>(f: A -> seq<B>, xs: seq<A>): seq<B> {
    if xs == [] then [] else f(xs[0]) + FlatMap(f, xs[1..])
  }

  lemma {:induction false} FlatMapHas<A, B>(f: A -> seq<B>, xs: seq<A>, y: B)
    ensures y in FlatMap(f, xs) <==> exists i | 0 <= i < |xs| :: y in f(xs[i])
  {
    if xs != [] {
      FlatMapHas(f, xs[1..], y);
      assert forall i | 0 < i < |xs| :: xs[i] == xs[1..][i - 1];
      assert forall i | 0 <= i < |xs| - 1 :: xs[1..][i] == xs[i + 1];
    }
  }

  /** `value.split(',')`: every comma ends a part, quoted or not. */
  function SplitCommas(s: string): (r: seq<string>)
    ensures |r| >= 1
  {
    if s == "" then [""]
    else
      var r := SplitCommas(s[1..]);
      if s[0] == ',' then [""] + r else [[s[0]] + r[0]] + r[1..]
  }

  function Join(parts: seq<string>, separator: string): string {
    if parts == [] then ""
    else if |parts| == 1 then parts[0]
    else parts[0] + separator + Join(parts[1..], separator)
  }

  // ----- Splitting outside quoted-strings ---------------------------------------------------

  /** Where a scan stands: outside a quoted-string, inside one, or after a backslash inside one. */
  datatype Scan = Outside | Inside | Escaped

  function Next(st: Scan, c: char): Scan {
    match st
    case Outside => if c == '"' then Inside else Outside
    case Inside => if c == '\\' then Escaped else if c == '"' then Outside else Inside
    case Escaped => Inside
  }

  function End(s: string, st: Scan): Scan {
    if s == "" then st else End(s[1..], Next(st, s[0]))
  }

  /** No comma of `s` stands outside a quoted-string when its scan begins in `st`. */
  predicate Whole(s: string, st: Scan) {
    s == "" || (!(st == Outside && s[0] == ',') && Whole(s[1..], Next(st, s[0])))
  }

  /** The parts of `s` between the commas outside quoted-strings, as a list read from its head. */
  function Split(s: string, st: Scan): (r: seq<string>)
    ensures |r| >= 1
  {
    if s == "" then [""]
    else
      var r := Split(s[1..], Next(st, s[0]));
      if st == Outside && s[0] == ',' then [""] + r else [[s[0]] + r[0]] + r[1..]
  }

  lemma {:induction false} EndAppend(a: string, b: string, st: Scan)
    ensures End(a + b, st) == End(b, End(a, st))
  {
    if a == "" {
      assert a + b == b;
    } else {
      assert (a + b)[1..] == a[1..] + b;
      EndAppend(a[1..], b, Next(st, a[0]));
    }
  }

  lemma {:induction false} WholeAppend(a: string, b: string, st: Scan)
    ensures Whole(a + b, st) <==> Whole(a, st) && Whole(b, End(a, st))
  {
    if a == "" {
      assert a + b == b;
    } else {
      assert (a + b)[1..] == a[1..] + b;
      WholeAppend(a[1..], b, Next(st, a[0]));
    }
  }

  /** A part without a bare comma, ended outside quotes, is cut off whole by the comma after it. */
  lemma {:induction false} SplitCutsPart(p: string, t: string, st: Scan)
    requires Whole(p, st) && End(p, st) == Outside
    ensures Split(p + "," + t, st) == [p] + Split(t, Outside)
  {
    var s := p + "," + t;
    if p == "" {
      assert s[1..] == t && s[0] == ',';
    } else {
      assert s[1..] == p[1..] + "," + t && s[0] == p[0];
      SplitCutsPart(p[1..], t, Next(st, p[0]));
      assert [p[0]] + p[1..] == p;
    }
  }

  lemma {:induction false} SplitLastPart(p: string, st: Scan)
    requires Whole(p, st)
    ensures Split(p, st) == [p]
  {
    if p != "" {
      SplitLastPart(p[1..], Next(st, p[0]));
      assert [p[0]] + p[1..] == p;
    }
  }

  /** Text without commas or double quotes is never split and opens no quoted-string. */
  lemma {:induction false} PlainKeepsScan(s: string)
    requires ',' !in s && '"' !in s
    ensures Whole(s, Outside) && End(s, Outside) == Outside
  {
    if s != "" {
      PlainKeepsScan(s[1..]);
    }
  }

  /** No comma of it splits, and it leaves no quoted-string open. */
  predicate Closed(s: string) {
    Whole(s, Outside) && End(s, Outside) == Outside
  }

  lemma ClosedAppend(a: string, b: string)
    requires Closed(a) && Closed(b)
    ensures Closed(a + b)
  {
    WholeAppend(a, b, Outside);
    EndAppend(a, b, Outside);
  }

  lemma ClosingQuote()
    ensures Whole("\"", Inside) && End("\"", Inside) == Outside
    ensures Whole("\"", Outside) && End("\"", Outside) == Inside
  {
    assert "\""[1..] == "";
    assert Next(Inside, '"') == Outside && Next(Outside, '"') == Inside;
  }

  lemma PlainIsClosed(s: string)
    requires ',' !in s && '"' !in s
    ensures Closed(s)
  {
    PlainKeepsScan(s);
  }

  /** Such parts, joined with commas, split back into themselves. */
  lemma {:induction false} ClosedPartsSplit(parts: seq<string>)
    requires parts != [] && forall i | 0 <= i < |parts| :: Closed(parts[i])
    ensures Split(Join(parts, ","), Outside) == parts
  {
    hide Whole, End, Split;
    if |parts| == 1 {
      SplitLastPart(parts[0], Outside);
    } else {
      var rest := parts[1..];
      assert forall i | 0 <= i < |rest| :: rest[i] == parts[i + 1];
      ClosedPartsSplit(rest);
      SplitCutsPart(parts[0], Join(rest, ","), Outside);
      assert parts == [parts[0]] + rest;
    }
  }

  function PartStart(i: nat, st: Scan): Scan {
    if i == 0 then st else Outside
  }

  /** Every part is free of bare commas, and every part but the last ends outside quotes. */
  lemma {:induction false} SplitParts(s: string, st: Scan)
    ensures var r := Split(s, st);
            forall i | 0 <= i < |r| :: Whole(r[i], PartStart(i, st))
                                       && (i < |r| - 1 ==> End(r[i], PartStart(i, st)) == Outside)
  {
    if s != "" {
      var c, rest := s[0], Split(s[1..], Next(st, s[0]));
      SplitParts(s[1..], Next(st, c));
      var r := Split(s, st);
      if st == Outside && c == ',' {
        forall i | 0 <= i < |r|
          ensures Whole(r[i], PartStart(i, st)) && (i < |r| - 1 ==> End(r[i], PartStart(i, st)) == Outside)
        {
          if i > 0 {
            assert r[i] == rest[i - 1];
          }
        }
      } else {
        forall i | 0 <= i < |r|
          ensures Whole(r[i], PartStart(i, st)) && (i < |r| - 1 ==> End(r[i], PartStart(i, st)) == Outside)
        {
          if i > 0 {
            assert r[i] == rest[i];
          } else {
            assert r[0][1..] == rest[0];
          }
        }
      }
    }
  }

  lemma JoinOfMore(part: string, rest: seq<string>)
    requires rest != []
    ensures Join([part] + rest, ",") == part + "," + Join(rest, ",")
  {
    assert ([part] + rest)[1..] == rest;
  }

  lemma JoinHead(c: char, part: string, rest: seq<string>)
    ensures Join([[c] + part] + rest, ",") == [c] + Join([part] + rest, ",")
  {
    hide Join;
    if rest == [] {
      JoinOfOne([c] + part);
      JoinOfOne(part);
      assert [[c] + part] + rest == [[c] + part] && [part] + rest == [part];
    } else {
      JoinOfMore([c] + part, rest);
      JoinOfMore(part, rest);
      var tail := "," + Join(rest, ",");
      assert ([c] + part) + tail == [c] + (part + tail);
    }
  }

  /** Joining the parts with commas gives the text back: splitting loses nothing. */
  lemma {:induction false} SplitJoins(s: string, st: Scan)
    ensures Join(Split(s, st), ",") == s
  {
    hide Next, Join;
    if s == "" {
      JoinOfOne("");
    } else {
      SplitJoins(s[1..], Next(st, s[0]));
      var r := Split(s[1..], Next(st, s[0]));
      JoinOfMore("", r);
      JoinHead(s[0], r[0], r[1..]);
      assert [r[0]] + r[1..] == r;
      assert [s[0]] + s[1..] == s && "" + "," + s[1..] == "," + s[1..];
    }
  }

  lemma JoinOfOne(part: string)
    ensures Join([part], ",") == part
  {
  }

  /** One character more: a comma outside quotes opens a part, anything else extends the last. */
  function Extend(r: seq<string>, c: char, outside: bool): (e: seq<string>)
    requires r != []
    ensures e != []
  {
    if outside && c == ',' then r + [""] else r[..|r| - 1] + [r[|r| - 1] + [c]]
  }

  lemma ExtendHead(head: string, r: seq<string>, c: char, outside: bool)
    requires r != []
    ensures Extend([head] + r, c, outside) == [head] + Extend(r, c, outside)
    ensures r[1..] != [] ==> Extend([head] + r[1..], c, outside) == [head] + Extend(r, c, outside)[1..]
  {
    assert ([head] + r)[..|r|] == [head] + r[..|r| - 1];
    if r[1..] != [] {
      assert ([head] + r[1..])[..|r| - 1] == [head] + r[..|r| - 1][1..];
    }
  }

  lemma SplitCons(h: char, t: string, st: Scan)
    ensures var r := Split(t, Next(st, h));
            Split([h] + t, st) == if st == Outside && h == ',' then [""] + r else [[h] + r[0]] + r[1..]
  {
    assert ([h] + t)[1..] == t;
  }

  lemma {:induction false} SplitSnoc(s: string, c: char, st: Scan)
    ensures Split(s + [c], st) == Extend(Split(s, st), c, End(s, st) == Outside)
  {
    if s == "" {
      assert s + [c] == [c] + "";
      SplitCons(c, "", st);
      assert "" + [c] == [c] + "";
    } else {
      var h, t := s[0], s[1..];
      SplitSnoc(t, c, Next(st, h));
      assert s + [c] == [h] + (t + [c]) && s == [h] + t;
      SplitCons(h, t + [c], st);
      SplitCons(h, t, st);
      SnocStep(h, Split(t, Next(st, h)), c, End(t, Next(st, h)) == Outside, st);
    }
  }

  lemma SnocStep(h: char, rest: seq<string>, c: char, outside: bool, st: Scan)
    requires rest != []
    ensures var longer := Extend(rest, c, outside);
            && [""] + longer == Extend([""] + rest, c, outside)
            && [[h] + longer[0]] + longer[1..] == Extend([[h] + rest[0]] + rest[1..], c, outside)
  {
    ExtendHead("", rest, c, outside);
    ExtendHead([h] + rest[0], rest, c, outside);
    if |rest| == 1 {
      assert [h] + (rest[0] + [c]) == [h] + rest[0] + [c];
    }
  }

  /** `split_outside_quotes`: one pass that remembers where the open part began. */
  method SplitOutsideQuotes(value: string) returns (parts: seq<string>)
    ensures parts == Split(value, Outside)
  {
    parts := [];
    var start, i := 0, 0;
    var inQuotes, escaped := false, false;
    while i < |value|
      invariant 0 <= start <= i <= |value|
      invariant escaped ==> inQuotes
      invariant End(value[..i], Outside) == if escaped then Escaped else if inQuotes then Inside else Outside
      invariant parts + [value[start..i]] == Split(value[..i], Outside)
    {
      var c := value[i];
      ghost var outside := !inQuotes && !escaped;
      StepSplit(value, i, start, parts, outside);
      if escaped {
        escaped := false;
      } else if c == '\\' && inQuotes {
        escaped := true;
      } else if c == '"' {
        inQuotes := !inQuotes;
      } else if c == ',' && !inQuotes {
        parts := parts + [value[start..i]];
        start := i + 1;
      }
      i := i + 1;
    }
    assert value[..i] == value && value[start..i] == value[start..];
    parts := parts + [value[start..]];
  }

  lemma StepSplit(value: string, i: nat, start: nat, parts: seq<string>, outside: bool)
    requires start <= i < |value|
    requires outside == (End(value[..i], Outside) == Outside)
    requires parts + [value[start..i]] == Split(value[..i], Outside)
    ensures End(value[..i + 1], Outside) == Next(End(value[..i], Outside), value[i])
    ensures Split(value[..i + 1], Outside)
         == if outside && value[i] == ',' then parts + [value[start..i]] + [value[i + 1..i + 1]]
            else parts + [value[start..i + 1]]
  {
    var c := value[i];
    assert value[..i + 1] == value[..i] + [c];
    EndAppend(value[..i], [c], Outside);
    assert [c][1..] == "";
    SplitSnoc(value[..i], c, Outside);
    assert value[start..i + 1] == value[start..i] + [c];
    var r := parts + [value[start..i]];
    assert r[..|r| - 1] == parts && r[|r| - 1] == value[start..i];
    assert value[i + 1..i + 1] == "";
  }

  // ----- Normalised lists -------------------------------------------------------------------

  /** The parts with the whitespace around each trimmed and the empty ones dropped. */
  function Elements(parts: seq<string>): seq<string> {
    if parts == [] then []
    else
      var e := Trim(parts[0]);
      (if e == "" then [] else [e]) + Elements(parts[1..])
  }

  function NormalizeList(value: string): string {
    Join(Elements(Split(value, Outside)), ", ")
  }

  /** What a list of trimmed elements looks like: non-empty, no bare comma, and only the last
      may leave a quoted-string open. */
  predicate ListElements(es: seq<string>) {
    && (forall i | 0 <= i < |es| :: es[i] != "" && Trimmed(es[i]) && Whole(es[i], Outside))
    && (forall i | 0 <= i < |es| - 1 :: End(es[i], Outside) == Outside)
  }

  predicate ListParts(parts: seq<string>) {
    forall i | 0 <= i < |parts| :: Whole(parts[i], Outside)
                                   && (i < |parts| - 1 ==> End(parts[i], Outside) == Outside)
  }

  lemma {:induction false} TrimEndKeepsScan(p: string, st: Scan)
    requires Whole(p, st)
    ensures Whole(TrimEnd(p), st)
    ensures End(p, st) == Outside ==> End(TrimEnd(p), st) == Outside
  {
    if p != "" && IsWhitespace(p[|p| - 1]) {
      var q, c := p[..|p| - 1], p[|p| - 1];
      assert p == q + [c];
      WholeAppend(q, [c], st);
      EndAppend(q, [c], st);
      TrimEndKeepsScan(q, st);
    }
  }

  lemma {:induction false} TrimStartKeepsScan(p: string)
    requires Whole(p, Outside)
    ensures Whole(TrimStart(p), Outside) && End(TrimStart(p), Outside) == End(p, Outside)
  {
    if p != "" && IsWhitespace(p[0]) {
      TrimStartKeepsScan(p[1..]);
    }
  }

  lemma TrimKeepsScan(p: string)
    requires Whole(p, Outside)
    ensures Whole(Trim(p), Outside)
    ensures End(p, Outside) == Outside ==> End(Trim(p), Outside) == Outside
  {
    TrimStartKeepsScan(p);
    TrimEndKeepsScan(TrimStart(p), Outside);
  }

  lemma ConsListElements(e: string, es: seq<string>)
    requires e != "" && Trimmed(e) && Whole(e, Outside) && (es != [] ==> End(e, Outside) == Outside)
    requires ListElements(es)
    ensures ListElements([e] + es)
  {
    var l := [e] + es;
    forall i | 0 <= i < |l|
      ensures l[i] != "" && Trimmed(l[i]) && Whole(l[i], Outside)
      ensures i < |l| - 1 ==> End(l[i], Outside) == Outside
    {
      if i > 0 {
        assert l[i] == es[i - 1];
      }
    }
  }

  lemma {:induction false} ElementsAreListElements(parts: seq<string>)
    requires ListParts(parts)
    ensures ListElements(Elements(parts))
  {
    if parts != [] {
      var rest := parts[1..];
      assert ListParts(rest) by {
        forall i | 0 <= i < |rest|
          ensures Whole(rest[i], Outside) && (i < |rest| - 1 ==> End(rest[i], Outside) == Outside)
        {
          assert rest[i] == parts[i + 1];
        }
      }
      ElementsAreListElements(rest);
      TrimKeepsScan(parts[0]);
      TrimIsTrimmed(parts[0]);
      var e := Trim(parts[0]);
      if e != "" {
        ConsListElements(e, Elements(rest));
      } else {
        assert Elements(parts) == Elements(rest);
      }
    }
  }

  lemma ElementsOfHead(p: string, q: string, rest: seq<string>)
    requires Trim(p) == Trim(q)
    ensures Elements([p] + rest) == Elements([q] + rest)
  {
    hide Trim;
    assert ([p] + rest)[1..] == rest && ([q] + rest)[1..] == rest;
  }

  lemma SpaceIsTrimmed(p: string)
    ensures Trim([' '] + p) == Trim(p)
  {
    hide TrimEnd;
    assert ([' '] + p)[1..] == p;
  }

  lemma LeadingSpaceIsTrimmed(x: string)
    ensures Elements(Split(" " + x, Outside)) == Elements(Split(x, Outside))
  {
    hide Split, Elements, Trim;
    var r := Split(x, Outside);
    SplitCons(' ', x, Outside);
    SpaceIsTrimmed(r[0]);
    ElementsOfHead([' '] + r[0], r[0], r[1..]);
    assert [r[0]] + r[1..] == r;
  }

  lemma TrimOfTrimmed(e: string)
    requires Trimmed(e)
    ensures Trim(e) == e
  {
    TrimOf("", e, "");
    assert "" + e + "" == e;
  }

  lemma ElementsCons(e: string, parts: seq<string>)
    requires e != "" && Trimmed(e)
    ensures Elements([e] + parts) == [e] + Elements(parts)
  {
    TrimOfTrimmed(e);
    assert ([e] + parts)[1..] == parts;
  }

  lemma ElementsOfCut(e: string, tail: string)
    requires e != "" && Trimmed(e) && Whole(e, Outside) && End(e, Outside) == Outside
    ensures Elements(Split(e + ", " + tail, Outside)) == [e] + Elements(Split(tail, Outside))
  {
    assert e + ", " + tail == e + "," + (" " + tail);
    SplitCutsPart(e, " " + tail, Outside);
    LeadingSpaceIsTrimmed(tail);
    ElementsCons(e, Split(" " + tail, Outside));
  }

  lemma TailListElements(es: seq<string>)
    requires ListElements(es) && es != []
    ensures ListElements(es[1..])
  {
    var rest := es[1..];
    forall i | 0 <= i < |rest|
      ensures rest[i] != "" && Trimmed(rest[i]) && Whole(rest[i], Outside)
      ensures i < |rest| - 1 ==> End(rest[i], Outside) == Outside
    {
      assert rest[i] == es[i + 1];
    }
  }

  lemma ElementsOfOne(e: string)
    requires e != "" && Trimmed(e) && Whole(e, Outside)
    ensures Elements(Split(e, Outside)) == [e]
  {
    SplitLastPart(e, Outside);
    ElementsCons(e, []);
    assert [e] + [] == [e];
  }

  lemma NoElements()
    ensures Elements(Split("", Outside)) == []
  {
    assert Split("", Outside) == [""];
  }

  /** A joined list of elements splits back into those elements. */
  lemma {:induction false} ElementsOfJoin(es: seq<string>)
    requires ListElements(es)
    ensures Elements(Split(Join(es, ", "), Outside)) == es
  {
    hide Elements, TrimStart, TrimEnd, Whole, End;
    if es == [] {
      NoElements();
    } else if |es| == 1 {
      ElementsOfOne(es[0]);
    } else {
      var e, rest := es[0], es[1..];
      TailListElements(es);
      ElementsOfJoin(rest);
      ElementsOfCut(e, Join(rest, ", "));
      assert es == [e] + rest;
    }
  }

  lemma SplitIsListParts(value: string)
    ensures ListParts(Split(value, Outside))
  {
    SplitParts(value, Outside);
    var r := Split(value, Outside);
    forall i | 0 <= i < |r|
      ensures Whole(r[i], Outside) && (i < |r| - 1 ==> End(r[i], Outside) == Outside)
    {
      assert PartStart(i, Outside) == Outside;
    }
  }

  /** Normalising a list twice is normalising it once, whatever quotes the value leaves open. */
  lemma NormalizeListIdempotent(value: string)
    ensures NormalizeList(NormalizeList(value)) == NormalizeList(value)
  {
    SplitIsListParts(value);
    ElementsAreListElements(Split(value, Outside));
    ElementsOfJoin(Elements(Split(value, Outside)));
  }

  lemma ElementsOfValue(value: string)
    ensures ListElements(Elements(Split(value, Outside)))
  {
    SplitIsListParts(value);
    ElementsAreListElements(Split(value, Outside));
  }

  /** Two values normalise alike exactly when they list the same elements in the same order. */
  lemma NormalizeListTellsElementsApart(a: string, b: string)
    ensures NormalizeList(a) == NormalizeList(b)
            <==> Elements(Split(a, Outside)) == Elements(Split(b, Outside))
  {
    hide Elements, Split, Join;
    ElementsOfValue(a);
    ElementsOfValue(b);
    ElementsOfJoin(Elements(Split(a, Outside)));
    ElementsOfJoin(Elements(Split(b, Outside)));
  }

  /** A single element normalises to itself, so two different ones are told apart. */
  lemma SingleElementNormalizesToItself(e: string)
    requires e != "" && Trimmed(e) && Whole(e, Outside)
    ensures NormalizeList(e) == e
  {
    hide Elements, Split;
    ElementsOfOne(e);
  }
}
