/** Which request headers a cross-origin request may carry without asking: the CORS-safelisted ones
    (section 2.2.2 of the Fetch standard), as long as they do not add up to too much. */
module Cors {
  import opened Headers
  import opened Text

  const MAX_SAFELISTED_VALUE := 128
  const MAX_SAFELISTED_VALUE_BYTES := 1024

  // ----- Order of strings -------------------------------------------------------------------

  /** The order of Rust strings: by the first character that differs, else the longer is greater. */
  predicate Greater(a: string, b: string) {
    if a == "" then false
    else if b == "" then true
    else if a[0] != b[0] then a[0] > b[0]
    else Greater(a[1..], b[1..])
  }

  lemma {:induction false} GreaterIsTotal(a: string, b: string)
    ensures a == b || Greater(a, b) || Greater(b, a)
    ensures !(Greater(a, b) && Greater(b, a)) && !Greater(a, a)
  {
    if a != "" {
      GreaterIsTotal(a[1..], a[1..]);
      if b != "" && a[0] == b[0] {
        GreaterIsTotal(a[1..], b[1..]);
        assert a == [a[0]] + a[1..] && b == [b[0]] + b[1..];
      }
    }
  }

  lemma {:induction false} GreaterIsTransitive(a: string, b: string, c: string)
    requires Greater(a, b) && Greater(b, c)
    ensures Greater(a, c)
  {
    if c != "" && a[0] == b[0] && b[0] == c[0] {
      GreaterIsTransitive(a[1..], b[1..], c[1..]);
    }
  }

  // ----- Decimal numbers --------------------------------------------------------------------

  function TrimZeros(s: string): (r: string)
    ensures |r| <= |s| && (r != "" ==> r[0] != '0')
  {
    if s != "" && s[0] == '0' then TrimZeros(s[1..]) else s
  }

  /** `decimal_greater`: the longer number without leading zeros, or the greater string. */
  predicate DecimalGreater(a: string, b: string) {
    var x, y := TrimZeros(a), TrimZeros(b);
    |x| > |y| || (|x| == |y| && Greater(x, y))
  }

  function Power10(n: nat): nat {
    if n == 0 then 1 else 10 * Power10(n - 1)
  }

  lemma AllDigitsFront(s: string)
    requires AllDigits(s) && s != ""
    ensures AllDigits(s[..|s| - 1]) && AllDigits(s[1..]) && '0' <= s[|s| - 1] <= '9'
  {
    assert IsDigit(s[|s| - 1]);
  }

  lemma {:induction false} LeadingZero(s: string)
    requires AllDigits(s) && s != "" && s[0] == '0'
    ensures AllDigits(s[1..]) && DecimalValue(s) == DecimalValue(s[1..])
  {
    AllDigitsFront(s);
    if |s| == 1 {
      assert s[..0] == "" && s[1..] == "";
    } else {
      var front := s[..|s| - 1];
      LeadingZero(front);
      assert s[1..][..|s| - 2] == front[1..];
    }
  }

  lemma {:induction false} TrimZerosKeepsValue(s: string)
    requires AllDigits(s)
    ensures AllDigits(TrimZeros(s)) && DecimalValue(TrimZeros(s)) == DecimalValue(s)
  {
    hide DecimalValue;
    if s != "" && s[0] == '0' {
      LeadingZero(s);
      TrimZerosKeepsValue(s[1..]);
    }
  }

  lemma {:induction false} ValueBelowPower(s: string)
    requires AllDigits(s)
    ensures DecimalValue(s) < Power10(|s|)
  {
    if s != "" {
      AllDigitsFront(s);
      ValueBelowPower(s[..|s| - 1]);
    }
  }

  lemma {:induction false} ValueFromPower(s: string)
    requires AllDigits(s) && s != "" && s[0] != '0'
    ensures DecimalValue(s) >= Power10(|s| - 1)
  {
    AllDigitsFront(s);
    if |s| > 1 {
      ValueFromPower(s[..|s| - 1]);
    } else {
      assert s[0] > '0';
    }
  }

  lemma {:induction false} PowerGrows(m: nat, n: nat)
    requires m <= n
    ensures Power10(m) <= Power10(n)
  {
    if m < n {
      PowerGrows(m, n - 1);
    }
  }

  lemma {:induction false} GreaterSnoc(a: string, x: char, b: string, y: char)
    requires |a| == |b|
    ensures Greater(a + [x], b + [y]) <==> Greater(a, b) || (a == b && x > y)
  {
    if a == "" {
      assert a + [x] == [x] && b + [y] == [y] && [x][1..] == "" && [y][1..] == "";
    } else {
      assert (a + [x])[1..] == a[1..] + [x] && (b + [y])[1..] == b[1..] + [y];
      assert a == [a[0]] + a[1..] && b == [b[0]] + b[1..];
      GreaterSnoc(a[1..], x, b[1..], y);
    }
  }

  /** Digit strings of one length compare as their numbers do. */
  lemma {:induction false} SameLengthComparesAsNumbers(a: string, b: string)
    requires |a| == |b| && AllDigits(a) && AllDigits(b)
    ensures Greater(a, b) <==> DecimalValue(a) > DecimalValue(b)
    ensures a == b <==> DecimalValue(a) == DecimalValue(b)
  {
    if a == "" {
      assert b == "";
    } else {
      var f, g := a[..|a| - 1], b[..|b| - 1];
      var x, y := a[|a| - 1], b[|b| - 1];
      AllDigitsFront(a);
      AllDigitsFront(b);
      SameLengthComparesAsNumbers(f, g);
      assert a == f + [x] && b == g + [y];
      GreaterSnoc(f, x, g, y);
      LastDigitDecides(DecimalValue(f), x as int - '0' as int, DecimalValue(g), y as int - '0' as int);
      assert x > y <==> x as int > y as int;
      assert x == y <==> x as int == y as int;
    }
  }

  lemma LastDigitDecides(f: nat, x: int, g: nat, y: int)
    requires 0 <= x < 10 && 0 <= y < 10
    ensures 10 * f + x > 10 * g + y <==> f > g || (f == g && x > y)
    ensures 10 * f + x == 10 * g + y <==> f == g && x == y
  {
  }

  /** For numbers of any length, leading zeros and all, the comparison is that of the numbers. */
  lemma DecimalGreaterIsNumeric(a: string, b: string)
    requires AllDigits(a) && AllDigits(b)
    ensures DecimalGreater(a, b) <==> DecimalValue(a) > DecimalValue(b)
  {
    hide DecimalValue, Power10, TrimZeros, AllDigits, Greater;
    var x, y := TrimZeros(a), TrimZeros(b);
    TrimZerosKeepsValue(a);
    TrimZerosKeepsValue(b);
    if |x| == |y| {
      SameLengthComparesAsNumbers(x, y);
    } else if |x| > |y| {
      LongerIsGreater(x, y);
    } else {
      LongerIsGreater(y, x);
    }
  }

  lemma LongerIsGreater(x: string, y: string)
    requires AllDigits(x) && AllDigits(y) && |x| > |y| && x[0] != '0'
    ensures DecimalValue(x) > DecimalValue(y)
  {
    hide DecimalValue, Power10;
    ValueFromPower(x);
    ValueBelowPower(y);
    PowerGrows(|y|, |x| - 1);
  }

  // ----- Safelisted headers -----------------------------------------------------------------

  predicate IsUnsafeByte(c: char) {
    var b := c as int;
    || b <= 8 || 0x0A <= b <= 0x1F || b == 0x22 || b == 0x28 || b == 0x29 || b == 0x3A || b == 0x3C
    || 0x3E <= b <= 0x40 || 0x5B <= b <= 0x5D || b == 0x7B || b == 0x7D || b == 0x7F
  }

  predicate HasUnsafeByte(value: string) {
    exists i | 0 <= i < |value| :: IsUnsafeByte(value[i])
  }

  predicate IsLanguageByte(c: char) {
    IsAlphanumeric(c) || c in " *,-.;="
  }

  /** What a MIME type is before its parameters, in lower case. */
  function Essence(value: string): string {
    Lower(TrimBlanks(value[..Find(value, ';')]))
  }

  function TrimBlanks(s: string): string
    decreases |s|
  {
    if s != "" && IsBlank(s[0]) then TrimBlanks(s[1..])
    else if s != "" && IsBlank(s[|s| - 1]) then TrimBlanks(s[..|s| - 1])
    else s
  }

  const BYTES_PREFIX := "bytes="

  /** The `range` arm: cut the prefix, cut at the first dash, and look at both sides. */
  predicate IsSafelistedRange(value: string) {
    && BYTES_PREFIX <= value
    && var rest := value[|BYTES_PREFIX|..];
       var dash := Find(rest, '-');
       && dash < |rest|
       && var start, end := rest[..dash], rest[dash + 1..];
          start != "" && AllDigits(start) && AllDigits(end) && (end == "" || !DecimalGreater(start, end))
  }

  predicate IsSafelisted(name: string, value: string) {
    && |value| <= MAX_SAFELISTED_VALUE
    && if name == "accept" then !HasUnsafeByte(value)
       else if name == "accept-language" || name == "content-language" then
         forall i | 0 <= i < |value| :: IsLanguageByte(value[i])
       else if name == "content-type" then
         && !HasUnsafeByte(value)
         && Essence(value) in ["application/x-www-form-urlencoded", "multipart/form-data", "text/plain"]
       else name == "range" && IsSafelistedRange(value)
  }

  /** `bytes=m-` or `bytes=m-n` with `m` no more than `n`, as numbers. */
  predicate IsRangeOf(value: string, start: string, end: string) {
    && value == BYTES_PREFIX + start + "-" + end
    && start != "" && AllDigits(start) && AllDigits(end)
    && (end != "" ==> DecimalValue(start) <= DecimalValue(end))
  }

  /** A range value is safelisted exactly when it is one range with its bounds in order. */
  lemma SafelistedRangeIsOneRange(value: string)
    ensures IsSafelistedRange(value) <==> exists start, end :: IsRangeOf(value, start, end)
  {
    hide DecimalValue, DecimalGreater, Find;
    if IsSafelistedRange(value) {
      var rest := value[|BYTES_PREFIX|..];
      var dash := Find(rest, '-');
      var start, end := rest[..dash], rest[dash + 1..];
      DecimalGreaterIsNumeric(start, end);
      assert rest == start + "-" + end;
      assert value == BYTES_PREFIX + rest;
      assert IsRangeOf(value, start, end);
    }
    if exists start, end :: IsRangeOf(value, start, end) {
      var start, end :| IsRangeOf(value, start, end);
      RangeOfIsSafelisted(value, start, end);
    }
  }

  lemma RangeOfIsSafelisted(value: string, start: string, end: string)
    requires IsRangeOf(value, start, end)
    ensures IsSafelistedRange(value)
  {
    hide DecimalValue, DecimalGreater, Find;
    var rest := start + "-" + end;
    assert value == BYTES_PREFIX + rest;
    assert value[..|BYTES_PREFIX|] == BYTES_PREFIX;
    assert value[|BYTES_PREFIX|..] == rest;
    assert '-' !in start by {
      assert forall i | 0 <= i < |start| :: IsDigit(start[i]);
    }
    FindsAfter(start, '-', end);
    assert rest == start + ['-'] + end;
    assert rest[..|start|] == start && rest[|start| + 1..] == end;
    DecimalGreaterIsNumeric(start, end);
  }

  // ----- Safelisted values, written out -----------------------------------------------------

  /** The marks no safelisted value has, besides the control characters other than the tab. */
  const UNSAFE_MARKS := "\"():<>?@[\\]{}"
  const DIGITS := "0123456789"
  const SAFELISTED_TYPES := ["application/x-www-form-urlencoded", "multipart/form-data", "text/plain"]

  predicate IsPlain(value: string) {
    forall i | 0 <= i < |value| ::
      (' ' <= value[i] || value[i] == '\t') && value[i] as int != 0x7F && value[i] !in UNSAFE_MARKS
  }

  predicate IsLanguage(value: string) {
    forall i | 0 <= i < |value| ::
      value[i] in DIGITS || value[i] in UPPER || value[i] in LOWER || value[i] in " *,-.;="
  }

  predicate AllBlank(s: string) {
    forall i | 0 <= i < |s| :: s[i] == ' ' || s[i] == '\t'
  }

  /** A MIME type in any case, with blanks around it, and nothing or its parameters after. */
  ghost predicate IsOfType(value: string, mime: string) {
    exists before, written, after, rest ::
      && value == before + written + after + rest
      && AllBlank(before) && AllBlank(after) && SameButCase(written, mime) && (rest == "" || rest[0] == ';')
  }

  lemma UnsafeByteIsWritten(c: char)
    ensures !IsUnsafeByte(c) <==> (' ' <= c || c == '\t') && c as int != 0x7F && c !in UNSAFE_MARKS
  {
    assert |UNSAFE_MARKS| == 13;
    assert forall i | 0 <= i < 13 :: IsUnsafeByte(UNSAFE_MARKS[i]);
    if IsUnsafeByte(c) && ' ' <= c && c as int != 0x7F {
      var at := MarkAt(c);
    }
  }

  lemma MarkAt(c: char) returns (at: nat)
    requires IsUnsafeByte(c) && ' ' <= c && c as int != 0x7F
    ensures at < |UNSAFE_MARKS| && UNSAFE_MARKS[at] == c
  {
    var b := c as int;
    at := if b == 0x22 then 0 else if b == 0x28 then 1 else if b == 0x29 then 2 else if b == 0x3A then 3
          else if b == 0x3C then 4 else if b == 0x3E then 5 else if b == 0x3F then 6 else if b == 0x40 then 7
          else if b == 0x5B then 8 else if b == 0x5C then 9 else if b == 0x5D then 10
          else if b == 0x7B then 11 else 12;
  }

  lemma LettersAndDigits(c: char)
    ensures c in DIGITS <==> IsDigit(c)
    ensures c in UPPER <==> IsUpper(c)
    ensures c in LOWER <==> 'a' <= c <= 'z'
  {
    assert forall i | 0 <= i < 10 :: DIGITS[i] == (48 + i) as char;
    assert forall i | 0 <= i < 26 :: UPPER[i] == (65 + i) as char && LOWER[i] == (97 + i) as char;
    if IsDigit(c) {
      assert DIGITS[c as int - 48] == c;
    } else if IsUpper(c) {
      assert UPPER[c as int - 65] == c;
    } else if 'a' <= c <= 'z' {
      assert LOWER[c as int - 97] == c;
    }
  }

  lemma LanguageByteIsWritten(c: char)
    ensures IsLanguageByte(c) <==> c in DIGITS || c in UPPER || c in LOWER || c in " *,-.;="
  {
    hide IsDigit, IsUpper;
    LettersAndDigits(c);
  }

  lemma {:induction false} TrimBlanksOf(before: string, p: string, after: string)
    requires AllBlank(before) && AllBlank(after) && (p != "" ==> !IsBlank(p[0]) && !IsBlank(p[|p| - 1]))
    ensures TrimBlanks(before + p + after) == p
    decreases |before| + |after|
  {
    var s := before + p + after;
    if before != "" {
      assert s[1..] == before[1..] + p + after;
      TrimBlanksOf(before[1..], p, after);
    } else if after != "" {
      if p == "" {
        assert s[1..] == before + p + after[1..];
        TrimBlanksOf(before, p, after[1..]);
      } else {
        assert s[..|s| - 1] == before + p + after[..|after| - 1];
        assert s[0] == p[0];
        TrimBlanksOf(before, p, after[..|after| - 1]);
      }
    } else {
      assert s == p;
    }
  }

  lemma {:induction false} TrimBlanksCuts(s: string) returns (before: string, after: string)
    ensures s == before + TrimBlanks(s) + after && AllBlank(before) && AllBlank(after)
    decreases |s|
  {
    before, after := "", "";
    if s != "" && IsBlank(s[0]) {
      before, after := TrimBlanksCuts(s[1..]);
      before := [s[0]] + before;
    } else if s != "" && IsBlank(s[|s| - 1]) {
      before, after := TrimBlanksCuts(s[..|s| - 1]);
      assert s == s[..|s| - 1] + [s[|s| - 1]];
      after := after + [s[|s| - 1]];
    }
  }

  predicate IsMimeChar(c: char) {
    'a' <= c <= 'z' || c == '/' || c == '-'
  }

  lemma FormTypeChars()
    ensures forall i | 0 <= i < |SAFELISTED_TYPES[0]| :: IsMimeChar(SAFELISTED_TYPES[0][i])
  {
  }

  lemma OtherTypeChars()
    ensures forall i | 0 <= i < |SAFELISTED_TYPES[1]| :: IsMimeChar(SAFELISTED_TYPES[1][i])
    ensures forall i | 0 <= i < |SAFELISTED_TYPES[2]| :: IsMimeChar(SAFELISTED_TYPES[2][i])
  {
  }

  lemma SafelistedTypesAreLower(mime: string)
    requires mime in SAFELISTED_TYPES
    ensures Lower(mime) == mime && ';' !in mime
    ensures forall i | 0 <= i < |mime| :: !IsBlank(mime[i])
  {
    var k :| 0 <= k < |SAFELISTED_TYPES| && SAFELISTED_TYPES[k] == mime;
    FormTypeChars();
    OtherTypeChars();
    assert k == 0 || k == 1 || k == 2;
    MimeCharsAreLower(mime);
  }

  lemma MimeCharsAreLower(mime: string)
    requires forall i | 0 <= i < |mime| :: IsMimeChar(mime[i])
    ensures Lower(mime) == mime && ';' !in mime
    ensures forall i | 0 <= i < |mime| :: !IsBlank(mime[i])
  {
  }

  lemma SameButCaseKeepsMarks(written: string, mime: string)
    requires SameButCase(written, mime) && ';' !in mime && forall i | 0 <= i < |mime| :: !IsBlank(mime[i])
    ensures ';' !in written && forall i | 0 <= i < |written| :: !IsBlank(written[i])
  {
    forall i | 0 <= i < |written|
      ensures written[i] != ';' && !IsBlank(written[i])
    {
      CasePairs(written[i], mime[i]);
      CasePairs(mime[i], written[i]);
    }
  }

  lemma WrittenTypeIsItsEssence(before: string, written: string, after: string, rest: string, mime: string)
    requires mime in SAFELISTED_TYPES && AllBlank(before) && AllBlank(after) && SameButCase(written, mime)
    requires rest == "" || rest[0] == ';'
    ensures Essence(before + written + after + rest) == mime
  {
    hide Find, TrimBlanks, SameButCase, Lower;
    SafelistedTypesAreLower(mime);
    SameButCaseKeepsMarks(written, mime);
    LowerTellsAllButCase(written, mime);
    var first, value := before + written + after, before + written + after + rest;
    assert ';' !in before && ';' !in after;
    if rest == "" {
      assert value == first;
      FindsNothing(first, ';');
    } else {
      FindsAfter(first, ';', rest[1..]);
      assert value == first + [';'] + rest[1..];
    }
    TrimBlanksOf(before, written, after);
  }

  lemma EssenceIsAWrittenType(value: string)
    ensures IsOfType(value, Essence(value))
  {
    hide Find, TrimBlanks, SameButCase;
    var cut := Find(value, ';');
    var before, after := TrimBlanksCuts(value[..cut]);
    var written := TrimBlanks(value[..cut]);
    LowerTwice(written);
    LowerTellsAllButCase(written, Essence(value));
    assert value == before + written + after + value[cut..];
  }

  lemma LowerTwice(s: string)
    ensures Lower(Lower(s)) == Lower(s)
  {
  }

  /** What is safelisted, arm by arm (section 2.2.2 of the Fetch standard): never more than 128 bytes,
      and never a field but these five. */
  lemma SafelistedAsItsArmSays(name: string, value: string)
    ensures IsSafelisted(name, value)
            <==> && |value| <= 128
                 && (|| (name == "accept" && IsPlain(value))
                     || (name in ["accept-language", "content-language"] && IsLanguage(value))
                     || (name == "content-type" && IsPlain(value)
                         && exists mime | mime in SAFELISTED_TYPES :: IsOfType(value, mime))
                     || (name == "range" && exists start, end :: IsRangeOf(value, start, end)))
  {
    hide IsUnsafeByte, IsLanguageByte, IsSafelistedRange, Essence, IsOfType, IsRangeOf;
    forall c: char
      ensures !IsUnsafeByte(c) <==> (' ' <= c || c == '\t') && c as int != 0x7F && c !in UNSAFE_MARKS
      ensures IsLanguageByte(c) <==> c in DIGITS || c in UPPER || c in LOWER || c in " *,-.;="
    {
      UnsafeByteIsWritten(c);
      LanguageByteIsWritten(c);
    }
    SafelistedRangeIsOneRange(value);
    SafelistedTypeIsWritten(value);
  }

  lemma SafelistedTypeIsWritten(value: string)
    ensures Essence(value) in SAFELISTED_TYPES <==> exists mime | mime in SAFELISTED_TYPES :: IsOfType(value, mime)
  {
    hide Essence;
    EssenceIsAWrittenType(value);
    if exists mime | mime in SAFELISTED_TYPES :: IsOfType(value, mime) {
      var mime :| mime in SAFELISTED_TYPES && IsOfType(value, mime);
      var before, written, after, rest :|
        && value == before + written + after + rest
        && AllBlank(before) && AllBlank(after) && SameButCase(written, mime) && (rest == "" || rest[0] == ';');
      WrittenTypeIsItsEssence(before, written, after, rest, mime);
    }
  }

  // ----- Names that need approval -----------------------------------------------------------

  const FORBIDDEN_NAMES := {
    "accept-charset", "accept-encoding", "access-control-request-headers", "access-control-request-method",
    "connection", "content-length", "cookie", "cookie2", "date", "dnt", "expect", "host", "keep-alive", "origin",
    "referer", "set-cookie", "te", "trailer", "transfer-encoding", "upgrade", "via"
  }

  predicate IsForbidden(name: string) {
    "proxy-" <= name || "sec-" <= name || name in FORBIDDEN_NAMES
  }

  /** What a field line adds to the safelisted bytes. */
  function SafelistedBytesOf(line: Line): nat {
    if !IsForbidden(line.name) && IsSafelisted(line.name, line.value) then |line.value| else 0
  }

  function SafelistedBytes(h: HeaderMap): nat {
    if h == [] then 0 else SafelistedBytesOf(h[0]) + SafelistedBytes(h[1..])
  }

  /** A name needs approval: it is the caller's to set, and some line of it is not safelisted, or all
      the safelisted values together are too long. */
  predicate NeedsApproval(h: HeaderMap, name: string) {
    && !IsForbidden(name)
    && exists i | 0 <= i < |h| ::
         h[i].name == name
         && (!IsSafelisted(h[i].name, h[i].value) || SafelistedBytes(h) > MAX_SAFELISTED_VALUE_BYTES)
  }

  predicate Ascending(names: seq<string>) {
    forall i, j | 0 <= i < j < |names| :: Greater(names[j], names[i])
  }

  /** A name into its place, once. */
  function Inserted(names: seq<string>, name: string): (r: seq<string>)
    ensures forall n :: n in r <==> n in names || n == name
  {
    if names == [] then [name]
    else if names[0] == name then names
    else if Greater(names[0], name) then [name] + names
    else
      assert names == [names[0]] + names[1..];
      [names[0]] + Inserted(names[1..], name)
  }

  lemma {:induction false} InsertedAscends(names: seq<string>, name: string)
    requires Ascending(names)
    ensures Ascending(Inserted(names, name))
  {
    hide Greater;
    if names != [] && names[0] != name {
      var first, rest := names[0], names[1..];
      if Greater(first, name) {
        forall j | 0 <= j < |names|
          ensures Greater(names[j], name)
        {
          if j > 0 {
            GreaterIsTransitive(names[j], first, name);
          }
        }
      } else {
        GreaterIsTotal(first, name);
        InsertedAscends(rest, name);
        var more := Inserted(rest, name);
        forall j | 0 <= j < |more|
          ensures Greater(more[j], first)
        {
          assert more[j] in more;
          if more[j] != name {
            var k :| 0 <= k < |rest| && rest[k] == more[j];
            assert names[k + 1] == more[j];
          }
        }
      }
    }
  }

  /** `sort_unstable` and `dedup`. */
  function Sorted(names: seq<string>): (r: seq<string>)
    ensures forall n :: n in r <==> n in names
  {
    if names == [] then []
    else
      assert names == [names[0]] + names[1..];
      Inserted(Sorted(names[1..]), names[0])
  }

  lemma {:induction false} SortedAscends(names: seq<string>)
    ensures Ascending(Sorted(names))
  {
    if names != [] {
      SortedAscends(names[1..]);
      InsertedAscends(Sorted(names[1..]), names[0]);
    }
  }

  /** The names collected off the first lines: those not safelisted, and those that are. */
  ghost predicate Collected(h: HeaderMap, names: seq<string>, safelisted: seq<string>) {
    && (forall n :: n in names
                    <==> exists i :: 0 <= i < |h| && h[i].name == n && !IsForbidden(n) && !IsSafelisted(n, h[i].value))
    && (forall n :: n in safelisted
                    <==> exists i :: 0 <= i < |h| && h[i].name == n && !IsForbidden(n) && IsSafelisted(n, h[i].value))
  }

  lemma CollectedSnoc(h: HeaderMap, line: Line, names: seq<string>, safelisted: seq<string>)
    requires Collected(h, names, safelisted)
    ensures if IsForbidden(line.name) then Collected(h + [line], names, safelisted)
            else if IsSafelisted(line.name, line.value) then Collected(h + [line], names, safelisted + [line.name])
            else Collected(h + [line], names + [line.name], safelisted)
  {
    hide IsForbidden, IsSafelisted;
    var more := h + [line];
    assert more[|h|] == line && forall i | 0 <= i < |h| :: more[i] == h[i];
  }

  lemma {:induction false} BytesSnoc(h: HeaderMap, line: Line)
    ensures SafelistedBytes(h + [line]) == SafelistedBytes(h) + SafelistedBytesOf(line)
  {
    hide SafelistedBytesOf;
    if h == [] {
      assert h + [line] == [line] && [line][1..] == [];
    } else {
      assert (h + [line])[1..] == h[1..] + [line];
      BytesSnoc(h[1..], line);
    }
  }

  /** `unsafe_request_header_names`: the names that need approval, each once and in order. */
  method UnsafeRequestHeaderNames(h: HeaderMap) returns (names: seq<string>)
    ensures Ascending(names)
    ensures forall n :: n in names <==> NeedsApproval(h, n)
  {
    hide IsForbidden, IsSafelisted, SafelistedBytes, Collected, NeedsApproval, Ascending;
    names := [];
    var safelisted: seq<string>, safelistedBytes := [], 0;
    var i := 0;
    NothingCollected();
    while i < |h|
      invariant 0 <= i <= |h|
      invariant Collected(h[..i], names, safelisted) && safelistedBytes == SafelistedBytes(h[..i])
    {
      var line := h[i];
      assert h[..i + 1] == h[..i] + [line];
      CollectedSnoc(h[..i], line, names, safelisted);
      BytesSnoc(h[..i], line);
      i := i + 1;
      if IsForbidden(line.name) {
        continue;
      }
      if IsSafelisted(line.name, line.value) {
        safelisted := safelisted + [line.name];
        safelistedBytes := safelistedBytes + |line.value|;
      } else {
        names := names + [line.name];
      }
    }
    assert h[..i] == h;
    CollectedMeans(h, names, safelisted);
    if safelistedBytes > MAX_SAFELISTED_VALUE_BYTES {
      names := names + safelisted;
    }
    SortedAscends(names);
    names := Sorted(names);
  }

  lemma NothingCollected()
    ensures Collected([], [], []) && SafelistedBytes([]) == 0
  {
  }

  lemma CollectedMeans(h: HeaderMap, names: seq<string>, safelisted: seq<string>)
    requires Collected(h, names, safelisted)
    ensures forall n :: NeedsApproval(h, n)
                        <==> n in names || (SafelistedBytes(h) > MAX_SAFELISTED_VALUE_BYTES && n in safelisted)
  {
    hide IsForbidden, IsSafelisted, SafelistedBytes;
    forall n
      ensures NeedsApproval(h, n)
              <==> n in names || (SafelistedBytes(h) > MAX_SAFELISTED_VALUE_BYTES && n in safelisted)
    {
      if n in names {
        var i :| 0 <= i < |h| && h[i].name == n && !IsForbidden(n) && !IsSafelisted(n, h[i].value);
        assert NeedsApproval(h, n);
      }
      if NeedsApproval(h, n) {
        var i :| 0 <= i < |h| && h[i].name == n
                 && (!IsSafelisted(h[i].name, h[i].value) || SafelistedBytes(h) > MAX_SAFELISTED_VALUE_BYTES);
        if !IsSafelisted(n, h[i].value) {
          assert n in names;
        } else {
          assert n in safelisted;
        }
      }
    }
  }

  // ----- What the list depends on -----------------------------------------------------------

  lemma {:induction false} BytesConcat(a: HeaderMap, b: HeaderMap)
    ensures SafelistedBytes(a + b) == SafelistedBytes(a) + SafelistedBytes(b)
  {
    hide SafelistedBytesOf;
    if a == [] {
      assert a + b == b;
    } else {
      assert (a + b)[1..] == a[1..] + b;
      BytesConcat(a[1..], b);
    }
  }

  lemma BytesInserted(h: HeaderMap, at: nat, line: Line)
    requires at <= |h|
    ensures SafelistedBytes(h[..at] + [line] + h[at..]) == SafelistedBytes(h) + SafelistedBytesOf(line)
  {
    hide SafelistedBytesOf;
    assert h == h[..at] + h[at..] && [line][1..] == [];
    BytesConcat(h[..at], h[at..]);
    BytesConcat(h[..at] + [line], h[at..]);
    BytesConcat(h[..at], [line]);
  }

  /** A line more, wherever it stands, takes no name off the list. */
  lemma AddingALineRemovesNoName(h: HeaderMap, at: nat, line: Line, name: string)
    requires at <= |h| && NeedsApproval(h, name)
    ensures NeedsApproval(h[..at] + [line] + h[at..], name)
  {
    hide IsForbidden, IsSafelisted, SafelistedBytes, SafelistedBytesOf;
    BytesInserted(h, at, line);
    var more := h[..at] + [line] + h[at..];
    var i :| 0 <= i < |h| && h[i].name == name
             && (!IsSafelisted(h[i].name, h[i].value) || SafelistedBytes(h) > MAX_SAFELISTED_VALUE_BYTES);
    assert more[if i < at then i else i + 1] == h[i];
  }

  function WithoutLine(h: HeaderMap, i: nat): HeaderMap
    requires i < |h|
  {
    h[..i] + h[i + 1..]
  }

  lemma WithoutLineCounts(h: HeaderMap, i: nat)
    requires i < |h|
    ensures multiset(WithoutLine(h, i)) == multiset(h) - multiset{h[i]}
    ensures SafelistedBytes(h) == SafelistedBytes(WithoutLine(h, i)) + SafelistedBytesOf(h[i])
  {
    hide SafelistedBytesOf, SafelistedBytes;
    var left := WithoutLine(h, i);
    assert h == h[..i] + [h[i]] + h[i + 1..];
    assert left[..i] == h[..i] && left[i..] == h[i + 1..];
    BytesInserted(left, i, h[i]);
  }

  lemma {:induction false} SameLinesSameBytes(a: HeaderMap, b: HeaderMap)
    requires multiset(a) == multiset(b)
    ensures SafelistedBytes(a) == SafelistedBytes(b)
    decreases |a|
  {
    if a == [] {
      assert |multiset(b)| == 0;
      assert b == [];
    } else {
      hide SafelistedBytesOf, SafelistedBytes, WithoutLine;
      assert a[0] in multiset(b);
      var i :| 0 <= i < |b| && b[i] == a[0];
      WithoutLineCounts(a, 0);
      WithoutLineCounts(b, i);
      assert |multiset(WithoutLine(a, 0))| < |multiset(a)|;
      SameLinesSameBytes(WithoutLine(a, 0), WithoutLine(b, i));
    }
  }

  /** The order of the lines does not matter: the names that need approval are the same. */
  lemma OrderOfLinesDoesNotMatter(a: HeaderMap, b: HeaderMap, name: string)
    requires multiset(a) == multiset(b)
    ensures NeedsApproval(a, name) <==> NeedsApproval(b, name)
  {
    SameLinesSameBytes(a, b);
    if NeedsApproval(a, name) {
      SameLinesNeedApproval(a, b, name);
    }
    if NeedsApproval(b, name) {
      SameLinesNeedApproval(b, a, name);
    }
  }

  lemma SameLinesNeedApproval(a: HeaderMap, b: HeaderMap, name: string)
    requires multiset(a) == multiset(b) && SafelistedBytes(a) == SafelistedBytes(b) && NeedsApproval(a, name)
    ensures NeedsApproval(b, name)
  {
    hide IsForbidden, IsSafelisted, SafelistedBytes;
    var i :| 0 <= i < |a| && a[i].name == name
             && (!IsSafelisted(a[i].name, a[i].value) || SafelistedBytes(a) > MAX_SAFELISTED_VALUE_BYTES);
    assert a[i] in multiset(b);
    var j :| 0 <= j < |b| && b[j] == a[i];
  }

  lemma HeadIsNotInTail(names: seq<string>)
    requires Ascending(names) && names != []
    ensures names[0] !in names[1..]
  {
    hide Greater;
    GreaterIsTotal(names[0], names[0]);
    forall i | 0 < i < |names|
      ensures names[i] != names[0]
    {
    }
  }

  lemma EmptyOrHasName(names: seq<string>)
    ensures names == [] || exists n :: n in names
  {
    assert names != [] ==> names[0] in names;
  }

  /** An ascending list is known by its names: so two results of the same names are the same list. */
  lemma {:induction false} AscendingListIsItsNames(a: seq<string>, b: seq<string>)
    requires Ascending(a) && Ascending(b) && forall n :: n in a <==> n in b
    ensures a == b
  {
    hide Greater;
    if a == [] {
      EmptyOrHasName(b);
    } else {
      assert a[0] in b;
      var i :| 0 <= i < |b| && b[i] == a[0];
      assert b[0] in a;
      var j :| 0 <= j < |a| && a[j] == b[0];
      GreaterIsTotal(a[0], b[0]);
      assert a[0] == b[0];
      assert a == [a[0]] + a[1..] && b == [b[0]] + b[1..];
      HeadIsNotInTail(a);
      HeadIsNotInTail(b);
      forall n
        ensures n in a[1..] <==> n in b[1..]
      {
        assert n in a <==> n == a[0] || n in a[1..];
        assert n in b <==> n == b[0] || n in b[1..];
      }
      AscendingListIsItsNames(a[1..], b[1..]);
    }
  }
}
