/** Base64 with padding (section 4 of RFC 4648), and a strict decoder to hold the encoder against. */
module Base64 {
  import opened Text

  type Sextet = n: int | 0 <= n < 64

  /** `count` characters in a row from `first` on. */
  function Range(first: char, count: nat): (r: string)
    requires first as int + count < 0xD800
    ensures |r| == count
  {
    seq(count, i requires 0 <= i < count => (first as int + i) as char)
  }

  /** The alphabet of table 1 of RFC 4648. */
  const ALPHABET: string := Range('A', 26) + Range('a', 26) + Range('0', 10) + "+/"

  function Letter(n: Sextet): char {
    ALPHABET[n]
  }

  // ----- Encoding ---------------------------------------------------------------------------

  /** The four characters for the next one, two or three bytes. */
  function Group(chunk: Bytes): (r: string)
    requires 1 <= |chunk| <= 3
    ensures |r| == 4
  {
    var b0 := chunk[0] as int;
    var b1 := if |chunk| > 1 then chunk[1] as int else 0;
    var b2 := if |chunk| > 2 then chunk[2] as int else 0;
    [ Letter(b0 / 4),
      Letter(b0 % 4 * 16 + b1 / 16),
      if |chunk| > 1 then Letter(b1 % 16 * 4 + b2 / 64) else '=',
      if |chunk| > 2 then Letter(b2 % 64) else '=' ]
  }

  function Encoded(input: Bytes): string {
    if input == [] then ""
    else if |input| <= 3 then Group(input)
    else Group(input[..3]) + Encoded(input[3..])
  }

  lemma FourDigits(s0: Sextet, s1: Sextet, s2: Sextet, s3: Sextet)
    ensures var v := ((s0 * 64 + s1) * 64 + s2) * 64 + s3;
            v / 0x4_0000 == s0 && v / 0x1000 % 64 == s1 && v / 0x40 % 64 == s2 && v % 64 == s3
  {
  }

  /** Six bits at a time out of the number that three bytes make. */
  lemma SixBitsAtATime(chunk: Bytes)
    requires 1 <= |chunk| <= 3
    ensures var bits := Bits(chunk);
            Group(chunk) == [ Letter(bits / 0x4_0000 % 64),
                              Letter(bits / 0x1000 % 64),
                              if |chunk| > 1 then Letter(bits / 0x40 % 64) else '=',
                              if |chunk| > 2 then Letter(bits % 64) else '=' ]
  {
    hide Letter;
    var x0 := chunk[0] as int;
    var x1 := if |chunk| > 1 then chunk[1] as int else 0;
    var x2 := if |chunk| > 2 then chunk[2] as int else 0;
    var s0, s1, s2, s3 := x0 / 4, x0 % 4 * 16 + x1 / 16, x1 % 16 * 4 + x2 / 64, x2 % 64;
    FourDigits(s0, s1, s2, s3);
    assert Bits(chunk) == ((s0 * 64 + s1) * 64 + s2) * 64 + s3;
  }

  /** The bytes as one number, missing ones zero. */
  function Bits(chunk: Bytes): nat
    requires 1 <= |chunk| <= 3
  {
    chunk[0] as int * 0x1_0000
    + (if |chunk| > 1 then chunk[1] as int * 0x100 else 0)
    + (if |chunk| > 2 then chunk[2] as int else 0)
  }

  lemma EncodedStep(input: Bytes, i: nat, size: nat)
    requires i < |input| && size == (if |input| - i < 3 then |input| - i else 3)
    ensures Encoded(input[i..]) == Group(input[i..i + size]) + Encoded(input[i + size..])
  {
    hide Group;
    var rest := input[i..];
    if |rest| <= 3 {
      assert input[i..i + size] == rest && input[i + size..] == [];
      assert Group(rest) + "" == Group(rest);
    } else {
      assert rest[..3] == input[i..i + 3] && rest[3..] == input[i + 3..];
    }
  }

  /** `base64_encode`: three bytes become one number, and that four characters. */
  method Encode(input: Bytes) returns (out: string)
    ensures out == Encoded(input)
  {
    hide Letter, Encoded, Group, Bits;
    out := "";
    var i := 0;
    while i < |input|
      invariant 0 <= i <= |input|
      invariant out + Encoded(input[i..]) == Encoded(input)
    {
      var size := if |input| - i < 3 then |input| - i else 3;
      var bits := Bits(input[i..i + size]);
      EncodedStep(input, i, size);
      SixBitsAtATime(input[i..i + size]);
      out := out + [ Letter(bits / 0x4_0000 % 64), Letter(bits / 0x1000 % 64),
                     if size > 1 then Letter(bits / 0x40 % 64) else '=',
                     if size > 2 then Letter(bits % 64) else '=' ];
      i := i + size;
    }
    NothingEncoded();
    assert input[i..] == [];
  }

  lemma NothingEncoded()
    ensures Encoded([]) == ""
  {
  }

  // ----- A decoder --------------------------------------------------------------------------

  function Value(c: char): Option<Sextet> {
    if 'A' <= c <= 'Z' then Some(c as int - 'A' as int)
    else if 'a' <= c <= 'z' then Some(c as int - 'a' as int + 26)
    else if '0' <= c <= '9' then Some(c as int - '0' as int + 52)
    else if c == '+' then Some(62)
    else if c == '/' then Some(63)
    else None
  }

  /** One to three bytes; none for a stray character, or for bits that no byte takes. */
  function Ungrouped(s: string): (r: Option<Bytes>)
    requires |s| == 4
    ensures r.Some? ==> 1 <= |r.value| <= 3
  {
    match (Value(s[0]), Value(s[1]))
    case (Some(v0), Some(v1)) =>
      var first := (v0 * 4 + v1 / 16) as Byte;
      if s[2] == '=' && s[3] == '=' then
        if v1 % 16 == 0 then Some([first]) else None
      else
        (match Value(s[2])
         case None => None
         case Some(v2) =>
           var second := (v1 % 16 * 16 + v2 / 4) as Byte;
           if s[3] == '=' then
             if v2 % 4 == 0 then Some([first, second]) else None
           else
             match Value(s[3])
             case None => None
             case Some(v3) => Some([first, second, (v2 % 4 * 64 + v3) as Byte]))
    case _ => None
  }

  /** The bytes a text stands for: groups of four, of which only the last may be padded. */
  function Decoded(s: string): Option<Bytes> {
    if s == "" then Some([])
    else if |s| < 4 then None
    else
      match Ungrouped(s[..4])
      case None => None
      case Some(chunk) =>
        if |s| == 4 then Some(chunk)
        else if |chunk| < 3 then None
        else match Decoded(s[4..]) case None => None case Some(rest) => Some(chunk + rest)
  }

  // ----- Round trips ------------------------------------------------------------------------

  lemma LetterHasValue(n: Sextet)
    ensures Value(Letter(n)) == Some(n) && Letter(n) != '='
  {
  }

  lemma LetterOfValue(c: char)
    requires Value(c).Some?
    ensures Letter(Value(c).value) == c && c != '='
  {
    var n := Value(c).value;
    assert c == (c as int) as char;
    if n < 26 {
      assert ALPHABET[n] == Range('A', 26)[n];
    } else if n < 52 {
      assert ALPHABET[n] == Range('a', 26)[n - 26];
    } else if n < 62 {
      assert ALPHABET[n] == Range('0', 10)[n - 52];
    }
  }

  lemma GroupUngroups(chunk: Bytes)
    requires 1 <= |chunk| <= 3
    ensures Ungrouped(Group(chunk)) == Some(chunk)
  {
    hide Letter, Value;
    var b0 := chunk[0] as int;
    var b1 := if |chunk| > 1 then chunk[1] as int else 0;
    var b2 := if |chunk| > 2 then chunk[2] as int else 0;
    LetterHasValue(b0 / 4);
    LetterHasValue(b0 % 4 * 16 + b1 / 16);
    LetterHasValue(b1 % 16 * 4 + b2 / 64);
    LetterHasValue(b2 % 64);
    if |chunk| == 1 {
      assert chunk == [chunk[0]];
    } else if |chunk| == 2 {
      assert chunk == [chunk[0], chunk[1]];
    } else {
      assert chunk == [chunk[0], chunk[1], chunk[2]];
    }
  }

  /** Two sextets and the byte that shares them. */
  lemma SharedByte(high: Sextet, low: Sextet)
    ensures var b := high * 4 + low / 16; 0 <= b < 256 && b / 4 == high && b % 4 * 16 + low % 16 == low
    ensures var b := high % 16 * 16 + low / 4; 0 <= b < 256 && b / 16 == high % 16 && b % 16 * 4 + low % 4 == low
    ensures var b := high % 4 * 64 + low; 0 <= b < 256 && b / 64 == high % 4 && b % 64 == low
  {
  }

  lemma UngroupedGroups(s: string)
    requires |s| == 4 && Ungrouped(s).Some?
    ensures Group(Ungrouped(s).value) == s
  {
    hide Letter, Value;
    var chunk := Ungrouped(s).value;
    LetterOfValue(s[0]);
    LetterOfValue(s[1]);
    var v0, v1 := Value(s[0]).value, Value(s[1]).value;
    SharedByte(v0, v1);
    if |chunk| == 1 {
      assert Group(chunk)[0] == s[0] && Group(chunk)[1] == s[1];
    } else {
      LetterOfValue(s[2]);
      var v2 := Value(s[2]).value;
      SharedByte(v1, v2);
      if |chunk| == 3 {
        LetterOfValue(s[3]);
        SharedByte(v2, Value(s[3]).value);
      }
    }
  }

  /** Decoding gives back every byte string that was encoded. */
  lemma {:induction false} EncodedDecodes(input: Bytes)
    ensures Decoded(Encoded(input)) == Some(input)
  {
    hide Group, Ungrouped;
    if input != [] {
      if |input| <= 3 {
        GroupUngroups(input);
        assert Encoded(input)[..4] == Group(input);
      } else {
        var chunk, rest := input[..3], input[3..];
        GroupUngroups(chunk);
        EncodedDecodes(rest);
        var text := Group(chunk) + Encoded(rest);
        assert text[..4] == Group(chunk) && text[4..] == Encoded(rest);
        EncodedIsNotEmpty(rest);
        assert chunk + rest == input;
      }
    }
  }

  lemma EncodedIsNotEmpty(input: Bytes)
    requires input != []
    ensures |Encoded(input)| >= 4
  {
  }

  /** And each text is the encoding of what it decodes to: no two texts decode alike. */
  lemma {:induction false} DecodedEncodes(s: string)
    requires Decoded(s).Some?
    ensures Encoded(Decoded(s).value) == s
  {
    hide Group, Ungrouped;
    if s != "" {
      var chunk := Ungrouped(s[..4]).value;
      UngroupedGroups(s[..4]);
      if |s| == 4 {
        assert s[..4] == s;
      } else {
        DecodedEncodes(s[4..]);
        var rest := Decoded(s[4..]).value;
        assert rest != [];
        assert (chunk + rest)[..3] == chunk && (chunk + rest)[3..] == rest;
        assert s == s[..4] + s[4..];
      }
    }
  }

  predicate InAlphabet(c: char) {
    c in ALPHABET
  }

  /** All of the alphabet, but for so many `=` at the end. */
  predicate PaddedBy(s: string, padding: nat) {
    && padding <= |s|
    && (forall i | 0 <= i < |s| - padding :: InAlphabet(s[i]))
    && (forall i | |s| - padding <= i < |s| :: s[i] == '=')
  }

  lemma PaddedAppend(group: string, rest: string, padding: nat)
    requires PaddedBy(group, 0) && PaddedBy(rest, padding)
    ensures PaddedBy(group + rest, padding)
  {
    hide InAlphabet;
    var s := group + rest;
    assert forall i | 0 <= i < |group| :: s[i] == group[i];
    assert forall i | |group| <= i < |s| :: s[i] == rest[i - |group|];
  }

  /** Four characters for every three bytes begun, all of the alphabet but for at most two `=` at
      the end: one when two bytes are left over, two when one is. */
  lemma {:induction false} EncodedShape(input: Bytes)
    ensures |Encoded(input)| == 4 * ((|input| + 2) / 3)
    ensures PaddedBy(Encoded(input), (3 - |input| % 3) % 3)
  {
    hide Group, PaddedBy;
    if input == [] {
      NothingPadded();
    } else if |input| <= 3 {
      GroupShape(input);
    } else {
      GroupShape(input[..3]);
      EncodedShape(input[3..]);
      PaddedAppend(Group(input[..3]), Encoded(input[3..]), (3 - |input| % 3) % 3);
    }
  }

  lemma NothingPadded()
    ensures PaddedBy("", 0)
  {
  }

  lemma GroupShape(chunk: Bytes)
    requires 1 <= |chunk| <= 3
    ensures PaddedBy(Group(chunk), 3 - |chunk|)
  {
    hide InAlphabet, Letter;
    forall n: Sextet
      ensures InAlphabet(Letter(n))
    {
      LetterInAlphabet(n);
    }
  }

  lemma LetterInAlphabet(n: Sextet)
    ensures InAlphabet(Letter(n))
  {
  }
}
