/** Quoted-strings (section 5.6.4 of RFC 9110): every way to write a text between double quotes. */
module QuotedString {
  import opened Text

  /** One character as it is written: as it is, or after a backslash. */
  datatype Piece = Plain(c: char) | Quoted(c: char)

  predicate WellWritten(ps: seq<Piece>) {
    forall i | 0 <= i < |ps| :: ps[i].Plain? ==> ps[i].c != '"' && ps[i].c != '\\'
  }

  function Write(ps: seq<Piece>): string {
    if ps == [] then ""
    else (match ps[0] case Plain(c) => [c] case Quoted(c) => ['\\', c]) + Write(ps[1..])
  }

  function Meaning(ps: seq<Piece>): string {
    if ps == [] then "" else [ps[0].c] + Meaning(ps[1..])
  }

  /** The text up to the closing quote and what follows it; none when the quote never closes. */
  function Read(s: string): Option<(string, string)> {
    if s == "" then None
    else if s[0] == '"' then Some(("", s[1..]))
    else if s[0] == '\\' then
      if |s| == 1 then None
      else match Read(s[2..]) case Some((text, rest)) => Some(([s[1]] + text, rest)) case None => None
    else
      match Read(s[1..]) case Some((text, rest)) => Some(([s[0]] + text, rest)) case None => None
  }

  lemma WriteCons(ps: seq<Piece>)
    requires ps != []
    ensures Write(ps) == (match ps[0] case Plain(c) => [c] case Quoted(c) => ['\\', c]) + Write(ps[1..])
  {
  }

  /** However a text is written, reading it gives the text back. */
  lemma {:induction false} ReadsWhatIsWritten(ps: seq<Piece>, rest: string)
    requires WellWritten(ps)
    ensures Read(Write(ps) + "\"" + rest) == Some((Meaning(ps), rest))
  {
    if ps == [] {
      assert Write(ps) + "\"" + rest == "\"" + rest;
    } else {
      hide Write;
      WriteCons(ps);
      ReadsWhatIsWritten(ps[1..], rest);
      var s, tail := Write(ps) + "\"" + rest, Write(ps[1..]) + "\"" + rest;
      match ps[0] {
        case Plain(c) => assert s == [c] + tail;
        case Quoted(c) => assert s == ['\\', c] + tail;
      }
    }
  }

  /** Whatever is read was written in some way. */
  lemma {:induction false} WhatIsReadWasWritten(s: string) returns (ps: seq<Piece>)
    requires Read(s).Some?
    ensures WellWritten(ps) && Meaning(ps) == Read(s).value.0
    ensures s == Write(ps) + "\"" + Read(s).value.1
  {
    if s[0] == '"' {
      ps := [];
      assert s == Write([]) + "\"" + s[1..];
    } else {
      var piece, tail := Plain(s[0]), s[1..];
      if s[0] == '\\' {
        piece, tail := Quoted(s[1]), s[2..];
      }
      var rest := WhatIsReadWasWritten(tail);
      ps := [piece] + rest;
      assert ps[1..] == rest;
    }
  }

  lemma {:induction false} ReadShortens(s: string)
    requires Read(s).Some?
    ensures |Read(s).value.1| < |s|
  {
    var ps := WhatIsReadWasWritten(s);
  }

  lemma PieceKeepsScan(p: Piece)
    requires p.Plain? ==> p.c != '"' && p.c != '\\'
    ensures var head := Write([p]); Whole(head, Inside) && End(head, Inside) == Inside
    ensures forall ps :: Write([p] + ps) == Write([p]) + Write(ps)
  {
    forall ps
      ensures Write([p] + ps) == Write([p]) + Write(ps)
    {
      assert ([p] + ps)[1..] == ps && [p][1..] == [];
    }
    assert [p][1..] == [];
    if p.Plain? {
      assert Write([p]) == [p.c] && [p.c][1..] == "";
    } else {
      var head := ['\\', p.c];
      assert Write([p]) == head && head[1..] == [p.c] && [p.c][1..] == "";
      assert Next(Inside, '\\') == Escaped && Next(Escaped, p.c) == Inside;
      assert End([p.c], Escaped) == Inside;
    }
  }

  /** What is written between the quotes neither closes them nor holds a bare comma. */
  lemma {:induction false} WriteKeepsScan(ps: seq<Piece>)
    requires WellWritten(ps)
    ensures Whole(Write(ps), Inside) && End(Write(ps), Inside) == Inside
  {
    hide Whole, End;
    if ps == [] {
      EmptyScan();
    } else {
      WriteKeepsScan(ps[1..]);
      PieceKeepsScan(ps[0]);
      assert ps == [ps[0]] + ps[1..];
      WholeAppend(Write([ps[0]]), Write(ps[1..]), Inside);
      EndAppend(Write([ps[0]]), Write(ps[1..]), Inside);
    }
  }

  lemma EmptyScan()
    ensures Whole("", Inside) && End("", Inside) == Inside
  {
  }
}
