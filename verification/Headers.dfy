/** Header fields as an ordered list of field lines. A name is stored in lower case and a value is
    kept as its bytes, one `char` per byte. */
module Headers {
  import opened Text

  datatype Line = Line(name: string, value: string)
  type HeaderMap = seq<Line>

  /** `HeaderName::try_from`: a token, lower-cased. */
  function HeaderName(s: string): Option<string> {
    if IsToken(s) then Some(Lower(s)) else None
  }

  /** `HeaderValue::to_str`: only visible ASCII and tabs. */
  function ToStr(value: string): Option<string> {
    if forall i | 0 <= i < |value| :: value[i] == '\t' || ' ' <= value[i] <= '~' then Some(value) else None
  }

  function GetAll(h: HeaderMap, name: string): seq<string> {
    if h == [] then []
    else (if h[0].name == name then [h[0].value] else []) + GetAll(h[1..], name)
  }

  /** The values of a field that are text. */
  function TextLines(values: seq<string>): seq<string> {
    if values == [] then []
    else (match ToStr(values[0]) case Some(s) => [s] case None => []) + TextLines(values[1..])
  }

  predicate Contains(h: HeaderMap, name: string) {
    GetAll(h, name) != []
  }

  function Get(h: HeaderMap, name: string): Option<string> {
    if Contains(h, name) then Some(GetAll(h, name)[0]) else None
  }

  /** The first value of a field, when it is text. */
  function GetText(h: HeaderMap, name: string): Option<string> {
    match Get(h, name)
    case Some(v) => ToStr(v)
    case None => None
  }

  function Remove(h: HeaderMap, name: string): HeaderMap {
    if h == [] then []
    else (if h[0].name == name then [] else [h[0]]) + Remove(h[1..], name)
  }

  function Append(h: HeaderMap, name: string, values: seq<string>): HeaderMap {
    h + seq(|values|, i requires 0 <= i < |values| => Line(name, values[i]))
  }

  /** The distinct names, in the order they first appear. */
  function Names(h: HeaderMap): seq<string> {
    if h == [] then []
    else
      var front := Names(h[..|h| - 1]);
      var last := h[|h| - 1].name;
      if last in front then front else front + [last]
  }

  lemma {:induction false} GetAllConcat(a: HeaderMap, b: HeaderMap, name: string)
    ensures GetAll(a + b, name) == GetAll(a, name) + GetAll(b, name)
  {
    if a == [] {
      assert a + b == b;
    } else {
      assert (a + b)[0] == a[0] && (a + b)[1..] == a[1..] + b;
      GetAllConcat(a[1..], b, name);
    }
  }

  lemma {:induction false} GetAllRemove(h: HeaderMap, removed: string, name: string)
    ensures GetAll(Remove(h, removed), name) == if name == removed then [] else GetAll(h, name)
  {
    if h != [] {
      GetAllRemove(h[1..], removed, name);
      var head := if h[0].name == removed then [] else [h[0]];
      GetAllConcat(head, Remove(h[1..], removed), name);
    }
  }

  lemma {:induction false} GetAllLines(added: string, values: seq<string>, name: string)
    ensures GetAll(Append([], added, values), name) == if name == added then values else []
  {
    var lines := Append([], added, values);
    if values != [] {
      assert lines[1..] == Append([], added, values[1..]);
      GetAllLines(added, values[1..], name);
      assert [values[0]] + values[1..] == values;
    }
  }

  lemma GetAllAppend(h: HeaderMap, added: string, values: seq<string>, name: string)
    ensures GetAll(Append(h, added, values), name)
         == if name == added then GetAll(h, name) + values else GetAll(h, name)
  {
    assert Append(h, added, values) == h + Append([], added, values);
    GetAllConcat(h, Append([], added, values), name);
    GetAllLines(added, values, name);
  }

  /** The names listed are exactly the fields present. */
  lemma {:induction false} NamesAreContained(h: HeaderMap, name: string)
    ensures name in Names(h) <==> Contains(h, name)
  {
    if h != [] {
      var front, last := h[..|h| - 1], h[|h| - 1];
      assert h == front + [last];
      GetAllConcat(front, [last], name);
      NamesAreContained(front, name);
      NamesAreContained(front, last.name);
      assert [last][1..] == [];
    }
  }

  /** The value a text field is read by is that of its first line, if that is visible text. */
  lemma {:induction false} GetTextIsTheFirstLine(h: HeaderMap, name: string, value: string)
    ensures GetText(h, name) == Some(value)
            <==> exists i | 0 <= i < |h| ::
                   && h[i] == Line(name, value) && IsVisible(value)
                   && forall j | 0 <= j < i :: h[j].name != name
  {
    hide GetAll;
    if h != [] {
      if h[0].name == name {
        FirstLine(h, name);
        assert forall i | 0 < i < |h| && h[i].name == name :: h[0].name == name;
      } else {
        GetAllSkips(h, name);
        GetTextIsTheFirstLine(h[1..], name, value);
        assert forall i | 0 < i < |h| :: h[i] == h[1..][i - 1];
        assert forall i | 0 <= i < |h| - 1 :: h[1..][i] == h[i + 1];
      }
    } else {
      FirstLine(h, name);
    }
  }

  predicate IsVisible(value: string) {
    forall i | 0 <= i < |value| :: value[i] == '\t' || ' ' <= value[i] <= '~'
  }

  lemma FirstLine(h: HeaderMap, name: string)
    ensures h == [] ==> GetAll(h, name) == []
    ensures h != [] && h[0].name == name ==> GetAll(h, name) != [] && GetAll(h, name)[0] == h[0].value
  {
  }

  lemma GetAllSkips(h: HeaderMap, name: string)
    requires h != [] && h[0].name != name
    ensures GetAll(h, name) == GetAll(h[1..], name)
  {
  }

  /** The text values of a field are those of its lines that are visible text. */
  lemma {:induction false} TextLinesAreItsLines(h: HeaderMap, name: string, value: string)
    ensures value in TextLines(GetAll(h, name)) <==> Line(name, value) in h && IsVisible(value)
  {
    hide TextLines;
    if h == [] {
      NoTextLines();
    } else {
      var first, rest := h[0], h[1..];
      assert h == [first] + rest;
      TextLinesAreItsLines(rest, name, value);
      if first.name == name {
        TextLinesCons(first.value, GetAll(rest, name));
      } else {
        GetAllSkips(h, name);
      }
    }
  }

  lemma NoTextLines()
    ensures TextLines([]) == []
  {
  }

  lemma TextLinesCons(value: string, values: seq<string>)
    ensures TextLines([value] + values) == (if IsVisible(value) then [value] else []) + TextLines(values)
  {
    assert ([value] + values)[1..] == values;
  }
}
