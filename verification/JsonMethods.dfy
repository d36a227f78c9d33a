/** The reader's loops, each proved against what it should skip, read or count. */
module JsonMethods {
  import opened JsonText
  import opened JsonReader

  /** Fast path first: the next quote, unless a backslash stands before it. */
  method SkipString(t: string, begin: nat) returns (r: Position)
    ensures r == StringEnd(t, begin)
  {
    if begin >= |t| {
      return Failure("JSON: unexpected end of data.");
    }
    if t[begin] != '"' {
      return Failure("JSON: expected \"");
    }
    var closing := begin + 1;
    while closing < |t| && t[closing] != '"'
      invariant begin < closing <= |t| && FindQuote(t, closing) == FindQuote(t, begin + 1)
    {
      closing := closing + 1;
    }
    if closing < |t| && t[closing - 1] != '\\' {
      return Ok(closing + 1);
    }
    var pos := begin + 1;
    while pos < |t| && t[pos] != '"'
      invariant SlowPath(t, pos) == SlowPath(t, begin + 1)
      decreases |t| - pos
    {
      if t[pos] == '\\' {
        pos := pos + 1;
        if pos >= |t| {
          return Failure("JSON: unexpected end of data.");
        }
        if t[pos] == 'u' {
          pos := pos + 4;
          if pos >= |t| {
            return Failure("JSON: unexpected end of data.");
          }
        }
      }
      pos := pos + 1;
    }
    if pos >= |t| {
      return Failure("JSON: unexpected end of data.");
    }
    r := Ok(pos + 1);
  }

  method SkipDigits(t: string, begin: nat) returns (pos: nat)
    requires begin <= |t|
    ensures pos == DigitsEnd(t, begin)
  {
    pos := begin;
    while pos < |t| && IsDigit(t[pos])
      invariant begin <= pos <= |t| && DigitsEnd(t, pos) == DigitsEnd(t, begin)
    {
      pos := pos + 1;
    }
  }

  method SkipOptional(t: string, begin: nat, c: char, d: char) returns (pos: nat)
    requires begin <= |t|
    ensures pos == Optional(t, begin, c, d)
  {
    pos := begin;
    if pos < |t| && (t[pos] == c || t[pos] == d) {
      pos := pos + 1;
    }
  }

  method SkipNumber(t: string, begin: nat) returns (pos: nat)
    requires begin < |t|
    ensures pos == NumberEnd(t, begin)
  {
    hide DigitsEnd, Optional;
    pos := SkipOptional(t, begin, '-', '-');
    pos := SkipDigits(t, pos);
    pos := SkipOptional(t, pos, '.', '.');
    pos := SkipDigits(t, pos);
    pos := SkipOptional(t, pos, 'e', 'E');
    pos := SkipOptional(t, pos, '-', '-');
    pos := SkipDigits(t, pos);
  }

  method SkipElement(t: string, begin: nat, level: nat) returns (r: Position)
    requires Opens(t, begin, level)
    ensures r == ElementEnd(t, begin, level)
    decreases MAX_DEPTH - level, 1
  {
    var kind := GetType(t, begin);
    match kind {
      case Failure(e) => return Failure(e);
      case Ok(NullType) => return Ok(begin + 4);
      case Ok(BoolType) => return Ok(if t[begin] == 't' then begin + 4 else begin + 5);
      case Ok(NumberType) =>
        var pos := SkipNumber(t, begin);
        return Ok(pos);
      case Ok(StringType) => r := SkipString(t, begin);
      case Ok(PairType) => r := SkipNameValuePair(t, begin, level);
      case Ok(ArrayType) => r := SkipArray(t, begin, level);
      case Ok(ObjectType) => r := SkipObject(t, begin, level);
    }
  }

  method SkipNameValuePair(t: string, begin: nat, level: nat) returns (r: Position)
    requires Opens(t, begin, level)
    ensures r == PairEnd(t, begin, level)
    decreases MAX_DEPTH - level, 0
  {
    r := SkipString(t, begin);
    if r.Failure? {
      return;
    }
    var pos := r.value;
    if pos >= |t| {
      return Failure("JSON: unexpected end of data.");
    }
    if t[pos] != ':' {
      return Failure("JSON: expected :.");
    }
    if pos + 1 >= |t| {
      return Failure("JSON: begin >= end.");
    }
    if level + 1 > MAX_DEPTH {
      return Failure("JSON: too deep.");
    }
    r := SkipElement(t, pos + 1, level + 1);
  }

  lemma EmptyElement(t: string, begin: nat, level: nat)
    requires Opens(t, begin, level) && (t[begin] == '[' || t[begin] == '{') && begin + 1 >= |t|
    ensures ElementEnd(t, begin, level) == Failure("JSON: unexpected end of data.")
  {
  }

  method SkipArray(t: string, begin: nat, level: nat) returns (r: Position)
    requires Opens(t, begin, level) && t[begin] == '['
    ensures r == ElementEnd(t, begin, level)
    decreases MAX_DEPTH - level, 0
  {
    hide ElementEnd, PairEnd, StringEnd;
    var pos := begin + 1;
    if pos >= |t| {
      EmptyElement(t, begin, level);
      return Failure("JSON: unexpected end of data.");
    }
    ArrayStep(t, begin, level);
    if t[pos] == ']' {
      return Ok(pos + 1);
    }
    ghost var first := pos;
    while true
      invariant Opens(t, pos, level) && ItemsEnd(t, pos, level) == ItemsEnd(t, first, level)
      decreases |t| - pos
    {
      if level + 1 > MAX_DEPTH {
        return Failure("JSON: too deep.");
      }
      r := SkipElement(t, pos, level + 1);
      if r.Failure? {
        return;
      }
      if r.value >= |t| {
        return Failure("JSON: unexpected end of data.");
      }
      if t[r.value] == ']' {
        return Ok(r.value + 1);
      }
      if t[r.value] != ',' {
        return Failure("JSON: expected one of ',]'");
      }
      if r.value + 1 >= |t| {
        return Failure("JSON: begin >= end.");
      }
      pos := r.value + 1;
    }
  }

  method SkipObject(t: string, begin: nat, level: nat) returns (r: Position)
    requires Opens(t, begin, level) && t[begin] == '{'
    ensures r == ElementEnd(t, begin, level)
    decreases MAX_DEPTH - level, 0
  {
    hide ElementEnd, PairEnd, StringEnd;
    var pos := begin + 1;
    if pos >= |t| {
      EmptyElement(t, begin, level);
      return Failure("JSON: unexpected end of data.");
    }
    ObjectStep(t, begin, level);
    if t[pos] == '}' {
      return Ok(pos + 1);
    }
    ghost var first := pos;
    while true
      invariant Opens(t, pos, level) && FieldsEnd(t, pos, level) == FieldsEnd(t, first, level)
      decreases |t| - pos
    {
      if level + 1 > MAX_DEPTH {
        return Failure("JSON: too deep.");
      }
      r := SkipNameValuePair(t, pos, level + 1);
      if r.Failure? {
        return;
      }
      if r.value >= |t| {
        return Failure("JSON: unexpected end of data.");
      }
      if t[r.value] == '}' {
        return Ok(r.value + 1);
      }
      if t[r.value] != ',' {
        return Failure("JSON: expected one of ',}'");
      }
      if r.value + 1 >= |t| {
        return Failure("JSON: begin >= end.");
      }
      pos := r.value + 1;
    }
  }

  // ---- Reading strings ----

  /** The next backslash or quote, or the end. */
  method FindSpecial(t: string, begin: nat) returns (pos: nat)
    requires begin <= |t|
    ensures begin <= pos <= |t| && (pos < |t| ==> t[pos] == '\\' || t[pos] == '"')
    ensures forall i :: begin <= i < pos ==> t[i] != '\\' && t[i] != '"'
  {
    pos := begin;
    while pos < |t| && t[pos] != '\\' && t[pos] != '"'
      invariant begin <= pos <= |t| && forall i :: begin <= i < pos ==> t[i] != '\\' && t[i] != '"'
    {
      pos := pos + 1;
    }
  }

  lemma {:induction false} PlainRun(t: string, s: nat, p: nat, decode: Decoder)
    requires s <= p <= |t| && forall i :: s <= i < p ==> t[i] != '\\' && t[i] != '"'
    ensures Contents(t, s, decode) == Append(t[s..p], Contents(t, p, decode))
    decreases p - s
  {
    if s < p {
      PlainRun(t, s + 1, p, decode);
      assert t[s..p] == [t[s]] + t[s + 1..p];
      AppendTwice([t[s]], t[s + 1..p], Contents(t, p, decode));
    } else {
      assert t[s..p] == "";
      AppendEmpty("", Contents(t, s, decode));
    }
  }

  lemma AppendTwice(a: string, b: string, r: Result<string>)
    ensures Append(a, Append(b, r)) == Append(a + b, r)
  {
    if r.Ok? { assert a + (b + r.value) == (a + b) + r.value; }
  }

  lemma AppendEmpty(a: string, r: Result<string>)
    ensures Append("", r) == r && Append(a, Ok("")) == Ok(a)
  {
    assert a + "" == a;
    if r.Ok? { assert "" + r.value == r.value; }
  }

  method GetString(t: string, begin: nat, decode: Decoder) returns (r: Result<string>)
    requires begin < |t|
    ensures r == StringContents(t, begin, decode)
  {
    if t[begin] != '"' {
      return Failure("JSON: expected \"");
    }
    var s := begin + 1;
    if s >= |t| {
      return Failure("JSON: unexpected end of data.");
    }
    var buf := "";
    AppendEmpty(buf, Contents(t, s, decode));
    while s < |t|
      invariant Append(buf, Contents(t, s, decode)) == Contents(t, begin + 1, decode)
      decreases |t| - s
    {
      var p := FindSpecial(t, s);
      PlainRun(t, s, p, decode);
      AppendTwice(buf, t[s..p], Contents(t, p, decode));
      if p >= |t| {
        break;
      }
      buf := buf + t[s..p];
      s := p;
      if t[s] == '"' {
        AppendEmpty(buf, Contents(t, s, decode));
        return Ok(buf);
      }
      if s + 1 >= |t| {
        return Failure("JSON: unexpected end of data.");
      }
      if t[s + 1] != 'u' {
        AppendTwice(buf, [Simple(t[s + 1])], Contents(t, s + 2, decode));
        buf := buf + [Simple(t[s + 1])];
        s := s + 2;
      } else {
        if s + 6 >= |t| {
          return Failure("JSON: unexpected end of data.");
        }
        var d := decode(t[s + 2..s + 6]);
        if d.Failure? {
          return d;
        }
        AppendTwice(buf, d.value, Contents(t, s + 6, decode));
        buf := buf + d.value;
        s := s + 6;
      }
    }
    r := Failure("JSON: incorrect syntax (expected end of string, found end of JSON).");
  }

  // ---- Iteration ----

  /** A position among the children of an array or object. */
  class Iterator {
    const text: string
    const level: nat
    var at: Cursor

    ghost predicate Valid()
      reads this
    {
      at.Element? ==> Opens(text, at.pos, level)
    }

    constructor (text: string, level: nat, at: Cursor)
      requires at.Element? ==> Opens(text, at.pos, level)
      ensures Valid() && this.text == text && this.level == level && this.at == at
    {
      this.text, this.level, this.at := text, level, at;
    }

    /** ++: past the element and a comma, or to the end. */
    method Increment() returns (r: Result<Cursor>)
      requires Valid() && at.Element?
      modifies this
      ensures r == Advance(text, old(at).pos, level) && at == (if r.Ok? then r.value else old(at)) && Valid()
    {
      var after := SkipElement(text, at.pos, level);
      if after.Failure? {
        return Failure(after.error);
      }
      if after.value >= |text| {
        return Failure("JSON: unexpected end of data.");
      }
      if text[after.value] != ',' {
        at := End;
      } else if after.value + 1 >= |text| {
        return Failure("JSON: unexpected end of data.");
      } else {
        at := Element(after.value + 1);
      }
      r := Ok(at);
    }
  }

  /** What is left to count from a cursor. */
  ghost function Left(t: string, c: Cursor, level: nat): Result<nat>
    requires c.Element? ==> Opens(t, c.pos, level)
  {
    if c.End? then Ok(0) else CountFrom(t, c.pos, level)
  }

  function Plus(n: nat, r: Result<nat>): Result<nat> {
    if r.Ok? then Ok(n + r.value) else r
  }

  method Size(t: string, begin: nat, level: nat) returns (r: Result<nat>)
    requires begin < |t|
    ensures r == ChildCount(t, begin, level)
  {
    var first := Begin(t, begin, level);
    if first.Failure? {
      return Failure(first.error);
    }
    var it := new Iterator(t, level + 1, first.value);
    var i: nat := 0;
    while it.at != End
      invariant it.Valid() && it.text == t && it.level == level + 1
      invariant Plus(i, Left(t, it.at, level + 1)) == ChildCount(t, begin, level)
      decreases if it.at.End? then 0 else |t| + 1 - it.at.pos
    {
      var next := it.Increment();
      if next.Failure? {
        return Failure(next.error);
      }
      i := i + 1;
    }
    r := Ok(i);
  }
}
