/** The JSON reader: skipping over elements of a text without building a tree. */
module JsonReader {
  import opened JsonText

  datatype Result<T> = Ok(value: T) | Failure(error: string)

  type Position = Result<nat>

  const MAX_DEPTH := 100

  datatype ElementType = ObjectType | ArrayType | NumberType | StringType | BoolType | NullType | PairType

  /** The constructor's check of a reader at `pos`. */
  predicate Opens(t: string, pos: nat, level: nat) {
    pos < |t| && level <= MAX_DEPTH
  }

  // ---- Strings ----

  /** The next quote at or after `pos`, or the end. */
  function FindQuote(t: string, pos: nat): (q: nat)
    requires pos <= |t|
    ensures pos <= q <= |t| && (q < |t| ==> t[q] == '"') && forall i :: pos <= i < q ==> t[i] != '"'
    decreases |t| - pos
  {
    if pos == |t| || t[pos] == '"' then pos else FindQuote(t, pos + 1)
  }

  /** The loop over characters and escapes, from inside a string to after its closing quote. */
  function SlowPath(t: string, pos: nat): (r: Position)
    ensures r.Ok? ==> pos < r.value <= |t|
    decreases |t| - pos
  {
    if pos >= |t| then Failure("JSON: unexpected end of data.")
    else if t[pos] == '"' then Ok(pos + 1)
    else if t[pos] != '\\' then SlowPath(t, pos + 1)
    else if pos + 1 >= |t| then Failure("JSON: unexpected end of data.")
    else if t[pos + 1] != 'u' then SlowPath(t, pos + 2)
    else if pos + 5 >= |t| then Failure("JSON: unexpected end of data.")
    else SlowPath(t, pos + 6)
  }

  function StringEnd(t: string, pos: nat): (r: Position)
    ensures r.Ok? ==> pos < r.value <= |t|
  {
    if pos >= |t| then Failure("JSON: unexpected end of data.")
    else if t[pos] != '"' then Failure("JSON: expected \"")
    else
      var q := FindQuote(t, pos + 1);
      if q < |t| && t[q - 1] != '\\' then Ok(q + 1) else SlowPath(t, pos + 1)
  }

  // ---- Numbers ----

  function DigitsEnd(t: string, pos: nat): (q: nat)
    requires pos <= |t|
    ensures pos <= q <= |t| && (q < |t| ==> !IsDigit(t[q])) && forall i :: pos <= i < q ==> IsDigit(t[i])
    decreases |t| - pos
  {
    if pos < |t| && IsDigit(t[pos]) then DigitsEnd(t, pos + 1) else pos
  }

  /** An optional character, one of two. */
  function Optional(t: string, pos: nat, c: char, d: char): (q: nat)
    requires pos <= |t|
    ensures pos <= q <= |t|
  {
    if pos < |t| && (t[pos] == c || t[pos] == d) then pos + 1 else pos
  }

  function NumberEnd(t: string, pos: nat): (r: nat)
    requires pos < |t|
    ensures pos <= r <= |t| && (t[pos] == '-' || IsDigit(t[pos]) ==> r > pos)
  {
    var whole := DigitsEnd(t, Optional(t, pos, '-', '-'));
    var fraction := DigitsEnd(t, Optional(t, whole, '.', '.'));
    DigitsEnd(t, Optional(t, Optional(t, fraction, 'e', 'E'), '-', '-'))
  }

  // ---- Elements ----

  function GetType(t: string, pos: nat): Result<ElementType>
    requires pos < |t|
  {
    var c := t[pos];
    if c == '{' then Ok(ObjectType)
    else if c == '[' then Ok(ArrayType)
    else if c == 't' || c == 'f' then Ok(BoolType)
    else if c == 'n' then Ok(NullType)
    else if c == '-' || IsDigit(c) then Ok(NumberType)
    else if c == '"' then
      match StringEnd(t, pos)
      case Failure(e) => Failure(e)
      case Ok(after) => Ok(if after < |t| && t[after] == ':' then PairType else StringType)
    else Failure("JSON: unexpected char")
  }

  function ElementEnd(t: string, pos: nat, level: nat): (r: Position)
    requires Opens(t, pos, level)
    ensures r.Ok? ==> r.value > pos
    decreases MAX_DEPTH - level, |t| - pos, 2
  {
    match GetType(t, pos)
    case Failure(e) => Failure(e)
    case Ok(NullType) => Ok(pos + 4)
    case Ok(BoolType) => Ok(if t[pos] == 't' then pos + 4 else pos + 5)
    case Ok(NumberType) => Ok(NumberEnd(t, pos))
    case Ok(StringType) => StringEnd(t, pos)
    case Ok(PairType) => PairEnd(t, pos, level)
    case Ok(ArrayType) =>
      if pos + 1 >= |t| then Failure("JSON: unexpected end of data.")
      else if t[pos + 1] == ']' then Ok(pos + 2)
      else ItemsEnd(t, pos + 1, level)
    case Ok(ObjectType) =>
      if pos + 1 >= |t| then Failure("JSON: unexpected end of data.")
      else if t[pos + 1] == '}' then Ok(pos + 2)
      else FieldsEnd(t, pos + 1, level)
  }

  function PairEnd(t: string, pos: nat, level: nat): (r: Position)
    requires Opens(t, pos, level)
    ensures r.Ok? ==> r.value > pos
    decreases MAX_DEPTH - level, |t| - pos, 1
  {
    match StringEnd(t, pos)
    case Failure(e) => Failure(e)
    case Ok(after) =>
      if after >= |t| then Failure("JSON: unexpected end of data.")
      else if t[after] != ':' then Failure("JSON: expected :.")
      else if after + 1 >= |t| then Failure("JSON: begin >= end.")
      else if level + 1 > MAX_DEPTH then Failure("JSON: too deep.")
      else ElementEnd(t, after + 1, level + 1)
  }

  /** The loop of skipArray, from an element on. */
  function ItemsEnd(t: string, pos: nat, level: nat): (r: Position)
    requires Opens(t, pos, level)
    ensures r.Ok? ==> r.value > pos
    decreases MAX_DEPTH - level, |t| - pos, 0
  {
    if level + 1 > MAX_DEPTH then Failure("JSON: too deep.")
    else
      match ElementEnd(t, pos, level + 1)
      case Failure(e) => Failure(e)
      case Ok(after) =>
        if after >= |t| then Failure("JSON: unexpected end of data.")
        else if t[after] == ']' then Ok(after + 1)
        else if t[after] != ',' then Failure("JSON: expected one of ',]'")
        else if after + 1 >= |t| then Failure("JSON: begin >= end.")
        else ItemsEnd(t, after + 1, level)
  }

  /** The loop of skipObject, from a name-value pair on. */
  function FieldsEnd(t: string, pos: nat, level: nat): (r: Position)
    requires Opens(t, pos, level)
    ensures r.Ok? ==> r.value > pos
    decreases MAX_DEPTH - level, |t| - pos, 0
  {
    if level + 1 > MAX_DEPTH then Failure("JSON: too deep.")
    else
      match PairEnd(t, pos, level + 1)
      case Failure(e) => Failure(e)
      case Ok(after) =>
        if after >= |t| then Failure("JSON: unexpected end of data.")
        else if t[after] == '}' then Ok(after + 1)
        else if t[after] != ',' then Failure("JSON: expected one of ',}'")
        else if after + 1 >= |t| then Failure("JSON: begin >= end.")
        else FieldsEnd(t, after + 1, level)
  }

  // ---- Where texts lie ----

  predicate At(t: string, pos: nat, s: string) {
    pos + |s| <= |t| && t[pos..pos + |s|] == s
  }

  lemma AtParts(t: string, pos: nat, a: string, b: string)
    ensures At(t, pos, a + b) <==> At(t, pos, a) && At(t, pos + |a|, b)
  {
    if pos + |a| + |b| <= |t| {
      assert t[pos..pos + |a + b|] == t[pos..pos + |a|] + t[pos + |a|..pos + |a| + |b|];
      if At(t, pos, a + b) {
        assert t[pos..pos + |a|] == (a + b)[..|a|] == a;
        assert t[pos + |a|..pos + |a| + |b|] == (a + b)[|a|..] == b;
      }
    }
  }

  lemma AtChar(t: string, pos: nat, s: string, i: nat)
    requires At(t, pos, s) && i < |s|
    ensures pos + i < |t| && t[pos + i] == s[i]
  {
    assert t[pos..pos + |s|][i] == t[pos + i];
  }

  /** What may follow an element: nothing, or the next part of what contains it. */
  predicate Delimited(t: string, pos: nat) {
    pos < |t| ==> t[pos] == ',' || t[pos] == ']' || t[pos] == '}'
  }

  // ---- Strings are skipped exactly ----

  /** From inside a string, the slow path ends after its closing quote. */
  lemma {:induction false} SlowPathSkips(t: string, pos: nat, ps: seq<Piece>)
    requires LoosePieces(ps) && At(t, pos, PrintPieces(ps) + "\"")
    ensures SlowPath(t, pos) == Ok(pos + |PrintPieces(ps)| + 1)
    decreases |ps|
  {
    hide At, SlowPath, PrintPieces;
    PiecesText(ps);
    if ps == [] {
      AtChar(t, pos, PrintPieces(ps) + "\"", 0);
      SlowPathEnds(t, pos);
    } else {
      var p, rest := PrintPiece(ps[0]), PrintPieces(ps[1..]) + "\"";
      AtParts(t, pos, p, rest);
      SlowPathSkips(t, pos + |p|, ps[1..]);
      AtChar(t, pos + |p|, rest, |rest| - 1);
      OnePiece(t, pos, ps[0]);
    }
  }

  lemma PiecesText(ps: seq<Piece>)
    ensures ps == [] ==> PrintPieces(ps) + "\"" == "\""
    ensures ps != [] ==> PrintPieces(ps) + "\"" == PrintPiece(ps[0]) + (PrintPieces(ps[1..]) + "\"")
    ensures ps != [] ==> PrintPieces(ps) == PrintPiece(ps[0]) + PrintPieces(ps[1..])
  {
  }

  lemma SlowPathEnds(t: string, pos: nat)
    requires pos < |t| && t[pos] == '"'
    ensures SlowPath(t, pos) == Ok(pos + 1)
  {
  }

  lemma OnePiece(t: string, pos: nat, p: Piece)
    requires p.Loose() && At(t, pos, PrintPiece(p)) && pos + |PrintPiece(p)| < |t|
    ensures SlowPath(t, pos) == SlowPath(t, pos + |PrintPiece(p)|)
  {
    hide At;
    AtChar(t, pos, PrintPiece(p), 0);
    if !p.Plain? { AtChar(t, pos, PrintPiece(p), 1); }
  }

  /** Inside a well-formed string every quote stands after a backslash. */
  lemma {:induction false} QuotesEscaped(t: string, pos: nat, ps: seq<Piece>, i: nat)
    requires ValidPieces(ps) && At(t, pos, PrintPieces(ps)) && pos <= i < pos + |PrintPieces(ps)| && t[i] == '"'
    ensures i > pos && t[i - 1] == '\\'
    decreases |ps|
  {
    hide At;
    var p, rest := PrintPiece(ps[0]), PrintPieces(ps[1..]);
    AtParts(t, pos, p, rest);
    if i < pos + |p| {
      AtChar(t, pos, p, i - pos);
      AtChar(t, pos, p, 0);
    } else {
      QuotesEscaped(t, pos + |p|, ps[1..], i);
    }
  }

  /** Both paths of skipString stop right after the closing quote of a well-formed string. */
  lemma StringSkipped(t: string, pos: nat, ps: seq<Piece>)
    requires ValidPieces(ps) && At(t, pos, PrintString(ps))
    ensures StringEnd(t, pos) == SlowPath(t, pos + 1) == Ok(pos + |PrintString(ps)|)
  {
    hide At, SlowPath, PrintPieces;
    var body := PrintPieces(ps) + "\"";
    AtParts(t, pos, "\"", body);
    AtChar(t, pos, "\"", 0);
    SlowPathSkips(t, pos + 1, ps);
    AtParts(t, pos + 1, PrintPieces(ps), "\"");
    AtChar(t, pos + 1 + |PrintPieces(ps)|, "\"", 0);
    var q, close := FindQuote(t, pos + 1), pos + 1 + |PrintPieces(ps)|;
    if q < close { QuotesEscaped(t, pos + 1, ps, q); }
  }

  // ---- Numbers are skipped exactly, unless the exponent has a plus sign ----

  lemma AtEmpty(t: string, pos: nat)
    ensures At(t, pos, "") <==> pos <= |t|
  {
  }

  lemma {:induction false} DigitsSkipped(t: string, pos: nat, s: string)
    requires At(t, pos, s) && AllDigits(s) && (pos + |s| < |t| ==> !IsDigit(t[pos + |s|]))
    ensures DigitsEnd(t, pos) == pos + |s|
    decreases |s|
  {
    hide At, IsDigit;
    if s == "" {
      AtEmpty(t, pos);
    } else {
      AtChar(t, pos, s, 0);
      AtParts(t, pos, s[..1], s[1..]);
      assert s == s[..1] + s[1..];
      DigitsSkipped(t, pos + 1, s[1..]);
    }
  }

  /** What a number is followed by: not a part of a number. */
  predicate NumberStops(t: string, pos: nat) {
    pos < |t| ==> !IsDigit(t[pos]) && t[pos] != '.' && t[pos] != 'e' && t[pos] != 'E' && t[pos] != '-'
  }

  lemma SignSkipped(t: string, pos: nat, n: Number)
    requires n.Valid() && At(t, pos, if n.negative then "-" else "")
    requires At(t, pos + (if n.negative then 1 else 0), n.whole)
    ensures pos < |t| && Optional(t, pos, '-', '-') == pos + (if n.negative then 1 else 0)
  {
    hide At;
    AtChar(t, pos + (if n.negative then 1 else 0), n.whole, 0);
    if n.negative { AtChar(t, pos, "-", 0); }
  }

  lemma FractionSkipped(t: string, pos: nat, fraction: string)
    requires AllDigits(fraction) && At(t, pos, PrintFraction(fraction)) && pos <= |t|
    requires var end := pos + |PrintFraction(fraction)|; end < |t| ==> !IsDigit(t[end]) && t[end] != '.'
    ensures DigitsEnd(t, Optional(t, pos, '.', '.')) == pos + |PrintFraction(fraction)|
    ensures pos < |t| ==> !IsDigit(t[pos])
  {
    hide At, DigitsEnd;
    if fraction == "" {
      AtEmpty(t, pos);
      DigitsSkipped(t, pos, "");
    } else {
      AtParts(t, pos, ".", fraction);
      AtChar(t, pos, ".", 0);
      DigitsSkipped(t, pos + 1, fraction);
    }
  }

  /** Where skipNumber stops inside or after an exponent. */
  function ExponentStop(e: Exponent): nat {
    if e.Exponent? && e.sign == Plus then 1 else |PrintExponent(e)|
  }

  predicate ValidExponent(e: Exponent) {
    e.Exponent? ==> e.digits != "" && AllDigits(e.digits)
  }

  lemma ExponentSkipped(t: string, pos: nat, e: Exponent)
    requires ValidExponent(e) && At(t, pos, PrintExponent(e)) && pos <= |t|
    requires NumberStops(t, pos + |PrintExponent(e)|)
    ensures DigitsEnd(t, Optional(t, Optional(t, pos, 'e', 'E'), '-', '-')) == pos + ExponentStop(e)
    ensures pos < |t| ==> !IsDigit(t[pos]) && t[pos] != '.'
    ensures e.Exponent? && e.sign == Plus ==> pos + 1 < |t| && t[pos + 1] == '+' && |PrintExponent(e)| > 1
  {
    hide At, DigitsEnd, Optional, PrintSign;
    match e
    case NoExponent =>
      NoLetter(t, pos);
      AtEmpty(t, pos);
      DigitsSkipped(t, pos, "");
    case Exponent(upper, sign, digits) =>
      LetterSkipped(t, pos, if upper then 'E' else 'e', PrintSign(sign), digits);
      SignedDigitsSkipped(t, pos + 1, sign, digits);
  }

  lemma NoLetter(t: string, pos: nat)
    requires pos <= |t| && NumberStops(t, pos)
    ensures Optional(t, Optional(t, pos, 'e', 'E'), '-', '-') == pos
  {
  }

  lemma LetterSkipped(t: string, pos: nat, letter: char, sign: string, digits: string)
    requires (letter == 'e' || letter == 'E') && At(t, pos, [letter] + (sign + digits))
    ensures pos < |t| && t[pos] == letter && Optional(t, pos, 'e', 'E') == pos + 1
    ensures At(t, pos + 1, sign) && At(t, pos + 1 + |sign|, digits)
  {
    hide At;
    AtParts(t, pos, [letter], sign + digits);
    AtChar(t, pos, [letter], 0);
    AtParts(t, pos + 1, sign, digits);
  }

  lemma SignedDigitsSkipped(t: string, pos: nat, sign: Sign, digits: string)
    requires digits != "" && AllDigits(digits) && At(t, pos, PrintSign(sign)) && At(t, pos + |PrintSign(sign)|, digits)
    requires NumberStops(t, pos + |PrintSign(sign)| + |digits|)
    ensures pos < |t|
    ensures DigitsEnd(t, Optional(t, pos, '-', '-')) == if sign == Plus then pos else pos + |PrintSign(sign)| + |digits|
    ensures sign == Plus ==> t[pos] == '+'
  {
    hide At, DigitsEnd;
    AtChar(t, pos + |PrintSign(sign)|, digits, 0);
    if sign != NoSign { AtChar(t, pos, PrintSign(sign), 0); }
    if sign == Plus {
      AtEmpty(t, pos);
      DigitsSkipped(t, pos, "");
    } else {
      DigitsSkipped(t, pos + |PrintSign(sign)|, digits);
    }
  }

  /** skipNumber reaches the end of a number exactly when its exponent has no plus sign. */
  lemma NumberSkipped(t: string, pos: nat, n: Number)
    requires n.Valid() && At(t, pos, PrintNumber(n)) && NumberStops(t, pos + |PrintNumber(n)|)
    ensures pos < |t| && (NumberEnd(t, pos) == pos + |PrintNumber(n)| <==> !n.HasPlus())
    ensures n.HasPlus() ==> NumberEnd(t, pos) < |t| && t[NumberEnd(t, pos)] == '+'
  {
    hide At, DigitsEnd, Optional, IsDigit, PrintExponent, PrintFraction;
    var sign, tail := if n.negative then "-" else "", PrintExponent(n.exponent);
    var fraction := PrintFraction(n.fraction);
    AtParts(t, pos, sign, n.whole + (fraction + tail));
    var p1 := pos + |sign|;
    AtParts(t, p1, n.whole, fraction + tail);
    var p2 := p1 + |n.whole|;
    AtParts(t, p2, fraction, tail);
    var p3 := p2 + |fraction|;
    AtEnd(t, p3, tail);
    SignSkipped(t, pos, n);
    ExponentSkipped(t, p3, n.exponent);
    FractionSkipped(t, p2, n.fraction);
    DigitsSkipped(t, p1, n.whole);
  }

  lemma AtEnd(t: string, pos: nat, s: string)
    requires At(t, pos, s)
    ensures pos + |s| <= |t|
  {
  }

  /** 1e+5 is a number of the standard, but the reader stops before its plus sign. */
  lemma PlusExponentNotSkipped()
    ensures var n := Number(false, "1", "", Exponent(false, Plus, "5"));
            n.Valid() && PrintNumber(n) == "1e+5" && NumberEnd("1e+5", 0) == 2
  {
    var t := "1e+5";
    assert DigitsEnd(t, 0) == DigitsEnd(t, 1) == 1;
    assert DigitsEnd(t, 2) == 2;
  }

  // ---- Elements are skipped exactly ----

  /** Within the level budget: an array costs its elements one level, an object costs its values two. */
  predicate Fits(v: Value, level: nat) {
    match v
    case Arr(items) => items.Values? ==> level + 1 <= MAX_DEPTH && FitItems(items, level + 1)
    case Obj(fields) => fields.Fields? ==> level + 2 <= MAX_DEPTH && FitFields(fields, level + 2)
    case _ => true
  }

  predicate FitItems(items: Values, level: nat) {
    items.Values? ==> Fits(items.head, level) && FitItems(items.tail, level)
  }

  predicate FitFields(fields: Fields, level: nat) {
    fields.Fields? ==> Fits(fields.value, level) && FitFields(fields.rest, level)
  }

  /** What skipping should give: the end, or the refusal of a text that is too deep. */
  function EndOr(fits: bool, end: nat): Position {
    if fits then Ok(end) else Failure("JSON: too deep.")
  }

  /** The characters that can begin an element. */
  predicate Starts(c: char) {
    c == 'n' || c == 't' || c == 'f' || c == '-' || IsDigit(c) || c == '"' || c == '[' || c == '{'
  }

  /** Where skipping a well-formed value ends: a number with a plus sign stops there, and what contains one fails. */
  predicate Skips(t: string, r: Position, v: Value, level: nat, end: nat) {
    if NoPlus(v) then r == EndOr(Fits(v, level), end)
    else if v.Num? then r.Ok? && r.value < |t| && t[r.value] == '+'
    else r.Failure?
  }

  lemma FirstChar(v: Value)
    requires WellFormed(v)
    ensures Print(v) != "" && Starts(Print(v)[0])
  {
  }

  lemma TailStart(items: Values)
    ensures PrintTail(items) != "" && PrintTail(items)[0] == if items.NoValues? then ']' else ','
    ensures items.Values? ==> PrintTail(items) == "," + PrintItems(items)
    ensures items.NoValues? ==> PrintTail(items) == "]"
  {
  }

  lemma RestStart(fields: Fields)
    ensures PrintRest(fields) != "" && PrintRest(fields)[0] == if fields.NoFields? then '}' else ','
    ensures fields.Fields? ==> PrintRest(fields) == "," + PrintFields(fields)
    ensures fields.NoFields? ==> PrintRest(fields) == "}"
  {
  }

  lemma ScalarSkipped(t: string, pos: nat, v: Value, level: nat)
    requires WellFormed(v) && !v.Arr? && !v.Obj? && level <= MAX_DEPTH
    requires At(t, pos, Print(v)) && Delimited(t, pos + |Print(v)|)
    ensures pos < |t| && Skips(t, ElementEnd(t, pos, level), v, level, pos + |Print(v)|)
  {
    hide At, NumberEnd, StringEnd, PrintString, PrintNumber;
    FirstChar(v);
    AtChar(t, pos, Print(v), 0);
    match v
    case Null =>
    case Bool(b) =>
    case Num(n) => NumberSkipped(t, pos, n); NumberStart(n);
    case Str(s) => StringSkipped(t, pos, s); StringStart(s);
  }

  lemma NumberStart(n: Number)
    requires n.Valid()
    ensures PrintNumber(n) != "" && (PrintNumber(n)[0] == '-' || IsDigit(PrintNumber(n)[0]))
  {
  }

  lemma StringStart(s: seq<Piece>)
    ensures PrintString(s) != "" && PrintString(s)[0] == '"'
  {
  }

  // One step of each mutually recursive function.

  lemma ArrayStep(t: string, pos: nat, level: nat)
    requires level <= MAX_DEPTH && pos + 1 < |t| && t[pos] == '['
    ensures ElementEnd(t, pos, level) == if t[pos + 1] == ']' then Ok(pos + 2) else ItemsEnd(t, pos + 1, level)
  {
    hide ItemsEnd;
  }

  lemma ObjectStep(t: string, pos: nat, level: nat)
    requires level <= MAX_DEPTH && pos + 1 < |t| && t[pos] == '{'
    ensures ElementEnd(t, pos, level) == if t[pos + 1] == '}' then Ok(pos + 2) else FieldsEnd(t, pos + 1, level)
  {
    hide FieldsEnd;
  }

  lemma ItemsStep(t: string, pos: nat, level: nat, after: nat)
    requires level + 1 <= MAX_DEPTH && pos < |t| && after < |t| && ElementEnd(t, pos, level + 1) == Ok(after)
    ensures t[after] == ']' ==> ItemsEnd(t, pos, level) == Ok(after + 1)
    ensures t[after] == ',' && after + 1 < |t| ==> ItemsEnd(t, pos, level) == ItemsEnd(t, after + 1, level)
    ensures t[after] == '+' ==> ItemsEnd(t, pos, level).Failure?
  {
    hide ElementEnd;
  }

  lemma FieldsStep(t: string, pos: nat, level: nat, after: nat)
    requires level + 1 <= MAX_DEPTH && pos < |t| && after < |t| && PairEnd(t, pos, level + 1) == Ok(after)
    ensures t[after] == '}' ==> FieldsEnd(t, pos, level) == Ok(after + 1)
    ensures t[after] == ',' && after + 1 < |t| ==> FieldsEnd(t, pos, level) == FieldsEnd(t, after + 1, level)
    ensures t[after] == '+' ==> FieldsEnd(t, pos, level).Failure?
  {
    hide PairEnd;
  }

  lemma TooDeep(t: string, pos: nat, level: nat)
    requires Opens(t, pos, level)
    ensures level + 1 > MAX_DEPTH || ElementEnd(t, pos, level + 1).Failure? ==>
              ItemsEnd(t, pos, level)
              == if level + 1 > MAX_DEPTH then Failure("JSON: too deep.") else ElementEnd(t, pos, level + 1)
    ensures level + 1 > MAX_DEPTH || PairEnd(t, pos, level + 1).Failure? ==>
              FieldsEnd(t, pos, level)
              == if level + 1 > MAX_DEPTH then Failure("JSON: too deep.") else PairEnd(t, pos, level + 1)
  {
    hide ElementEnd, PairEnd;
  }

  lemma PairStep(t: string, pos: nat, level: nat, after: nat)
    requires Opens(t, pos, level) && StringEnd(t, pos) == Ok(after) && after + 1 < |t| && t[after] == ':'
    ensures PairEnd(t, pos, level)
            == if level + 1 > MAX_DEPTH then Failure("JSON: too deep.") else ElementEnd(t, after + 1, level + 1)
  {
    hide ElementEnd, StringEnd;
  }

  /** skipElement reaches the end of a printed value exactly if it fits the budget and holds no plus exponent. */
  lemma {:induction false} ElementSkipped(t: string, pos: nat, v: Value, level: nat)
    requires WellFormed(v) && level <= MAX_DEPTH && At(t, pos, Print(v)) && Delimited(t, pos + |Print(v)|)
    ensures pos < |t| && (ElementEnd(t, pos, level) == Ok(pos + |Print(v)|) <==> Fits(v, level) && NoPlus(v))
    ensures Skips(t, ElementEnd(t, pos, level), v, level, pos + |Print(v)|)
    decreases v, 0
  {
    hide At, ElementEnd, ItemsEnd, FieldsEnd;
    if v.Arr? {
      AtParts(t, pos, "[", PrintItems(v.items));
      AtChar(t, pos, "[", 0);
      if v.items.NoValues? {
        AtChar(t, pos + 1, "]", 0);
      } else {
        ItemsSkipped(t, pos + 1, v.items, level);
      }
      ArrayStep(t, pos, level);
    } else if v.Obj? {
      AtParts(t, pos, "{", PrintFields(v.fields));
      AtChar(t, pos, "{", 0);
      if v.fields.NoFields? {
        AtChar(t, pos + 1, "}", 0);
      } else {
        FieldsSkipped(t, pos + 1, v.fields, level);
      }
      ObjectStep(t, pos, level);
    } else {
      ScalarSkipped(t, pos, v, level);
    }
  }

  lemma {:induction false} ItemsSkipped(t: string, pos: nat, items: Values, level: nat)
    requires items.Values? && WellFormedItems(items) && level <= MAX_DEPTH && At(t, pos, PrintItems(items))
    ensures pos < |t| && t[pos] != ']'
    ensures if !NoPlusItems(items) then ItemsEnd(t, pos, level).Failure?
            else ItemsEnd(t, pos, level)
                 == EndOr(level + 1 <= MAX_DEPTH && FitItems(items, level + 1), pos + |PrintItems(items)|)
    decreases items, 1
  {
    hide At, ElementEnd, ItemsEnd, Fits, Print, Starts, WellFormed, NoPlus;
    var v, tail := Print(items.head), PrintTail(items.tail);
    AtParts(t, pos, v, tail);
    FirstChar(items.head);
    AtChar(t, pos, v, 0);
    TailStart(items.tail);
    var after := pos + |v|;
    AtChar(t, after, tail, 0);
    NotClosing(t[pos]);
    TooDeep(t, pos, level);
    if level + 1 <= MAX_DEPTH {
      ElementSkipped(t, pos, items.head, level + 1);
      if !NoPlus(items.head) {
        if items.head.Num? { ItemsStep(t, pos, level, ElementEnd(t, pos, level + 1).value); }
      } else if Fits(items.head, level + 1) {
        if items.tail.NoValues? {
          assert NoPlusItems(items.tail);
        } else {
          AtParts(t, after, ",", PrintItems(items.tail));
          ItemsSkipped(t, after + 1, items.tail, level);
        }
        ItemsStep(t, pos, level, after);
      }
    }
  }

  lemma NotClosing(c: char)
    requires Starts(c)
    ensures c != ']' && c != '}' && c != ',' && c != ':'
  {
  }

  lemma {:induction false} PairSkipped(t: string, pos: nat, name: seq<Piece>, value: Value, level: nat)
    requires ValidPieces(name) && WellFormed(value) && level <= MAX_DEPTH
    requires At(t, pos, PrintField(name, value)) && Delimited(t, pos + |PrintField(name, value)|)
    ensures pos < |t| && t[pos] == '"'
    ensures if level + 1 > MAX_DEPTH then PairEnd(t, pos, level) == Failure("JSON: too deep.")
            else Skips(t, PairEnd(t, pos, level), value, level + 1, pos + |PrintField(name, value)|)
    decreases value, 1
  {
    hide At, ElementEnd, PairEnd, StringEnd, Fits, Print, PrintString, WellFormed, NoPlus;
    var s := PrintString(name);
    AtParts(t, pos, s, ":" + Print(value));
    StringStart(name);
    AtChar(t, pos, s, 0);
    StringSkipped(t, pos, name);
    var after := pos + |s|;
    AtParts(t, after, ":", Print(value));
    AtChar(t, after, ":", 0);
    FirstChar(value);
    AtChar(t, after + 1, Print(value), 0);
    PairStep(t, pos, level, after);
    if level + 1 <= MAX_DEPTH { ElementSkipped(t, after + 1, value, level + 1); }
  }

  lemma {:induction false} FieldsSkipped(t: string, pos: nat, fields: Fields, level: nat)
    requires fields.Fields? && WellFormedFields(fields) && level <= MAX_DEPTH && At(t, pos, PrintFields(fields))
    ensures pos < |t| && t[pos] != '}'
    ensures if !NoPlusFields(fields) then FieldsEnd(t, pos, level).Failure?
            else FieldsEnd(t, pos, level)
                 == EndOr(level + 2 <= MAX_DEPTH && FitFields(fields, level + 2), pos + |PrintFields(fields)|)
    decreases fields, 2
  {
    hide At, ElementEnd, PairEnd, FieldsEnd, Fits, PrintField, WellFormed, NoPlus;
    var v, rest := PrintField(fields.name, fields.value), PrintRest(fields.rest);
    AtParts(t, pos, v, rest);
    RestStart(fields.rest);
    var after := pos + |v|;
    AtChar(t, after, rest, 0);
    PairSkipped(t, pos, fields.name, fields.value, if level + 1 <= MAX_DEPTH then level + 1 else level);
    TooDeep(t, pos, level);
    if level + 2 <= MAX_DEPTH && !NoPlus(fields.value) {
      if fields.value.Num? { FieldsStep(t, pos, level, PairEnd(t, pos, level + 1).value); }
    } else if level + 2 <= MAX_DEPTH && Fits(fields.value, level + 2) {
      if fields.rest.NoFields? {
        assert NoPlusFields(fields.rest);
      } else {
        AtParts(t, after, ",", PrintFields(fields.rest));
        FieldsSkipped(t, after + 1, fields.rest, level);
      }
      FieldsStep(t, pos, level, after);
    }
  }

  // ---- Reading a string ----

  /** The character that a backslash and `c` stand for. */
  function Simple(c: char): char {
    if c == 'b' then 8 as char
    else if c == 'f' then 12 as char
    else if c == 'n' then '\n'
    else if c == 'r' then '\r'
    else if c == 't' then '\t'
    else c
  }

  /** The conversion of four hexadecimal digits to UTF-8, by a library. */
  type Decoder = string -> Result<string>

  function Append(s: string, r: Result<string>): Result<string> {
    if r.Ok? then Ok(s + r.value) else r
  }

  /** From inside a string, its contents up to the closing quote. */
  function Contents(t: string, pos: nat, decode: Decoder): Result<string>
    decreases |t| - pos
  {
    if pos >= |t| then Failure("JSON: incorrect syntax (expected end of string, found end of JSON).")
    else if t[pos] == '"' then Ok("")
    else if t[pos] != '\\' then Append([t[pos]], Contents(t, pos + 1, decode))
    else if pos + 1 >= |t| then Failure("JSON: unexpected end of data.")
    else if t[pos + 1] != 'u' then Append([Simple(t[pos + 1])], Contents(t, pos + 2, decode))
    else if pos + 6 >= |t| then Failure("JSON: unexpected end of data.")
    else if decode(t[pos + 2..pos + 6]).Failure? then decode(t[pos + 2..pos + 6])
    else Append(decode(t[pos + 2..pos + 6]).value, Contents(t, pos + 6, decode))
  }

  function StringContents(t: string, pos: nat, decode: Decoder): Result<string>
    requires pos < |t|
  {
    if t[pos] != '"' then Failure("JSON: expected \"")
    else if pos + 1 >= |t| then Failure("JSON: unexpected end of data.")
    else Contents(t, pos + 1, decode)
  }

  function Decoded(ps: seq<Piece>, decode: Decoder): Result<string> {
    if ps == [] then Ok("")
    else
      match ps[0]
      case Plain(c) => Append([c], Decoded(ps[1..], decode))
      case Escape(c) => Append([Simple(c)], Decoded(ps[1..], decode))
      case Unicode(h) => if decode(h).Failure? then decode(h) else Append(decode(h).value, Decoded(ps[1..], decode))
  }

  lemma {:induction false} ContentsDecoded(t: string, pos: nat, ps: seq<Piece>, decode: Decoder)
    requires LoosePieces(ps) && At(t, pos, PrintPieces(ps) + "\"")
    ensures Contents(t, pos, decode) == Decoded(ps, decode)
    decreases |ps|
  {
    hide At, Contents, PrintPieces;
    PiecesText(ps);
    if ps == [] {
      AtChar(t, pos, PrintPieces(ps) + "\"", 0);
      ContentsEnd(t, pos, decode);
    } else {
      var p, rest := PrintPiece(ps[0]), PrintPieces(ps[1..]) + "\"";
      AtParts(t, pos, p, rest);
      ContentsDecoded(t, pos + |p|, ps[1..], decode);
      AtChar(t, pos + |p|, rest, |rest| - 1);
      PieceDecoded(t, pos, ps, decode);
    }
  }

  lemma ContentsEnd(t: string, pos: nat, decode: Decoder)
    requires pos < |t| && t[pos] == '"'
    ensures Contents(t, pos, decode) == Ok("")
  {
  }

  lemma PieceDecoded(t: string, pos: nat, ps: seq<Piece>, decode: Decoder)
    requires ps != [] && ps[0].Loose() && At(t, pos, PrintPiece(ps[0])) && pos + |PrintPiece(ps[0])| < |t|
    requires Contents(t, pos + |PrintPiece(ps[0])|, decode) == Decoded(ps[1..], decode)
    ensures Contents(t, pos, decode) == Decoded(ps, decode)
  {
    hide At;
    var p := PrintPiece(ps[0]);
    AtChar(t, pos, p, 0);
    if !ps[0].Plain? { AtChar(t, pos, p, 1); }
    if ps[0].Unicode? { HexDigits(t, pos, ps[0].hex); }
  }

  lemma HexDigits(t: string, pos: nat, h: string)
    requires |h| == 4 && At(t, pos, PrintPiece(Unicode(h)))
    ensures t[pos + 2..pos + 6] == h
  {
    AtParts(t, pos, ['\\', 'u'], h);
  }

  /** How a printer escapes a text. */
  function Escaped(s: string): (ps: seq<Piece>)
    ensures |ps| == |s|
  {
    seq(|s|, i requires 0 <= i < |s| => EscapedChar(s[i]))
  }

  function EscapedChar(c: char): (p: Piece)
    ensures p.Valid() && !p.Unicode?
  {
    if c == '"' || c == '\\' || c == '/' then Escape(c)
    else if c == 8 as char then Escape('b')
    else if c == 12 as char then Escape('f')
    else if c == '\n' then Escape('n')
    else if c == '\r' then Escape('r')
    else if c == '\t' then Escape('t')
    else Plain(c)
  }

  lemma {:induction false} EscapedDecodes(s: string, decode: Decoder)
    ensures Decoded(Escaped(s), decode) == Ok(s)
    decreases |s|
  {
    if s == "" {
    } else {
      EscapedDecodes(s[1..], decode);
      assert Escaped(s)[1..] == Escaped(s[1..]);
      assert s == [s[0]] + s[1..];
    }
  }

  /** getString undoes the escapes, whatever the text. */
  lemma StringRead(t: string, pos: nat, s: string, decode: Decoder)
    requires At(t, pos, PrintString(Escaped(s)))
    ensures pos < |t| && StringContents(t, pos, decode) == Ok(s)
  {
    hide At, PrintPieces, Contents, Decoded, Escaped;
    PiecesRead(t, pos, Escaped(s), decode) by { EscapedValid(s); }
    EscapedDecodes(s, decode);
  }

  lemma EscapedValid(s: string)
    ensures ValidPieces(Escaped(s))
  {
  }

  lemma PiecesRead(t: string, pos: nat, ps: seq<Piece>, decode: Decoder)
    requires ValidPieces(ps) && At(t, pos, PrintString(ps))
    ensures pos < |t| && StringContents(t, pos, decode) == Decoded(ps, decode)
  {
    hide At, PrintPieces, Contents, Decoded;
    var body := PrintPieces(ps) + "\"";
    AtParts(t, pos, "\"", body);
    AtChar(t, pos, "\"", 0);
    AtChar(t, pos + 1, body, 0);
    ContentsDecoded(t, pos + 1, ps, decode);
  }

  // ---- Children ----

  /** An iterator: at an element, or past the last one. */
  datatype Cursor = End | Element(pos: nat)

  function Begin(t: string, pos: nat, level: nat): Result<Cursor>
    requires pos < |t|
  {
    match GetType(t, pos)
    case Failure(e) => Failure(e)
    case Ok(kind) =>
      if kind != ArrayType && kind != ObjectType then Failure("JSON: not array or object when calling begin() method.")
      else if pos + 1 >= |t| then Failure("JSON: unexpected end of data.")
      else if level + 1 > MAX_DEPTH then Failure("JSON: too deep.")
      else Ok(if t[pos + 1] == '}' || t[pos + 1] == ']' then End else Element(pos + 1))
  }

  function Advance(t: string, pos: nat, level: nat): (r: Result<Cursor>)
    requires Opens(t, pos, level)
    ensures r.Ok? && r.value.Element? ==> pos < r.value.pos < |t|
  {
    match ElementEnd(t, pos, level)
    case Failure(e) => Failure(e)
    case Ok(after) =>
      if after >= |t| then Failure("JSON: unexpected end of data.")
      else if t[after] != ',' then Ok(End)
      else if after + 1 >= |t| then Failure("JSON: unexpected end of data.")
      else Ok(Element(after + 1))
  }

  /** How many increments it takes to pass the last element. */
  function CountFrom(t: string, pos: nat, level: nat): Result<nat>
    requires Opens(t, pos, level)
    decreases |t| - pos
  {
    match Advance(t, pos, level)
    case Failure(e) => Failure(e)
    case Ok(End) => Ok(1)
    case Ok(Element(next)) =>
      match CountFrom(t, next, level)
      case Failure(e) => Failure(e)
      case Ok(n) => Ok(n + 1)
  }

  function ChildCount(t: string, pos: nat, level: nat): Result<nat>
    requires pos < |t|
  {
    match Begin(t, pos, level)
    case Failure(e) => Failure(e)
    case Ok(End) => Ok(0)
    case Ok(Element(first)) => CountFrom(t, first, level + 1)
  }

  function CountOr(fits: bool, n: nat): Result<nat> {
    if fits then Ok(n) else Failure("JSON: too deep.")
  }

  lemma {:induction false} ItemsCounted(t: string, pos: nat, items: Values, level: nat)
    requires items.Values? && ReadableItems(items) && level <= MAX_DEPTH && At(t, pos, PrintItems(items))
    ensures pos < |t| && Starts(t[pos])
    ensures CountFrom(t, pos, level) == CountOr(FitItems(items, level), CountItems(items))
    decreases items
  {
    hide At, ElementEnd, Fits, Print, Starts, WellFormed, NoPlus;
    var v, tail := Print(items.head), PrintTail(items.tail);
    AtParts(t, pos, v, tail);
    FirstChar(items.head);
    AtChar(t, pos, v, 0);
    TailStart(items.tail);
    var after := pos + |v|;
    AtChar(t, after, tail, 0);
    ElementSkipped(t, pos, items.head, level);
    if items.tail.NoValues? {
    } else {
      AtParts(t, after, ",", PrintItems(items.tail));
      ItemsCounted(t, after + 1, items.tail, level);
    }
  }

  /** As a child of an object, a name-value pair is an element of its own. */
  lemma PairIsElement(t: string, pos: nat, name: seq<Piece>, value: Value, level: nat)
    requires ValidPieces(name) && At(t, pos, PrintField(name, value)) && level <= MAX_DEPTH
    ensures pos < |t| && t[pos] == '"' && ElementEnd(t, pos, level) == PairEnd(t, pos, level)
  {
    hide At, PairEnd, StringEnd, Print, PrintString;
    var s := PrintString(name);
    AtParts(t, pos, s, ":" + Print(value));
    StringStart(name);
    AtChar(t, pos, s, 0);
    StringSkipped(t, pos, name);
    AtChar(t, pos + |s|, ":" + Print(value), 0);
  }

  lemma {:induction false} FieldsCounted(t: string, pos: nat, fields: Fields, level: nat)
    requires fields.Fields? && ReadableFields(fields) && level <= MAX_DEPTH && At(t, pos, PrintFields(fields))
    ensures pos < |t| && t[pos] == '"'
    ensures CountFrom(t, pos, level)
            == CountOr(level + 1 <= MAX_DEPTH && FitFields(fields, level + 1), CountFields(fields))
    decreases fields
  {
    hide At, ElementEnd, PairEnd, Fits, PrintField;
    var v, rest := PrintField(fields.name, fields.value), PrintRest(fields.rest);
    AtParts(t, pos, v, rest);
    RestStart(fields.rest);
    var after := pos + |v|;
    AtChar(t, after, rest, 0);
    PairIsElement(t, pos, fields.name, fields.value, level);
    PairSkipped(t, pos, fields.name, fields.value, level);
    if fields.rest.NoFields? {
    } else {
      AtParts(t, after, ",", PrintFields(fields.rest));
      FieldsCounted(t, after + 1, fields.rest, level);
    }
  }

  /** size() counts the children of every printed array and object within the budget. */
  lemma ChildrenCounted(t: string, pos: nat, v: Value, level: nat)
    requires (v.Arr? || v.Obj?) && Readable(v) && At(t, pos, Print(v))
    ensures pos < |t|
    ensures ChildCount(t, pos, level)
         == CountOr(level + 1 <= MAX_DEPTH && Fits(v, level),
                    if v.Arr? then CountItems(v.items) else CountFields(v.fields))
  {
    hide At, CountFrom, FitItems, FitFields;
    if v.Arr? {
      AtParts(t, pos, "[", PrintItems(v.items));
      AtChar(t, pos, "[", 0);
      if v.items.NoValues? {
        AtChar(t, pos + 1, "]", 0);
      } else {
        ItemsCounted(t, pos + 1, v.items, if level + 1 <= MAX_DEPTH then level + 1 else 0);
        NotClosing(t[pos + 1]);
      }
    } else {
      AtParts(t, pos, "{", PrintFields(v.fields));
      AtChar(t, pos, "{", 0);
      if v.fields.NoFields? {
        AtChar(t, pos + 1, "}", 0);
      } else {
        FieldsCounted(t, pos + 1, v.fields, if level + 1 <= MAX_DEPTH then level + 1 else 0);
      }
    }
  }

  // ---- Elements by index ----

  /** The cursor after `n` increments, or fewer if the end comes first, and how many there were. */
  function Walk(t: string, c: Cursor, level: nat, n: nat): Result<(Cursor, nat)>
    requires c.Element? ==> Opens(t, c.pos, level)
    decreases n
  {
    if n == 0 || c.End? then Ok((c, 0))
    else
      match Advance(t, c.pos, level)
      case Failure(e) => Failure(e)
      case Ok(next) =>
        match Walk(t, next, level, n - 1)
        case Failure(e) => Failure(e)
        case Ok((last, i)) => Ok((last, i + 1))
  }

  /** operator[](n): the check after the loop only compares the counts. */
  function Index(t: string, pos: nat, level: nat, n: nat): Result<Cursor>
    requires pos < |t|
  {
    if GetType(t, pos).Failure? then Failure(GetType(t, pos).error)
    else if GetType(t, pos) != Ok(ArrayType) then Failure("JSON: not array when calling operator[](size_t) method.")
    else
      match Begin(t, pos, level)
      case Failure(e) => Failure(e)
      case Ok(first) =>
        match Walk(t, first, level + 1, n)
        case Failure(e) => Failure(e)
        case Ok((last, i)) => if i != n then Failure("JSON: array index out of bounds.") else Ok(last)
  }

  function NthItem(items: Values, n: nat): Value
    requires n < CountItems(items)
  {
    if n == 0 then items.head else NthItem(items.tail, n - 1)
  }

  /** Where the walk ends, for a cursor at the first of the remaining items. */
  predicate Reaches(t: string, r: Result<(Cursor, nat)>, items: Values, n: nat) {
    && r.Ok?
    && if n < CountItems(items)
       then r.value.1 == n && r.value.0.Element? && At(t, r.value.0.pos, Print(NthItem(items, n)))
       else r.value == (End, CountItems(items))
  }

  lemma {:induction false} WalkReaches(t: string, pos: nat, items: Values, level: nat, n: nat)
    requires items.Values? && ReadableItems(items) && level <= MAX_DEPTH && FitItems(items, level)
    requires At(t, pos, PrintItems(items))
    ensures pos < |t| && Reaches(t, Walk(t, Element(pos), level, n), items, n)
    decreases items
  {
    hide At, ElementEnd, Fits, Print;
    var v, tail := Print(items.head), PrintTail(items.tail);
    AtParts(t, pos, v, tail);
    FirstChar(items.head);
    AtChar(t, pos, v, 0);
    TailStart(items.tail);
    var after := pos + |v|;
    AtChar(t, after, tail, 0);
    ElementSkipped(t, pos, items.head, level);
    if n == 0 || items.tail.NoValues? {
    } else {
      AtParts(t, after, ",", PrintItems(items.tail));
      WalkReaches(t, after + 1, items.tail, level, n - 1);
    }
  }

  /** An index below the size gives that element, one above is refused; the size itself gives the end cursor. */
  lemma IndexedElement(t: string, pos: nat, items: Values, level: nat, n: nat)
    requires ReadableItems(items) && level + 1 <= MAX_DEPTH && Fits(Arr(items), level) && At(t, pos, Print(Arr(items)))
    ensures pos < |t|
    ensures n < CountItems(items) ==>
              var r := Index(t, pos, level, n);
              r.Ok? && r.value.Element? && At(t, r.value.pos, Print(NthItem(items, n)))
    ensures n == CountItems(items) ==> Index(t, pos, level, n) == Ok(End)
    ensures n > CountItems(items) ==> Index(t, pos, level, n).Failure?
  {
    hide At, Print, Walk, ElementEnd, Advance;
    ArrayText(items);
    AtParts(t, pos, "[", PrintItems(items));
    AtChar(t, pos, "[", 0);
    if items.NoValues? {
      AtChar(t, pos + 1, "]", 0);
      WalkFromEnd(t, level + 1, n);
    } else {
      ItemsCounted(t, pos + 1, items, level + 1);
      NotClosing(t[pos + 1]);
      WalkReaches(t, pos + 1, items, level + 1, n);
    }
  }

  lemma ArrayText(items: Values)
    ensures Print(Arr(items)) == "[" + PrintItems(items)
  {
  }

  lemma WalkFromEnd(t: string, level: nat, n: nat)
    ensures Walk(t, End, level, n) == Ok((End, 0))
  {
  }

  /** The first element of an empty array is not refused. */
  lemma EmptyArrayIndexed()
    ensures Print(Arr(NoValues)) == "[]" && Index("[]", 0, 0, 0) == Ok(End)
  {
    PrintedEmptyArray();
    assert At("[]", 0, "[]");
    IndexedElement("[]", 0, NoValues, 0, 0);
  }

  lemma PrintedEmptyArray()
    ensures Print(Arr(NoValues)) == "[]"
  {
  }
}
