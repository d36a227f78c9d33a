/** What the reader accepts, on every text: a grammar of skipped elements, and the reader proved against it. */
module JsonGrammar {
  import opened JsonText
  import opened JsonReader

  // ---- The grammar ----

  /** A skipped string: its first inner quote and, if a backslash stands before that, its parts. */
  datatype Quoted = Quoted(first: nat, ps: seq<Piece>)

  /** A skipped number: where its sign, whole part, point, fraction, letter and second sign end. */
  datatype Cuts = Cuts(sign: nat, whole: nat, point: nat, fraction: nat, letter: nat, minus: nat)

  datatype Skim =
    | Word
    | Figure(cuts: Cuts)
    | Text(s: Quoted)
    | Pair(name: Quoted, colon: nat, value: Skim)
    | List(items: Skims)
    | Dict(pairs: Skims)

  /** Elements in a row, each with its end. */
  datatype Skims = Nil | Cons(head: Skim, end: nat, tail: Skims)

  /** The parts of a string from `pos` on, and its closing quote before `e`. */
  predicate Parts(t: string, pos: nat, e: nat, ps: seq<Piece>) {
    LoosePieces(ps) && At(t, pos, PrintPieces(ps) + "\"") && e == pos + |PrintPieces(ps)| + 1
  }

  /** A string ends at the first quote without a backslash before it; if there is one, escapes are looked at. */
  predicate StringSpan(t: string, pos: nat, e: nat, s: Quoted) {
    && pos < s.first < |t| && t[pos] == '"' && t[s.first] == '"'
    && (forall i :: pos < i < s.first ==> t[i] != '"')
    && if t[s.first - 1] != '\\' then e == s.first + 1 else Parts(t, pos + 1, e, s.ps)
  }

  /** All the digits from `a` on. */
  predicate Digits(t: string, a: nat, b: nat) {
    && a <= b <= |t|
    && (forall i :: a <= i < b ==> '0' <= t[i] <= '9')
    && (b < |t| ==> t[b] < '0' || t[b] > '9')
  }

  predicate Maybe(t: string, a: nat, b: nat, some: string) {
    a <= |t| && b == if a < |t| && t[a] in some then a + 1 else a
  }

  predicate NumberSpan(t: string, pos: nat, e: nat, c: Cuts) {
    && Maybe(t, pos, c.sign, "-") && Digits(t, c.sign, c.whole)
    && Maybe(t, c.whole, c.point, ".") && Digits(t, c.point, c.fraction)
    && Maybe(t, c.fraction, c.letter, "eE") && Maybe(t, c.letter, c.minus, "-") && Digits(t, c.minus, e)
  }

  /** A word is known by its first letter: its other letters are not looked at, and may be missing. */
  predicate WordSpan(t: string, pos: nat, e: nat)
    requires pos < |t|
  {
    if t[pos] == 'f' then e == pos + 5 else (t[pos] == 'n' || t[pos] == 't') && e == pos + 4
  }

  /** The text from `pos` up to `e` is an element, at most a hundred levels deep. */
  predicate Spans(t: string, pos: nat, e: nat, s: Skim, level: nat)
    decreases s
  {
    && pos < |t| && level <= 100
    && match s
       case Word => WordSpan(t, pos, e)
       case Figure(cuts) => (t[pos] == '-' || '0' <= t[pos] <= '9') && NumberSpan(t, pos, e, cuts)
       case Text(s) => StringSpan(t, pos, e, s) && !(e < |t| && t[e] == ':')
       case Pair(name, colon, value) =>
         StringSpan(t, pos, colon, name) && colon < |t| && t[colon] == ':' && Spans(t, colon + 1, e, value, level + 1)
       case List(items) => t[pos] == '[' && Bracketed(t, pos + 1, e, items, level + 1, ']', false)
       case Dict(pairs) => t[pos] == '{' && Bracketed(t, pos + 1, e, pairs, level + 1, '}', true)
  }

  /** Nothing but the closing bracket, or elements with a comma between any two and the bracket after the last. */
  predicate Bracketed(t: string, pos: nat, e: nat, ss: Skims, level: nat, close: char, pairs: bool)
    decreases ss, 1
  {
    if ss.Nil? then pos < |t| && t[pos] == close && e == pos + 1 else Row(t, pos, e, ss, level, close, pairs)
  }

  predicate Row(t: string, pos: nat, e: nat, ss: Skims, level: nat, close: char, pairs: bool)
    decreases ss, 0
  {
    && ss.Cons? && (pairs ==> ss.head.Pair?) && Spans(t, pos, ss.end, ss.head, level) && ss.end < |t|
    && if ss.tail.Nil? then t[ss.end] == close && e == ss.end + 1
       else t[ss.end] == ',' && Row(t, ss.end + 1, e, ss.tail, level, close, pairs)
  }

  // ---- Strings ----

  lemma FirstPart(t: string, pos: nat) returns (p: Piece)
    requires pos < |t| && t[pos] != '"'
    requires t[pos] == '\\' ==> pos + 1 < |t| && (t[pos + 1] == 'u' ==> pos + 5 < |t|)
    ensures p.Loose() && At(t, pos, PrintPiece(p))
    ensures p == if t[pos] != '\\' then Plain(t[pos])
                 else if t[pos + 1] != 'u' then Escape(t[pos + 1]) else Unicode(t[pos + 2..pos + 6])
    ensures |PrintPiece(p)| == if p.Plain? then 1 else if p.Escape? then 2 else 6
  {
    p := if t[pos] != '\\' then Plain(t[pos])
         else if t[pos + 1] != 'u' then Escape(t[pos + 1]) else Unicode(t[pos + 2..pos + 6]);
    assert t[pos..pos + |PrintPiece(p)|] == PrintPiece(p);
  }

  lemma {:induction false} SlowPathParts(t: string, pos: nat, e: nat) returns (ps: seq<Piece>)
    requires SlowPath(t, pos) == Ok(e)
    ensures Parts(t, pos, e, ps)
    decreases |t| - pos
  {
    if t[pos] == '"' {
      ps := [];
      assert t[pos..pos + 1] == "\"";
    } else {
      var p := FirstPart(t, pos);
      var rest := SlowPathParts(t, pos + |PrintPiece(p)|, e);
      ps := [p] + rest;
      MoreParts(t, pos, e, p, rest);
    }
  }

  lemma MoreParts(t: string, pos: nat, e: nat, p: Piece, rest: seq<Piece>)
    requires p.Loose() && At(t, pos, PrintPiece(p)) && Parts(t, pos + |PrintPiece(p)|, e, rest)
    ensures Parts(t, pos, e, [p] + rest)
  {
    hide At, PrintPiece, PrintPieces;
    var ps := [p] + rest;
    assert ps[1..] == rest;
    PiecesText(ps);
    AtParts(t, pos, PrintPiece(p), PrintPieces(rest) + "\"");
  }

  lemma StringSound(t: string, pos: nat, e: nat) returns (s: Quoted)
    requires StringEnd(t, pos) == Ok(e)
    ensures StringSpan(t, pos, e, s)
  {
    hide SlowPath, FindQuote, At, PrintPieces;
    var q := FindQuote(t, pos + 1);
    if q < |t| && t[q - 1] != '\\' {
      s := Quoted(q, []);
    } else {
      var ps := SlowPathParts(t, pos + 1, e);
      PartsQuote(t, pos + 1, e, ps);
      s := Quoted(q, ps);
    }
  }

  lemma PartsQuote(t: string, pos: nat, e: nat, ps: seq<Piece>)
    requires Parts(t, pos, e, ps)
    ensures pos < e <= |t| && t[e - 1] == '"'
  {
    hide At, PrintPieces;
    AtChar(t, pos, PrintPieces(ps) + "\"", |PrintPieces(ps)|);
  }

  lemma StringComplete(t: string, pos: nat, e: nat, s: Quoted)
    requires StringSpan(t, pos, e, s)
    ensures StringEnd(t, pos) == Ok(e)
  {
    hide SlowPath, FindQuote, At, PrintPieces;
    assert FindQuote(t, pos + 1) == s.first;
    if t[s.first - 1] == '\\' { SlowPathSkips(t, pos + 1, s.ps); }
  }

  /** skipString accepts exactly these strings. */
  lemma StringIs(t: string, pos: nat, e: nat)
    ensures StringEnd(t, pos) == Ok(e) <==> exists s :: StringSpan(t, pos, e, s)
  {
    hide StringEnd, StringSpan;
    if StringEnd(t, pos) == Ok(e) { var _ := StringSound(t, pos, e); }
    forall s | StringSpan(t, pos, e, s) ensures StringEnd(t, pos) == Ok(e) { StringComplete(t, pos, e, s); }
  }

  // ---- Numbers ----

  lemma DigitsIs(t: string, a: nat, b: nat)
    requires a <= |t|
    ensures Digits(t, a, b) <==> b == DigitsEnd(t, a)
  {
    hide DigitsEnd;
    var d := DigitsEnd(t, a);
    assert forall i :: a <= i < d ==> IsDigit(t[i]);
  }

  lemma MaybeIs(t: string, a: nat, b: nat, c: char, d: char)
    requires a <= |t|
    ensures Maybe(t, a, b, [c, d]) <==> b == Optional(t, a, c, d)
    ensures c == d ==> (Maybe(t, a, b, [c]) <==> b == Optional(t, a, c, c))
  {
  }

  /** skipNumber takes the longest parts there are, in this order. */
  lemma NumberIs(t: string, pos: nat, e: nat) returns (c: Cuts)
    requires pos < |t|
    ensures NumberSpan(t, pos, NumberEnd(t, pos), c)
    ensures forall d :: NumberSpan(t, pos, e, d) ==> e == NumberEnd(t, pos)
  {
    hide DigitsEnd, Optional, Digits, Maybe;
    var sign := Optional(t, pos, '-', '-');
    var whole := DigitsEnd(t, sign);
    var point := Optional(t, whole, '.', '.');
    var fraction := DigitsEnd(t, point);
    var letter := Optional(t, fraction, 'e', 'E');
    var minus := Optional(t, letter, '-', '-');
    c := Cuts(sign, whole, point, fraction, letter, minus);
    NumberCut(t, pos, NumberEnd(t, pos), c);
    forall d | NumberSpan(t, pos, e, d) ensures e == NumberEnd(t, pos) { NumberCut(t, pos, e, d); }
  }

  lemma NumberCut(t: string, pos: nat, e: nat, c: Cuts)
    requires pos < |t|
    ensures NumberSpan(t, pos, e, c)
            <==> && c.sign == Optional(t, pos, '-', '-') && c.whole == DigitsEnd(t, c.sign)
                 && c.point == Optional(t, c.whole, '.', '.') && c.fraction == DigitsEnd(t, c.point)
                 && c.letter == Optional(t, c.fraction, 'e', 'E') && c.minus == Optional(t, c.letter, '-', '-')
                 && e == DigitsEnd(t, c.minus)
  {
    hide DigitsEnd, Optional, Digits, Maybe;
    MaybeIs(t, pos, c.sign, '-', '-');
    if c.sign == Optional(t, pos, '-', '-') {
      DigitsIs(t, c.sign, c.whole);
      if c.whole == DigitsEnd(t, c.sign) {
        MaybeIs(t, c.whole, c.point, '.', '.');
        if c.point == Optional(t, c.whole, '.', '.') {
          DigitsIs(t, c.point, c.fraction);
          if c.fraction == DigitsEnd(t, c.point) { ExponentCut(t, e, c); }
        }
      }
    }
  }

  lemma ExponentCut(t: string, e: nat, c: Cuts)
    requires c.fraction <= |t|
    ensures Maybe(t, c.fraction, c.letter, "eE") && Maybe(t, c.letter, c.minus, "-") && Digits(t, c.minus, e)
            <==> && c.letter == Optional(t, c.fraction, 'e', 'E') && c.minus == Optional(t, c.letter, '-', '-')
                 && e == DigitsEnd(t, c.minus)
  {
    hide DigitsEnd, Optional, Digits, Maybe;
    MaybeIs(t, c.fraction, c.letter, 'e', 'E');
    if c.letter == Optional(t, c.fraction, 'e', 'E') {
      MaybeIs(t, c.letter, c.minus, '-', '-');
      if c.minus == Optional(t, c.letter, '-', '-') { DigitsIs(t, c.minus, e); }
    }
  }

  // ---- Kinds ----

  /** getType looks at one character, and behind a string for a colon; any other character is refused. */
  ghost predicate KindAt(t: string, pos: nat, kind: ElementType)
    requires pos < |t|
  {
    match kind
    case ObjectType => t[pos] == '{'
    case ArrayType => t[pos] == '['
    case BoolType => t[pos] == 't' || t[pos] == 'f'
    case NullType => t[pos] == 'n'
    case NumberType => t[pos] == '-' || '0' <= t[pos] <= '9'
    case StringType => exists e: nat, s :: StringSpan(t, pos, e, s) && !(e < |t| && t[e] == ':')
    case PairType => exists e: nat, s :: StringSpan(t, pos, e, s) && e < |t| && t[e] == ':'
  }

  lemma TypeIs(t: string, pos: nat, kind: ElementType)
    requires pos < |t|
    ensures GetType(t, pos) == Ok(kind) <==> KindAt(t, pos, kind)
  {
    hide StringEnd;
    if t[pos] == '"' && StringEnd(t, pos).Ok? { var s := StringSound(t, pos, StringEnd(t, pos).value); }
    forall e: nat, s | StringSpan(t, pos, e, s) ensures StringEnd(t, pos) == Ok(e) && t[pos] == '"' {
      StringComplete(t, pos, e, s);
    }
  }

  // ---- Whatever is skipped is an element ----

  lemma {:induction false} ElementSound(t: string, pos: nat, e: nat, level: nat) returns (s: Skim)
    requires Opens(t, pos, level) && ElementEnd(t, pos, level) == Ok(e)
    ensures Spans(t, pos, e, s, level)
    decreases MAX_DEPTH - level, |t| - pos, 2
  {
    hide StringEnd, NumberEnd, NumberSpan, StringSpan, PairEnd, ItemsEnd, FieldsEnd, Row;
    if t[pos] == '"' {
      if GetType(t, pos) == Ok(PairType) {
        s := PairSound(t, pos, e, level);
      } else {
        var q := StringSound(t, pos, e);
        s := Text(q);
      }
    } else if t[pos] == '[' {
      if t[pos + 1] == ']' {
        s := List(Nil);
      } else {
        var items := ItemsSound(t, pos + 1, e, level);
        s := List(items);
      }
    } else if t[pos] == '{' {
      if t[pos + 1] == '}' {
        s := Dict(Nil);
      } else {
        var pairs := FieldsSound(t, pos + 1, e, level);
        s := Dict(pairs);
      }
    } else if t[pos] == '-' || IsDigit(t[pos]) {
      var cuts := NumberIs(t, pos, e);
      s := Figure(cuts);
    } else {
      s := Word;
    }
  }

  lemma {:induction false} PairSound(t: string, pos: nat, e: nat, level: nat) returns (s: Skim)
    requires Opens(t, pos, level) && PairEnd(t, pos, level) == Ok(e)
    ensures s.Pair? && Spans(t, pos, e, s, level)
    decreases MAX_DEPTH - level, |t| - pos, 1
  {
    hide StringEnd, ElementEnd, StringSpan;
    var colon := StringEnd(t, pos).value;
    var name := StringSound(t, pos, colon);
    var value := ElementSound(t, colon + 1, e, level + 1);
    s := Pair(name, colon, value);
  }

  lemma {:induction false} ItemsSound(t: string, pos: nat, e: nat, level: nat) returns (ss: Skims)
    requires Opens(t, pos, level) && ItemsEnd(t, pos, level) == Ok(e)
    ensures ss.Cons? && Row(t, pos, e, ss, level + 1, ']', false)
    decreases MAX_DEPTH - level, |t| - pos, 0
  {
    hide ElementEnd, Spans;
    var after := ElementEnd(t, pos, level + 1).value;
    var head := ElementSound(t, pos, after, level + 1);
    if t[after] == ']' {
      ss := Cons(head, after, Nil);
    } else {
      var tail := ItemsSound(t, after + 1, e, level);
      ss := Cons(head, after, tail);
    }
  }

  lemma {:induction false} FieldsSound(t: string, pos: nat, e: nat, level: nat) returns (ss: Skims)
    requires Opens(t, pos, level) && FieldsEnd(t, pos, level) == Ok(e)
    ensures ss.Cons? && Row(t, pos, e, ss, level + 1, '}', true)
    decreases MAX_DEPTH - level, |t| - pos, 0
  {
    hide PairEnd, Spans;
    var after := PairEnd(t, pos, level + 1).value;
    var head := PairSound(t, pos, after, level + 1);
    if t[after] == '}' {
      ss := Cons(head, after, Nil);
    } else {
      var tail := FieldsSound(t, after + 1, e, level);
      ss := Cons(head, after, tail);
    }
  }

  // ---- And every element is skipped ----

  lemma {:induction false} ElementComplete(t: string, pos: nat, e: nat, s: Skim, level: nat)
    requires Spans(t, pos, e, s, level)
    ensures Opens(t, pos, level) && ElementEnd(t, pos, level) == Ok(e)
    ensures s.Pair? ==> PairEnd(t, pos, level) == Ok(e)
    decreases s, 1
  {
    hide StringEnd, NumberEnd, NumberSpan, StringSpan, ItemsEnd, FieldsEnd, Row;
    match s
    case Word =>
    case Figure(cuts) => var _ := NumberIs(t, pos, e);
    case Text(q) => QuoteComplete(t, pos, e, q);
    case Pair(name, colon, value) =>
      QuoteComplete(t, pos, colon, name);
      ElementComplete(t, colon + 1, e, value, level + 1);
      PairStep(t, pos, level, colon);
    case List(items) => if items.Cons? { ItemsComplete(t, pos + 1, e, items, level); }
    case Dict(pairs) => if pairs.Cons? { FieldsComplete(t, pos + 1, e, pairs, level); }
  }

  lemma QuoteComplete(t: string, pos: nat, e: nat, s: Quoted)
    requires StringSpan(t, pos, e, s)
    ensures pos < |t| && t[pos] == '"' && StringEnd(t, pos) == Ok(e)
  {
    hide StringEnd;
    StringComplete(t, pos, e, s);
  }

  lemma {:induction false} ItemsComplete(t: string, pos: nat, e: nat, ss: Skims, level: nat)
    requires Row(t, pos, e, ss, level + 1, ']', false)
    ensures level < MAX_DEPTH && pos < |t| && t[pos] != ']' && ItemsEnd(t, pos, level) == Ok(e)
    decreases ss, 0
  {
    hide ElementEnd, Spans;
    ElementComplete(t, pos, ss.end, ss.head, level + 1);
    ElementBegins(t, pos, ss.end, ss.head, level + 1);
    if ss.tail.Cons? { ItemsComplete(t, ss.end + 1, e, ss.tail, level); }
  }

  lemma {:induction false} FieldsComplete(t: string, pos: nat, e: nat, ss: Skims, level: nat)
    requires Row(t, pos, e, ss, level + 1, '}', true)
    ensures level < MAX_DEPTH && pos < |t| && t[pos] != '}' && FieldsEnd(t, pos, level) == Ok(e)
    decreases ss, 0
  {
    hide ElementEnd, PairEnd, Spans;
    ElementComplete(t, pos, ss.end, ss.head, level + 1);
    ElementBegins(t, pos, ss.end, ss.head, level + 1);
    if ss.tail.Cons? { FieldsComplete(t, ss.end + 1, e, ss.tail, level); }
  }

  lemma ElementBegins(t: string, pos: nat, e: nat, s: Skim, level: nat)
    requires Spans(t, pos, e, s, level)
    ensures pos < |t| && Starts(t[pos])
  {
  }

  /** On every text, skipElement succeeds exactly for an element of the grammar, and stops where that ends. */
  lemma ElementIs(t: string, pos: nat, e: nat, level: nat)
    requires Opens(t, pos, level)
    ensures ElementEnd(t, pos, level) == Ok(e) <==> exists s :: Spans(t, pos, e, s, level)
    ensures ElementEnd(t, pos, level).Ok? ==> Starts(t[pos])
  {
    hide ElementEnd, Spans;
    if ElementEnd(t, pos, level).Ok? {
      var s := ElementSound(t, pos, ElementEnd(t, pos, level).value, level);
      ElementBegins(t, pos, ElementEnd(t, pos, level).value, s, level);
    }
    forall s | Spans(t, pos, e, s, level) ensures ElementEnd(t, pos, level) == Ok(e) {
      ElementComplete(t, pos, e, s, level);
    }
  }

  // ---- Children ----

  /** Elements from `pos` on with a comma between any two, up to one with something else behind it. */
  predicate Children(t: string, pos: nat, ss: Skims, level: nat)
    decreases ss
  {
    && ss.Cons? && Spans(t, pos, ss.end, ss.head, level) && ss.end < |t|
    && if ss.tail.Nil? then t[ss.end] != ',' else t[ss.end] == ',' && Children(t, ss.end + 1, ss.tail, level)
  }

  function Length(ss: Skims): nat {
    if ss.Nil? then 0 else 1 + Length(ss.tail)
  }

  lemma {:induction false} CountSound(t: string, pos: nat, level: nat, n: nat) returns (ss: Skims)
    requires Opens(t, pos, level) && CountFrom(t, pos, level) == Ok(n)
    ensures Children(t, pos, ss, level) && Length(ss) == n
    decreases |t| - pos
  {
    hide ElementEnd, Spans;
    var after := ElementEnd(t, pos, level).value;
    var head := ElementSound(t, pos, after, level);
    if t[after] != ',' {
      ss := Cons(head, after, Nil);
    } else {
      var tail := CountSound(t, after + 1, level, n - 1);
      ss := Cons(head, after, tail);
    }
  }

  lemma {:induction false} CountComplete(t: string, pos: nat, ss: Skims, level: nat)
    requires Children(t, pos, ss, level)
    ensures Opens(t, pos, level) && CountFrom(t, pos, level) == Ok(Length(ss))
    decreases ss
  {
    hide ElementEnd, Spans;
    ElementComplete(t, pos, ss.end, ss.head, level);
    if ss.tail.Nil? {
    } else {
      CountComplete(t, ss.end + 1, ss.tail, level);
    }
  }

  /** Where the children begin; either closing bracket means that there are none. */
  predicate Opened(t: string, pos: nat, level: nat)
    requires pos < |t|
  {
    (t[pos] == '[' || t[pos] == '{') && pos + 1 < |t| && level < 100
  }

  predicate Closed(t: string, pos: nat)
    requires pos < |t|
  {
    t[pos] == ']' || t[pos] == '}'
  }

  lemma BeginIs(t: string, pos: nat, level: nat)
    requires pos < |t|
    ensures Begin(t, pos, level).Ok? <==> Opened(t, pos, level)
    ensures Opened(t, pos, level) ==>
              Begin(t, pos, level) == Ok(if Closed(t, pos + 1) then End else Element(pos + 1))
  {
    hide StringEnd;
  }

  /** On every text, size() is the number of those elements. */
  lemma SizeIs(t: string, pos: nat, level: nat, n: nat)
    requires pos < |t|
    ensures ChildCount(t, pos, level) == Ok(n)
            <==> && Opened(t, pos, level)
                 && if Closed(t, pos + 1) then n == 0
                    else exists ss :: Children(t, pos + 1, ss, level + 1) && Length(ss) == n
  {
    hide Begin, CountFrom, Children, Length;
    BeginIs(t, pos, level);
    if Opened(t, pos, level) && !Closed(t, pos + 1) {
      if CountFrom(t, pos + 1, level + 1) == Ok(n) { var _ := CountSound(t, pos + 1, level + 1, n); }
      forall ss | Children(t, pos + 1, ss, level + 1)
        ensures CountFrom(t, pos + 1, level + 1) == Ok(Length(ss))
      {
        CountComplete(t, pos + 1, ss, level + 1);
      }
    }
  }

  /** After `n` elements the cursor is at `c`; what comes after the last of them and a comma need not be an element. */
  predicate Passes(t: string, pos: nat, ss: Skims, level: nat, n: nat, c: Cursor)
    decreases n
  {
    if n == 0 then c == Element(pos)
    else
      && ss.Cons? && Spans(t, pos, ss.end, ss.head, level) && ss.end < |t|
      && if t[ss.end] != ',' then n == 1 && c == End
         else ss.end + 1 < |t| && Passes(t, ss.end + 1, ss.tail, level, n - 1, c)
  }

  ghost predicate Passed(t: string, pos: nat, level: nat, n: nat, c: Cursor) {
    exists ss :: Passes(t, pos, ss, level, n, c)
  }

  lemma {:induction false} WalkSound(t: string, pos: nat, level: nat, n: nat, c: Cursor) returns (ss: Skims)
    requires Opens(t, pos, level) && Walk(t, Element(pos), level, n) == Ok((c, n))
    ensures Passes(t, pos, ss, level, n, c)
    decreases n
  {
    hide ElementEnd, Spans;
    if n == 0 {
      ss := Nil;
    } else {
      var after := ElementEnd(t, pos, level).value;
      var head := ElementSound(t, pos, after, level);
      if t[after] != ',' {
        ss := Cons(head, after, Nil);
        WalkFromEnd(t, level, n - 1);
      } else {
        var tail := WalkSound(t, after + 1, level, n - 1, c);
        ss := Cons(head, after, tail);
      }
    }
  }

  lemma {:induction false} WalkComplete(t: string, pos: nat, ss: Skims, level: nat, n: nat, c: Cursor)
    requires Opens(t, pos, level) && Passes(t, pos, ss, level, n, c)
    ensures Walk(t, Element(pos), level, n) == Ok((c, n))
    decreases n
  {
    hide ElementEnd, Spans;
    if n == 0 {
    } else {
      ElementComplete(t, pos, ss.end, ss.head, level);
      if t[ss.end] != ',' {
        WalkFromEnd(t, level, n - 1);
      } else {
        WalkComplete(t, ss.end + 1, ss.tail, level, n - 1, c);
      }
    }
  }

  lemma WalkIs(t: string, pos: nat, level: nat, n: nat, c: Cursor)
    requires Opens(t, pos, level)
    ensures Walk(t, Element(pos), level, n) == Ok((c, n)) <==> Passed(t, pos, level, n, c)
  {
    hide Walk, Passes;
    if Walk(t, Element(pos), level, n) == Ok((c, n)) { var _ := WalkSound(t, pos, level, n, c); }
    forall ss | Passes(t, pos, ss, level, n, c) ensures Walk(t, Element(pos), level, n) == Ok((c, n)) {
      WalkComplete(t, pos, ss, level, n, c);
    }
  }

  /** On every text, operator[] passes as many elements as the index says, and fails if there are fewer. */
  lemma IndexIs(t: string, pos: nat, level: nat, n: nat, c: Cursor)
    requires pos < |t|
    ensures Index(t, pos, level, n) == Ok(c)
            <==> && Opened(t, pos, level) && t[pos] == '['
                 && if Closed(t, pos + 1) then n == 0 && c == End else Passed(t, pos + 1, level + 1, n, c)
  {
    hide Begin, Walk, Passed, StringEnd;
    BeginIs(t, pos, level);
    if Opened(t, pos, level) {
      if Closed(t, pos + 1) {
        WalkFromEnd(t, level + 1, n);
      } else {
        WalkIs(t, pos + 1, level + 1, n, c);
      }
    }
  }

  // ---- The contents of strings ----

  lemma SimpleIs(c: char)
    ensures forall i :: 0 <= i < 5 ==> Simple("bfnrt"[i]) as int == [8, 12, 10, 13, 9][i]
    ensures c !in "bfnrt" ==> Simple(c) == c
  {
  }

  lemma {:induction false} ContentsParts(t: string, pos: nat, decode: Decoder, r: string)
    returns (ps: seq<Piece>, e: nat)
    requires Contents(t, pos, decode) == Ok(r)
    ensures Parts(t, pos, e, ps) && Decoded(ps, decode) == Ok(r)
    decreases |t| - pos
  {
    if t[pos] == '"' {
      ps, e := [], pos + 1;
      assert t[pos..pos + 1] == "\"";
    } else {
      var p := FirstPart(t, pos);
      var next := pos + |PrintPiece(p)|;
      var rest, after := ContentsParts(t, next, decode, Contents(t, next, decode).value);
      ps, e := [p] + rest, after;
      MoreParts(t, pos, e, p, rest);
      assert ps[1..] == rest;
    }
  }

  ghost predicate StandsFor(t: string, pos: nat, decode: Decoder, r: string) {
    exists ps, e: nat :: Parts(t, pos, e, ps) && Decoded(ps, decode) == Ok(r)
  }

  lemma PartsRead(t: string, pos: nat, decode: Decoder, r: string)
    ensures Contents(t, pos, decode) == Ok(r) <==> StandsFor(t, pos, decode, r)
    ensures StandsFor(t, pos, decode, r) ==> pos < |t|
  {
    hide Contents, Decoded, At, PrintPieces;
    if Contents(t, pos, decode) == Ok(r) { var _, _ := ContentsParts(t, pos, decode, r); }
    forall ps, e: nat | Parts(t, pos, e, ps) ensures pos < |t| && Contents(t, pos, decode) == Decoded(ps, decode) {
      ContentsDecoded(t, pos, ps, decode);
      PartsQuote(t, pos, e, ps);
    }
  }

  /** On every text, getString gives what the parts up to the closing quote stand for. */
  lemma ContentsIs(t: string, pos: nat, decode: Decoder, r: string)
    requires pos < |t|
    ensures StringContents(t, pos, decode) == Ok(r)
            <==> t[pos] == '"' && StandsFor(t, pos + 1, decode, r)
  {
    hide Contents, StandsFor;
    PartsRead(t, pos + 1, decode, r);
  }
}
