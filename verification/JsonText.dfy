/** JSON values and the text that a printer without whitespace gives them. */
module JsonText {

  predicate IsDigit(c: char) { '0' <= c <= '9' }

  predicate AllDigits(s: string) { forall i :: 0 <= i < |s| ==> IsDigit(s[i]) }

  /** A part of a string: a plain character, a backslash and one more character, or \u and four digits. */
  datatype Piece = Plain(c: char) | Escape(c: char) | Unicode(hex: string) {
    predicate Valid() {
      match this
      case Plain(c) => c != '"' && c != '\\'
      case Escape(c) => c != 'u'
      case Unicode(h) => |h| == 4 && forall i :: 0 <= i < 4 ==> h[i] != '"' && h[i] != '\\'
    }

    /** What the reader takes for a part: it does not look at the four digits. */
    predicate Loose() {
      match this
      case Plain(c) => c != '"' && c != '\\'
      case Escape(c) => c != 'u'
      case Unicode(h) => |h| == 4
    }
  }

  function PrintPiece(p: Piece): (s: string)
    ensures |s| >= 1
  {
    match p
    case Plain(c) => [c]
    case Escape(c) => ['\\', c]
    case Unicode(h) => ['\\', 'u'] + h
  }

  function PrintPieces(ps: seq<Piece>): string {
    if ps == [] then "" else PrintPiece(ps[0]) + PrintPieces(ps[1..])
  }

  predicate ValidPieces(ps: seq<Piece>) {
    forall i :: 0 <= i < |ps| ==> ps[i].Valid()
  }

  predicate LoosePieces(ps: seq<Piece>) {
    forall i :: 0 <= i < |ps| ==> ps[i].Loose()
  }

  function PrintString(ps: seq<Piece>): string {
    "\"" + (PrintPieces(ps) + "\"")
  }

  datatype Sign = NoSign | Minus | Plus

  datatype Exponent = NoExponent | Exponent(upper: bool, sign: Sign, digits: string)

  datatype Number = Number(negative: bool, whole: string, fraction: string, exponent: Exponent) {
    predicate Valid() {
      && whole != "" && AllDigits(whole) && AllDigits(fraction)
      && (exponent.Exponent? ==> exponent.digits != "" && AllDigits(exponent.digits))
    }

    /** Section 6 of RFC 8259 also allows a plus sign. */
    predicate HasPlus() { exponent.Exponent? && exponent.sign == Plus }
  }

  function PrintSign(s: Sign): string {
    match s case NoSign => "" case Minus => "-" case Plus => "+"
  }

  function PrintExponent(e: Exponent): string {
    match e
    case NoExponent => ""
    case Exponent(upper, sign, digits) => (if upper then "E" else "e") + (PrintSign(sign) + digits)
  }

  function PrintFraction(fraction: string): string {
    if fraction == "" then "" else "." + fraction
  }

  function PrintNumber(n: Number): string {
    (if n.negative then "-" else "") + (n.whole + (PrintFraction(n.fraction) + PrintExponent(n.exponent)))
  }

  datatype Value =
    | Null
    | Bool(b: bool)
    | Num(n: Number)
    | Str(s: seq<Piece>)
    | Arr(items: Values)
    | Obj(fields: Fields)

  datatype Values = NoValues | Values(head: Value, tail: Values)

  datatype Fields = NoFields | Fields(name: seq<Piece>, value: Value, rest: Fields)

  function Print(v: Value): string
    decreases v, 0
  {
    match v
    case Null => "null"
    case Bool(b) => if b then "true" else "false"
    case Num(n) => PrintNumber(n)
    case Str(s) => PrintString(s)
    case Arr(items) => "[" + PrintItems(items)
    case Obj(fields) => "{" + PrintFields(fields)
  }

  /** The rest of an array, from its first element to the closing bracket. */
  function PrintItems(items: Values): string
    decreases items, 0
  {
    match items
    case NoValues => "]"
    case Values(head, tail) => Print(head) + PrintTail(tail)
  }

  function PrintTail(items: Values): string
    decreases items, 0
  {
    match items
    case NoValues => "]"
    case Values(head, tail) => "," + (Print(head) + PrintTail(tail))
  }

  function PrintField(name: seq<Piece>, value: Value): string
    decreases value, 1
  {
    PrintString(name) + (":" + Print(value))
  }

  function PrintFields(fields: Fields): string
    decreases fields, 0
  {
    match fields
    case NoFields => "}"
    case Fields(name, value, rest) => PrintField(name, value) + PrintRest(rest)
  }

  function PrintRest(fields: Fields): string
    decreases fields, 0
  {
    match fields
    case NoFields => "}"
    case Fields(name, value, rest) => "," + (PrintField(name, value) + PrintRest(rest))
  }

  /** Numbers and strings are those of the standard. */
  predicate WellFormed(v: Value) {
    match v
    case Null => true
    case Bool(_) => true
    case Num(n) => n.Valid()
    case Str(s) => ValidPieces(s)
    case Arr(items) => WellFormedItems(items)
    case Obj(fields) => WellFormedFields(fields)
  }

  predicate WellFormedItems(items: Values) {
    items.Values? ==> WellFormed(items.head) && WellFormedItems(items.tail)
  }

  predicate WellFormedFields(fields: Fields) {
    fields.Fields? ==> ValidPieces(fields.name) && WellFormed(fields.value) && WellFormedFields(fields.rest)
  }

  /** No number of the tree has a plus sign in its exponent. */
  predicate NoPlus(v: Value) {
    match v
    case Num(n) => !n.HasPlus()
    case Arr(items) => NoPlusItems(items)
    case Obj(fields) => NoPlusFields(fields)
    case _ => true
  }

  predicate NoPlusItems(items: Values) {
    items.Values? ==> NoPlus(items.head) && NoPlusItems(items.tail)
  }

  predicate NoPlusFields(fields: Fields) {
    fields.Fields? ==> NoPlus(fields.value) && NoPlusFields(fields.rest)
  }

  predicate Readable(v: Value) {
    WellFormed(v) && NoPlus(v)
  }

  predicate ReadableItems(items: Values) {
    WellFormedItems(items) && NoPlusItems(items)
  }

  predicate ReadableFields(fields: Fields) {
    WellFormedFields(fields) && NoPlusFields(fields)
  }

  function CountItems(items: Values): nat {
    if items.NoValues? then 0 else 1 + CountItems(items.tail)
  }

  function CountFields(fields: Fields): nat {
    if fields.NoFields? then 0 else 1 + CountFields(fields.rest)
  }
}
