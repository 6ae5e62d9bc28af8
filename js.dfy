/**
 * JavaScript values as the bindings hand them to the view updater, and the
 * few language operations the updater leans on: truthiness, strict equality,
 * `String(v)`, unary `+` on a string, `Array.prototype.indexOf`,
 * `String.prototype.indexOf` and `String.prototype.split(' ')`.
 *
 * Numbers are integers or NaN; fractional numbers are not modelled.
 */
module Js {

  datatype Value =
    | Undefined
    | Null
    | Bool(b: bool)
    | Num(n: int)
    | NaN
    | Str(s: string)
    | Arr(items: seq<Value>)

  /** `if (v)` */
  predicate Truthy(v: Value) {
    match v
    case Undefined => false
    case Null => false
    case Bool(b) => b
    case Num(n) => n != 0
    case NaN => false
    case Str(s) => s != ""
    case Arr(_) => true
  }

  /** `typeof v === 'number'` (NaN included). */
  predicate IsNumber(v: Value) {
    v.Num? || v.NaN?
  }

  /**
   * `a === b`. NaN equals nothing. Arrays compare by identity, which values
   * do not have: two arrays are never taken to be strictly equal here (no
   * caller below compares an array with an array).
   */
  predicate StrictEq(a: Value, b: Value)
    ensures StrictEq(a, b) <==> a == b && !a.NaN? && !a.Arr?
  {
    match (a, b)
    case (Undefined, Undefined) => true
    case (Null, Null) => true
    case (Bool(x), Bool(y)) => x == y
    case (Num(x), Num(y)) => x == y
    case (Str(x), Str(y)) => x == y
    case _ => false
  }

  /** `items.indexOf(v) > -1` */
  predicate IndexOfFound(items: seq<Value>, v: Value) {
    exists i :: 0 <= i < |items| && StrictEq(items[i], v)
  }

  /** `hay.indexOf(needle) > -1` on strings: a substring search. */
  predicate HasSubstring(hay: string, needle: string) {
    exists i :: 0 <= i <= |hay| - |needle| && OccursAt(hay, needle, i)
  }

  predicate OccursAt(hay: string, needle: string, i: int)
    requires 0 <= i <= |hay| - |needle|
  {
    hay[i..i + |needle|] == needle
  }

  // ---------------------------------------------------------------------
  // Decimal numerals

  predicate IsDigit(c: char) {
    '0' <= c <= '9'
  }

  predicate AllDigits(s: string) {
    forall i :: 0 <= i < |s| ==> IsDigit(s[i])
  }

  function DigitChar(d: nat): char
    requires d < 10
  {
    "0123456789"[d]
  }

  /** The value of a string of decimal digits, most significant first. */
  function DigitsValue(s: string): nat
    requires AllDigits(s)
  {
    if s == [] then 0
    else DigitsValue(s[..|s| - 1]) * 10 + (s[|s| - 1] as int - '0' as int)
  }

  /** The decimal numeral of a natural number, without leading zeros. */
  function NatToString(n: nat): (r: string)
    ensures |r| >= 1 && AllDigits(r)
    ensures r[0] == '0' ==> n == 0
  {
    if n < 10 then [DigitChar(n)] else NatToString(n / 10) + [DigitChar(n % 10)]
  }

  /** `String(n)` for an integer `n`. */
  function NumberToString(n: int): string {
    if n < 0 then "-" + NatToString(-n) else NatToString(n)
  }

  /**
   * Unary `+s`: the empty string is 0, an optionally signed run of decimal
   * digits is its value, anything else is NaN. (Surrounding white space,
   * fractions, exponents and hexadecimal literals are not modelled: they
   * read as NaN here.)
   */
  function ToNumber(s: string): (r: Value)
    ensures IsNumber(r)
    ensures r.Num? ==> s == "" || AllDigits(s) || (|s| > 1 && (s[0] == '-' || s[0] == '+') && AllDigits(s[1..]))
    ensures s == "" ==> r == Num(0)
    ensures AllDigits(s) ==> r == Num(DigitsValue(s))
    ensures |s| > 1 && s[0] == '-' && AllDigits(s[1..]) ==> r == Num(0 - DigitsValue(s[1..]))
    ensures |s| > 1 && s[0] == '+' && AllDigits(s[1..]) ==> r == Num(DigitsValue(s[1..]))
  {
    if s == "" then Num(0)
    else if AllDigits(s) then Num(DigitsValue(s))
    else if |s| > 1 && s[0] == '-' && AllDigits(s[1..]) then Num(0 - DigitsValue(s[1..]))
    else if |s| > 1 && s[0] == '+' && AllDigits(s[1..]) then Num(DigitsValue(s[1..]))
    else NaN
  }

  lemma {:induction false} NatToStringValue(n: nat)
    ensures DigitsValue(NatToString(n)) == n
  {
    if n >= 10 {
      var s := NatToString(n);
      var d := DigitChar(n % 10);
      assert s == NatToString(n / 10) + [d];
      assert s[..|s| - 1] == NatToString(n / 10);
      NatToStringValue(n / 10);
      assert d as int - '0' as int == n % 10;
    } else {
      assert NatToString(n)[..0] == [];
      assert DigitChar(n) as int - '0' as int == n;
    }
  }

  /** Coercing the numeral of an integer back with unary `+` gives the integer. */
  lemma NumberRoundTrip(n: int)
    ensures ToNumber(NumberToString(n)) == Num(n)
  {
    if n < 0 {
      var s := NumberToString(n);
      assert s[1..] == NatToString(-n);
      assert !AllDigits(s) by { assert !IsDigit(s[0]); }
      NatToStringValue(-n);
    } else {
      NatToStringValue(n);
    }
  }

  // ---------------------------------------------------------------------
  // String(v)

  /** `String(v)` */
  function ToJsString(v: Value): string
    decreases v, 1
  {
    match v
    case Undefined => "undefined"
    case Null => "null"
    case Bool(b) => if b then "true" else "false"
    case Num(n) => NumberToString(n)
    case NaN => "NaN"
    case Str(s) => s
    case Arr(items) => JoinItems(items)
  }

  /** `items.join(',')`: null and undefined elements print as empty. */
  function JoinItems(items: seq<Value>): string
    decreases items, 0
  {
    if items == [] then ""
    else
      var head := if items[0].Undefined? || items[0].Null? then "" else ToJsString(items[0]);
      if |items| == 1 then head else head + "," + JoinItems(items[1..])
  }

  // ---------------------------------------------------------------------
  // s.split(' ')

  /**
   * `s.split(' ')`: the pieces between single spaces, so two adjacent spaces
   * give an empty piece and the empty string gives one empty piece.
   */
  function Split(s: string): (r: seq<string>)
    ensures |r| >= 1
    ensures forall i :: 0 <= i < |r| ==> ' ' !in r[i]
  {
    if s == [] then [""]
    else if s[0] == ' ' then [""] + Split(s[1..])
    else
      var rest := Split(s[1..]);
      [[s[0]] + rest[0]] + rest[1..]
  }

  /** `pieces.join(' ')` */
  function Join(pieces: seq<string>): string
    requires |pieces| >= 1
  {
    if |pieces| == 1 then pieces[0] else pieces[0] + " " + Join(pieces[1..])
  }

  /** Joining the pieces of a split gives the string back. */
  lemma {:induction false} JoinSplit(s: string)
    ensures Join(Split(s)) == s
  {
    if s == [] {
    } else if s[0] == ' ' {
      JoinSplit(s[1..]);
      assert Split(s)[1..] == Split(s[1..]);
    } else {
      JoinSplit(s[1..]);
      var rest := Split(s[1..]);
      if |rest| == 1 {
      } else {
        assert Split(s)[1..] == rest[1..];
        assert Join(Split(s)) == [s[0]] + rest[0] + " " + Join(rest[1..]);
        assert Join(rest) == rest[0] + " " + Join(rest[1..]);
      }
    }
  }

  /** Splitting a join of space-free pieces gives the pieces back. */
  lemma {:induction false} SplitJoin(pieces: seq<string>)
    requires |pieces| >= 1
    requires forall i :: 0 <= i < |pieces| ==> ' ' !in pieces[i]
    ensures Split(Join(pieces)) == pieces
  {
    if |pieces| == 1 {
      SplitPiece(pieces[0], []);
    } else {
      SplitJoin(pieces[1..]);
      SplitPiece(pieces[0], pieces[1..]);
    }
  }

  /** A space-free prefix glues onto the first piece of what follows it. */
  lemma {:induction false} SplitPiece(w: string, tail: seq<string>)
    requires ' ' !in w
    requires tail == [] || (|tail| >= 1 && (forall i :: 0 <= i < |tail| ==> ' ' !in tail[i]) && Split(Join(tail)) == tail)
    ensures tail == [] ==> Split(w) == [w]
    ensures tail != [] ==> Split(w + " " + Join(tail)) == [w] + tail
  {
    if w == [] {
      if tail != [] {
        assert w + " " + Join(tail) == " " + Join(tail);
        assert (" " + Join(tail))[1..] == Join(tail);
      }
    } else {
      assert w[0] != ' ' by { assert w[0] in w; }
      SplitPiece(w[1..], tail);
      if tail == [] {
        assert w == [w[0]] + w[1..];
      } else {
        var t := w + " " + Join(tail);
        assert t[0] == w[0];
        assert t[1..] == w[1..] + " " + Join(tail);
        var rest := Split(t[1..]);
        assert rest == [w[1..]] + tail;
        assert Split(t) == [[w[0]] + rest[0]] + rest[1..];
        assert [w[0]] + w[1..] == w;
        assert rest[1..] == tail;
      }
    }
  }
}
