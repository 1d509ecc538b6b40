/** The JavaScript values an options record can hold, with the three
    dynamic operations the middleware applies to them: `typeof v ===
    'object'`, truthiness (`if (v)`, `!v`) and template-literal
    stringification (`${v}`). */
module JsValues {
  import opened JsStrings

  /** A JavaScript value. Numbers are the integral ones; an object is its
      own enumerable properties. */
  datatype Value =
    | Undefined
    | Null
    | Bool(b: bool)
    | Num(n: int)
    | Str(s: string)
    | Arr(elems: seq<Value>)
    | Obj(props: map<string, Value>)

  /** `typeof v === 'object'`: true of `null`, arrays and plain objects. */
  predicate IsObjectType(v: Value)
  {
    v.Null? || v.Arr? || v.Obj?
  }

  /** JavaScript truthiness: `undefined`, `null`, `false`, `0` and `''`
      are the falsy values; every array and object is truthy, even an
      empty one. */
  predicate Truthy(v: Value)
  {
    match v
    case Undefined => false
    case Null => false
    case Bool(b) => b
    case Num(n) => n != 0
    case Str(s) => s != ""
    case Arr(_) => true
    case Obj(_) => true
  }

  /** `v[key]` for a value that is not `null` or `undefined` (reading a
      property of those throws; callers rule them out first). Only plain
      objects carry the named properties the middleware reads. */
  function Prop(v: Value, key: string): Value
  {
    if v.Obj? && key in v.props then v.props[key] else Undefined
  }

  /** One decimal digit. */
  function DigitChar(d: nat): char
    requires d < 10
  {
    (d + '0' as int) as char
  }

  /** A string of decimal digits. */
  predicate IsNumeral(s: string)
  {
    forall i :: 0 <= i < |s| ==> '0' <= s[i] <= '9'
  }

  /** The number a string of decimal digits denotes, read most
      significant digit first. */
  function NumeralValue(s: string): nat
    requires IsNumeral(s)
  {
    if s == [] then 0
    else NumeralValue(s[..|s| - 1]) * 10 + (s[|s| - 1] as int - '0' as int)
  }

  /** The decimal numeral of a natural number, most significant digit
      first, without leading zeros. */
  function NatDigits(n: nat): (r: string)
    ensures |r| >= 1 && IsNumeral(r)
    ensures NumeralValue(r) == n
    ensures |r| > 1 ==> r[0] != '0'
  {
    if n < 10 then [DigitChar(n)]
    else
      var front := NatDigits(n / 10);
      var r := front + [DigitChar(n % 10)];
      assert r[..|r| - 1] == front;
      r
  }

  /** `String(n)` for an integral number of magnitude below 2^53 (the
      integers JavaScript holds exactly and prints digit for digit); the
      model applies the same digits to every integer. */
  function NumberString(n: int): (r: string)
    ensures |r| >= 1
    ensures n < 0 <==> r[0] == '-'
    ensures n < 0 ==> IsNumeral(r[1..]) && NumeralValue(r[1..]) == -n
    ensures n >= 0 ==> IsNumeral(r) && NumeralValue(r) == n
    ensures n >= 0 && |r| > 1 ==> r[0] != '0'
    ensures n < 0 ==> |r| >= 2 && r[1] != '0'
  {
    if n < 0 then
      var digits := NatDigits(-n);
      assert digits[0] != '0' by {
        if |digits| == 1 { assert NumeralValue(digits) == digits[0] as int - '0' as int; }
      }
      "-" + digits
    else NatDigits(n)
  }

  /** `${v}`: strings stand for themselves, an array is its elements
      stringified and joined with ',' (with `null` and `undefined`
      elements left empty), and a plain object is "[object Object]". */
  function ToString(v: Value): (r: string)
    ensures v.Str? ==> r == v.s
    decreases v, 1
  {
    match v
    case Undefined => "undefined"
    case Null => "null"
    case Bool(b) => if b then "true" else "false"
    case Num(n) => NumberString(n)
    case Str(s) => s
    case Arr(elems) => ElementsString(v, 0)
    case Obj(_) => "[object Object]"
  }

  /** The elements of array `a` from index `i` on, stringified as
      `Array.prototype.join` does and separated by ','. */
  function ElementsString(a: Value, i: nat): string
    requires a.Arr? && i <= |a.elems|
    decreases a, 0, |a.elems| - i
  {
    if i == |a.elems| then ""
    else
      var e := a.elems[i];
      var piece := ElementPiece(e);
      if i + 1 == |a.elems| then piece else piece + "," + ElementsString(a, i + 1)
  }

  /** How `Array.prototype.join` shows one element: `null` and `undefined`
      as nothing, anything else as its string form. */
  function ElementPiece(e: Value): string
    decreases e, 2
  {
    if e.Null? || e.Undefined? then "" else ToString(e)
  }

  /** The pieces of a list of elements, in order. */
  function Pieces(es: seq<Value>): seq<string>
  {
    seq(|es|, i requires 0 <= i < |es| => ElementPiece(es[i]))
  }

  /** `${a}` for an array `a` is `a.join(',')`: its elements' pieces with a
      ',' between neighbours. */
  lemma ArrayStringJoin(es: seq<Value>)
    ensures ToString(Arr(es)) == Join(Pieces(es), ",")
  {
    ElementsStringJoin(Arr(es), 0);
    assert Pieces(es)[0..] == Pieces(es);
  }

  /** The elements from index `i` on stringify as their pieces joined by
      ','. */
  lemma {:induction false} ElementsStringJoin(a: Value, i: nat)
    requires a.Arr? && i <= |a.elems|
    ensures ElementsString(a, i) == Join(Pieces(a.elems)[i..], ",")
    decreases |a.elems| - i
  {
    if i + 1 < |a.elems| {
      ElementsStringJoin(a, i + 1);
      assert Pieces(a.elems)[i..][1..] == Pieces(a.elems)[i + 1..];
    }
  }
}
