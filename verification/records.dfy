/** The values a table record holds, and the three JavaScript conversions the
    table relies on: reading a missing field, `String(value)` (used when a
    query compares fields) and the digit-string-to-number coercion applied to
    an id before it is looked up. */
module Records {

  /** A field value. Numbers are restricted to integers. */
  datatype Value = Int(i: int) | Str(s: string) | Bool(b: bool) | Null | Undefined

  /** A record: its own field names and their values. A field explicitly set
      to `undefined` is present, and deep equality tells it from a missing one. */
  type Record = map<string, Value>

  /** A slot that may be `undefined`: the outcome of a lookup that can miss. */
  datatype Option<+T> = None | Some(value: T)

  const IdField: string := "id"

  /** `record[field]`: a missing field reads as `undefined`. */
  function Get(r: Record, field: string): Value {
    if field in r then r[field] else Undefined
  }

  // ---------------------------------------------------------------------------
  // Decimal numerals

  predicate IsDigit(c: char) {
    '0' <= c <= '9'
  }

  /** The test `/^\d+$/`: a non-empty string of ASCII digits. */
  predicate AllDigits(s: string) {
    |s| > 0 && forall k :: 0 <= k < |s| ==> IsDigit(s[k])
  }

  function DigitValue(c: char): nat
    requires IsDigit(c)
  {
    c as int - '0' as int
  }

  function DigitChar(d: nat): char
    requires d < 10
  {
    ('0' as int + d) as char
  }

  /** `parseInt(s, 10)` on a string of digits; leading zeros are allowed. */
  function ParseDecimal(s: string): nat
    requires forall k :: 0 <= k < |s| ==> IsDigit(s[k])
  {
    if |s| == 0 then 0 else 10 * ParseDecimal(s[..|s| - 1]) + DigitValue(s[|s| - 1])
  }

  /** The decimal numeral of a non-negative integer: only digits, and no
      leading zero unless the number is zero itself. */
  function NatToString(n: nat): (s: string)
    ensures AllDigits(s)
    ensures s[0] == '0' ==> n == 0 && |s| == 1
  {
    if n < 10 then [DigitChar(n)] else NatToString(n / 10) + [DigitChar(n % 10)]
  }

  /** Reading back the numeral of `n` gives `n`. */
  lemma {:induction false} ParseNatToString(n: nat)
    ensures ParseDecimal(NatToString(n)) == n
  {
    var s := NatToString(n);
    if n >= 10 {
      ParseNatToString(n / 10);
      assert s[..|s| - 1] == NatToString(n / 10);
    }
  }

  /** `String(n)` for an integer `n`. */
  function IntToString(n: int): (s: string)
    ensures |s| > 0
    ensures s[0] == '-' <==> n < 0
    ensures s[0] == '-' || IsDigit(s[0])
  {
    if n < 0 then "-" + NatToString(-n) else NatToString(n)
  }

  /** Different integers print differently. */
  lemma IntToStringInjective(a: int, b: int)
    requires IntToString(a) == IntToString(b)
    ensures a == b
  {
    ParseNatToString(if a < 0 then -a else a);
    ParseNatToString(if b < 0 then -b else b);
    if a < 0 {
      assert IntToString(a)[1..] == NatToString(-a);
      assert IntToString(b)[1..] == NatToString(-b);
    }
  }

  /** `String(value)`. */
  function Stringify(v: Value): string {
    match v
    case Int(n) => IntToString(n)
    case Str(s) => s
    case Bool(b) => if b then "true" else "false"
    case Null => "null"
    case Undefined => "undefined"
  }

  /** A number and a value print alike exactly when the value is that number
      or its numeral as a string: `5` and `"5"` agree, `5` and `"05"` do not. */
  lemma StringifyIntAgrees(n: int, w: Value)
    ensures Stringify(Int(n)) == Stringify(w) <==> w == Int(n) || w == Str(IntToString(n))
  {
    if Stringify(Int(n)) == Stringify(w) && w.Int? {
      IntToStringInjective(n, w.i);
    }
  }

  /** A missing field prints as "undefined", so it agrees with `undefined`
      and with the string "undefined", and with nothing else. */
  lemma StringifyUndefinedAgrees(w: Value)
    ensures Stringify(Undefined) == Stringify(w) <==> w == Undefined || w == Str("undefined")
  {
    if w.Int? {
      assert Stringify(w)[0] == '-' || IsDigit(Stringify(w)[0]);
    }
  }

  // ---------------------------------------------------------------------------
  // Id coercion

  /** The coercion applied to an id before it is looked up: a string of digits
      becomes the integer it spells, every other value stays as it is. */
  function CoerceId(id: Value): (c: Value)
    ensures c.Str? ==> !AllDigits(c.s)
    ensures c != id ==> id.Str? && AllDigits(id.s) && c.Int? && c.i >= 0
    ensures id.Str? && AllDigits(id.s) ==> c.Int?
  {
    if id.Str? && AllDigits(id.s) then Int(ParseDecimal(id.s)) else id
  }

  /** The numeral of `n`, given as a string, is coerced to `n` itself. */
  lemma CoerceNumeral(n: nat)
    ensures CoerceId(Str(NatToString(n))) == Int(n)
  {
    ParseNatToString(n);
  }

  // ---------------------------------------------------------------------------
  // Field assignment

  /** Copying every field of `attrs` onto `r` (`record[attr] = attrs[attr]`
      for each key of `attrs`, and lodash's assign). */
  function Merge(r: Record, attrs: Record): (m: Record)
    ensures m.Keys == r.Keys + attrs.Keys
    ensures forall k :: k in attrs ==> m[k] == attrs[k]
    ensures forall k :: k in r && k !in attrs ==> m[k] == r[k]
  {
    r + attrs
  }

  /** Assigning the same fields twice is assigning them once. */
  lemma MergeIdempotent(r: Record, attrs: Record)
    ensures Merge(Merge(r, attrs), attrs) == Merge(r, attrs)
  {
  }

  /** Assigning no fields leaves a record as it is. */
  lemma MergeNothing(r: Record)
    ensures Merge(r, map[]) == r
  {
  }

  /** A merge changes a record exactly when some assigned field was missing
      or held a different value. */
  lemma MergeChanges(r: Record, attrs: Record)
    ensures Merge(r, attrs) != r <==> exists k :: k in attrs && (k !in r || r[k] != attrs[k])
  {
    if forall k :: k in attrs ==> k in r && r[k] == attrs[k] {
      assert Merge(r, attrs) == r;
    }
  }

  // ---------------------------------------------------------------------------
  // Queries

  /** What `where`, `update` and `remove` accept as a query: a record of
      fields, or a predicate over records. */
  datatype Query = Fields(fields: Record) | Test(test: Record -> bool)

  /** Every key of the query agrees with the record once both sides are
      converted to strings and compared (addon/db-collection.js:220). */
  predicate MatchesFields(r: Record, fields: Record) {
    forall k :: k in fields ==> Stringify(Get(r, k)) == Stringify(fields[k])
  }

  predicate Holds(q: Query, r: Record) {
    match q
    case Fields(f) => MatchesFields(r, f)
    case Test(t) => t(r)
  }
}
