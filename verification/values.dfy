/**
 * The values stored in entity fields, in the JSON `data` and `context`
 * columns and in request parameters, with the two PHP tests the engine
 * relies on: `isset` (present and not null) and `empty`.
 */
module Values {

  datatype Value =
    | Null
    | Flag(b: bool)
    | Num(n: int)
    | Str(s: string)
    | List(items: seq<Value>)
    | Dict(entries: map<string, Value>)

  /** `isset($m[$k])`: the key is present and its value is not null. */
  predicate IsSet(m: map<string, Value>, k: string)
  {
    k in m && m[k] != Null
  }

  /** `$m[$k]` or `$entity->k`: the stored value, null when the key is absent. */
  function Get(m: map<string, Value>, k: string): (v: Value)
    ensures k in m ==> v == m[k]
    ensures k !in m ==> v == Null
    ensures v != Null <==> IsSet(m, k)
  {
    if k in m then m[k] else Null
  }

  /** PHP `empty($v)`: null, false, 0, "", "0" and the empty array. */
  predicate IsEmpty(v: Value)
  {
    match v
    case Null => true
    case Flag(b) => !b
    case Num(n) => n == 0
    case Str(s) => s == "" || s == "0"
    case List(items) => items == []
    case Dict(entries) => entries == map[]
  }

  /** Decimal digits of a natural number. */
  function Digits(n: nat): (s: string)
    ensures |s| >= 1
    ensures forall i :: 0 <= i < |s| ==> '0' <= s[i] <= '9'
    decreases n
  {
    var d := [('0' as int + n % 10) as char];
    if n < 10 then d else Digits(n / 10) + d
  }

  /**
   * The string a value becomes when it is substituted into a text template:
   * null and false give "", true gives "1", arrays give "".
   */
  function Text(v: Value): (t: string)
    ensures v.Str? ==> t == v.s
    ensures v.Null? || v.List? || v.Dict? ==> t == ""
    ensures v.Flag? ==> (t == "" <==> !v.b) && (v.b ==> t == "1")
    ensures v.Num? ==> |t| >= 1 && (t[0] == '-' <==> v.n < 0)
    ensures v.Num? ==> forall i :: (if v.n < 0 then 1 else 0) <= i < |t| ==> '0' <= t[i] <= '9'
  {
    match v
    case Null => ""
    case Flag(b) => if b then "1" else ""
    case Num(n) => if n < 0 then "-" + Digits(-n) else Digits(n)
    case Str(s) => s
    case List(_) => ""
    case Dict(_) => ""
  }

  /** `strtolower`: ASCII upper-case letters become lower case, all else is kept. */
  function Lower(s: string): (r: string)
    ensures |r| == |s|
    ensures forall i :: 0 <= i < |s| ==>
      if 'A' <= s[i] <= 'Z' then r[i] == (s[i] as int + 32) as char else r[i] == s[i]
  {
    if s == [] then []
    else
      var c := s[0];
      [if 'A' <= c <= 'Z' then (c as int + 32) as char else c] + Lower(s[1..])
  }
}
