/** JavaScript values as the frontend code sees them: numbers, values decoded from JSON,
    truthiness, property reads, String(v), and the Error objects it throws. */
module JsValues {
  import opened Wrappers
  import JsText

  /** A JavaScript number. `Frac(f)` is a finite number that is not an integer and lies strictly
      between `f` and `f + 1`; that is all a comparison with an integer, or the ceiling of a
      division by a positive integer, can observe of it. */
  datatype JsNumber = NaN | Int(value: int) | Frac(floor: int)

  /** Number.isInteger. */
  predicate IsInteger(x: JsNumber) {
    x.Int?
  }

  /** `x < k` for an integer `k` (false for NaN). */
  predicate LessThan(x: JsNumber, k: int) {
    match x
    case NaN => false
    case Int(v) => v < k
    case Frac(f) => f < k
  }

  /** `x <= k` for an integer `k` (false for NaN). */
  predicate AtMost(x: JsNumber, k: int) {
    match x
    case NaN => false
    case Int(v) => v <= k
    case Frac(f) => f + 1 <= k
  }

  /** `x >= k` for an integer `k` (false for NaN). */
  predicate AtLeast(x: JsNumber, k: int) {
    match x
    case NaN => false
    case Int(v) => v >= k
    case Frac(f) => f >= k
  }

  /** Math.ceil(n / d) for an integer n and a positive integer d: the least q with q * d >= n. */
  function CeilDiv(n: int, d: int): (q: int)
    requires d >= 1
    ensures (q - 1) * d < n <= q * d
  {
    var q := (n + d - 1) / d;
    var rem := (n + d - 1) % d;
    assert n + d - 1 == q * d + rem;
    assert (q - 1) * d == q * d - d;
    q
  }

  /** Math.ceil(x / d) for a number x that is not NaN and a positive integer d. A non-integer x
      between f and f + 1 needs q * d > f, so its ceiling divided by d is that of f + 1. */
  function CeilDivNumber(x: JsNumber, d: int): (q: int)
    requires !x.NaN? && d >= 1
    ensures x.Int? ==> (q - 1) * d < x.value <= q * d
    ensures x.Frac? ==> (q - 1) * d <= x.floor < q * d
  {
    match x
    case Int(v) => CeilDiv(v, d)
    case Frac(f) => CeilDiv(f + 1, d)
  }

  /** A value produced by JSON.parse. Numbers are integers here: a JSON number with a fraction
      or an exponent is not part of this model. */
  datatype JsonValue =
    | JNull
    | JBool(b: bool)
    | JNum(n: int)
    | JStr(s: string)
    | JArr(items: seq<JsonValue>)
    | JObj(members: seq<(string, JsonValue)>)

  /** The value of member `key` among `members`: JSON.parse keeps the last of duplicate names. */
  function Lookup(members: seq<(string, JsonValue)>, key: string): Option<JsonValue> {
    if members == [] then None
    else if members[|members| - 1].0 == key then Some(members[|members| - 1].1)
    else Lookup(members[..|members| - 1], key)
  }

  /** Lookup finds nothing exactly when no member has the name, and otherwise the value of the
      last member that has it. */
  lemma {:induction false} LookupFindsLast(members: seq<(string, JsonValue)>, key: string)
    ensures Lookup(members, key).None? <==> forall i :: 0 <= i < |members| ==> members[i].0 != key
    ensures Lookup(members, key).Some? ==> exists i :: (0 <= i < |members| && members[i] == (key, Lookup(members, key).value) &&
      forall j :: i < j < |members| ==> members[j].0 != key)
  {
    if members != [] {
      var n := |members| - 1;
      if members[n].0 == key {
        assert members[n] == (key, members[n].1);
      } else {
        var front := members[..n];
        LookupFindsLast(front, key);
        assert forall i :: 0 <= i < n ==> front[i] == members[i];
      }
    }
  }

  /** The one member of a one-member object. */
  lemma LookupOfSingle(k: string, v: JsonValue, key: string)
    ensures Lookup([(k, v)], key) == if k == key then Some(v) else None
  {
    assert [(k, v)][..0] == [];
  }

  /** The two members of a two-member object with distinct names. */
  lemma LookupOfPair(k1: string, v1: JsonValue, k2: string, v2: JsonValue)
    requires k1 != k2
    ensures Lookup([(k1, v1), (k2, v2)], k1) == Some(v1)
    ensures Lookup([(k1, v1), (k2, v2)], k2) == Some(v2)
  {
    var ms := [(k1, v1), (k2, v2)];
    assert ms[..1] == [(k1, v1)];
    assert [(k1, v1)][..0] == [];
  }

  /** `v.key` for a value that is not null (reading a property of null throws a TypeError,
      which callers handle): an object's own member, and undefined (None) for
      every other value, since no key the core reads is a property of strings, numbers,
      booleans or arrays. */
  function Get(v: JsonValue, key: string): (r: Option<JsonValue>)
    ensures !v.JObj? ==> r.None?
  {
    match v
    case JObj(ms) => Lookup(ms, key)
    case _ => None
  }

  /** `v?.key`: undefined when `v` is null. */
  function GetOptional(v: JsonValue, key: string): Option<JsonValue> {
    if v.JNull? then None else Get(v, key)
  }

  /** JavaScript truthiness of a possibly undefined (None) value. */
  predicate Truthy(v: Option<JsonValue>) {
    match v
    case None => false
    case Some(JNull) => false
    case Some(JBool(b)) => b
    case Some(JNum(n)) => n != 0
    case Some(JStr(s)) => s != ""
    case Some(JArr(_)) => true
    case Some(JObj(_)) => true
  }

  /** `a || b`. */
  function Or(a: Option<JsonValue>, b: Option<JsonValue>): (r: Option<JsonValue>)
    ensures Truthy(r) <==> Truthy(a) || Truthy(b)
    ensures Truthy(a) ==> r == a
    ensures !Truthy(a) ==> r == b
  {
    if Truthy(a) then a else b
  }

  /** String(v): the text `new Error(v)` takes as its message. */
  function ToJsString(v: JsonValue): (r: string)
    ensures v.JStr? ==> r == v.s
    ensures v.JNull? ==> r == "null"
    ensures v.JBool? ==> r == (if v.b then "true" else "false")
    decreases v
  {
    match v
    case JNull => "null"
    case JBool(b) => if b then "true" else "false"
    case JNum(n) => JsText.IntToString(n)
    case JStr(s) => s
    case JArr(items) => JoinValues(v, items, ",")
    case JObj(_) => "[object Object]"
  }

  /** Array.prototype.join(sep) over `items`, the elements of `parent`: null elements give the
      empty string, every other element its String(v). */
  function JoinValues(parent: JsonValue, items: seq<JsonValue>, sep: string): string
    requires forall x :: x in items ==> x < parent
    decreases parent, |items|
  {
    if items == [] then ""
    else
      var last := items[|items| - 1];
      assert last in items;
      var text := if last.JNull? then "" else ToJsString(last);
      var front := items[..|items| - 1];
      assert forall x :: x in front ==> x in items;
      if front == [] then text else JoinValues(parent, front, sep) + sep + text
  }

  /** The texts of a sequence of strings. */
  function Texts(items: seq<JsonValue>): (texts: seq<string>)
    requires forall i :: 0 <= i < |items| ==> items[i].JStr?
    ensures |texts| == |items| && forall i :: 0 <= i < |items| ==> texts[i] == items[i].s
  {
    seq(|items|, i requires 0 <= i < |items| => items[i].s)
  }

  /** Over strings, join is Array.prototype.join of their texts. */
  lemma {:induction false} JoinValuesOfStrings(parent: JsonValue, items: seq<JsonValue>, sep: string)
    requires forall x :: x in items ==> x < parent
    requires forall i :: 0 <= i < |items| ==> items[i].JStr?
    ensures JoinValues(parent, items, sep) == JsText.Join(Texts(items), sep)
    decreases |items|
  {
    if items != [] {
      var front := items[..|items| - 1];
      assert forall x :: x in front ==> x in items;
      JoinValuesOfStrings(parent, front, sep);
      assert Texts(front) == Texts(items)[..|items| - 1];
    }
  }

  /** An Error object the frontend throws: `new Error(message)`, with a `statusCode` property
      when one was attached; or an error raised by the engine itself (a property read on null,
      or JSON.parse of text that is not JSON), whose message the model does not fix. */
  datatype JsError =
    | Error(message: string, statusCode: Option<JsonValue>)
    | TypeError
    | SyntaxError
}
