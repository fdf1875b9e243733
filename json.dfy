/** Parsed JSON as the Python code handles it after json.loads: dicts with
    .get and item assignment, truthiness, and str() of a value. */
module Json {
  import opened Wrappers
  import opened PyText
  import opened Decimals

  /** A JSON value as Python holds it. A number carries the text str()
      prints for it (an int has no fraction, a float has one); an object
      keeps its members in insertion order with distinct keys, as a dict. */
  datatype Json =
    | JNull
    | JBool(b: bool)
    | JNum(n: Decimal)
    | JStr(s: string)
    | JList(items: seq<Json>)
    | JObject(members: seq<Member>)

  datatype Member = Member(key: string, value: Json)

  /** The exception classes Python raises on the paths the engine does not catch. */
  datatype PyError = AttributeError | TypeError | KeyError

  /** dict.get(key): the value stored under `key`, if any. */
  function Get(members: seq<Member>, key: string): Option<Json> {
    if |members| == 0 then None
    else if members[0].key == key then Some(members[0].value)
    else Get(members[1..], key)
  }

  /** The lookup finds a value exactly when some member has the key, and
      the value it finds is stored under that key. */
  lemma {:induction false} GetFinds(members: seq<Member>, key: string)
    ensures Get(members, key).Some? <==> exists i :: 0 <= i < |members| && members[i].key == key
    ensures Get(members, key).Some? ==>
      exists i :: 0 <= i < |members| && members[i] == Member(key, Get(members, key).value)
  {
    if |members| > 0 && members[0].key != key {
      GetFinds(members[1..], key);
      assert forall i :: 0 < i < |members| ==> members[i] == members[1..][i - 1];
    }
  }

  /** Looking a key up in two runs of members one after the other finds it
      in the first run if it is there, and in the second otherwise. */
  lemma {:induction false} GetAppend(a: seq<Member>, b: seq<Member>, key: string)
    ensures Get(a + b, key) == if Get(a, key).Some? then Get(a, key) else Get(b, key)
  {
    if a == [] {
      assert a + b == b;
    } else {
      assert (a + b)[0] == a[0] && (a + b)[1..] == a[1..] + b;
      if a[0].key != key {
        GetAppend(a[1..], b, key);
      }
    }
  }

  /** dict.get(key, default) */
  function GetOr(members: seq<Member>, key: string, default: Json): Json {
    match Get(members, key)
    case Some(v) => v
    case None => default
  }

  /** dict[key] = value: the value under an existing key is replaced where
      it stands, a new key is appended. */
  function Set(members: seq<Member>, key: string, value: Json): seq<Member> {
    if |members| == 0 then [Member(key, value)]
    else if members[0].key == key then [Member(key, value)] + members[1..]
    else [members[0]] + Set(members[1..], key, value)
  }

  /** After dict[key] = value the key holds the value and every other key
      holds what it held before. */
  lemma {:induction false} SetThenGet(members: seq<Member>, key: string, value: Json, other: string)
    ensures Get(Set(members, key, value), key) == Some(value)
    ensures other != key ==> Get(Set(members, key, value), other) == Get(members, other)
  {
    if |members| > 0 && members[0].key != key {
      SetThenGet(members[1..], key, value, other);
      var r := Set(members, key, value);
      assert r[1..] == Set(members[1..], key, value);
    } else if |members| > 0 {
      var r := Set(members, key, value);
      assert r[1..] == members[1..];
    }
  }

  /** bool(j) */
  predicate Truthy(j: Json) {
    match j
    case JNull => false
    case JBool(b) => b
    case JNum(d) => Value(d) != 0.0
    case JStr(s) => s != []
    case JList(items) => items != []
    case JObject(members) => members != []
  }

  /** j == 0 in Python: numbers of value zero, and False (a bool is an int). */
  predicate EqualsZero(j: Json) {
    (j.JNum? && Value(j.n) == 0.0) || j == JBool(false)
  }

  /** repr() of a string, single-quoted (see README for escapes). */
  function Quote(s: string): string {
    "'" + s + "'"
  }

  /** str(j) */
  function Str(j: Json): string
    decreases j, 0
  {
    match j
    case JNull => "None"
    case JBool(b) => if b then "True" else "False"
    case JNum(d) => Text(d)
    case JStr(s) => s
    case JList(items) =>
      "[" + JoinWith(seq(|items|, i requires 0 <= i < |items| => Repr(items[i])), ", ") + "]"
    case JObject(members) =>
      "{" + JoinWith(seq(|members|, i requires 0 <= i < |members| =>
                            Quote(members[i].key) + ": " + Repr(members[i].value)), ", ") + "}"
  }

  /** repr(j): as str(j), except that strings are quoted. */
  function Repr(j: Json): string
    decreases j, 1
  {
    if j.JStr? then Quote(j.s) else Str(j)
  }

  /** What csv.writer writes for a cell: None as the empty field, anything else as str(). */
  function CsvField(j: Json): string {
    if j.JNull? then "" else Str(j)
  }

  /** A Python int as JSON. */
  function IntJson(i: int): Json {
    JNum(IntDecimal(i))
  }
}
