/** Decoded JSON values as the Python code sees them: `None`, `bool`, `int`,
    `str`, `list` and `dict`, with Python's truthiness, `dict.get`, `a or b`
    chains and `str()`. */
module Json {
  import Text

  /** A decoded JSON document. An object is its list of entries in key
      order. Duplicate keys are not excluded: `Get` then answers with the
      first entry, whereas Python's `json` keeps the last; for an object
      with `DistinctKeys` the two agree (`GetDistinct`). */
  datatype Value =
    | Null
    | Bool(b: bool)
    | Int(i: int)
    | Str(s: string)
    | List(items: seq<Value>)
    | Object(entries: seq<Entry>)

  datatype Entry = Entry(key: string, value: Value)

  /** Python truthiness: `None`, `False`, `0`, `""`, `[]` and `{}` are false. */
  predicate Truthy(v: Value) {
    match v
    case Null => false
    case Bool(b) => b
    case Int(i) => i != 0
    case Str(s) => s != []
    case List(xs) => xs != []
    case Object(es) => es != []
  }

  /** `d.get(key)`: the value of the first entry with that key, `None` when
      there is none. */
  function Get(d: seq<Entry>, key: string): Value {
    if d == [] then Null
    else if d[0].key == key then d[0].value
    else Get(d[1..], key)
  }

  /** `d.get(key)` is the value of the first entry with the key. */
  lemma {:induction false} GetFirst(d: seq<Entry>, key: string, i: int)
    requires 0 <= i < |d| && d[i].key == key && forall j :: 0 <= j < i ==> d[j].key != key
    ensures Get(d, key) == d[i].value
  {
    if i > 0 {
      var rest := d[1..];
      assert rest[i - 1] == d[i];
      assert forall j :: 0 <= j < i - 1 ==> rest[j] == d[j + 1];
      GetFirst(rest, key, i - 1);
    }
  }

  /** Each key occurs at most once, as in a decoded `dict`. */
  predicate DistinctKeys(d: seq<Entry>) {
    forall i, j :: 0 <= i < j < |d| ==> d[i].key != d[j].key
  }

  /** With distinct keys, `d.get(key)` is the value of the one entry with
      that key, whichever entry a decoder would have kept. */
  lemma GetDistinct(d: seq<Entry>, key: string, i: int)
    requires DistinctKeys(d) && 0 <= i < |d| && d[i].key == key
    ensures Get(d, key) == d[i].value
  {
    GetFirst(d, key, i);
  }

  /** `d.get(k)` is `None` for every key k that no entry of d has. */
  lemma {:induction false} GetAbsent(d: seq<Entry>, keys: seq<string>)
    requires forall i, j :: 0 <= i < |d| && 0 <= j < |keys| ==> d[i].key != keys[j]
    ensures forall j :: 0 <= j < |keys| ==> Get(d, keys[j]) == Null
  {
    if d != [] {
      assert forall i :: 1 <= i < |d| ==> d[1..][i - 1] == d[i];
      GetAbsent(d[1..], keys);
    }
  }

  /** `d.get(k1), d.get(k2), ...` */
  function GetEach(d: seq<Entry>, keys: seq<string>): (r: seq<Value>)
    ensures |r| == |keys| && forall i :: 0 <= i < |keys| ==> r[i] == Get(d, keys[i])
  {
    seq(|keys|, i requires 0 <= i < |keys| => Get(d, keys[i]))
  }

  /** `v1 or v2 or ... or vn`: the first truthy operand, or the last operand
      when none is truthy. */
  function Or(vs: seq<Value>): (r: Value)
    requires vs != []
    ensures Truthy(r) <==> exists i :: 0 <= i < |vs| && Truthy(vs[i])
    ensures forall i :: 0 <= i < |vs| && Truthy(vs[i]) && (forall j :: 0 <= j < i ==> !Truthy(vs[j])) ==> r == vs[i]
    ensures (forall i :: 0 <= i < |vs| ==> !Truthy(vs[i])) ==> r == vs[|vs| - 1]
  {
    if |vs| == 1 || Truthy(vs[0]) then vs[0]
    else
      var r := Or(vs[1..]);
      assert forall i :: 1 <= i < |vs| ==> vs[i] == vs[1..][i - 1];
      r
  }

  /** `v1 or ... or vn or d` with a falsy default d: falsy when every vi is,
      and otherwise the first truthy vi. */
  lemma OrWithDefault(vs: seq<Value>, d: Value)
    requires !Truthy(d)
    ensures (forall i :: 0 <= i < |vs| ==> !Truthy(vs[i])) ==> !Truthy(Or(vs + [d]))
    ensures (exists i :: 0 <= i < |vs| && Truthy(vs[i])) ==> Truthy(Or(vs + [d]))
    ensures forall i :: 0 <= i < |vs| && Truthy(vs[i]) && (forall j :: 0 <= j < i ==> !Truthy(vs[j])) ==> Or(vs + [d]) == vs[i]
  {
    var ws := vs + [d];
    assert forall i :: 0 <= i < |vs| ==> ws[i] == vs[i];
    if forall i :: 0 <= i < |vs| ==> !Truthy(vs[i]) {
      assert forall i :: 0 <= i < |ws| ==> !Truthy(ws[i]);
    }
    forall i | 0 <= i < |vs| && Truthy(vs[i]) && (forall j :: 0 <= j < i ==> !Truthy(vs[j]))
      ensures Or(ws) == vs[i]
    {
      assert Truthy(ws[i]) && forall j :: 0 <= j < i ==> !Truthy(ws[j]);
    }
  }

  /** An `or` of `None`s is `None`. */
  lemma OrOfNulls(vs: seq<Value>)
    requires vs != [] && forall i :: 0 <= i < |vs| ==> vs[i] == Null
    ensures Or(vs) == Null
  {
    assert !Truthy(vs[|vs| - 1]);
  }

  function DigitChar(d: int): char
    requires 0 <= d < 10
  {
    "0123456789"[d]
  }

  function NatToDecimal(n: nat): (r: string)
    ensures r != []
  {
    if n < 10 then [DigitChar(n)] else NatToDecimal(n / 10) + [DigitChar(n % 10)]
  }

  /** `str(i)` for an int. */
  function IntToDecimal(i: int): (r: string)
    ensures r != []
  {
    if i < 0 then "-" + NatToDecimal(-i) else NatToDecimal(i)
  }

  /** A string as it appears inside the `str()` of a list or dict. */
  function Quote(s: string): string {
    "'" + s + "'"
  }

  /** `str(v)`; the text is empty only for the empty string. */
  function AsText(v: Value): (r: string)
    ensures r == [] <==> v == Str([])
  {
    match v
    case Null => "None"
    case Bool(b) => if b then "True" else "False"
    case Int(i) => IntToDecimal(i)
    case Str(s) => s
    case List(xs) =>
      "[" + Text.Join(", ", seq(|xs|, k requires 0 <= k < |xs| => if xs[k].Str? then Quote(xs[k].s) else AsText(xs[k]))) + "]"
    case Object(es) =>
      "{" + Text.Join(", ", seq(|es|, k requires 0 <= k < |es| =>
        Quote(es[k].key) + ": " + (if es[k].value.Str? then Quote(es[k].value.s) else AsText(es[k].value)))) + "}"
  }

  /** Every truthy value has a non-empty `str()`. */
  lemma TruthyHasText(v: Value)
    requires Truthy(v)
    ensures AsText(v) != []
  {
  }
}
