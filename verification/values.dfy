/**
  Values that flow through the obstacle-record transformations: DataFrame
  cells, Python dicts that keep their insertion order, and an optional value.
 */
module Values {

  datatype Option<+T> = None | Some(value: T)

  /** A cell of a DataFrame or a value of an obstacle dict: text, a float,
      an int, or `Missing` (Python's None, a cell the reader left empty). */
  datatype Value = Text(s: string) | Num(r: real) | Int(i: int) | Missing

  /** Python truthiness: `not value` holds of "", 0.0, 0 and None. */
  predicate Falsy(v: Value) {
    match v
    case Text(s) => s == []
    case Num(r) => r == 0.0
    case Int(i) => i == 0
    case Missing => true
  }

  /** Exactly four values are falsy; in particular every non-empty text,
      even "0" or " ", is truthy. */
  lemma FalsyExactly(v: Value)
    ensures Falsy(v) <==> v in {Text(""), Num(0.0), Int(0), Missing}
    ensures v.Text? && |v.s| > 0 ==> !Falsy(v)
  {
  }

  /** One DataFrame row, column label to cell. */
  type Row = map<string, Value>

  /** A DataFrame, as its rows in order. */
  type Frame = seq<Row>

  predicate DistinctKeys<V>(entries: seq<(string, V)>) {
    forall i, j :: 0 <= i < j < |entries| ==> entries[i].0 != entries[j].0
  }

  /** A Python dict: entries in insertion order, no key twice. */
  type Dict<V> = entries: seq<(string, V)> | DistinctKeys(entries) witness []

  /** The keys of a dict, in iteration order (`list(d.keys())`). */
  function DictKeys<V>(d: seq<(string, V)>): (ks: seq<string>)
    ensures |ks| == |d|
    ensures forall i :: 0 <= i < |d| ==> ks[i] == d[i].0
  {
    seq(|d|, i requires 0 <= i < |d| => d[i].0)
  }

  /** The values of a dict, in iteration order (`list(d.values())`). */
  function DictValues<V>(d: seq<(string, V)>): (vs: seq<V>)
    ensures |vs| == |d|
    ensures forall i :: 0 <= i < |d| ==> vs[i] == d[i].1
  {
    seq(|d|, i requires 0 <= i < |d| => d[i].1)
  }

  /** The dict `d` with its values replaced, in order, by `vs`: what
      assigning to existing keys while iterating over them leaves. */
  function WithValues<V>(d: Dict<V>, vs: seq<V>): (r: Dict<V>)
    requires |vs| == |d|
    ensures |r| == |d|
    ensures forall i :: 0 <= i < |d| ==> r[i] == (d[i].0, vs[i])
  {
    var r := seq(|d|, i requires 0 <= i < |d| => (d[i].0, vs[i]));
    assert forall i :: 0 <= i < |d| ==> r[i].0 == d[i].0;
    r
  }

  /** `d.get(key)`: the value bound to `key`, if any. */
  function Get<V>(d: Dict<V>, key: string): (r: Option<V>)
    ensures r.None? <==> key !in DictKeys(d)
    ensures r.Some? ==> exists i :: 0 <= i < |d| && d[i] == (key, r.value)
  {
    if |d| == 0 then None
    else if d[0].0 == key then Some(d[0].1)
    else
      assert DictKeys(d) == [d[0].0] + DictKeys(d[1..]);
      Get(d[1..], key)
  }

  /** In a dict, the entry at the position of `key` is the one `Get` finds. */
  lemma GetAt<V>(d: Dict<V>, i: int)
    requires 0 <= i < |d|
    ensures Get(d, d[i].0) == Some(d[i].1)
  {
    var r := Get(d, d[i].0);
    assert d[i].0 in DictKeys(d);
    var j :| 0 <= j < |d| && d[j] == (d[i].0, r.value);
  }
}
