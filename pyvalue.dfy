/**
 * The Python values that flow through the callback: task results, task
 * arguments and the variable dictionaries are plain JSON-like data. A `dict`
 * keeps its keys in insertion order (Python 3.7 and later), so it is modelled
 * as a sequence of key/value pairs with distinct keys; reassigning a key keeps
 * its position, a new key goes at the end and `del` closes the gap.
 */
module PyValue {
  import opened Wrappers

  datatype Value =
    | NoneV
    | BoolV(b: bool)
    | IntV(i: int)
    | StrV(s: string)
    | ListV(items: seq<Value>)
    | DictV(entries: seq<(string, Value)>)

  type Dict = seq<(string, Value)>

  /** `bool(v)`: `None`, `False`, `0`, `""`, `[]` and `{}` are false. */
  predicate Truthy(v: Value) {
    match v
    case NoneV => false
    case BoolV(b) => b
    case IntV(i) => i != 0
    case StrV(s) => s != ""
    case ListV(items) => items != []
    case DictV(entries) => entries != []
  }

  /** `list(d.keys())`. */
  function Keys(d: Dict): (ks: seq<string>)
    ensures |ks| == |d|
    ensures forall i :: 0 <= i < |d| ==> ks[i] == d[i].0
  {
    seq(|d|, i requires 0 <= i < |d| => d[i].0)
  }

  /** Keys are never repeated, as in every Python `dict`. */
  predicate UniqueKeys(d: Dict) {
    forall i, j :: 0 <= i < j < |d| ==> d[i].0 != d[j].0
  }

  /** The position of `k` in `d`, or -1 when `k not in d`. */
  function IndexOf(d: Dict, k: string): (i: int)
    ensures -1 <= i < |d|
    ensures i >= 0 ==> d[i].0 == k
    ensures i >= 0 ==> forall j :: 0 <= j < i ==> d[j].0 != k
    ensures i < 0 <==> forall j :: 0 <= j < |d| ==> d[j].0 != k
    decreases |d|
  {
    if |d| == 0 then -1
    else if d[0].0 == k then 0
    else
      var i := IndexOf(d[1..], k);
      if i < 0 then -1 else i + 1
  }

  /** `k in d`. */
  predicate Has(d: Dict, k: string) {
    IndexOf(d, k) >= 0
  }

  /** `d.get(k)`: `None` here for a missing key. */
  function Get(d: Dict, k: string): (r: Option<Value>)
    ensures r.Some? <==> Has(d, k)
    ensures r.Some? ==> (k, r.value) in d
  {
    var i := IndexOf(d, k);
    if i < 0 then None else Some(d[i].1)
  }

  /** `d.get(k, None)` as a Python value. */
  function GetOrNone(d: Dict, k: string): Value {
    match Get(d, k)
    case Some(v) => v
    case None => NoneV
  }

  /** `d[k] = v`. */
  function Set(d: Dict, k: string, v: Value): (r: Dict)
    ensures UniqueKeys(d) ==> UniqueKeys(r)
    ensures Get(r, k) == Some(v)
    ensures forall k' :: k' != k ==> Get(r, k') == Get(d, k')
    ensures Keys(r) == if Has(d, k) then Keys(d) else Keys(d) + [k]
  {
    var i := IndexOf(d, k);
    if i < 0 then
      var r := d + [(k, v)];
      assert forall k' :: k' != k ==> IndexOf(r, k') == IndexOf(d, k') by {
        forall k' | k' != k ensures IndexOf(r, k') == IndexOf(d, k') {
          IndexOfAppend(d, (k, v), k');
        }
      }
      IndexOfAppend(d, (k, v), k);
      r
    else
      var r := d[i := (k, v)];
      assert forall k' :: k' != k ==> IndexOf(r, k') == IndexOf(d, k') by {
        forall k' | k' != k ensures IndexOf(r, k') == IndexOf(d, k') {
          IndexOfUpdate(d, i, (k, v), k');
        }
      }
      IndexOfUpdate(d, i, (k, v), k);
      r
  }

  /** `del d[k]` for a key that may be absent (absent: nothing happens). */
  function Del(d: Dict, k: string): (r: Dict)
    requires UniqueKeys(d)
    ensures UniqueKeys(r)
    ensures !Has(r, k)
    ensures forall k' :: k' != k ==> Get(r, k') == Get(d, k')
    ensures |r| == if Has(d, k) then |d| - 1 else |d|
  {
    var i := IndexOf(d, k);
    if i < 0 then d
    else
      var r := d[..i] + d[i + 1..];
      DelAt(d, i);
      r
  }

  /** Closing the gap at position `i` keeps every other key and its value. */
  lemma DelAt(d: Dict, i: int)
    requires UniqueKeys(d) && 0 <= i < |d|
    ensures var r := d[..i] + d[i + 1..];
      && UniqueKeys(r) && !Has(r, d[i].0)
      && forall k' :: k' != d[i].0 ==> Get(r, k') == Get(d, k')
  {
    var k := d[i].0;
    var r := d[..i] + d[i + 1..];
    assert forall j :: 0 <= j < |r| ==> r[j] == if j < i then d[j] else d[j + 1];
    forall k' | k' != k ensures Get(r, k') == Get(d, k') {
      var a := IndexOf(d, k');
      var b := IndexOf(r, k');
      if a < 0 {
        assert forall j :: 0 <= j < |r| ==> r[j].0 != k';
      } else {
        var a' := if a < i then a else a - 1;
        assert a != i && r[a'] == d[a];
        assert forall j :: 0 <= j < a' ==> r[j].0 != k';
        assert b == a';
      }
    }
  }

  lemma {:induction false} IndexOfAppend(d: Dict, e: (string, Value), k: string)
    ensures IndexOf(d + [e], k) == if IndexOf(d, k) >= 0 then IndexOf(d, k) else if e.0 == k then |d| else -1
    decreases |d|
  {
    if |d| > 0 && d[0].0 != k {
      assert (d + [e])[1..] == d[1..] + [e];
      IndexOfAppend(d[1..], e, k);
    }
  }

  lemma IndexOfUpdate(d: Dict, i: int, e: (string, Value), k: string)
    requires 0 <= i < |d| && d[i].0 == e.0
    ensures IndexOf(d[i := e], k) == IndexOf(d, k)
  {
    var r := d[i := e];
    assert forall j :: 0 <= j < |d| ==> r[j].0 == d[j].0;
    var a := IndexOf(d, k);
    var b := IndexOf(r, k);
    if a >= 0 && b >= 0 {
      assert !(a < b) && !(b < a);
    }
  }
}
