/** The watcher's stock history: a JSON object, kept in insertion order like a
    Python dict, mapping a product identity to whatever value was stored for
    it. Values written by the current code are records with a name, a url, a
    sold-out flag and a timestamp; older files may hold bare booleans or any
    other JSON value. */
module StockHistory {
  import opened Wrappers

  /** A stored history value.
      - `Record`: a JSON object; each field is `None` when the key is absent.
        `soldOut` holds the truthiness of the `is_sold_out` value, which is
        all the code ever uses of it.
      - `Flag`: a bare boolean, the legacy file format.
      - `Other`: any other JSON value (string, number, list, null). */
  datatype Value =
    | Record(name: Option<string>, url: Option<string>, soldOut: Option<bool>, updatedAt: Option<string>)
    | Flag(flag: bool)
    | Other

  /** A value recording the product in stock: a record whose `is_sold_out`
      is present and false. A missing flag, a bare boolean or any other value
      counts as sold out. */
  predicate InStockValue(v: Value)
  {
    v.Record? && v.soldOut == Some(false)
  }

  type Entry = (string, Value)

  /** Entries in insertion order. */
  type History = seq<Entry>

  /** No key occurs twice, as in any Python dict. */
  predicate Wf(h: History)
  {
    forall i, j :: 0 <= i < j < |h| ==> h[i].0 != h[j].0
  }

  /** The keys, in insertion order. */
  function Keys(h: History): (ks: seq<string>)
    ensures |ks| == |h|
    ensures forall i :: 0 <= i < |h| ==> ks[i] == h[i].0
  {
    seq(|h|, i requires 0 <= i < |h| => h[i].0)
  }

  /** The dictionary view of a history, forgetting the order. When a key occurs
      twice the first occurrence is the one seen, as with `Get`. */
  function ToMap(h: History): map<string, Value>
  {
    if |h| == 0 then map[] else ToMap(h[1..])[h[0].0 := h[0].1]
  }

  /** The dictionary view has exactly the keys of the history. */
  lemma {:induction false} ToMapKeys(h: History, k: string)
    ensures k in ToMap(h) <==> k in Keys(h)
  {
    if |h| > 0 {
      ToMapKeys(h[1..], k);
      assert Keys(h) == [h[0].0] + Keys(h[1..]);
    }
  }

  /** Without repeated keys, the dictionary view holds every entry. */
  lemma {:induction false} ToMapEntries(h: History, i: nat)
    requires Wf(h) && i < |h|
    ensures h[i].0 in ToMap(h) && ToMap(h)[h[i].0] == h[i].1
  {
    if i > 0 {
      assert Wf(h[1..]);
      ToMapEntries(h[1..], i - 1);
    }
  }

  /** Every entry of the dictionary view is an entry of the history. */
  lemma {:induction false} ToMapEntryIn(h: History, k: string)
    requires k in ToMap(h)
    ensures (k, ToMap(h)[k]) in h
  {
    if h[0].0 != k {
      ToMapEntryIn(h[1..], k);
    }
  }

  /** `dict.get(key)`: the value at the first occurrence of `k`. */
  function Get(h: History, k: string): (r: Option<Value>)
    ensures r.Some? <==> k in ToMap(h)
    ensures r.Some? ==> r.value == ToMap(h)[k]
  {
    if |h| == 0 then None
    else if h[0].0 == k then Some(h[0].1)
    else Get(h[1..], k)
  }

  /** `d[k] = v`: an existing key keeps its position and gets the new value, a
      new key is appended at the end. */
  function Put(h: History, k: string, v: Value): (r: History)
    ensures ToMap(r) == ToMap(h)[k := v]
    ensures k in Keys(h) ==> Keys(r) == Keys(h)
    ensures k !in Keys(h) ==> Keys(r) == Keys(h) + [k]
  {
    if |h| == 0 then [(k, v)]
    else if h[0].0 == k then
      var r := [(k, v)] + h[1..];
      PutFrontStep(h, k, v);
      r
    else
      var tail := Put(h[1..], k, v);
      PutConsStep(h, k, v, tail);
      [h[0]] + tail
  }

  /** `Put` when the first key is the one written. */
  lemma PutFrontStep(h: History, k: string, v: Value)
    requires |h| > 0 && h[0].0 == k
    ensures ToMap([(k, v)] + h[1..]) == ToMap(h)[k := v]
    ensures Keys([(k, v)] + h[1..]) == Keys(h)
    ensures k in Keys(h)
  {
    ToMapCons((k, v), h[1..]);
    assert ToMap(h) == ToMap(h[1..])[k := h[0].1];
    UpdateTwice(ToMap(h[1..]), k, h[0].1, v);
    KeysCons((k, v), h[1..]);
    KeysTail(h);
  }

  /** A second write to a key replaces the first. */
  lemma UpdateTwice(m: map<string, Value>, k: string, v: Value, v': Value)
    ensures m[k := v][k := v'] == m[k := v']
  {
  }

  /** `Put` when the first key is another one: the write happens in the
      tail. */
  lemma PutConsStep(h: History, k: string, v: Value, tail: History)
    requires |h| > 0 && h[0].0 != k
    requires ToMap(tail) == ToMap(h[1..])[k := v]
    requires k in Keys(h[1..]) ==> Keys(tail) == Keys(h[1..])
    requires k !in Keys(h[1..]) ==> Keys(tail) == Keys(h[1..]) + [k]
    ensures ToMap([h[0]] + tail) == ToMap(h)[k := v]
    ensures k in Keys(h) ==> Keys([h[0]] + tail) == Keys(h)
    ensures k !in Keys(h) ==> Keys([h[0]] + tail) == Keys(h) + [k]
  {
    ToMapCons(h[0], tail);
    UpdateCommutes(ToMap(h[1..]), k, v, h[0].0, h[0].1);
    KeysCons(h[0], tail);
    KeysTail(h);
    assert [h[0].0] + (Keys(h[1..]) + [k]) == [h[0].0] + Keys(h[1..]) + [k];
  }

  lemma ToMapCons(e: Entry, t: History)
    ensures ToMap([e] + t) == ToMap(t)[e.0 := e.1]
  {
    assert ([e] + t)[1..] == t;
  }

  lemma KeysCons(e: Entry, t: History)
    ensures Keys([e] + t) == [e.0] + Keys(t)
  {
  }

  lemma KeysTail(h: History)
    requires |h| > 0
    ensures Keys(h) == [h[0].0] + Keys(h[1..])
  {
  }

  /** Writes to two different keys commute. */
  lemma UpdateCommutes(m: map<string, Value>, k: string, v: Value, k': string, v': Value)
    requires k != k'
    ensures m[k := v][k' := v'] == m[k' := v'][k := v]
  {
  }

  /** Writing a key never creates a duplicate key. */
  lemma PutKeepsWf(h: History, k: string, v: Value)
    requires Wf(h)
    ensures Wf(Put(h, k, v))
  {
  }
}
