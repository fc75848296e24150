/**
 * Values, Python-style keyword dictionaries and table rows.
 *
 * A keyword-argument dictionary keeps its insertion order, so it is modelled
 * as a sequence of (key, value) pairs: `Get` finds a key, `Set` updates the
 * pair for an existing key in place or appends a new pair at the end, exactly
 * as `d[k] = v` does on a Python dict.
 */
module Rows {
  import opened Wrappers

  /** A value a caller can pass for a column: text, an integer, None, or a list. */
  datatype Value = Str(s: string) | Int(i: int) | Null | List(items: seq<string>)

  /** An insertion-ordered dictionary from names to values. */
  type Dict<V> = seq<(string, V)>

  /** The keyword arguments of a table operation. */
  type Kwargs = Dict<Value>

  /** A row as the read path yields it: column name to value. */
  type RowMap = map<string, Value>

  predicate Distinct<T(==)>(s: seq<T>) {
    forall i, j :: 0 <= i < j < |s| ==> s[i] != s[j]
  }

  lemma DistinctAppend<T>(s: seq<T>, x: T)
    requires Distinct(s) && x !in s
    ensures Distinct(s + [x])
  {
    assert forall i :: 0 <= i < |s| ==> (s + [x])[i] == s[i];
  }

  function Keys<V>(d: Dict<V>): seq<string> {
    seq(|d|, i requires 0 <= i < |d| => d[i].0)
  }

  /** `d.get(k)`: the value of the first pair whose key is `k`. */
  function Get<V>(d: Dict<V>, k: string): (r: Option<V>)
    ensures r.None? <==> k !in Keys(d)
  {
    if d == [] then None
    else if d[0].0 == k then
      assert Keys(d)[0] == k;
      Some(d[0].1)
    else
      assert Keys(d) == [d[0].0] + Keys(d[1..]);
      Get(d[1..], k)
  }

  /** A value `Get` finds is the value of some pair with that key. */
  lemma {:induction false} GetFound<V>(d: Dict<V>, k: string)
    requires Get(d, k).Some?
    ensures exists i :: 0 <= i < |d| && d[i] == (k, Get(d, k).value)
  {
    if d[0].0 != k {
      GetFound(d[1..], k);
      var i :| 0 <= i < |d[1..]| && d[1..][i] == (k, Get(d, k).value);
      assert d[i + 1] == d[1..][i];
    }
  }

  /** `d[k] = v`: overwrite the value of an existing key, or append a new pair. */
  function Set<V>(d: Dict<V>, k: string, v: V): (r: Dict<V>)
    ensures Get(r, k) == Some(v)
    ensures forall k' :: k' != k ==> Get(r, k') == Get(d, k')
  {
    if d == [] then [(k, v)]
    else if d[0].0 == k then [(k, v)] + d[1..]
    else [d[0]] + Set(d[1..], k, v)
  }

  /** A dictionary's keys are its first key followed by the keys of the rest. */
  lemma KeysCons<V>(d: Dict<V>)
    requires d != []
    ensures Keys(d) == [d[0].0] + Keys(d[1..])
  {
  }

  /** Setting a key that is present keeps the keys and their order. */
  lemma {:induction false} SetKeysPresent<V>(d: Dict<V>, k: string, v: V)
    requires k in Keys(d)
    ensures Keys(Set(d, k, v)) == Keys(d)
  {
    KeysCons(d);
    if d[0].0 != k {
      SetKeysPresent(d[1..], k, v);
      KeysCons(Set(d, k, v));
    } else {
      KeysCons(Set(d, k, v));
    }
  }

  /** Setting a key that is absent appends it after the existing keys. */
  lemma {:induction false} SetKeysAbsent<V>(d: Dict<V>, k: string, v: V)
    requires k !in Keys(d)
    ensures Keys(Set(d, k, v)) == Keys(d) + [k]
  {
    if d != [] {
      KeysCons(d);
      SetKeysAbsent(d[1..], k, v);
      KeysCons(Set(d, k, v));
      assert [d[0].0] + (Keys(d[1..]) + [k]) == Keys(d) + [k];
    }
  }

  /** Setting a key keeps the order of the existing keys and appends a new one at the end. */
  lemma SetKeys<V>(d: Dict<V>, k: string, v: V)
    ensures Keys(Set(d, k, v)) == if k in Keys(d) then Keys(d) else Keys(d) + [k]
  {
    if k in Keys(d) {
      SetKeysPresent(d, k, v);
    } else {
      SetKeysAbsent(d, k, v);
    }
  }

  /**
   * One step of building a dictionary from a list of names: if `d` holds the
   * names of `prefix`, each bound to its value in `m`, then setting `a` to
   * `m[a]` gives a dictionary that does the same for `prefix + [a]`.
   */
  lemma SetExtends<V>(d: Dict<V>, prefix: seq<string>, a: string, m: map<string, V>)
    requires Distinct(Keys(d)) && forall x :: x in Keys(d) <==> x in prefix
    requires forall x :: x in prefix ==> x in m && Get(d, x) == Some(m[x])
    requires Distinct(prefix) ==> Keys(d) == prefix
    requires a in m
    ensures Distinct(Keys(Set(d, a, m[a]))) && forall x :: x in Keys(Set(d, a, m[a])) <==> x in prefix + [a]
    ensures forall x :: x in prefix + [a] ==> Get(Set(d, a, m[a]), x) == Some(m[x])
    ensures Distinct(prefix + [a]) ==> Keys(Set(d, a, m[a])) == prefix + [a]
  {
    var keys := Keys(d);
    SetKeys(d, a, m[a]);
    if a !in keys {
      DistinctAppend(keys, a);
    }
    if Distinct(prefix + [a]) {
      assert Distinct(prefix) by {
        forall j, k | 0 <= j < k < |prefix| ensures prefix[j] != prefix[k] {
          assert prefix[j] == (prefix + [a])[j] && prefix[k] == (prefix + [a])[k];
        }
      }
      assert a !in prefix by {
        forall j | 0 <= j < |prefix| ensures prefix[j] != a {
          assert (prefix + [a])[j] == prefix[j] && (prefix + [a])[|prefix|] == a;
        }
      }
    }
  }


  /** Turns a positional row into the name-to-value mapping `dict(zip(cols, row))`. */
  function RowDict(cols: seq<string>, row: seq<Value>): (m: RowMap)
    requires |row| == |cols| && Distinct(cols)
    ensures m.Keys == set c | c in cols
    ensures forall i :: 0 <= i < |cols| ==> m[cols[i]] == row[i]
  {
    map i | 0 <= i < |cols| :: cols[i] := row[i]
  }

  /** In a dictionary without repeated keys, looking up a pair's key finds that pair's value. */
  lemma {:induction false} GetDistinct<V>(d: Dict<V>, i: nat)
    requires Distinct(Keys(d)) && i < |d|
    ensures Get(d, d[i].0) == Some(d[i].1)
  {
    if i > 0 {
      assert Keys(d)[0] != Keys(d)[i];
      assert Keys(d[1..]) == Keys(d)[1..];
      GetDistinct(d[1..], i - 1);
    }
  }
}
