/** A Python `dict` modelled as its items in insertion order: assigning to a key
    that is already present replaces its value in place, assigning to a new key
    appends it at the end. Keys and values are strings, as in the parser. */
module PyDict {
  import opened Wrappers

  type Dict = seq<(string, string)>

  /** The keys, in insertion order (`list(d)`). */
  function Keys(d: Dict): seq<string> {
    seq(|d|, i requires 0 <= i < |d| => d[i].0)
  }

  /** No key occurs twice: the invariant every Python dict keeps. */
  predicate UniqueKeys(d: Dict) {
    forall i, j :: 0 <= i < j < |d| ==> d[i].0 != d[j].0
  }

  /** `d.get(k)` */
  function Get(d: Dict, k: string): Option<string> {
    if d == [] then None
    else if d[0].0 == k then Some(d[0].1)
    else Get(d[1..], k)
  }

  /** `d[k] = v` */
  function Put(d: Dict, k: string, v: string): Dict {
    if d == [] then [(k, v)]
    else if d[0].0 == k then [(k, v)] + d[1..]
    else [d[0]] + Put(d[1..], k, v)
  }

  /** After `d[k] = v`, `k` maps to `v`, every other key keeps its value, keys
      stay unique, and the key order changes only by appending a new key. */
  lemma PutSpec(d: Dict, k: string, v: string)
    ensures Get(Put(d, k, v), k) == Some(v)
    ensures forall k' :: k' != k ==> Get(Put(d, k, v), k') == Get(d, k')
    ensures UniqueKeys(d) ==> UniqueKeys(Put(d, k, v))
    ensures Keys(Put(d, k, v)) == if k in Keys(d) then Keys(d) else Keys(d) + [k]
  {
    PutGet(d, k, v);
    PutKeys(d, k, v);
    if UniqueKeys(d) {
      PutUnique(d, k, v);
    }
  }

  /** After `d[k] = v`, `k` maps to `v` and every other key keeps its value. */
  lemma {:induction false} PutGet(d: Dict, k: string, v: string)
    ensures Get(Put(d, k, v), k) == Some(v)
    ensures forall k' :: k' != k ==> Get(Put(d, k, v), k') == Get(d, k')
  {
    if d != [] && d[0].0 != k {
      PutGet(d[1..], k, v);
      assert Put(d, k, v)[1..] == Put(d[1..], k, v);
    }
  }

  /** `d[k] = v` keeps the key order, appending `k` when it is new. */
  lemma {:induction false} PutKeys(d: Dict, k: string, v: string)
    ensures Keys(Put(d, k, v)) == if k in Keys(d) then Keys(d) else Keys(d) + [k]
  {
    if d != [] {
      assert d == [d[0]] + d[1..];
      KeysCons(d[0], d[1..]);
      if d[0].0 == k {
        KeysCons((k, v), d[1..]);
      } else {
        PutKeys(d[1..], k, v);
        KeysCons(d[0], Put(d[1..], k, v));
      }
    }
  }

  /** Putting an item in front puts its key in front. */
  lemma KeysCons(e: (string, string), d: Dict)
    ensures Keys([e] + d) == [e.0] + Keys(d)
  {
  }

  /** `d[k] = v` keeps keys unique. */
  lemma {:induction false} PutUnique(d: Dict, k: string, v: string)
    requires UniqueKeys(d)
    ensures UniqueKeys(Put(d, k, v))
  {
    if d != [] {
      if d[0].0 == k {
        assert Keys(Put(d, k, v)) == Keys(d) by { PutKeys(d, k, v); assert Keys(d)[0] == k; }
        assert forall i :: 0 <= i < |d| ==> Put(d, k, v)[i].0 == Keys(d)[i];
      } else {
        var rest := Put(d[1..], k, v);
        PutUnique(d[1..], k, v);
        PutKeys(d[1..], k, v);
        assert Keys(d) == [d[0].0] + Keys(d[1..]);
        assert d[0].0 !in Keys(d[1..]);
        ConsUnique(d[0], rest);
      }
    }
  }

  lemma ConsUnique(e: (string, string), d: Dict)
    requires UniqueKeys(d) && e.0 !in Keys(d)
    ensures UniqueKeys([e] + d)
  {
    var r := [e] + d;
    forall i, j | 0 <= i < j < |r| ensures r[i].0 != r[j].0 {
      if i == 0 {
        assert r[j].0 == Keys(d)[j - 1];
      }
    }
  }

  /** `ks` with each element kept at its first occurrence only, in order: the
      key order of a dict built by assigning to the keys of `ks` in turn. */
  function FirstOccurrences(ks: seq<string>): seq<string> {
    if ks == [] then []
    else
      var r := FirstOccurrences(ks[..|ks| - 1]);
      if ks[|ks| - 1] in r then r else r + [ks[|ks| - 1]]
  }

  /** The result holds exactly the elements of `ks`, each once, ordered by first
      occurrence: an element placed before another occurs in `ks` before every
      occurrence of the other. */
  lemma {:induction false} FirstOccurrencesSpec(ks: seq<string>)
    ensures forall x :: x in FirstOccurrences(ks) <==> x in ks
    ensures forall i, j :: 0 <= i < j < |FirstOccurrences(ks)| ==>
              FirstOccurrences(ks)[i] != FirstOccurrences(ks)[j]
    ensures forall i, j, m :: 0 <= i < j < |FirstOccurrences(ks)| && 0 <= m < |ks| && ks[m] == FirstOccurrences(ks)[j] ==>
              FirstOccurrences(ks)[i] in ks[..m]
  {
    if ks != [] {
      var n := |ks| - 1;
      var init := ks[..n];
      var x := ks[n];
      var r := FirstOccurrences(init);
      var r' := FirstOccurrences(ks);
      FirstOccurrencesSpec(init);
      assert ks == init + [x];
      assert r' == if x in r then r else r + [x];
      assert forall i :: 0 <= i < |r| ==> r'[i] == r[i];
      forall i, j, m | 0 <= i < j < |r'| && 0 <= m < |ks| && ks[m] == r'[j]
        ensures r'[i] in ks[..m]
      {
        assert r'[i] in r by { assert r[i] in r; }
        if m < n {
          assert ks[m] == init[m] && init[m] in init;
          assert init[..m] == ks[..m];
        } else {
          assert ks[..m] == init;
        }
      }
    }
  }

  /** A key is present exactly when `Get` finds it. */
  lemma {:induction false} GetFindsKeys(d: Dict, k: string)
    ensures Get(d, k).Some? <==> k in Keys(d)
  {
    if d != [] {
      assert Keys(d) == [d[0].0] + Keys(d[1..]);
      GetFindsKeys(d[1..], k);
    }
  }
}
