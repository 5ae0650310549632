/** Dictionaries filled by a sequence of assignments `m[k] = v`, as the
    alias index, the variant map and the suggestion tables are: the value
    under a key is the one written last. */
module Maps {

  /** The map after performing the writes `ws` in order, starting from `m`. */
  function Assign<K(!new), V(!new)>(m: map<K, V>, ws: seq<(K, V)>): map<K, V>
    decreases |ws|
  {
    if ws == [] then m
    else Assign(m, ws[..|ws| - 1])[ws[|ws| - 1].0 := ws[|ws| - 1].1]
  }

  lemma {:induction false} AssignAppend<K(!new), V(!new)>(m: map<K, V>, a: seq<(K, V)>, b: seq<(K, V)>)
    ensures Assign(m, a + b) == Assign(Assign(m, a), b)
    decreases |b|
  {
    if b == [] {
      assert a + b == a;
    } else {
      assert (a + b)[..|a + b| - 1] == a + b[..|b| - 1];
      AssignAppend(m, a, b[..|b| - 1]);
    }
  }

  /** One more write of `ws`. */
  lemma AssignNext<K(!new), V(!new)>(m: map<K, V>, ws: seq<(K, V)>, j: nat)
    requires j < |ws|
    ensures Assign(m, ws[..j + 1]) == Assign(m, ws[..j])[ws[j].0 := ws[j].1]
  {
    assert ws[..j + 1][..j] == ws[..j];
  }

  /** Write `i` is the last one to key `k`. */
  predicate LastWrite<K(==), V>(ws: seq<(K, V)>, i: int, k: K)
  {
    0 <= i < |ws| && ws[i].0 == k && forall j :: i < j < |ws| ==> ws[j].0 != k
  }

  /** Some write is to key `k`. */
  predicate Writes<K(==), V>(ws: seq<(K, V)>, k: K)
  {
    exists i :: 0 <= i < |ws| && ws[i].0 == k
  }

  lemma WritesAppend<K, V>(a: seq<(K, V)>, b: seq<(K, V)>, k: K)
    ensures Writes(a + b, k) <==> Writes(a, k) || Writes(b, k)
  {
    if Writes(a + b, k) {
      var i :| 0 <= i < |a + b| && (a + b)[i].0 == k;
      if i >= |a| {
        assert b[i - |a|].0 == k;
      }
    }
    if Writes(b, k) {
      var i :| 0 <= i < |b| && b[i].0 == k;
      assert (a + b)[|a| + i].0 == k;
    }
    if Writes(a, k) {
      var i :| 0 <= i < |a| && a[i].0 == k;
      assert (a + b)[i].0 == k;
    }
  }

  /** A key is present afterwards exactly when it was before or was written. */
  lemma {:induction false} AssignKeys<K(!new), V(!new)>(m: map<K, V>, ws: seq<(K, V)>, k: K)
    ensures k in Assign(m, ws) <==> k in m || Writes(ws, k)
    decreases |ws|
  {
    if ws != [] {
      var init := ws[..|ws| - 1];
      AssignKeys(m, init, k);
      if exists i :: 0 <= i < |ws| && ws[i].0 == k {
        var i :| 0 <= i < |ws| && ws[i].0 == k;
        if i < |ws| - 1 {
          assert init[i].0 == k;
        }
      }
    }
  }

  /** Last writer wins. */
  lemma {:induction false} AssignLast<K(!new), V(!new)>(m: map<K, V>, ws: seq<(K, V)>, i: int, k: K)
    requires LastWrite(ws, i, k)
    ensures k in Assign(m, ws) && Assign(m, ws)[k] == ws[i].1
    decreases |ws|
  {
    if i < |ws| - 1 {
      var init := ws[..|ws| - 1];
      assert LastWrite(init, i, k);
      AssignLast(m, init, i, k);
    }
  }

  /** A key nobody writes keeps its old value. */
  lemma {:induction false} AssignUntouched<K(!new), V(!new)>(m: map<K, V>, ws: seq<(K, V)>, k: K)
    requires k in m
    requires forall i :: 0 <= i < |ws| ==> ws[i].0 != k
    ensures k in Assign(m, ws) && Assign(m, ws)[k] == m[k]
    decreases |ws|
  {
    if ws != [] {
      AssignUntouched(m, ws[..|ws| - 1], k);
    }
  }

  /** Some write to `k` exists, and so does a last one. */
  lemma {:induction false} LastWriteExists<K, V>(ws: seq<(K, V)>, i: int, k: K) returns (last: int)
    requires 0 <= i < |ws| && ws[i].0 == k
    ensures LastWrite(ws, last, k) && i <= last
    decreases |ws| - i
  {
    if LastWrite(ws, i, k) {
      last := i;
    } else {
      var j :| i < j < |ws| && ws[j].0 == k;
      last := LastWriteExists(ws, j, k);
    }
  }

  /** When the writes `b` follow `a`, a key that `b` writes holds the value of
      its last write in `b`. */
  lemma LaterWritesWin<K(!new), V(!new)>(m: map<K, V>, a: seq<(K, V)>, b: seq<(K, V)>, k: K) returns (last: int)
    requires Writes(b, k)
    ensures LastWrite(b, last, k)
    ensures k in Assign(m, a + b) && Assign(m, a + b)[k] == b[last].1
  {
    var i :| 0 <= i < |b| && b[i].0 == k;
    last := LastWriteExists(b, i, k);
    AssignAppend(m, a, b);
    AssignLast(Assign(m, a), b, last, k);
  }

  /** A property of every old entry and of every write holds of every entry
      afterwards. */
  lemma {:induction false} AssignPreserves<K(!new), V(!new)>(m: map<K, V>, ws: seq<(K, V)>, p: (K, V) -> bool, k: K)
    requires forall j :: j in m ==> p(j, m[j])
    requires forall i :: 0 <= i < |ws| ==> p(ws[i].0, ws[i].1)
    requires k in Assign(m, ws)
    ensures p(k, Assign(m, ws)[k])
    decreases |ws|
  {
    if ws != [] && k != ws[|ws| - 1].0 {
      AssignPreserves(m, ws[..|ws| - 1], p, k);
    }
  }
}
