/** Sizes and least elements of finite sets and maps. */
module Collections {

  lemma {:induction false} SubsetSize<T>(a: set<T>, b: set<T>)
    requires a <= b
    ensures |a| <= |b| && (|a| == |b| ==> a == b)
  {
    if a != {} {
      var x :| x in a;
      SubsetSize(a - {x}, b - {x});
    }
  }

  lemma RemovedSize<K, V>(m: map<K, V>, k: K)
    ensures |m - {k}| == if k in m then |m| - 1 else |m|
  {
    assert (m - {k}).Keys == m.Keys - {k};
  }

  lemma InsertedSize<K, V>(m: map<K, V>, k: K, v: V)
    ensures |m[k := v]| == if k in m then |m| else |m| + 1
  {
    assert m[k := v].Keys == m.Keys + {k};
  }

  lemma {:induction false} LeastAmong<K>(score: map<K, int>, keys: set<K>) returns (least: K)
    requires keys != {} && keys <= score.Keys
    ensures least in keys && forall k | k in keys :: score[least] <= score[k]
    decreases |keys|
  {
    var x :| x in keys;
    if keys == {x} {
      least := x;
    } else {
      assert keys - {x} != {};
      least := LeastAmong(score, keys - {x});
      if score[x] < score[least] {
        least := x;
      }
    }
  }

  lemma LeastExists<K>(score: map<K, int>)
    requires |score| > 0
    ensures exists least | least in score :: forall k | k in score :: score[least] <= score[k]
  {
    assert score.Keys != {};
    var least := LeastAmong(score, score.Keys);
    assert forall k | k in score :: k in score.Keys;
  }

  lemma FreshNat(s: set<nat>) returns (n: nat)
    ensures n !in s
  {
    n := UpperBound(s);
  }

  lemma {:induction false} UpperBound(s: set<nat>) returns (n: nat)
    ensures forall x | x in s :: x < n
  {
    n := 0;
    if s != {} {
      var x :| x in s;
      var m := UpperBound(s - {x});
      n := if m > x then m else x + 1;
      assert forall y | y in s :: y == x || y in s - {x};
    }
  }
}
