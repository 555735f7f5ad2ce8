module Util {
  datatype Option<+T> = None | Some(value: T)

  // The n numbers from lo on
  function Interval(lo: nat, n: nat): (s: set<nat>)
    ensures forall i :: i in s <==> lo <= i < lo + n
  {
    if n == 0 then {} else Interval(lo, n - 1) + {lo + n - 1}
  }

  lemma {:induction false} IntervalSize(lo: nat, n: nat)
    ensures |Interval(lo, n)| == n
  {
    if n > 0 {
      IntervalSize(lo, n - 1);
    }
  }

  lemma {:induction false} SubsetSize<T>(a: set<T>, b: set<T>)
    requires a <= b
    ensures |a| <= |b|
  {
    if a != {} {
      var i :| i in a;
      SubsetSize(a - {i}, b - {i});
    }
  }

  // A set has as many elements as its image under an injective map.
  lemma {:induction false} ImageSize(d: set<nat>, f: map<nat, nat>)
    requires d <= f.Keys && forall i, j :: i in d && j in d && f[i] == f[j] ==> i == j
    ensures |set i | i in d :: f[i]| == |d|
  {
    if d != {} {
      var i :| i in d;
      ImageSize(d - {i}, f);
      assert (set k | k in d :: f[k]) == (set k | k in d - {i} :: f[k]) + {f[i]};
    }
  }
}
