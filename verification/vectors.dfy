/** The numpy array operations the feature synthesis is built from, over
    sequences: `np.arange`, constant arrays, fancy-index assignment
    `arr[indices] = vals`, boolean-mask assignment `arr[mask] = vals`,
    `np.repeat`, and the row-wise dot product `(a * b).sum(axis=1)`. */
module Vectors {

  /** `np.arange(start, stop, step)` for a positive step. */
  function Arange(start: int, stop: int, step: int): (r: seq<int>)
    requires step > 0
    ensures forall j :: 0 <= j < |r| ==> start <= r[j] < stop
    decreases stop - start
  {
    if start >= stop then [] else [start] + Arange(start + step, stop, step)
  }

  /** Entry `j` of `np.arange(start, stop, step)` is `start + j * step`. */
  lemma {:induction false} ArangeAt(start: int, stop: int, step: int, j: nat)
    requires step > 0 && j < |Arange(start, stop, step)|
    ensures Arange(start, stop, step)[j] == start + j * step
    decreases j
  {
    if j > 0 {
      ArangeAt(start + step, stop, step, j - 1);
      assert start + step + (j - 1) * step == start + j * step;
    }
  }

  /** `np.arange(0, n * step, step)` has exactly `n` entries. */
  lemma {:induction false} ArangeLength(a: nat, n: nat, step: int)
    requires step > 0 && a <= n
    ensures |Arange(a * step, n * step, step)| == n - a
    decreases n - a
  {
    if a < n {
      assert a * step + step == (a + 1) * step;
      assert (a + 1) * step <= n * step by { MulMonotone(a + 1, n, step); }
      ArangeLength(a + 1, n, step);
    } else {
      assert a * step == n * step;
    }
  }

  lemma MulMonotone(a: int, b: int, c: int)
    requires a <= b && c >= 0
    ensures a * c <= b * c
  {
    assert b * c - a * c == (b - a) * c;
  }

  /** Euclidean division of `j * step + r` by `step` recovers `j` and `r`. */
  lemma DivModBlock(j: int, step: int, r: int)
    requires step > 0 && 0 <= r < step
    ensures (j * step + r) / step == j && (j * step + r) % step == r
  {
    var p := j * step + r;
    var q := p / step;
    assert p == q * step + p % step;
    assert (j - q) * step == p % step - r;
    if j - q >= 1 {
      MulMonotone(1, j - q, step);
    } else if j - q <= -1 {
      MulMonotone(j - q, -1, step);
    }
  }

  /** A constant array, as `np.zeros` / `np.ones` build. */
  function Fill<T>(n: nat, v: T): seq<T>
  {
    seq(n, _ => v)
  }

  predicate Distinct(idx: seq<int>)
  {
    forall k, l :: 0 <= k < l < |idx| ==> idx[k] != idx[l]
  }

  /** `arr[idx] = vals`: writes `vals[k]` at position `idx[k]`, one after the
      other. */
  function Scatter<T>(arr: seq<T>, idx: seq<int>, vals: seq<T>): (r: seq<T>)
    requires |idx| == |vals|
    requires forall k :: 0 <= k < |idx| ==> 0 <= idx[k] < |arr|
    ensures |r| == |arr|
    ensures forall p :: 0 <= p < |arr| && p !in idx ==> r[p] == arr[p]
    ensures Distinct(idx) ==> forall k :: 0 <= k < |idx| ==> r[idx[k]] == vals[k]
    decreases |idx|
  {
    if |idx| == 0 then arr
    else
      var r := Scatter(arr[idx[0] := vals[0]], idx[1..], vals[1..]);
      assert Distinct(idx) ==> Distinct(idx[1..]) && idx[0] !in idx[1..];
      r
  }

  /** The number of `true` entries of a mask. */
  function CountTrue(mask: seq<bool>): nat
    decreases |mask|
  {
    if |mask| == 0 then 0
    else CountTrue(mask[..|mask| - 1]) + (if mask[|mask| - 1] then 1 else 0)
  }

  /** `arr[mask] = vals`: the k-th position where the mask is true receives
      `vals[k]`; the other positions keep their value. */
  function MaskAssign<T>(arr: seq<T>, mask: seq<bool>, vals: seq<T>): (r: seq<T>)
    requires |mask| == |arr| && CountTrue(mask) == |vals|
    ensures |r| == |arr|
    ensures forall p :: 0 <= p < |arr| && mask[p] ==>
      CountTrue(mask[..p]) < |vals| && r[p] == vals[CountTrue(mask[..p])]
    ensures forall p :: 0 <= p < |arr| && !mask[p] ==> r[p] == arr[p]
    decreases |arr|
  {
    if |arr| == 0 then []
    else
      var n := |arr| - 1;
      assert mask[..n][..n] == mask[..n];
      assert forall p :: 0 <= p < n ==> mask[..n][..p] == mask[..p];
      assert mask[..|mask|] == mask;
      if mask[n] then MaskAssign(arr[..n], mask[..n], vals[..|vals| - 1]) + [vals[|vals| - 1]]
      else MaskAssign(arr[..n], mask[..n], vals) + [arr[n]]
  }

  /** A masked position receives the value whose rank among the masked
      positions it has. */
  lemma MaskAssignAt<T>(arr: seq<T>, mask: seq<bool>, vals: seq<T>, p: nat, k: nat)
    requires |mask| == |arr| && CountTrue(mask) == |vals|
    requires p < |arr| && mask[p] && k == CountTrue(mask[..p])
    ensures k < |vals| && MaskAssign(arr, mask, vals)[p] == vals[k]
  {
    var r := MaskAssign(arr, mask, vals);
    assert 0 <= p < |arr| && mask[p];
    assert CountTrue(mask[..p]) < |vals| && r[p] == vals[CountTrue(mask[..p])];
  }

  /** `arr[mask] = v` with a scalar: numpy broadcasts `v` to one copy per
      masked position and assigns those through the mask. */
  function MaskFill<T>(arr: seq<T>, mask: seq<bool>, v: T): (r: seq<T>)
    requires |mask| == |arr|
    ensures r == MaskAssign(arr, mask, Fill(CountTrue(mask), v))
  {
    seq(|arr|, p requires 0 <= p < |arr| => if mask[p] then v else arr[p])
  }

  /** `np.repeat(s, n)`: every entry of `s` repeated `n` times in a row. */
  function Repeat<T>(s: seq<T>, n: nat): (r: seq<T>)
    ensures |r| == |s| * n
    ensures forall k :: 0 <= k < |r| ==> r[k] in s
    decreases |s|
  {
    if |s| == 0 then []
    else
      var prefix := s[..|s| - 1];
      var r := Repeat(prefix, n) + Fill(n, s[|s| - 1]);
      assert |prefix| * n + n == |s| * n;
      assert forall k :: 0 <= k < |r| ==> r[k] in s by {
        forall k | 0 <= k < |r|
          ensures r[k] in s
        {
          if k < |prefix| * n {
            assert r[k] in prefix;
          }
        }
      }
      r
  }

  /** Entry `j * n + i` of `np.repeat(s, n)` is `s[j]`. */
  lemma {:induction false} RepeatAt<T>(s: seq<T>, n: nat, j: nat, i: nat)
    requires j < |s| && i < n
    ensures j * n + i < |Repeat(s, n)| && Repeat(s, n)[j * n + i] == s[j]
    decreases |s|
  {
    var prefix := s[..|s| - 1];
    MulMonotone(j + 1, |s|, n);
    if j < |s| - 1 {
      MulMonotone(j + 1, |prefix|, n);
      RepeatAt(prefix, n, j, i);
    } else {
      assert j * n == |prefix| * n;
    }
  }

  /** The dot product of two equally long vectors. */
  function Dot(a: seq<real>, b: seq<real>): real
    requires |a| == |b|
    decreases |a|
  {
    if |a| == 0 then 0.0 else Dot(a[..|a| - 1], b[..|b| - 1]) + a[|a| - 1] * b[|b| - 1]
  }
}
