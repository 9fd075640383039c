/** Small notions shared by the whole model. */
module Prelude {
  datatype Option<+T> = None | Some(value: T)

  // What a system call returns when it has nothing else to say.
  const FAIL := -1
  const SUCCESS := 0

  const NUM_TERMINALS := 3
  const KB4 := 4096

  // The buffer of cat and grep.
  const BUFSIZE := 1024

  function Min(a: int, b: int): int {
    if a < b then a else b
  }

  lemma SubsetSize<T>(a: set<T>, b: set<T>)
    requires a <= b
    ensures |a| <= |b| && (|a| == |b| <==> a == b)
  {
    assert b == a + (b - a);
    assert |b| == |a| + |b - a|;
  }

  /** Division is determined by its defining equation. */
  lemma DivisionUnique(v: nat, n: nat, q: nat, r: nat)
    requires n > 0 && r < n && v == q * n + r
    ensures v / n == q && v % n == r
  {
    var d: int := v / n - q;
    assert d * n == v / n * n - q * n == r - v % n;
    assert d > 0 ==> d * n >= n;
    assert d < 0 ==> d * n + n <= 0;
  }

  /** A remainder that moves on by at most one period. */
  lemma RemainderOfSum(k: nat, i: nat, n: nat)
    requires i <= n && n > 0
    ensures (k + i) % n == if k % n + i < n then k % n + i else k % n + i - n
  {
    var q, r := k / n, k % n;
    if r + i < n {
      DivisionUnique(k + i, n, q, r + i);
    } else {
      assert (q + 1) * n == q * n + n;
      DivisionUnique(k + i, n, q + 1, r + i - n);
    }
  }

  lemma ConcatAssociates<T>(a: seq<T>, b: seq<T>, c: seq<T>)
    ensures (a + b) + c == a + (b + c)
  {
  }

  lemma SliceOfSlice<T>(s: seq<T>, i: nat, j: nat, k: nat, m: nat)
    requires i <= j <= |s| && k <= m <= j - i
    ensures s[i..j][k..m] == s[i + k..i + m]
  {
    var a, b := s[i..j][k..m], s[i + k..i + m];
    assert |a| == |b| && forall x :: 0 <= x < |a| ==> a[x] == b[x];
  }

  ghost predicate AllOfSize<T>(parts: seq<seq<T>>, size: nat) {
    forall i :: 0 <= i < |parts| ==> |parts[i]| == size
  }

  /** Parts of one size, one after the other. */
  ghost function Flat<T>(parts: seq<seq<T>>, size: nat): (r: seq<T>)
    requires size > 0 && AllOfSize(parts, size)
    ensures |r| == size * |parts|
  {
    if parts == [] then [] else Flat(parts[..|parts| - 1], size) + parts[|parts| - 1]
  }

  lemma {:induction false} FlatAt<T>(parts: seq<seq<T>>, size: nat, k: nat, r: nat)
    requires size > 0 && AllOfSize(parts, size) && k < |parts| && r < size
    ensures size * k + r < size * |parts|
    ensures Flat(parts, size)[size * k + r] == parts[k][r]
  {
    var init, last := parts[..|parts| - 1], parts[|parts| - 1];
    var whole := Flat(init, size);
    assert |whole| == size * (|parts| - 1);
    if k < |parts| - 1 {
      FlatAt(init, size, k, r);
    }
  }

  lemma FlatSlice<T>(parts: seq<seq<T>>, size: nat, k: nat)
    requires size > 0 && AllOfSize(parts, size) && k < |parts|
    ensures size * k + size <= size * |parts|
    ensures Flat(parts, size)[size * k..size * k + size] == parts[k]
  {
    FlatAt(parts, size, k, size - 1);
    var slice := Flat(parts, size)[size * k..size * k + size];
    forall r | 0 <= r < size ensures slice[r] == parts[k][r] {
      FlatAt(parts, size, k, r);
    }
  }
}
