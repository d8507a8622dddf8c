/** Small things that several modules use. */
module Basics {
  datatype Option<T> = None | Some(value: T)

  ghost predicate Distinct(l: seq<nat>) { forall i, j | 0 <= i < j < |l| :: l[i] != l[j] }

  /** [a, a + m) and [b, b + n) do not meet. */
  predicate Apart(a: nat, m: nat, b: nat, n: nat) { a + m <= b || b + n <= a }

  lemma SliceOfSlice<T>(s: seq<T>, p: nat, n: nat, i: nat, j: nat)
    requires p <= n <= |s| && i <= j <= n - p
    ensures s[p..n][i..j] == s[p + i..p + j]
  {
    var x, y := s[p..n][i..j], s[p + i..p + j];
    forall k | 0 <= k < j - i ensures x[k] == y[k] {}
  }

  lemma ConcatAssoc<T>(a: seq<T>, b: seq<T>, c: seq<T>)
    ensures a + b + c == a + (b + c)
  {
  }

  lemma HeadAndTail<T>(a: seq<T>)
    requires a != []
    ensures a == [a[0]] + a[1..]
  {
  }

  lemma SmallMultiple(c: int, d: nat)
    ensures c > 0 ==> c * d >= d
  {
  }

  lemma TimesOrder(x: nat, y: nat, z: nat)
    ensures x <= y ==> 0 <= x * z <= y * z
  {
  }

  lemma DivMod(n: nat, d: nat)
    requires d > 0
    ensures n == n / d * d + n % d
  {
  }

  lemma SmallMod(x: nat, m: nat)
    requires x < m
    ensures x % m == x
  {
  }

  /** Quotient and remainder are the only way to write n like this. */
  lemma ModUnique(n: int, d: nat, k: int, r: int)
    requires n == k * d + r && 0 <= r < d
    ensures n % d == r && n / d == k
  {
    var k', r' := n / d, n % d;
    assert n == k' * d + r';
    assert (k - k') * d == k * d - k' * d;
    SmallMultiple(k - k', d);
    SmallMultiple(k' - k, d);
    assert (k' - k) * d == -((k - k') * d);
  }
}
