/** Small shared vocabulary: an optional value standing for a nullable
    pointer, and the 64-bit unsigned sequence counter of `sequenced_ptr`. */
module Base {

  /** A nullable pointer: `None` is `nullptr`. */
  datatype Option<+T> = None | Some(value: T)

  const U64_MODULUS: int := 0x1_0000_0000_0000_0000

  /** The `uint64_t` sequence field of a sequenced pointer. */
  type U64 = n: int | 0 <= n < U64_MODULUS

  /** `++seq` on a `uint64_t`: wraps to zero after the largest value. */
  function Bump(n: U64): (r: U64)
    ensures n < U64_MODULUS - 1 ==> r == n + 1
    ensures n == U64_MODULUS - 1 ==> r == 0
  {
    (n + 1) % U64_MODULUS
  }

  /** `k` successive increments of a `uint64_t`. */
  function BumpN(n: U64, k: nat): (r: U64)
    ensures r == (n + k) % U64_MODULUS
  {
    if k == 0 then n else Bump(BumpN(n, k - 1))
  }

  /** Counting one increment first and `k` after is `k + 1` increments. */
  lemma BumpNShift(n: U64, k: nat)
    ensures BumpN(Bump(n), k) == BumpN(n, k + 1)
  {
    if n == U64_MODULUS - 1 {
      assert (0 + k) % U64_MODULUS == (n + k + 1) % U64_MODULUS;
    }
  }

  /** No element occurs twice. */
  ghost predicate Distinct<T>(s: seq<T>)
  {
    forall i, j :: 0 <= i < j < |s| ==> s[i] != s[j]
  }

  /** Putting a new element in front keeps the elements distinct. */
  lemma DistinctCons<T>(x: T, s: seq<T>)
    requires Distinct(s) && x !in s
    ensures Distinct([x] + s)
  {
  }

  /** `a` is a prefix of `b`. */
  ghost predicate IsPrefix<T>(a: seq<T>, b: seq<T>)
  {
    |a| <= |b| && b[..|a|] == a
  }

  /** The part `c` adds to `a` splits at the intermediate prefix `b`. */
  lemma SuffixSplit<T>(a: seq<T>, b: seq<T>, c: seq<T>)
    requires IsPrefix(a, b) && IsPrefix(b, c)
    ensures IsPrefix(a, c)
    ensures c[|a|..] == b[|a|..] + c[|b|..]
  {
    assert c[..|a|] == c[..|b|][..|a|];
  }

  function Reverse<T>(s: seq<T>): (r: seq<T>)
    ensures |r| == |s|
    ensures forall i :: 0 <= i < |s| ==> r[i] == s[|s| - 1 - i]
  {
    if s == [] then [] else Reverse(s[1..]) + [s[0]]
  }
}
