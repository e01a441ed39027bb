/** Shared vocabulary: bytes, C's fixed-width unsigned arithmetic, an Option
    type and the few facts about integer multiplication and division that the
    layout proofs rest on. */
module Common {

  /** An unsigned 8-bit value, C's `unsigned char` / `uint8_t`. */
  type Byte = b: int | 0 <= b < 0x100

  const U32_MODULUS: int := 0x1_0000_0000

  /** The value a `uint32_t` holds after C's modular arithmetic produced `n`. */
  function U32(n: int): (r: nat)
    ensures r < U32_MODULUS
    ensures 0 <= n < U32_MODULUS ==> r == n
  {
    n % U32_MODULUS
  }

  /** Storing an integer into an `unsigned char` keeps its low eight bits. */
  function ToByte(n: int): (b: Byte)
    ensures 0 <= n < 0x100 ==> b == n
    ensures (n - b) % 0x100 == 0
  {
    n % 0x100
  }

  datatype Option<+T> = None | Some(value: T)

  /** The quotient and remainder of Euclidean division are the unique pair
      that rebuilds the dividend with a remainder below the divisor. */
  lemma DivModUnique(a: int, b: int, q: int, r: int)
    requires 0 < b && 0 <= r < b
    requires a == q * b + r
    ensures a / b == q && a % b == r
  {
    var q', r' := a / b, a % b;
    assert a == q' * b + r';
    if q' < q {
      assert (q - q') * b == r' - r;
      assert (q - q') * b >= b by { MulGrows(q - q', b); }
      assert false;
    } else if q' > q {
      assert (q' - q) * b == r - r';
      assert (q' - q) * b >= b by { MulGrows(q' - q, b); }
      assert false;
    }
  }

  /** A positive multiple of b is at least b. */
  lemma MulGrows(k: int, b: int)
    requires 1 <= k && 0 < b
    ensures k * b >= b
  {
    assert k * b == (k - 1) * b + b;
    assert (k - 1) * b >= 0;
  }

  /** Multiplication by a non-negative factor is monotone. */
  lemma MulMonotone(a: int, a': int, b: int)
    requires a <= a' && 0 <= b
    ensures a * b <= a' * b
  {
    assert a' * b - a * b == (a' - a) * b;
    assert (a' - a) * b >= 0;
  }

  /** With a row length at least the column bound, a row-major position
      (row y, column x) lies before the start of row y + 1. */
  lemma RowMajorBound(y: int, x: int, w: int, h: int)
    requires 0 <= y < h && 0 <= x < w
    ensures 0 <= y * w + x < h * w
  {
    MulMonotone(y + 1, h, w);
    assert (y + 1) * w == y * w + w;
  }

  /** Concatenation is associative. */
  lemma AppendAssoc<T>(a: seq<T>, b: seq<T>, c: seq<T>)
    ensures a + b + c == a + (b + c)
  {
  }

  /** Slicing a concatenation exactly over its second part. */
  lemma SliceSecond<T>(a: seq<T>, b: seq<T>)
    ensures (a + b)[|a|..|a| + |b|] == b
  {
  }

  /** Slicing a concatenation inside its first part. */
  lemma SliceFirst<T>(a: seq<T>, b: seq<T>, s: nat, e: nat)
    requires s <= e <= |a|
    ensures (a + b)[s..e] == a[s..e]
  {
  }

  /** The parts laid end to end, in order. */
  function Flatten<T>(parts: seq<seq<T>>): seq<T>
  {
    if parts == [] then [] else Flatten(parts[..|parts| - 1]) + parts[|parts| - 1]
  }

  /** The combined length of the first j parts. */
  function SizeBefore<T>(parts: seq<seq<T>>, j: nat): nat
    requires j <= |parts|
  {
    if j == 0 then 0 else SizeBefore(parts, j - 1) + |parts[j - 1]|
  }

  /** The flattened sequence is as long as all parts together, and part j
      occupies its SizeBefore(j) .. SizeBefore(j + 1) range. */
  lemma {:induction false} FlattenLayout<T>(parts: seq<seq<T>>, j: nat)
    requires j < |parts|
    ensures |Flatten(parts)| == SizeBefore(parts, |parts|)
    ensures SizeBefore(parts, j + 1) <= |Flatten(parts)|
    ensures Flatten(parts)[SizeBefore(parts, j)..SizeBefore(parts, j + 1)] == parts[j]
  {
    var n := |parts|;
    var init := parts[..n - 1];
    assert forall k | 0 <= k <= n - 1 :: SizeBefore(init, k) == SizeBefore(parts, k) by {
      SizeBeforePrefix(parts, n - 1);
    }
    if j == n - 1 {
      FlattenLength(init);
    } else {
      FlattenLayout(init, j);
    }
  }

  /** SizeBefore only looks at the parts it counts. */
  lemma {:induction false} SizeBeforePrefix<T>(parts: seq<seq<T>>, m: nat)
    requires m <= |parts|
    ensures forall k | 0 <= k <= m :: SizeBefore(parts[..m], k) == SizeBefore(parts, k)
  {
    forall k | 0 <= k <= m ensures SizeBefore(parts[..m], k) == SizeBefore(parts, k) {
      SizeBeforeAgree(parts, m, k);
    }
  }

  lemma {:induction false} SizeBeforeAgree<T>(parts: seq<seq<T>>, m: nat, k: nat)
    requires k <= m <= |parts|
    ensures SizeBefore(parts[..m], k) == SizeBefore(parts, k)
  {
    if k > 0 {
      SizeBeforeAgree(parts, m, k - 1);
    }
  }

  /** The flattened sequence is as long as all parts together. */
  lemma {:induction false} FlattenLength<T>(parts: seq<seq<T>>)
    ensures |Flatten(parts)| == SizeBefore(parts, |parts|)
  {
    if parts != [] {
      var n := |parts|;
      FlattenLength(parts[..n - 1]);
      SizeBeforeAgree(parts, n - 1, n - 1);
    }
  }

  /** Appending a part appends its elements. */
  lemma FlattenAppend<T>(parts: seq<seq<T>>, p: seq<T>)
    ensures Flatten(parts + [p]) == Flatten(parts) + p
  {
    assert (parts + [p])[..|parts|] == parts;
  }

  /** With every part of length n, part j starts at j * n. */
  lemma {:induction false} SizeBeforeUniform<T>(parts: seq<seq<T>>, n: nat, j: nat)
    requires j <= |parts|
    requires forall k | 0 <= k < |parts| :: |parts[k]| == n
    ensures SizeBefore(parts, j) == j * n
  {
    if j > 0 {
      SizeBeforeUniform(parts, n, j - 1);
      assert (j - 1) * n + n == j * n;
    }
  }

  /** Element j of a run of out that holds a, then b, then c. */
  lemma ThreeSlicesAt<T>(out: seq<T>, s: nat, a: seq<T>, b: seq<T>, c: seq<T>, j: nat)
    requires s + |a| + |b| + |c| <= |out| && j < |a| + |b| + |c|
    requires out[s..s + |a| + |b| + |c|] == a + b + c
    ensures j < |a| ==> out[s + j] == a[j]
    ensures |a| <= j < |a| + |b| ==> out[s + j] == b[j - |a|]
    ensures |a| + |b| <= j ==> out[s + j] == c[j - |a| - |b|]
  {
    assert out[s + j] == (a + b + c)[j];
  }
}
