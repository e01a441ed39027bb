/** The in-memory read callback of utils.hpp (read_packet with its
    buffer_data cursor), through which the demuxer pulls an encoded stream
    out of a std::vector instead of a file. */
module MemoryReader {
  import opened Common

  const SIZE_MODULUS: int := 0x1_0000_0000_0000_0000
  const INT_MODULUS: int := 0x1_0000_0000
  const INT_MIN: int := -0x8000_0000
  const INT_MAX: int := 0x7fff_ffff
  /** A std::vector<uint8_t> never holds more than PTRDIFF_MAX bytes. */
  const VECTOR_MAX: int := 0x7fff_ffff_ffff_ffff

  /** buffer_data over a source vector: `ptr` is the offset the next read
      starts at, `size` the number of bytes left. */
  datatype BufferData = BufferData(ptr: nat, size: nat)

  /** The cursor accounts for the whole vector: consumed plus remaining. */
  predicate Valid(src: seq<Byte>, bd: BufferData)
  {
    |src| <= VECTOR_MAX && bd.ptr + bd.size == |src|
  }

  /** The cursor decode_buffer_to_files sets up: at the start, all bytes left. */
  function Start(src: seq<Byte>): (bd: BufferData)
    requires |src| <= VECTOR_MAX
    ensures Valid(src, bd)
  {
    BufferData(0, |src|)
  }

  /** `copied` is exactly the bytes of src from offset `from` up to `to`. */
  predicate CopiedRange(src: seq<Byte>, from: nat, to: nat, copied: seq<Byte>)
  {
    from <= to <= |src| && copied == src[from..to]
  }

  /** The outcome of one call: the value returned, the bytes copied into
      `buf`, and the cursor afterwards. */
  datatype ReadResult = ReadResult(returned: int, copied: seq<Byte>, next: BufferData)

  /** Converting an int to size_t: negative values wrap to huge ones. */
  function SizeT(n: int): nat
  {
    n % SIZE_MODULUS
  }

  /** Converting a size_t back to int: two's-complement wrap-around. */
  function ToInt(n: int): (r: int)
    ensures INT_MIN <= r <= INT_MAX
    ensures INT_MIN <= n <= INT_MAX ==> r == n
  {
    (n - INT_MIN) % INT_MODULUS + INT_MIN
  }

  /** A count that survives the narrowing without turning negative is the
      count modulo 2^32, so it is never larger than the count itself. */
  lemma NarrowedCount(n: nat)
    requires 0 <= ToInt(n)
    ensures ToInt(n) == n % INT_MODULUS && ToInt(n) <= n
  {
    var m := ToInt(n);
    var q := (n - INT_MIN) / INT_MODULUS;
    assert n - INT_MIN == q * INT_MODULUS + (m - INT_MIN);
    DivModUnique(n, INT_MODULUS, q, m);
  }

  /** The count read_packet works with: min((size_t)buf_size, size), stored
      back into the int buf_size. The memcpy length, both cursor updates and
      the return value all use this narrowed count. */
  function Moved(bd: BufferData, bufSize: int): int
  {
    ToInt(if SizeT(bufSize) < bd.size then SizeT(bufSize) else bd.size)
  }

  /** memcpy receives the narrowed count converted to size_t. A negative count
      becomes a huge length that reads past the vector, so a call is defined
      only when the narrowed count is not negative. */
  predicate Defined(bd: BufferData, bufSize: int)
  {
    0 <= Moved(bd, bufSize)
  }

  /** A call is undefined exactly when buf_size is negative and the bytes left,
      taken modulo 2^32, do not fit an int. Every non-negative buf_size is
      fine. */
  lemma DefinedExactly(src: seq<Byte>, bd: BufferData, bufSize: int)
    requires Valid(src, bd)
    requires INT_MIN <= bufSize <= INT_MAX
    ensures Defined(bd, bufSize) <==> 0 <= bufSize || bd.size % INT_MODULUS <= INT_MAX
  {
    if bufSize < 0 {
      assert SizeT(bufSize) == bufSize + SIZE_MODULUS;
      var r := bd.size % INT_MODULUS;
      assert bd.size == (bd.size / INT_MODULUS) * INT_MODULUS + r;
      if r <= INT_MAX {
        DivModUnique(bd.size - INT_MIN, INT_MODULUS, bd.size / INT_MODULUS, r - INT_MIN);
      } else {
        DivModUnique(bd.size - INT_MIN, INT_MODULUS, bd.size / INT_MODULUS + 1, r - INT_MIN - INT_MODULUS);
      }
    }
  }

  /** The narrowed count of a defined call: at most what is left, the
      requested size when that is smaller, and all that is left modulo 2^32
      for a negative request. */
  lemma MovedCount(src: seq<Byte>, bd: BufferData, bufSize: int)
    requires Valid(src, bd)
    requires INT_MIN <= bufSize <= INT_MAX
    requires Defined(bd, bufSize)
    ensures Moved(bd, bufSize) <= bd.size
    ensures 0 <= bufSize ==> Moved(bd, bufSize) == if bufSize < bd.size then bufSize else bd.size
    ensures bufSize < 0 ==> Moved(bd, bufSize) == bd.size % INT_MODULUS
  {
    var n := if SizeT(bufSize) < bd.size then SizeT(bufSize) else bd.size;
    if bufSize < 0 {
      DivModUnique(bufSize, SIZE_MODULUS, -1, bufSize + SIZE_MODULUS);
      assert n == bd.size;
    }
    NarrowedCount(n);
  }

  /** read_packet: copy min((size_t)buf_size, size) bytes from the cursor,
      narrowed to int, advance it past them and return their count. A
      negative buf_size turns into a huge size_t, so such a call takes all
      that is left, modulo 2^32. */
  function ReadPacket(src: seq<Byte>, bd: BufferData, bufSize: int): (r: ReadResult)
    requires Valid(src, bd)
    requires INT_MIN <= bufSize <= INT_MAX
    requires Defined(bd, bufSize)
    ensures Valid(src, r.next)
    ensures CopiedRange(src, bd.ptr, r.next.ptr, r.copied)
    ensures r.next.ptr - bd.ptr + r.next.size == bd.size
    ensures |r.copied| == r.returned
    ensures 0 <= bufSize < bd.size ==> r.returned == bufSize
    ensures 0 <= bd.size <= bufSize ==> r.returned == bd.size
    ensures 0 < bufSize ==> (r.returned == 0 <==> bd.size == 0)
    ensures bufSize < 0 ==> r.returned == bd.size % INT_MODULUS
    ensures bufSize < 0 && bd.size <= INT_MAX ==> r.copied == src[bd.ptr..] && r.next.size == 0
    ensures bd.size == 0 ==> r.returned == 0 && r.copied == [] && r.next == bd
  {
    var m := Moved(bd, bufSize);
    MovedCount(src, bd, bufSize);
    ReadResult(m, src[bd.ptr..bd.ptr + m], BufferData(bd.ptr + m, bd.size - m))
  }

  /** Every call of a sequence, each asking for the next of `sizes`, is an int
      request and stays inside the vector. */
  predicate AllDefined(src: seq<Byte>, bd: BufferData, sizes: seq<int>)
    requires Valid(src, bd)
    decreases |sizes|
  {
    sizes == [] ||
    (INT_MIN <= sizes[0] <= INT_MAX && Defined(bd, sizes[0])
     && AllDefined(src, ReadPacket(src, bd, sizes[0]).next, sizes[1..]))
  }

  /** The demuxer only ever asks for non-negative sizes, and any such sequence
      of calls is defined from any cursor. */
  lemma {:induction false} NonNegativeSizesDefined(src: seq<Byte>, bd: BufferData, sizes: seq<int>)
    requires Valid(src, bd)
    requires forall k | 0 <= k < |sizes| :: 0 <= sizes[k] <= INT_MAX
    ensures AllDefined(src, bd, sizes)
    decreases |sizes|
  {
    if sizes != [] {
      DefinedExactly(src, bd, sizes[0]);
      NonNegativeSizesDefined(src, ReadPacket(src, bd, sizes[0]).next, sizes[1..]);
    }
  }

  /** A sequence of calls, each asking for the next of `sizes`: all bytes
      copied, in order, and the cursor after the last call. */
  function ReadAll(src: seq<Byte>, bd: BufferData, sizes: seq<int>): (r: (seq<Byte>, BufferData))
    requires Valid(src, bd)
    requires AllDefined(src, bd, sizes)
    ensures Valid(src, r.1) && bd.ptr <= r.1.ptr
    ensures |r.0| == r.1.ptr - bd.ptr
    decreases |sizes|
  {
    if sizes == [] then ([], bd)
    else
      var first := ReadPacket(src, bd, sizes[0]);
      var rest := ReadAll(src, first.next, sizes[1..]);
      (first.copied + rest.0, rest.1)
  }

  /** Whatever the requested sizes, successive calls hand out consecutive,
      non-overlapping pieces of the vector: together they are exactly the
      bytes between the first and the final cursor. */
  lemma {:induction false} ReadAllConsecutive(src: seq<Byte>, bd: BufferData, sizes: seq<int>)
    requires Valid(src, bd)
    requires AllDefined(src, bd, sizes)
    ensures ReadAll(src, bd, sizes).0 == src[bd.ptr..ReadAll(src, bd, sizes).1.ptr]
    decreases |sizes|
  {
    if sizes != [] {
      var first := ReadPacket(src, bd, sizes[0]);
      ReadAllConsecutive(src, first.next, sizes[1..]);
      var rest := ReadAll(src, first.next, sizes[1..]);
      assert ReadAll(src, bd, sizes) == (first.copied + rest.0, rest.1);
      ConsecutiveSlices(src, bd.ptr, first.next.ptr, rest.1.ptr);
    }
  }

  /** Two adjacent slices of src make up the slice spanning both. */
  lemma ConsecutiveSlices(src: seq<Byte>, a: nat, b: nat, c: nat)
    requires a <= b <= c <= |src|
    ensures src[a..c] == src[a..b] + src[b..c]
  {
  }

  /** Reading from the start, the bytes delivered so far are always a prefix
      of the vector, and they are the whole vector exactly when nothing is
      left; from then on every call with a positive size returns 0. */
  lemma ReadFromStart(src: seq<Byte>, sizes: seq<int>)
    requires |src| <= VECTOR_MAX
    requires AllDefined(src, Start(src), sizes)
    ensures var out := ReadAll(src, Start(src), sizes).0;
            out == src[..|out|] && (out == src <==> ReadAll(src, Start(src), sizes).1.size == 0)
    ensures var out, bd := ReadAll(src, Start(src), sizes).0, ReadAll(src, Start(src), sizes).1;
            forall b | 0 < b <= INT_MAX :: out == src <==> ReadPacket(src, bd, b).returned == 0
  {
    ReadAllConsecutive(src, Start(src), sizes);
  }
}
