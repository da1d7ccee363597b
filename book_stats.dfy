/** The per-category counter of dto/book/request/reponse/BookStatResponse.kt. */
module BookStats {
  import opened Books

  /** Kotlin's `Int`: a 32-bit two's-complement integer. */
  newtype int32 = x: int | -0x8000_0000 <= x < 0x8000_0000

  const Int32Min: int32 := -0x8000_0000
  const Int32Max: int32 := 0x7FFF_FFFF

  /** `count++` on an `Int`: adds one modulo 2^32, so the largest value wraps to the smallest. */
  function Increment(c: int32): (r: int32)
    ensures c < Int32Max ==> r as int == c as int + 1
    ensures c == Int32Max ==> r == Int32Min
  {
    ((c as int + 1 + 0x8000_0000) % 0x1_0000_0000 - 0x8000_0000) as int32
  }

  /** The counter after `n` successive increments. */
  function IncrementedBy(c: int32, n: nat): int32 {
    if n == 0 then c else Increment(IncrementedBy(c, n - 1))
  }

  /** Without overflow, `n` successive increments raise the counter by exactly `n`. */
  lemma {:induction false} IncrementedByAdds(c: int32, n: nat)
    requires c as int + n <= Int32Max as int
    ensures IncrementedBy(c, n) as int == c as int + n
  {
    if n > 0 {
      IncrementedByAdds(c, n - 1);
    }
  }

  /** A category and its running count, produced while aggregating statistics. */
  class BookStatResponse {
    const bookType: BookType
    var count: int32

    /** Stores the given type and count unchanged. */
    constructor (bookType: BookType, count: int32)
      ensures this.bookType == bookType && this.count == count
    {
      this.bookType := bookType;
      this.count := count;
    }

    /**
     * `plusOne()`: increments `count`. Only `count` is in the frame; `bookType`
     * is a `val` (a `const` here) and cannot change.
     */
    method PlusOne()
      modifies this`count
      ensures count == Increment(old(count))
    {
      count := Increment(count);
    }
  }
}
