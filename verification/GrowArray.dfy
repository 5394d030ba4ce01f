/** The overflow-checked array growth of xmalloc.c, on a machine with a 64-bit `size_t`. */
module GrowArray {
  import Bits

  /** One past the largest `size_t`. */
  const SIZE_LIMIT := 0x1_0000_0000_0000_0000
  /** `HALF_SIZE_T`. */
  const HALF_SIZE_T := 0x1_0000_0000
  /** `64 * sizeof(long) / 4`. */
  const DEFAULT_ALLOC_SIZE := 128

  /** The bytes of `nmemb` elements of `size` octets can be counted in a `size_t`. */
  predicate Fits(nmemb: nat, size: nat) {
    nmemb * size < SIZE_LIMIT
  }

  /** The test with which `xreallocarray` dies before it calls `realloc`. */
  predicate RejectedAsOverflow(nmemb: nat, size: nat) {
    var bytes := (nmemb * size) % SIZE_LIMIT;
    Bits.Or(nmemb, size) >= HALF_SIZE_T && size != 0 && bytes / size != nmemb
  }

  lemma TimesMonotonic(a: nat, b: nat, c: nat)
    requires a <= b
    ensures a * c <= b * c
  {
    assert b * c == a * c + (b - a) * c;
  }

  /** A quotient and its neighbour bracket the dividend. */
  lemma QuotientBrackets(n: nat, d: nat)
    requires d > 0
    ensures (n / d) * d <= n < (n / d + 1) * d
  {
    assert n == (n / d) * d + n % d;
    assert (n / d + 1) * d == (n / d) * d + d;
  }

  lemma ProductDiv(a: nat, b: nat)
    requires b > 0
    ensures (a * b) / b == a
  {
    var q := (a * b) / b;
    QuotientBrackets(a * b, b);
    Bracketed(a, q, b);
  }

  /** Two quotients of the same product by the same divisor agree. */
  lemma Bracketed(a: nat, q: nat, b: nat)
    requires q * b <= a * b < (q + 1) * b
    ensures q == a
  {
    if q < a {
      TimesMonotonic(q + 1, a, b);
    }
    if q > a {
      TimesMonotonic(a, q, b);
    }
    assert (q - a) * b == q * b - a * b;
  }

  lemma SmallProduct(a: nat, b: nat)
    requires a < HALF_SIZE_T && b < HALF_SIZE_T
    ensures a * b < SIZE_LIMIT
  {
    TimesMonotonic(a, HALF_SIZE_T - 1, b);
  }

  /** Dividing the wrapped product back recovers the first factor exactly when nothing wrapped. */
  lemma WrappedProduct(nmemb: nat, size: nat)
    requires size > 0
    ensures (nmemb * size) % SIZE_LIMIT / size == nmemb <==> nmemb * size < SIZE_LIMIT
  {
    var bytes := (nmemb * size) % SIZE_LIMIT;
    ProductDiv(nmemb, size);
    QuotientBrackets(bytes, size);
    if bytes / size == nmemb {
      assert nmemb * size <= bytes;
    }
  }

  /** Despite the half-width shortcut, the test fires exactly when the product does not fit. */
  lemma OverflowCheckIsExact(nmemb: nat, size: nat)
    requires nmemb < SIZE_LIMIT && size < SIZE_LIMIT
    ensures RejectedAsOverflow(nmemb, size) <==> !Fits(nmemb, size)
  {
    Bits.Pow2Values();
    Bits.OrAtLeast(nmemb, size, 32);
    if nmemb < HALF_SIZE_T && size < HALF_SIZE_T {
      SmallProduct(nmemb, size);
    } else if size == 0 {
      assert nmemb * size == 0;
    } else {
      WrappedProduct(nmemb, size);
    }
  }

  function Quotient(n: nat, size: nat): nat
    requires size > 0
  {
    n / size
  }

  /** How many elements `xgrowarray` adds to an array of `nmemb`. */
  function GrowBy(isNull: bool, nmemb: nat, size: nat): nat
    requires size > 0
  {
    if isNull then
      if nmemb != 0 then 0 else Quotient((DEFAULT_ALLOC_SIZE + size - 1) % SIZE_LIMIT, size)
    else nmemb / 2 + 1
  }

  datatype Growth = Died | Grown(nmemb: nat)

  /** `xgrowarray`: the new element count, or death. */
  function XGrowArray(isNull: bool, nmemb: nat, size: nat): Growth
    requires size > 0
  {
    var sum := (nmemb + GrowBy(isNull, nmemb, size)) % SIZE_LIMIT;
    if sum < nmemb then Died
    else if RejectedAsOverflow(sum, size) then Died
    else Grown(sum)
  }

  /**
   `xgrowarray` dies exactly when the new array would not fit, and otherwise
   it strictly grows the array exactly when the array is not null, or when it
   is null and empty and the element size leaves room for the rounding.
   */
  lemma GrowthIsStrict(isNull: bool, nmemb: nat, size: nat)
    requires nmemb < SIZE_LIMIT && 0 < size < SIZE_LIMIT
    ensures var g := XGrowArray(isNull, nmemb, size);
            var wanted := nmemb + GrowBy(isNull, nmemb, size);
            && (g.Died? <==> wanted >= SIZE_LIMIT || !Fits(wanted, size))
            && (g.Grown? ==> g.nmemb == wanted)
            && (g.Grown? ==>
                  (g.nmemb > nmemb <==>
                     (isNull ==> nmemb == 0 && size <= SIZE_LIMIT - DEFAULT_ALLOC_SIZE)))
  {
    var step := GrowBy(isNull, nmemb, size);
    FirstAllocation(size);
    assert step < SIZE_LIMIT;
    WrappedSum(nmemb, step);
    if nmemb + step < SIZE_LIMIT {
      OverflowCheckIsExact(nmemb + step, size);
    }
  }

  lemma WrappedSum(a: nat, b: nat)
    requires a < SIZE_LIMIT && b < SIZE_LIMIT
    ensures (a + b) % SIZE_LIMIT == if a + b < SIZE_LIMIT then a + b else a + b - SIZE_LIMIT
  {
  }

  lemma QuotientSize(n: nat, d: nat, q: nat)
    requires q * d <= n < (q + 1) * d
    ensures q <= n && (q >= 1 <==> n >= d)
  {
    if q >= 1 {
      TimesMonotonic(1, q, d);
      assert d >= 1;
      TimesMonotonic(1, d, q);
      assert d * q == q * d;
    }
  }

  lemma RoundedDown(n: nat, size: nat)
    requires size > 0
    ensures n / size <= n && (n / size >= 1 <==> n >= size)
  {
    var q: nat := n / size;
    assert q * size <= n < (q + 1) * size by { QuotientBrackets(n, size); }
    QuotientSize(n, size, q);
  }

  /** The rounding that sizes a first allocation gives nothing exactly when it wraps. */
  lemma FirstAllocation(size: nat)
    requires 0 < size < SIZE_LIMIT
    ensures var n := GrowBy(true, 0, size);
            n < SIZE_LIMIT && (n >= 1 <==> size <= SIZE_LIMIT - DEFAULT_ALLOC_SIZE)
  {
    var rounded := (DEFAULT_ALLOC_SIZE + size - 1) % SIZE_LIMIT;
    WrappedSum(DEFAULT_ALLOC_SIZE, size - 1);
    RoundedDown(rounded, size);
  }

  /** Capacity and elements copied so far by `realloc`, after n appends to an empty array; none once it has died. */
  datatype History = Lost | History(capacity: nat, copied: nat)

  function AfterAppends(n: nat, size: nat): History
    requires size > 0
  {
    if n == 0 then History(0, 0)
    else
      match AfterAppends(n - 1, size)
      case Lost => Lost
      case History(capacity, copied) =>
        if n - 1 < capacity then History(capacity, copied)
        else
          match XGrowArray(capacity == 0, capacity, size)
          case Died => Lost
          case Grown(bigger) => History(bigger, copied + capacity)
  }

  /** Appending never outruns the capacity, and all the copying done by reallocation is linear in the length. */
  lemma {:induction false} CopyingIsLinear(n: nat, size: nat)
    requires 0 < size <= SIZE_LIMIT - DEFAULT_ALLOC_SIZE
    ensures var h := AfterAppends(n, size);
            h.History? ==>
              n <= h.capacity < SIZE_LIMIT && h.copied <= 2 * h.capacity && h.copied <= 3 * n
  {
    if n > 0 {
      CopyingIsLinear(n - 1, size);
      var h := AfterAppends(n - 1, size);
      if h.History? && n - 1 >= h.capacity {
        GrowthIsStrict(h.capacity == 0, h.capacity, size);
      }
    }
  }

  /** What one more append does to the history of a vector that holds its greatest length so far. */
  lemma HistoryStep(n: nat, capacity: nat, copied: nat, size: nat)
    requires 0 < size <= SIZE_LIMIT - DEFAULT_ALLOC_SIZE
    requires AfterAppends(n, size) == History(capacity, copied)
    ensures n < capacity ==> AfterAppends(n + 1, size) == History(capacity, copied)
    ensures n == capacity ==>
              var g := XGrowArray(capacity == 0, capacity, size);
              AfterAppends(n + 1, size) == (if g.Died? then Lost else History(g.nmemb, copied + capacity))
              && (g.Grown? ==> capacity < g.nmemb < SIZE_LIMIT)
    ensures n <= capacity && AfterAppends(n + 1, size).History? ==> AfterAppends(n + 1, size).copied <= 3 * (n + 1)
  {
    CopyingIsLinear(n, size);
    CopyingIsLinear(n + 1, size);
    if n == capacity {
      GrowthIsStrict(capacity == 0, capacity, size);
    }
  }

  /** A growing vector: the (list, allocated, len) triple of caller_config.c and mount.c. */
  class Vector<T(0)> {
    var list: array?<T>
    var capacity: nat
    var len: nat
    const elementSize: nat
    /** The greatest length so far, and the elements moved by reallocation so far. */
    ghost var peak: nat
    ghost var copied: nat

    ghost predicate Valid()
      reads this
    {
      && 0 < elementSize <= SIZE_LIMIT - DEFAULT_ALLOC_SIZE
      && len <= peak <= capacity < SIZE_LIMIT
      && (list == null <==> capacity == 0)
      && (list != null ==> list.Length == capacity)
      && AfterAppends(peak, elementSize) == History(capacity, copied)
      && copied <= 3 * peak
    }

    ghost function Contents(): (s: seq<T>)
      reads this, list
      requires Valid()
      ensures |s| == len
    {
      if list == null then [] else list[..len]
    }

    constructor (elementSize: nat)
      requires 0 < elementSize <= SIZE_LIMIT - DEFAULT_ALLOC_SIZE
      ensures Valid() && Contents() == [] && list == null && this.elementSize == elementSize
    {
      this.elementSize := elementSize;
      list, capacity, len, peak, copied := null, 0, 0, 0, 0;
    }

    /** Forget the contents but keep the memory. */
    method Clear()
      requires Valid()
      modifies this`len
      ensures Valid() && Contents() == []
    {
      len := 0;
    }

    /** `realloc` to a larger element count. */
    method Reallocate(nmemb: nat)
      requires if list == null then capacity == 0 else list.Length == capacity
      requires capacity < nmemb
      modifies this`list, this`capacity, this`copied
      ensures list != null && fresh(list) && list.Length == capacity == nmemb
      ensures copied == old(copied) + old(capacity)
      ensures list[..old(capacity)] == if old(list) == null then [] else old(list[..])
    {
      var p := new T[nmemb];
      if list != null {
        forall i | 0 <= i < capacity {
          p[i] := list[i];
        }
      }
      copied := copied + capacity;
      list, capacity := p, nmemb;
    }

    /** Grow if full, then store: `if (len >= allocated) list = xgrowarray(...); list[len++] = x`. */
    method Append(x: T) returns (died: bool)
      requires Valid()
      modifies this, list
      ensures Valid() && (list == old(list) || fresh(list))
      ensures died <==> old(len) == old(capacity) && XGrowArray(old(list) == null, old(capacity), elementSize).Died?
      ensures Contents() == if died then old(Contents()) else old(Contents()) + [x]
    {
      HistoryStep(peak, capacity, copied, elementSize);
      if len >= capacity {
        var g := XGrowArray(list == null, capacity, elementSize);
        if g.Died? {
          return true;
        }
        Reallocate(g.nmemb);
      }
      list[len] := x;
      len := len + 1;
      peak := if len > peak then len else peak;
      died := false;
    }
  }
}
