/** Machine words and page arithmetic of the 32-bit kernel builds.
    UINTN and pointers are 32 bits wide, ULONGLONG (file offsets and file
    sizes) is 64 bits wide; additions and subtractions wrap as in C.  The
    page size is the power of two 4096, so the mask operations of the
    ALIGN_* and REMAINDER macros are written as their arithmetic
    equivalents. */
module Machine {

  const UINTN_LIMIT: int := 0x1_0000_0000
  const MAX_UINTN: int := UINTN_LIMIT - 1
  const ULONGLONG_LIMIT: int := 0x1_0000_0000_0000_0000

  const PAGE_SHIFT: nat := 12
  const PAGE_SIZE: int := 0x1000

  /** First kernel-mode virtual address of the 32-bit builds. */
  const KERNEL_VA_START: int := 0x8000_0000

  type UIntN = x: int | 0 <= x < UINTN_LIMIT
  type ULongLong = x: int | 0 <= x < ULONGLONG_LIMIT

  /** `a + b` on UINTN (or on pointers): the sum when it fits, and it
      has wrapped exactly when the result is not above `a` with `b`
      nonzero. */
  function Add(a: UIntN, b: UIntN): (r: UIntN)
    ensures a + b < UINTN_LIMIT ==> r == a + b
    ensures r <= a <==> a + b >= UINTN_LIMIT || b == 0
  {
    if a + b < UINTN_LIMIT then a + b else a + b - UINTN_LIMIT
  }

  /** `a - b` on UINTN: the difference when it is not negative, and in
      every case the value that `b` added back returns to `a`. */
  function Sub(a: UIntN, b: UIntN): (r: UIntN)
    ensures b <= a ==> r == a - b
    ensures Add(r, b) == a
  {
    if a >= b then a - b else a - b + UINTN_LIMIT
  }

  /** UINTN addition and subtraction are arithmetic modulo 2^32. */
  lemma WordArithmeticIsModular(a: UIntN, b: UIntN)
    ensures Add(a, b) == (a + b) % UINTN_LIMIT
    ensures Sub(a, b) == (a - b) % UINTN_LIMIT
  {
  }

  /** `a - b` on ULONGLONG: wraps modulo 2^64. */
  function Sub64(a: ULongLong, b: ULongLong): (r: ULongLong)
    ensures r == (a - b) % ULONGLONG_LIMIT
    ensures b <= a ==> r == a - b
  {
    if a >= b then a - b else a - b + ULONGLONG_LIMIT
  }

  /** `a + b` on ULONGLONG: wraps modulo 2^64. */
  function Add64(a: ULongLong, b: ULongLong): (r: ULongLong)
    ensures r == (a + b) % ULONGLONG_LIMIT
    ensures r <= a <==> a + b >= ULONGLONG_LIMIT || b == 0
  {
    if a + b < ULONGLONG_LIMIT then a + b else a + b - ULONGLONG_LIMIT
  }

  /** IS_ALIGNED(x, PageSize). */
  predicate IsPageAligned(x: int) {
    x % PAGE_SIZE == 0
  }

  /** ALIGN_POINTER_DOWN(x, PageSize): the page that holds x. */
  function AlignDown(x: UIntN): (r: UIntN)
    ensures IsPageAligned(r) && r <= x < r + PAGE_SIZE
  {
    x - x % PAGE_SIZE
  }

  /** ALIGN_RANGE_UP(x, PageSize), computed in UINTN: the least page
      multiple at or above x, or 0 when that multiple is not representable
      (the addition inside the macro wraps). */
  function AlignRangeUp(x: UIntN): (r: UIntN)
    ensures IsPageAligned(r)
    ensures x <= UINTN_LIMIT - PAGE_SIZE ==> x <= r < x + PAGE_SIZE
    ensures x > UINTN_LIMIT - PAGE_SIZE ==> r == 0
  {
    if x > UINTN_LIMIT - PAGE_SIZE then 0
    else if IsPageAligned(x) then x
    else x - x % PAGE_SIZE + PAGE_SIZE
  }

  /** The macro itself rounds down the wrapped sum x + PageSize - 1. */
  lemma AlignRangeUpIsMacro(x: UIntN)
    ensures AlignRangeUp(x) == AlignDown(Add(x, PAGE_SIZE - 1))
  {
  }

  /** ALIGN_RANGE_UP gives 0 exactly for 0 and for the sizes whose rounded
      value does not fit, and leaves page multiples alone. */
  lemma AlignRangeUpZero(x: UIntN)
    ensures AlignRangeUp(x) == 0 <==> x == 0 || x > UINTN_LIMIT - PAGE_SIZE
    ensures IsPageAligned(x) ==> AlignRangeUp(x) == x
  {
  }

  /** ALIGN_RANGE_UP yields the least page multiple at or above x: it does
      not pass any page-aligned bound of x. */
  lemma AlignRangeUpBelow(x: UIntN, bound: int)
    requires x <= bound <= UINTN_LIMIT - PAGE_SIZE && IsPageAligned(bound)
    ensures AlignRangeUp(x) <= bound
  {
  }

  /** The range [start, start + size) as C sees it: its end does not wrap. */
  predicate NoWrap(start: UIntN, size: UIntN) {
    start + size < UINTN_LIMIT
  }
}
