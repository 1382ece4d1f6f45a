// 32-bit sequence numbers and their comparison (RFC 793, section 3.3).
module SeqNum {
  import opened Bytes

  // SN_LS and SN_LE
  datatype Op = Ls | Le

  function Add(x: u32, n: int): u32 {
    (x + n) % M32
  }

  // Distance from base up to x around the circle.
  function Off(base: u32, x: u32): u32 {
    (x - base) % M32
  }

  // The circular interval from min up to max, each end open (Ls) or closed (Le):
  // the reading RFC 793 gives to "min < x <= max" and its three variants.
  predicate InCircle(min: u32, op1: Op, x: u32, op2: Op, max: u32) {
    && (op1 == Ls ==> Off(min, x) > 0)
    && (if op2 == Ls then Off(min, x) < Off(min, max) else Off(min, x) <= Off(min, max))
  }

  // sncmp, branch by branch.
  predicate Sncmp(min: u32, op1: Op, x: u32, op2: Op, max: u32) {
    if min == max then
      x == max && op1 == op2 && op1 == Le
    else if min < max then
      match (op1, op2)
      case (Ls, Ls) => min < x && x < max
      case (Le, Ls) => min <= x && x < max
      case (Ls, Le) => min < x && x <= max
      case (Le, Le) => min <= x && x <= max
    else
      match (op1, op2)
      case (Ls, Ls) => !(max <= x && x <= min)
      case (Le, Ls) => max <= x && x < min
      case (Ls, Le) => max < x && x <= min
      case (Le, Le) => max < x && x < min
  }

  // What the three remaining wrapped branches evidently intend: the negation, as the
  // strict/strict branch has it.
  predicate SncmpIntended(min: u32, op1: Op, x: u32, op2: Op, max: u32) {
    if min > max && !(op1 == Ls && op2 == Ls) then !Sncmp(min, op1, x, op2, max) else Sncmp(min, op1, x, op2, max)
  }

  // sncmp decides circular membership exactly when the interval does not wrap or both
  // ends are strict; in every other case its answer is wrong for every x.
  lemma SncmpCorrectIff(min: u32, op1: Op, x: u32, op2: Op, max: u32)
    ensures Sncmp(min, op1, x, op2, max) == InCircle(min, op1, x, op2, max)
       <==> min <= max || (op1 == Ls && op2 == Ls)
  {
    OffCases(min, x);
    OffCases(min, max);
  }

  // With the negation in place the comparison is right on all of its inputs.
  lemma SncmpIntendedCorrect(min: u32, op1: Op, x: u32, op2: Op, max: u32)
    ensures SncmpIntended(min, op1, x, op2, max) == InCircle(min, op1, x, op2, max)
  {
    SncmpCorrectIff(min, op1, x, op2, max);
  }

  lemma OffCases(base: u32, x: u32)
    ensures Off(base, x) == if base <= x then x - base else x - base + M32
  {
  }

  lemma OffAdd(base: u32, n: nat)
    ensures n < M32 ==> Off(base, Add(base, n)) == n
    ensures Add(Add(base, n), 0) == Add(base, n)
  {
    if n < M32 {
      OffCases(base, Add(base, n));
      assert Add(base, n) == if base + n < M32 then base + n else base + n - M32;
    }
  }

  lemma AddOff(base: u32, x: u32)
    ensures Add(base, Off(base, x)) == x
  {
    OffCases(base, x);
  }

  lemma AddAdd(base: u32, m: int, n: int)
    ensures Add(Add(base, m), n) == Add(base, m + n)
  {
    var q := (base + m) / M32;
    assert base + m + n == Add(base, m) + n + M32 * q;
    ModPlus(Add(base, m) + n, q);
  }

  lemma ModPlus(a: int, q: int)
    ensures (a + M32 * q) % M32 == a % M32
  {
    var d, r := a / M32, a % M32;
    assert a + M32 * q == M32 * (d + q) + r;
  }
}
