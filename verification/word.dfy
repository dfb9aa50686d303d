/** Fixed-width unsigned integers as the firmware's C code sees them.

    `UINT32` arithmetic wraps modulo 2^32; `UINTN` is the native pointer width,
    32 bits on an IA32 build and 64 bits on an X64 build. Dafny integers are
    unbounded, so every wrap-around is written out here.
 */
module Word {

  const Modulus32: int := 0x1_0000_0000
  const Modulus64: int := 0x1_0000_0000_0000_0000

  /** A C `UINT32` value. */
  type u32 = x: int | 0 <= x < 0x1_0000_0000

  /** `k` whole turns of the 32-bit range. */
  function Turns(k: int): int
  {
    k * Modulus32
  }

  /** `a` and `b` are equal modulo 2^32: they differ by whole turns of the
      32-bit range. */
  ghost predicate Congruent(a: int, b: int)
  {
    exists k :: a - b == Turns(k)
  }

  /** `k` is the number of turns between `a` and `b`. */
  lemma CongruentBy(a: int, b: int, k: int)
    requires a - b == Turns(k)
    ensures Congruent(a, b)
  {
  }

  /** UINT32 addition, wrapping past 2^32: the one `UINT32` value congruent
      to the sum, and never above it. */
  function Add32(a: u32, b: u32): (r: u32)
    ensures Congruent(r, a + b)
    ensures r <= a + b
  {
    if a + b < Modulus32 then
      CongruentBy(a + b, a + b, 0);
      a + b
    else
      CongruentBy(a + b - Modulus32, a + b, -1);
      a + b - Modulus32
  }

  /** UINT32 subtraction, borrowing from 2^32 when `b > a`: adding `b` back
      gives `a` modulo 2^32, and without a borrow it is the plain difference. */
  function Sub32(a: u32, b: u32): (r: u32)
    ensures Congruent(r + b, a)
    ensures b <= a ==> r == a - b
  {
    if b <= a then
      CongruentBy(a, a, 0);
      a - b
    else
      CongruentBy(a + Modulus32, a, 1);
      a - b + Modulus32
  }

  /** `Sub32(_, b)` undoes `Add32(_, b)` and the other way round. */
  lemma Sub32Inverse(a: u32, b: u32)
    ensures Add32(Sub32(a, b), b) == a
    ensures Sub32(Add32(a, b), b) == a
  {
  }

  /** UINT32 multiplication by two, keeping the low 32 bits. */
  function Twice32(a: u32): (r: u32)
    ensures Congruent(r, 2 * a)
    ensures r <= 2 * a
  {
    if 2 * a < Modulus32 then
      CongruentBy(2 * a, 2 * a, 0);
      2 * a
    else
      CongruentBy(2 * a - Modulus32, 2 * a, -1);
      2 * a - Modulus32
  }

  /** A `(UINT32)` cast of a wider unsigned value: the low 32 bits. */
  function Truncate32(x: int): (r: u32)
    requires 0 <= x
    ensures x < Modulus32 ==> r == x
    ensures Congruent(x, r)
  {
    CongruentMod(x);
    x % Modulus32
  }

  /** The two builds of the firmware, which differ in the width of `UINTN`. */
  datatype Arch = Ia32 | X64

  function UintnModulus(arch: Arch): (m: int)
    ensures m >= Modulus32
    ensures m % Modulus32 == 0
  {
    match arch
    case Ia32 => Modulus32
    case X64 => Modulus64
  }

  /** `UINTN` addition on the given build. */
  function AddN(arch: Arch, a: int, b: int): (r: int)
    requires 0 <= a && 0 <= b
    ensures 0 <= r < UintnModulus(arch)
    ensures a + b < UintnModulus(arch) ==> r == a + b
    ensures UintnModulus(arch) <= a + b < 2 * UintnModulus(arch) ==> r == a + b - UintnModulus(arch)
  {
    (a + b) % UintnModulus(arch)
  }

  /** UINT64 subtraction, borrowing from 2^64 when `b > a`. */
  function Sub64(a: int, b: int): (r: int)
    requires 0 <= a < Modulus64 && 0 <= b < Modulus64
    ensures 0 <= r < Modulus64
    ensures b <= a ==> r == a - b
    ensures b > a ==> r == a - b + Modulus64
  {
    (a - b) % Modulus64
  }

  /** A `UINTN` sum is the plain sum modulo 2^32, whatever the build. */
  lemma AddNCongruent(arch: Arch, a: int, b: int)
    requires 0 <= a && 0 <= b
    ensures Congruent(AddN(arch, a, b), a + b)
  {
    var q := (a + b) / UintnModulus(arch);
    match arch
    case Ia32 =>
      CongruentBy(AddN(arch, a, b), a + b, -q);
    case X64 =>
      assert AddN(arch, a, b) - (a + b) == -q * Modulus64;
      CongruentBy(AddN(arch, a, b), a + b, -q * Modulus32);
  }

  /** Sums of congruent values are congruent. */
  lemma CongruentAdd(a: int, b: int, c: int, d: int)
    requires Congruent(a, b) && Congruent(c, d)
    ensures Congruent(a + c, b + d)
  {
    var k1 :| a - b == Turns(k1);
    var k2 :| c - d == Turns(k2);
    CongruentBy(a + c, b + d, k1 + k2);
  }

  /** Congruence is transitive. */
  lemma CongruentTrans(a: int, b: int, c: int)
    requires Congruent(a, b) && Congruent(b, c)
    ensures Congruent(a, c)
  {
    var k1 :| a - b == Turns(k1);
    var k2 :| b - c == Turns(k2);
    CongruentBy(a, c, k1 + k2);
  }

  /** A value is congruent to its remainder modulo 2^32, in both directions. */
  lemma CongruentMod(a: int)
    ensures Congruent(a % Modulus32, a) && Congruent(a, a % Modulus32)
  {
    CongruentBy(a % Modulus32, a, -(a / Modulus32));
    CongruentBy(a, a % Modulus32, a / Modulus32);
  }

  /** Congruence is reflexive. */
  lemma CongruentRefl(a: int)
    ensures Congruent(a, a)
  {
    CongruentBy(a, a, 0);
  }

  /** Congruence is symmetric. */
  lemma CongruentSym(a: int, b: int)
    requires Congruent(a, b)
    ensures Congruent(b, a)
  {
    var k :| a - b == Turns(k);
    CongruentBy(b, a, -k);
  }

  /** Two congruent values of the same 32-bit range are equal. */
  lemma CongruentUnique(a: int, b: int)
    requires Congruent(a, b)
    requires 0 <= a < Modulus32 && 0 <= b < Modulus32
    ensures a == b
  {
    var k :| a - b == Turns(k);
  }

  /** The one `UINT32` value congruent to `a` is `a % 2^32`. */
  lemma CongruentValue(a: int, b: u32)
    requires Congruent(a, b)
    ensures a % Modulus32 == b
  {
    CongruentMod(a);
    CongruentTrans(a % Modulus32, a, b);
    CongruentUnique(a % Modulus32, b);
  }

  /** Congruent values have the same remainder modulo 2^32. */
  lemma CongruentMods(a: int, b: int)
    requires Congruent(a, b)
    ensures a % Modulus32 == b % Modulus32
  {
    CongruentMod(b);
    CongruentTrans(a, b, b % Modulus32);
    CongruentValue(a, b % Modulus32);
  }
}
