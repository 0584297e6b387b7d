// The C integer conversions the kernel code relies on: `atomic_t` holds a
// 32-bit int, `size_t` and `unsigned long` are 64 bits wide.
module CInt {
  const INT_MAX: int := 0x7fff_ffff

  const ENOMEM := 12
  const EFAULT := 14
  const EBUSY := 16
  const EINVAL := 22
  const ENOTTY := 25

  predicate InInt(x: int) {
    -0x8000_0000 <= x <= INT_MAX
  }

  // The value a 32-bit int holds after x is stored in it.
  function Wrap32(x: int): (r: int)
    ensures InInt(r)
    ensures (r - x) % 0x1_0000_0000 == 0
    ensures InInt(x) <==> r == x
  {
    (x + 0x8000_0000) % 0x1_0000_0000 - 0x8000_0000
  }

  // Storing after every step is the same as storing once at the end.
  lemma {:induction false} WrapStep(x: int, d: int)
    ensures Wrap32(Wrap32(x) + d) == Wrap32(x + d)
  {
  }

  // Subtracting what was stored is subtracting, then storing.
  lemma {:induction false} WrapMinus(x: int, y: int)
    ensures Wrap32(Wrap32(x) - Wrap32(y)) == Wrap32(x - y)
  {
  }

  // The value an unsigned 32-bit variable holds after x is stored in it.
  function Unsigned32(x: int): (r: int)
    ensures 0 <= r <= 0xffff_ffff
    ensures 0 <= x <= 0xffff_ffff <==> r == x
  {
    x % 0x1_0000_0000
  }

  // Division of ints rounds toward zero.
  function TruncDiv(a: int, b: int): int
    requires b != 0
  {
    if a >= 0 then (if b > 0 then a / b else -(a / -b))
    else if b > 0 then -(-a / b) else -a / -b
  }

  // The value an unsigned 64-bit variable holds after x is stored in it.
  function Wrap64(x: int): (r: int)
    ensures 0 <= r < 0x1_0000_0000_0000_0000
    ensures 0 <= x < 0x1_0000_0000_0000_0000 <==> r == x
  {
    x % 0x1_0000_0000_0000_0000
  }

  // Proofs compare the machine's arithmetic with unbounded arithmetic; every
  // operation that stores or compares a counter takes the kind as a parameter:
  // what storing in an int and converting to size_t do to a value.
  datatype Arith = Arith(int32: int -> int, size64: int -> int)

  const EXACT := Arith(x => x, x => x)
  const MACHINE := Arith(Wrap32, Wrap64)

  function Int(ar: Arith, x: int): int {
    ar.int32(x)
  }

  function Size(ar: Arith, x: int): int {
    ar.size64(x)
  }

  datatype Option<+T> = None | Some(value: T)
}
