/** The hash accumulator of the general-purpose hash tables: the mixing steps
    of Jenkins' one-at-a-time hash on 32-bit unsigned words. Every step wraps
    around modulo 2^32, which `bv32` arithmetic does by itself. */
module HashAccu {

  /** hash_accu_t: a single 32-bit unsigned word. */
  datatype Accu = Accu(a: bv32)

  /** HASH_ACCU_INIT: the accumulator starts at zero. */
  function Init(): (r: Accu)
    ensures Value(r) == 0
  {
    Accu(0)
  }

  /** The cast `(hash_value_t)(data)`: the low 32 bits of an integer or pointer. */
  function Low32(data: bv64): (low: bv32)
  {
    (data & 0xFFFF_FFFF) as bv32
  }

  /** HASH_ACCU_ADD: a += data; a += a << 10; a ^= a >> 6. The two mixing steps
      lose nothing: the sum of the old word and the data can be read back from
      the new word. */
  function Add(acc: Accu, data: bv64): (r: Accu)
    ensures UnmixAdd(r) == acc.a + Low32(data)
  {
    var a1 := acc.a + Low32(data);
    ShiftAddInverse10(a1);
    XorShiftInverse6(ShiftAdd10(a1));
    Accu(XorShift6(ShiftAdd10(a1)))
  }

  /** The inverse of ADD's mixing steps. */
  function UnmixAdd(acc: Accu): (sum: bv32)
  {
    UnshiftAdd10(UnxorShift6(acc.a))
  }

  /** HASH_ACCU_FINISH: a += a << 3; a ^= a >> 11; a += a << 15. Every step is a
      bijection on 32-bit words, so finishing maps distinct accumulators to
      distinct values. */
  function Finish(acc: Accu): (r: Accu)
    ensures Unfinish(r) == acc
  {
    ShiftAddInverse3(acc.a);
    XorShiftInverse11(ShiftAdd3(acc.a));
    ShiftAddInverse15(XorShift11(ShiftAdd3(acc.a)));
    Accu(ShiftAdd15(XorShift11(ShiftAdd3(acc.a))))
  }

  /** The inverse of FINISH: the inverses of its steps in reverse order. */
  function Unfinish(acc: Accu): (r: Accu)
  {
    Accu(UnshiftAdd3(UnxorShift11(UnshiftAdd15(acc.a))))
  }

  /** The mixing steps, one function each, with their inverses. */
  function ShiftAdd3(a: bv32): (b: bv32) { a + (a << 3) }
  function ShiftAdd10(a: bv32): (b: bv32) { a + (a << 10) }
  function ShiftAdd15(a: bv32): (b: bv32) { a + (a << 15) }
  function XorShift6(a: bv32): (b: bv32) { a ^ (a >> 6) }
  function XorShift11(a: bv32): (b: bv32) { a ^ (a >> 11) }

  /** Multiplication by the inverse of 9 modulo 2^32. */
  function UnshiftAdd3(a: bv32): (b: bv32) { a * 0x38E3_8E39 }
  /** Multiplication by the inverse of 1 + 2^10 modulo 2^32. */
  function UnshiftAdd10(a: bv32): (b: bv32) { a * 0xC00F_FC01 }
  /** Multiplication by 1 - 2^15 + 2^30, the inverse of 1 + 2^15 modulo 2^32. */
  function UnshiftAdd15(a: bv32): (b: bv32) { a - (a << 15) + (a << 30) }
  function UnxorShift6(a: bv32): (b: bv32) { a ^ (a >> 6) ^ (a >> 12) ^ (a >> 18) ^ (a >> 24) ^ (a >> 30) }
  function UnxorShift11(a: bv32): (b: bv32) { a ^ (a >> 11) ^ (a >> 22) }

  lemma ShiftAddInverse3(x: bv32)
    ensures UnshiftAdd3(ShiftAdd3(x)) == x
  {
    assert ShiftAdd3(x) == x * 9;
    assert x * 9 * 0x38E3_8E39 == x * (9 * 0x38E3_8E39);
  }

  /** The mixing steps other than a += a << 3, and their inverses, on the bits. */
  lemma StepInverses(x: bv32)
    ensures var y := x + (x << 15); y - (y << 15) + (y << 30) == x
    ensures var y := x ^ (x >> 6); y ^ (y >> 6) ^ (y >> 12) ^ (y >> 18) ^ (y >> 24) ^ (y >> 30) == x
    ensures var y := x ^ (x >> 11); y ^ (y >> 11) ^ (y >> 22) == x
  {
  }

  lemma ShiftAddInverse10(x: bv32)
    ensures UnshiftAdd10(ShiftAdd10(x)) == x
  {
    assert ShiftAdd10(x) == x * 1025;
    assert x * 1025 * 0xC00F_FC01 == x * (1025 * 0xC00F_FC01);
  }

  lemma ShiftAddInverse15(x: bv32)
    ensures UnshiftAdd15(ShiftAdd15(x)) == x
  {
    var y := x + (x << 15);
    StepInverses(x);
    calc {
      UnshiftAdd15(ShiftAdd15(x));
      UnshiftAdd15(y);
      x;
    }
  }

  lemma XorShiftInverse6(x: bv32)
    ensures UnxorShift6(XorShift6(x)) == x
  {
    var y := x ^ (x >> 6);
    StepInverses(x);
    calc {
      UnxorShift6(XorShift6(x));
      UnxorShift6(y);
      x;
    }
  }

  lemma XorShiftInverse11(x: bv32)
    ensures UnxorShift11(XorShift11(x)) == x
  {
    var y := x ^ (x >> 11);
    StepInverses(x);
    calc {
      UnxorShift11(XorShift11(x));
      UnxorShift11(y);
      x;
    }
  }

  /** HASH_ACCU_VALUE: the accumulated word itself, as an rvalue. */
  function Value(acc: Accu): (v: bv32)
    ensures Accu(v) == acc
  {
    acc.a + 0
  }

  /** Adding the fields of a composite key one after the other, as a hash
      function built on the accumulator does. */
  function AddAll(acc: Accu, fields: seq<bv64>): (r: Accu)
    decreases |fields|
  {
    if fields == [] then acc else AddAll(Add(acc, fields[0]), fields[1..])
  }

  /** The recipe of the header's usage comment: init, add every field, finish, read the value. */
  function HashFields(fields: seq<bv64>): (h: bv32)
  {
    Value(Finish(AddAll(Init(), fields)))
  }

  /** The accumulator streams: adding `xs` and then `ys` is adding `xs + ys`,
      so a key can be hashed field group by field group. */
  lemma {:induction false} AddAllAppend(acc: Accu, xs: seq<bv64>, ys: seq<bv64>)
    ensures AddAll(AddAll(acc, xs), ys) == AddAll(acc, xs + ys)
    decreases |xs|
  {
    if xs == [] {
      assert xs + ys == ys;
    } else {
      assert (xs + ys)[0] == xs[0];
      assert (xs + ys)[1..] == xs[1..] + ys;
      AddAllAppend(Add(acc, xs[0]), xs[1..], ys);
    }
  }

  /** Nothing added, nothing mixed: the hash of no fields is 0. */
  lemma HashOfNothing()
    ensures HashFields([]) == 0
  {
  }

  /** The same steps as Jenkins' published one-at-a-time hash: hashing the single
      byte 'a' yields its published value 0xca2e9442. */
  lemma OneAtATimeTestVector()
    ensures HashFields(['a' as bv64]) == 0xCA2E_9442
  {
    assert AddAll(Init(), ['a' as bv64]) == AddAll(Add(Init(), 'a' as bv64), []);
    assert Add(Init(), 'a' as bv64) == Accu(0x1_8270);
  }

  /** The hash depends on the order in which fields are added. */
  lemma OrderMatters()
    ensures HashFields([1, 2]) == 0x458C_89F8
    ensures HashFields([2, 1]) == 0x7829_EE12
  {
    assert [1, 2][1..] == [2] && [2, 1][1..] == [1];
    assert Add(Init(), 1) == Accu(0x411) && Add(Accu(0x411), 2) == Accu(0x10_1153);
    assert Add(Init(), 2) == Accu(0x822) && Add(Accu(0x822), 1) == Accu(0x20_1673);
    assert AddAll(Init(), [1, 2]) == AddAll(Accu(0x10_1153), []);
    assert AddAll(Init(), [2, 1]) == AddAll(Accu(0x20_1673), []);
  }
}
