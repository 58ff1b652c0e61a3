/** The check value of lib/include/lib_crc.h against what its parameters give. */
module CheckValue {
  import opened Folds
  import opened CrcSpec

  const CHECK_VALUE: bv32 := 0xcbf4_3926

  function Eight(c: bv32): bv32 {
    StepLe(StepLe(StepLe(StepLe(StepLe(StepLe(StepLe(StepLe(c))))))))
  }

  lemma IterateFour<T>(f: T -> T, x: T, n: nat)
    ensures Iterate(f, x, n + 4) == Iterate(f, f(f(f(f(x)))), n)
  {
    assert Iterate(f, x, n + 4) == Iterate(f, f(x), n + 3);
    assert Iterate(f, f(x), n + 3) == Iterate(f, f(f(x)), n + 2);
    assert Iterate(f, f(f(x)), n + 2) == Iterate(f, f(f(f(x))), n + 1);
  }

  lemma ByteIsEight(c: bv32, b: bv8)
    ensures ByteLe(c, b) == Eight(Xor(c, b as bv32))
  {
    var x := Xor(c, b as bv32);
    IterateFour(StepLe, x, 4);
    IterateFour(StepLe, StepLe(StepLe(StepLe(StepLe(x)))), 0);
  }

  lemma CheckBytes()
    ensures Eight(Xor(0xffff_ffff, 0x31)) == 0x7c23_1048
    ensures Eight(Xor(0x7c23_1048, 0x32)) == 0xb0ac_bb32
    ensures Eight(Xor(0xb0ac_bb32, 0x33)) == 0x77b7_9c2d
    ensures Eight(Xor(0x77b7_9c2d, 0x34)) == 0x641c_1f5c
    ensures Eight(Xor(0x641c_1f5c, 0x35)) == 0x340a_c5e3
    ensures Eight(Xor(0x340a_c5e3, 0x36)) == 0xf68d_2c9e
    ensures Eight(Xor(0xf68d_2c9e, 0x37)) == 0xaffc_9660
    ensures Eight(Xor(0xaffc_9660, 0x38)) == 0x651f_2550
    ensures Eight(Xor(0x651f_2550, 0x39)) == 0x340b_c6d9
  {}

  lemma OneByte(c: bv32, b: bv8, d: bv32)
    requires Eight(Xor(c, b as bv32)) == d
    ensures ByteLe(c, b) == d
  {
    ByteIsEight(c, b);
  }

  /** The nine bytes "123456789". */
  const DIGITS: seq<bv8> := [0x31, 0x32, 0x33, 0x34, 0x35, 0x36, 0x37, 0x38, 0x39]

  lemma FoldNine<S, B>(g: (S, B) -> S, m: seq<B>, s: seq<S>)
    requires |m| == 9 && |s| == 10
    requires forall i :: 0 <= i < 9 ==> g(s[i], m[i]) == s[i + 1]
    ensures Fold(g, s[0], m) == s[9]
  {
    FoldTrace(g, s, m, 9);
    assert m[..9] == m;
  }

  lemma {:induction false} FoldTrace<S, B>(g: (S, B) -> S, s: seq<S>, m: seq<B>, n: nat)
    requires n <= |m| < |s|
    requires forall i :: 0 <= i < |m| ==> g(s[i], m[i]) == s[i + 1]
    ensures Fold(g, s[0], m[..n]) == s[n]
    decreases n
  {
    if n > 0 {
      FoldTrace(g, s, m, n - 1);
      assert g(s[n - 1], m[n - 1]) == s[n];
      assert m[..n] == m[..n - 1] + [m[n - 1]];
      FoldLast(g, s[0], m[..n - 1], m[n - 1]);
    }
  }

  /** The results after none and after each of them. */
  lemma DigitSteps()
    ensures ByteLe(0xffff_ffff, 0x31) == 0x7c23_1048
    ensures ByteLe(0x7c23_1048, 0x32) == 0xb0ac_bb32
    ensures ByteLe(0xb0ac_bb32, 0x33) == 0x77b7_9c2d
    ensures ByteLe(0x77b7_9c2d, 0x34) == 0x641c_1f5c
    ensures ByteLe(0x641c_1f5c, 0x35) == 0x340a_c5e3
    ensures ByteLe(0x340a_c5e3, 0x36) == 0xf68d_2c9e
    ensures ByteLe(0xf68d_2c9e, 0x37) == 0xaffc_9660
    ensures ByteLe(0xaffc_9660, 0x38) == 0x651f_2550
    ensures ByteLe(0x651f_2550, 0x39) == 0x340b_c6d9
  {
    CheckBytes();
    OneByte(0xffff_ffff, 0x31, 0x7c23_1048);
    OneByte(0x7c23_1048, 0x32, 0xb0ac_bb32);
    OneByte(0xb0ac_bb32, 0x33, 0x77b7_9c2d);
    OneByte(0x77b7_9c2d, 0x34, 0x641c_1f5c);
    OneByte(0x641c_1f5c, 0x35, 0x340a_c5e3);
    OneByte(0x340a_c5e3, 0x36, 0xf68d_2c9e);
    OneByte(0xf68d_2c9e, 0x37, 0xaffc_9660);
    OneByte(0xaffc_9660, 0x38, 0x651f_2550);
    OneByte(0x651f_2550, 0x39, 0x340b_c6d9);
  }

  lemma DigitsCrc()
    ensures CrcLe(0xffff_ffff, DIGITS) == 0x340b_c6d9
  {
    DigitSteps();
    FoldNine(ByteLe, DIGITS, [
      0xffff_ffff, 0x7c23_1048, 0xb0ac_bb32, 0x77b7_9c2d, 0x641c_1f5c,
      0x340a_c5e3, 0xf68d_2c9e, 0xaffc_9660, 0x651f_2550, 0x340b_c6d9
    ]);
  }

  /**
    With the initial value of all ones and no final exclusive or that the
    header configures, the check string does not give the check value that the
    header states; the final exclusive or that does is all ones, and no other.
   */
  lemma CheckValueNeedsFinalXor(final: bv32)
    ensures Xor(CrcLe(0xffff_ffff, DIGITS), final) == CHECK_VALUE <==> final == 0xffff_ffff
  {
    DigitsCrc();
    OnlyOnes(final);
  }

  lemma OnlyOnes(final: bv32)
    ensures Xor(0x340b_c6d9, final) == CHECK_VALUE <==> final == 0xffff_ffff
  {}
}
