/** The digest of the message "abc" that FIPS 180-4 gives as an example, computed round by round. */
module HashExample {
  import opened Words
  import opened BitWords
  import opened Sha1Standard
  import opened MachineWords
  import Sha1

  // ---- The message ----

  const ABC: bytes := [0x61, 0x62, 0x63]

  /** The message filled up to one block. */
  function TheBlock(): Block {
    [0x61, 0x62, 0x63, 0x80] + Zeros(52) + [0, 0, 0, 0, 0, 0, 0, 24]
  }

  predicate IsAbc(b: Block) { b == TheBlock() }

  lemma PaddedAbc()
    ensures |Padded(ABC)| == 64 && IsAbc(Padded(ABC))
  {
    assert ABC + [0x80] == [0x61, 0x62, 0x63, 0x80];
    assert ZeroBytes(3) == 52;
    assert BE64(24) == [0, 0, 0, 0, 0, 0, 0, 24];
  }

  // ---- The schedule ----

  /** A word of the schedule. */
  predicate WordIs(b: Block, t: nat, x: bv32) {
    forall u :: u == t ==> ScheduleWord(b, u) == Number(Machine(x))
  }

  lemma FirstWords(b: Block)
    requires IsAbc(b)
    ensures WordIs(b, 0, 0x6162_6380) && WordIs(b, 15, 24)
    ensures forall t :: 0 < t < 15 ==> WordIs(b, t, 0)
  {
    hide Number;
    NumberIsWeights(Machine(0x6162_6380));
    NumberIsWeights(Machine(24));
    NumberIsWeights(Machine(0));
    assert b[0..4] == [0x61, 0x62, 0x63, 0x80] && b[60..64] == [0, 0, 0, 24];
    forall t | 0 < t < 15 ensures WordIs(b, t, 0) {
      assert b[4 * t..4 * t + 4] == [0, 0, 0, 0];
    }
  }

  lemma WordAt(b: Block, t: nat, x: bv32)
    requires WordIs(b, t, x)
    ensures ScheduleWord(b, t) == Number(Machine(x))
  {
    hide Number;
  }

  lemma NextWord(b: Block, t: nat, x3: bv32, x8: bv32, x14: bv32, x16: bv32, y: bv32)
    requires t >= 16
    requires WordIs(b, t - 3, x3) && WordIs(b, t - 8, x8) && WordIs(b, t - 14, x14) && WordIs(b, t - 16, x16)
    requires Machine(y) == Turn1(Xor(Xor(Xor(Machine(x3), Machine(x8)), Machine(x14)), Machine(x16)))
    ensures WordIs(b, t, y)
  {
    hide Number, Word, RotateLeft, Xor, Turn1;
    WordAt(b, t - 3, x3);
    WordAt(b, t - 8, x8);
    WordAt(b, t - 14, x14);
    WordAt(b, t - 16, x16);
    var m := Xor(Machine(x3), Machine(x8));
    var n := Xor(m, Machine(x14));
    WordIsMachine(Machine(x3), Machine(x8));
    WordIsMachine(m, Machine(x14));
    WordIsMachine(n, Machine(x16));
    RotateIsMachine(Xor(n, Machine(x16)));
  }

  lemma Words16(b: Block)
    requires IsAbc(b)
    ensures WordIs(b, 16, 0xC2C4_C700) && WordIs(b, 17, 0) && WordIs(b, 18, 0x0000_0030)
    ensures WordIs(b, 19, 0x8589_8E01) && WordIs(b, 20, 0) && WordIs(b, 21, 0x0000_0060)
    ensures WordIs(b, 22, 0x0B13_1C03) && WordIs(b, 23, 0x0000_0030)
  {
    hide WordIs, IsAbc;
    FirstWords(b);
    NextWord(b, 16, 0, 0, 0, 0x6162_6380, 0xC2C4_C700);
    NextWord(b, 17, 0, 0, 0, 0, 0);
    NextWord(b, 18, 0x0000_0018, 0, 0, 0, 0x0000_0030);
    NextWord(b, 19, 0xC2C4_C700, 0, 0, 0, 0x8589_8E01);
    NextWord(b, 20, 0, 0, 0, 0, 0);
    NextWord(b, 21, 0x0000_0030, 0, 0, 0, 0x0000_0060);
    NextWord(b, 22, 0x8589_8E01, 0, 0, 0, 0x0B13_1C03);
    NextWord(b, 23, 0, 0x0000_0018, 0, 0, 0x0000_0030);
  }

  lemma Words24(b: Block)
    requires IsAbc(b)
    ensures WordIs(b, 24, 0x8589_8EC1) && WordIs(b, 25, 0x1626_3806) && WordIs(b, 26, 0)
    ensures WordIs(b, 27, 0x0000_0180) && WordIs(b, 28, 0x2C4C_700C) && WordIs(b, 29, 0x0000_00F0)
    ensures WordIs(b, 30, 0x93AF_B507) && WordIs(b, 31, 0x5898_E048)
  {
    hide WordIs, IsAbc;
    FirstWords(b);
    Words16(b);
    NextWord(b, 24, 0x0000_0060, 0xC2C4_C700, 0, 0, 0x8589_8EC1);
    NextWord(b, 25, 0x0B13_1C03, 0, 0, 0, 0x1626_3806);
    NextWord(b, 26, 0x0000_0030, 0x0000_0030, 0, 0, 0);
    NextWord(b, 27, 0x8589_8EC1, 0x8589_8E01, 0, 0, 0x0000_0180);
    NextWord(b, 28, 0x1626_3806, 0, 0, 0, 0x2C4C_700C);
    NextWord(b, 29, 0, 0x0000_0060, 0x0000_0018, 0, 0x0000_00F0);
    NextWord(b, 30, 0x0000_0180, 0x0B13_1C03, 0xC2C4_C700, 0, 0x93AF_B507);
    NextWord(b, 31, 0x2C4C_700C, 0x0000_0030, 0, 0x0000_0018, 0x5898_E048);
  }

  lemma Words32(b: Block)
    requires IsAbc(b)
    ensures WordIs(b, 32, 0x8E9A_9202) && WordIs(b, 33, 0x0000_0600) && WordIs(b, 34, 0xB131_C0F0)
    ensures WordIs(b, 35, 0x1626_3BC6) && WordIs(b, 36, 0x4EBE_D41E) && WordIs(b, 37, 0x6263_80A1)
    ensures WordIs(b, 38, 0x1626_3806) && WordIs(b, 39, 0x0000_18C0)
  {
    hide WordIs, IsAbc;
    Words16(b);
    Words24(b);
    NextWord(b, 32, 0x0000_00F0, 0x8589_8EC1, 0x0000_0030, 0xC2C4_C700, 0x8E9A_9202);
    NextWord(b, 33, 0x93AF_B507, 0x1626_3806, 0x8589_8E01, 0, 0x0000_0600);
    NextWord(b, 34, 0x5898_E048, 0, 0, 0x0000_0030, 0xB131_C0F0);
    NextWord(b, 35, 0x8E9A_9202, 0x0000_0180, 0x0000_0060, 0x8589_8E01, 0x1626_3BC6);
    NextWord(b, 36, 0x0000_0600, 0x2C4C_700C, 0x0B13_1C03, 0, 0x4EBE_D41E);
    NextWord(b, 37, 0xB131_C0F0, 0x0000_00F0, 0x0000_0030, 0x0000_0060, 0x6263_80A1);
    NextWord(b, 38, 0x1626_3BC6, 0x93AF_B507, 0x8589_8EC1, 0x0B13_1C03, 0x1626_3806);
    NextWord(b, 39, 0x4EBE_D41E, 0x5898_E048, 0x1626_3806, 0x0000_0030, 0x0000_18C0);
  }

  lemma Words40(b: Block)
    requires IsAbc(b)
    ensures WordIs(b, 40, 0xD2E1_38C4) && WordIs(b, 41, 0x0000_0F00) && WordIs(b, 42, 0x3AFB_5079)
    ensures WordIs(b, 43, 0x898E_04E5) && WordIs(b, 44, 0xE2BA_3C2B) && WordIs(b, 45, 0x0000_60C0)
    ensures WordIs(b, 46, 0x053A_37CD) && WordIs(b, 47, 0x7445_8547)
  {
    hide WordIs, IsAbc;
    Words24(b);
    Words32(b);
    NextWord(b, 40, 0x6263_80A1, 0x8E9A_9202, 0, 0x8589_8EC1, 0xD2E1_38C4);
    NextWord(b, 41, 0x1626_3806, 0x0000_0600, 0x0000_0180, 0x1626_3806, 0x0000_0F00);
    NextWord(b, 42, 0x0000_18C0, 0xB131_C0F0, 0x2C4C_700C, 0, 0x3AFB_5079);
    NextWord(b, 43, 0xD2E1_38C4, 0x1626_3BC6, 0x0000_00F0, 0x0000_0180, 0x898E_04E5);
    NextWord(b, 44, 0x0000_0F00, 0x4EBE_D41E, 0x93AF_B507, 0x2C4C_700C, 0xE2BA_3C2B);
    NextWord(b, 45, 0x3AFB_5079, 0x6263_80A1, 0x5898_E048, 0x0000_00F0, 0x0000_60C0);
    NextWord(b, 46, 0x898E_04E5, 0x1626_3806, 0x8E9A_9202, 0x93AF_B507, 0x053A_37CD);
    NextWord(b, 47, 0xE2BA_3C2B, 0x0000_18C0, 0x0000_0600, 0x5898_E048, 0x7445_8547);
  }

  lemma Words48(b: Block)
    requires IsAbc(b)
    ensures WordIs(b, 48, 0xDA94_15ED) && WordIs(b, 49, 0x2638_0A16) && WordIs(b, 50, 0x6263_83A1)
    ensures WordIs(b, 51, 0x4EBF_54DE) && WordIs(b, 52, 0x3835_B44B) && WordIs(b, 53, 0x0000_F600)
    ensures WordIs(b, 54, 0x1E84_C7A3) && WordIs(b, 55, 0x98E0_4D98)
  {
    hide WordIs, IsAbc;
    Words32(b);
    Words40(b);
    NextWord(b, 48, 0x0000_60C0, 0xD2E1_38C4, 0xB131_C0F0, 0x8E9A_9202, 0xDA94_15ED);
    NextWord(b, 49, 0x053A_37CD, 0x0000_0F00, 0x1626_3BC6, 0x0000_0600, 0x2638_0A16);
    NextWord(b, 50, 0x7445_8547, 0x3AFB_5079, 0x4EBE_D41E, 0xB131_C0F0, 0x6263_83A1);
    NextWord(b, 51, 0xDA94_15ED, 0x898E_04E5, 0x6263_80A1, 0x1626_3BC6, 0x4EBF_54DE);
    NextWord(b, 52, 0x2638_0A16, 0xE2BA_3C2B, 0x1626_3806, 0x4EBE_D41E, 0x3835_B44B);
    NextWord(b, 53, 0x6263_83A1, 0x0000_60C0, 0x0000_18C0, 0x6263_80A1, 0x0000_F600);
    NextWord(b, 54, 0x4EBF_54DE, 0x053A_37CD, 0xD2E1_38C4, 0x1626_3806, 0x1E84_C7A3);
    NextWord(b, 55, 0x3835_B44B, 0x7445_8547, 0x0000_0F00, 0x0000_18C0, 0x98E0_4D98);
  }

  lemma Words56(b: Block)
    requires IsAbc(b)
    ensures WordIs(b, 56, 0x651D_16A0) && WordIs(b, 57, 0x6265_8CA1) && WordIs(b, 58, 0x4585_44D6)
    ensures WordIs(b, 59, 0x4458_4CB7) && WordIs(b, 60, 0x7BA0_6619) && WordIs(b, 61, 0x6380_AEA2)
    ensures WordIs(b, 62, 0x0AE5_5269) && WordIs(b, 63, 0x627B_49A1)
  {
    hide WordIs, IsAbc;
    Words40(b);
    Words48(b);
    NextWord(b, 56, 0x0000_F600, 0xDA94_15ED, 0x3AFB_5079, 0xD2E1_38C4, 0x651D_16A0);
    NextWord(b, 57, 0x1E84_C7A3, 0x2638_0A16, 0x898E_04E5, 0x0000_0F00, 0x6265_8CA1);
    NextWord(b, 58, 0x98E0_4D98, 0x6263_83A1, 0xE2BA_3C2B, 0x3AFB_5079, 0x4585_44D6);
    NextWord(b, 59, 0x651D_16A0, 0x4EBF_54DE, 0x0000_60C0, 0x898E_04E5, 0x4458_4CB7);
    NextWord(b, 60, 0x6265_8CA1, 0x3835_B44B, 0x053A_37CD, 0xE2BA_3C2B, 0x7BA0_6619);
    NextWord(b, 61, 0x4585_44D6, 0x0000_F600, 0x7445_8547, 0x0000_60C0, 0x6380_AEA2);
    NextWord(b, 62, 0x4458_4CB7, 0x1E84_C7A3, 0xDA94_15ED, 0x053A_37CD, 0x0AE5_5269);
    NextWord(b, 63, 0x7BA0_6619, 0x98E0_4D98, 0x2638_0A16, 0x7445_8547, 0x627B_49A1);
  }

  lemma Words64(b: Block)
    requires IsAbc(b)
    ensures WordIs(b, 64, 0x7CD4_5C9D) && WordIs(b, 65, 0x000F_0000) && WordIs(b, 66, 0xFB50_753A)
    ensures WordIs(b, 67, 0xEC67_65E8) && WordIs(b, 68, 0xBA3C_2BE2) && WordIs(b, 69, 0x0060_C000)
    ensures WordIs(b, 70, 0x3A37_CD05) && WordIs(b, 71, 0x4585_46F4)
  {
    hide WordIs, IsAbc;
    Words48(b);
    Words56(b);
    NextWord(b, 64, 0x6380_AEA2, 0x651D_16A0, 0x6263_83A1, 0xDA94_15ED, 0x7CD4_5C9D);
    NextWord(b, 65, 0x0AE5_5269, 0x6265_8CA1, 0x4EBF_54DE, 0x2638_0A16, 0x000F_0000);
    NextWord(b, 66, 0x627B_49A1, 0x4585_44D6, 0x3835_B44B, 0x6263_83A1, 0xFB50_753A);
    NextWord(b, 67, 0x7CD4_5C9D, 0x4458_4CB7, 0x0000_F600, 0x4EBF_54DE, 0xEC67_65E8);
    NextWord(b, 68, 0x000F_0000, 0x7BA0_6619, 0x1E84_C7A3, 0x3835_B44B, 0xBA3C_2BE2);
    NextWord(b, 69, 0xFB50_753A, 0x6380_AEA2, 0x98E0_4D98, 0x0000_F600, 0x0060_C000);
    NextWord(b, 70, 0xEC67_65E8, 0x0AE5_5269, 0x651D_16A0, 0x1E84_C7A3, 0x3A37_CD05);
    NextWord(b, 71, 0xBA3C_2BE2, 0x627B_49A1, 0x6265_8CA1, 0x98E0_4D98, 0x4585_46F4);
  }

  lemma Words72(b: Block)
    requires IsAbc(b)
    ensures WordIs(b, 72, 0xB859_9DD6) && WordIs(b, 73, 0x380A_1A26) && WordIs(b, 74, 0x01E0_2203)
    ensures WordIs(b, 75, 0xE7CC_3456) && WordIs(b, 76, 0xE6E6_0B69) && WordIs(b, 77, 0x00F6_0A00)
    ensures WordIs(b, 78, 0x5795_EF4F) && WordIs(b, 79, 0x822E_0879)
  {
    hide WordIs, IsAbc;
    Words56(b);
    Words64(b);
    NextWord(b, 72, 0x0060_C000, 0x7CD4_5C9D, 0x4585_44D6, 0x651D_16A0, 0xB859_9DD6);
    NextWord(b, 73, 0x3A37_CD05, 0x000F_0000, 0x4458_4CB7, 0x6265_8CA1, 0x380A_1A26);
    NextWord(b, 74, 0x4585_46F4, 0xFB50_753A, 0x7BA0_6619, 0x4585_44D6, 0x01E0_2203);
    NextWord(b, 75, 0xB859_9DD6, 0xEC67_65E8, 0x6380_AEA2, 0x4458_4CB7, 0xE7CC_3456);
    NextWord(b, 76, 0x380A_1A26, 0xBA3C_2BE2, 0x0AE5_5269, 0x7BA0_6619, 0xE6E6_0B69);
    NextWord(b, 77, 0x01E0_2203, 0x0060_C000, 0x627B_49A1, 0x6380_AEA2, 0x00F6_0A00);
    NextWord(b, 78, 0xE7CC_3456, 0x3A37_CD05, 0x7CD4_5C9D, 0x0AE5_5269, 0x5795_EF4F);
    NextWord(b, 79, 0xE6E6_0B69, 0x4585_46F4, 0x000F_0000, 0x627B_49A1, 0x822E_0879);
  }

  // ---- The rounds ----

  /** The working variables after `t` rounds. */
  predicate After(s: Block, t: nat, a: bv32, b: bv32, c: bv32, d: bv32, e: bv32)
    requires t <= 80
  {
    Rounds(INITIAL, Schedule(s)[..t])
      == Chain(Number(Machine(a)), Number(Machine(b)), Number(Machine(c)), Number(Machine(d)), Number(Machine(e)))
  }

  /** The logical function of a round. */
  function Mixed(t: nat, x: Machine, y: Machine, z: Machine): Machine {
    if t < 20 then Xor(And(x, y), And(Not(x), z))
    else if 40 <= t < 60 then Xor(Xor(And(x, y), And(x, z)), And(y, z))
    else Xor(Xor(x, y), z)
  }

  lemma MixIsMixed(t: nat, x: Machine, y: Machine, z: Machine)
    ensures Mix(t, Number(x), Number(y), Number(z)) == Number(Mixed(t, x, y, z))
  {
    hide Number, Word, Complement, And, Xor, Not;
    if t < 20 {
      ComplementIsMachine(x);
      WordIsMachine(x, y);
      WordIsMachine(Not(x), z);
      WordIsMachine(And(x, y), And(Not(x), z));
    } else if 40 <= t < 60 {
      WordIsMachine(x, y);
      WordIsMachine(x, z);
      WordIsMachine(y, z);
      WordIsMachine(And(x, y), And(x, z));
      WordIsMachine(Xor(And(x, y), And(x, z)), And(y, z));
    } else {
      WordIsMachine(x, y);
      WordIsMachine(Xor(x, y), z);
    }
  }

  /** One round, which computes `r` and turns `b` into `b'`. */
  lemma Step(s: Block, t: nat, a: bv32, b: bv32, c: bv32, d: bv32, e: bv32, w: bv32, r: bv32, b': bv32)
    requires t < 80 && After(s, t, a, b, c, d, e) && WordIs(s, t, w) && Machine(b') == Turn30(Machine(b))
    requires Weights(Machine(r))
      == (Weights(Turn5(Machine(a))) + Weights(Mixed(t, Machine(b), Machine(c), Machine(d))) + Weights(Machine(e))
          + Constant(t) + Weights(Machine(w))) % 0x1_0000_0000
    ensures After(s, t + 1, r, a, b', c, d)
  {
    hide Number, Weights, RotateLeft, Mix, Mixed, Constant, ScheduleWord, Turn5, Turn30;
    WordAt(s, t, w);
    assert Schedule(s)[..t + 1][..t] == Schedule(s)[..t];
    NumberIsWeights(Machine(r));
    NumberIsWeights(Turn5(Machine(a)));
    NumberIsWeights(Mixed(t, Machine(b), Machine(c), Machine(d)));
    NumberIsWeights(Machine(e));
    NumberIsWeights(Machine(w));
    RotateIsMachine(Machine(a));
    RotateIsMachine(Machine(b));
    MixIsMixed(t, Machine(b), Machine(c), Machine(d));
    FivePlus(Number(Turn5(Machine(a))), Number(Mixed(t, Machine(b), Machine(c), Machine(d))), Number(Machine(e)),
             Constant(t), Number(Machine(w)));
  }

  lemma PlusModulo(s: nat, x: uint32)
    ensures Plus(s % 0x1_0000_0000, x) == (s + x) % 0x1_0000_0000
  {
    Sha1.ModuloSum(s, x);
  }

  lemma FivePlus(a: uint32, b: uint32, c: uint32, d: uint32, e: uint32)
    ensures Plus(Plus(Plus(Plus(a, b), c), d), e) == (a + b + c + d + e) % 0x1_0000_0000
  {
    hide Plus;
    PlusModulo(a, b);
    PlusModulo(a + b, c);
    PlusModulo(a + b + c, d);
    PlusModulo(a + b + c + d, e);
  }

  lemma Rounds0(s: Block)
    requires IsAbc(s)
    ensures After(s, 10, 0x8351_F929, 0x4B6A_E328, 0x27A3_01F5, 0x664F_8C30, 0x0FF1_F290)
  {
    hide After, WordIs, IsAbc;
    FirstWords(s);
    NoRounds(s);
    Step(s, 0, 0x6745_2301, 0xEFCD_AB89, 0x98BA_DCFE, 0x1032_5476, 0xC3D2_E1F0,
         0x6162_6380, 0x0116_FC33, 0x7BF3_6AE2);
    Step(s, 1, 0x0116_FC33, 0x6745_2301, 0x7BF3_6AE2, 0x98BA_DCFE, 0x1032_5476,
         0, 0x8990_536D, 0x59D1_48C0);
    Step(s, 2, 0x8990_536D, 0x0116_FC33, 0x59D1_48C0, 0x7BF3_6AE2, 0x98BA_DCFE,
         0, 0xA139_0F08, 0xC045_BF0C);
    Step(s, 3, 0xA139_0F08, 0x8990_536D, 0xC045_BF0C, 0x59D1_48C0, 0x7BF3_6AE2,
         0, 0xCDD8_E11B, 0x6264_14DB);
    Step(s, 4, 0xCDD8_E11B, 0xA139_0F08, 0x6264_14DB, 0xC045_BF0C, 0x59D1_48C0,
         0, 0xCFD4_99DE, 0x284E_43C2);
    Step(s, 5, 0xCFD4_99DE, 0xCDD8_E11B, 0x284E_43C2, 0x6264_14DB, 0xC045_BF0C,
         0, 0x3FC7_CA40, 0xF376_3846);
    Step(s, 6, 0x3FC7_CA40, 0xCFD4_99DE, 0xF376_3846, 0x284E_43C2, 0x6264_14DB,
         0, 0x993E_30C1, 0xB3F5_2677);
    Step(s, 7, 0x993E_30C1, 0x3FC7_CA40, 0xB3F5_2677, 0xF376_3846, 0x284E_43C2,
         0, 0x9E8C_07D4, 0x0FF1_F290);
    Step(s, 8, 0x9E8C_07D4, 0x993E_30C1, 0x0FF1_F290, 0xB3F5_2677, 0xF376_3846,
         0, 0x4B6A_E328, 0x664F_8C30);
    Step(s, 9, 0x4B6A_E328, 0x9E8C_07D4, 0x664F_8C30, 0x0FF1_F290, 0xB3F5_2677,
         0, 0x8351_F929, 0x27A3_01F5);
  }

  lemma Rounds10(s: Block)
    requires IsAbc(s)
    ensures After(s, 20, 0xFD9E_1D7D, 0xDC64_901D, 0x20AA_99CA, 0xD3A4_9608, 0xC82F_758B)
  {
    hide After, WordIs, IsAbc;
    FirstWords(s);
    Words16(s);
    Rounds0(s);
    Step(s, 10, 0x8351_F929, 0x4B6A_E328, 0x27A3_01F5, 0x664F_8C30, 0x0FF1_F290,
         0, 0xFBDA_9E89, 0x12DA_B8CA);
    Step(s, 11, 0xFBDA_9E89, 0x8351_F929, 0x12DA_B8CA, 0x27A3_01F5, 0x664F_8C30,
         0, 0x6318_8FE4, 0x60D4_7E4A);
    Step(s, 12, 0x6318_8FE4, 0xFBDA_9E89, 0x60D4_7E4A, 0x12DA_B8CA, 0x27A3_01F5,
         0, 0x4607_B664, 0x7EF6_A7A2);
    Step(s, 13, 0x4607_B664, 0x6318_8FE4, 0x7EF6_A7A2, 0x60D4_7E4A, 0x12DA_B8CA,
         0, 0x9128_F695, 0x18C6_23F9);
    Step(s, 14, 0x9128_F695, 0x4607_B664, 0x18C6_23F9, 0x7EF6_A7A2, 0x60D4_7E4A,
         0, 0x196B_EE77, 0x1181_ED99);
    Step(s, 15, 0x196B_EE77, 0x9128_F695, 0x1181_ED99, 0x18C6_23F9, 0x7EF6_A7A2,
         0x0000_0018, 0x20BD_D62F, 0x644A_3DA5);
    Step(s, 16, 0x20BD_D62F, 0x196B_EE77, 0x644A_3DA5, 0x1181_ED99, 0x18C6_23F9,
         0xC2C4_C700, 0x4E92_5823, 0xC65A_FB9D);
    Step(s, 17, 0x4E92_5823, 0x20BD_D62F, 0xC65A_FB9D, 0x644A_3DA5, 0x1181_ED99,
         0, 0x82AA_6728, 0xC82F_758B);
    Step(s, 18, 0x82AA_6728, 0x4E92_5823, 0xC82F_758B, 0xC65A_FB9D, 0x644A_3DA5,
         0x0000_0030, 0xDC64_901D, 0xD3A4_9608);
    Step(s, 19, 0xDC64_901D, 0x82AA_6728, 0xD3A4_9608, 0xC82F_758B, 0xC65A_FB9D,
         0x8589_8E01, 0xFD9E_1D7D, 0x20AA_99CA);
  }

  lemma Rounds20(s: Block)
    requires IsAbc(s)
    ensures After(s, 30, 0xC5FB_AF5D, 0x8370_B52E, 0xD2AA_1365, 0x6F8D_7EF5, 0x1210_4EE9)
  {
    hide After, WordIs, IsAbc;
    Words16(s);
    Words24(s);
    Rounds10(s);
    Step(s, 20, 0xFD9E_1D7D, 0xDC64_901D, 0x20AA_99CA, 0xD3A4_9608, 0xC82F_758B,
         0, 0x1A37_B0CA, 0x7719_2407);
    Step(s, 21, 0x1A37_B0CA, 0xFD9E_1D7D, 0x7719_2407, 0x20AA_99CA, 0xD3A4_9608,
         0x0000_0060, 0x33A2_3BFC, 0x7F67_875F);
    Step(s, 22, 0x33A2_3BFC, 0x1A37_B0CA, 0x7F67_875F, 0x7719_2407, 0x20AA_99CA,
         0x0B13_1C03, 0x2128_3486, 0x868D_EC32);
    Step(s, 23, 0x2128_3486, 0x33A2_3BFC, 0x868D_EC32, 0x7F67_875F, 0x7719_2407,
         0x0000_0030, 0xD541_F12D, 0x0CE8_8EFF);
    Step(s, 24, 0xD541_F12D, 0x2128_3486, 0x0CE8_8EFF, 0x868D_EC32, 0x7F67_875F,
         0x8589_8EC1, 0xC756_7DC6, 0x884A_0D21);
    Step(s, 25, 0xC756_7DC6, 0xD541_F12D, 0x884A_0D21, 0x0CE8_8EFF, 0x868D_EC32,
         0x1626_3806, 0x4841_3BA4, 0x7550_7C4B);
    Step(s, 26, 0x4841_3BA4, 0xC756_7DC6, 0x7550_7C4B, 0x884A_0D21, 0x0CE8_8EFF,
         0, 0xBE35_FBD5, 0xB1D5_9F71);
    Step(s, 27, 0xBE35_FBD5, 0x4841_3BA4, 0xB1D5_9F71, 0x7550_7C4B, 0x884A_0D21,
         0x0000_0180, 0x4AA8_4D97, 0x1210_4EE9);
    Step(s, 28, 0x4AA8_4D97, 0xBE35_FBD5, 0x1210_4EE9, 0xB1D5_9F71, 0x7550_7C4B,
         0x2C4C_700C, 0x8370_B52E, 0x6F8D_7EF5);
    Step(s, 29, 0x8370_B52E, 0x4AA8_4D97, 0x6F8D_7EF5, 0x1210_4EE9, 0xB1D5_9F71,
         0x0000_00F0, 0xC5FB_AF5D, 0xD2AA_1365);
  }

  lemma Rounds30(s: Block)
    requires IsAbc(s)
    ensures After(s, 40, 0x32DE_1CBA, 0x4C98_6405, 0xF718_E5CF, 0x03D4_47F6, 0xF72E_EC32)
  {
    hide After, WordIs, IsAbc;
    Words24(s);
    Words32(s);
    Rounds20(s);
    Step(s, 30, 0xC5FB_AF5D, 0x8370_B52E, 0xD2AA_1365, 0x6F8D_7EF5, 0x1210_4EE9,
         0x93AF_B507, 0x1267_B407, 0xA0DC_2D4B);
    Step(s, 31, 0x1267_B407, 0xC5FB_AF5D, 0xA0DC_2D4B, 0xD2AA_1365, 0x6F8D_7EF5,
         0x5898_E048, 0x3B84_5D33, 0x717E_EBD7);
    Step(s, 32, 0x3B84_5D33, 0x1267_B407, 0x717E_EBD7, 0xA0DC_2D4B, 0xD2AA_1365,
         0x8E9A_9202, 0x046F_AA0A, 0xC499_ED01);
    Step(s, 33, 0x046F_AA0A, 0x3B84_5D33, 0xC499_ED01, 0x717E_EBD7, 0xA0DC_2D4B,
         0x0000_0600, 0x2C0E_BC11, 0xCEE1_174C);
    Step(s, 34, 0x2C0E_BC11, 0x046F_AA0A, 0xCEE1_174C, 0xC499_ED01, 0x717E_EBD7,
         0xB131_C0F0, 0x2179_6AD4, 0x811B_EA82);
    Step(s, 35, 0x2179_6AD4, 0x2C0E_BC11, 0x811B_EA82, 0xCEE1_174C, 0xC499_ED01,
         0x1626_3BC6, 0xDCBB_B0CB, 0x4B03_AF04);
    Step(s, 36, 0xDCBB_B0CB, 0x2179_6AD4, 0x4B03_AF04, 0x811B_EA82, 0xCEE1_174C,
         0x4EBE_D41E, 0x0F51_1FD8, 0x085E_5AB5);
    Step(s, 37, 0x0F51_1FD8, 0xDCBB_B0CB, 0x085E_5AB5, 0x4B03_AF04, 0x811B_EA82,
         0x6263_80A1, 0xDC63_973F, 0xF72E_EC32);
    Step(s, 38, 0xDC63_973F, 0x0F51_1FD8, 0xF72E_EC32, 0x085E_5AB5, 0x4B03_AF04,
         0x1626_3806, 0x4C98_6405, 0x03D4_47F6);
    Step(s, 39, 0x4C98_6405, 0xDC63_973F, 0x03D4_47F6, 0xF72E_EC32, 0x085E_5AB5,
         0x0000_18C0, 0x32DE_1CBA, 0xF718_E5CF);
  }

  lemma Rounds40(s: Block)
    requires IsAbc(s)
    ensures After(s, 50, 0x1207_31C5, 0xBAF3_9337, 0xAFAB_40B2, 0x2806_E11B, 0x8714_787C)
  {
    hide After, WordIs, IsAbc;
    Words40(s);
    Words48(s);
    Rounds30(s);
    Step(s, 40, 0x32DE_1CBA, 0x4C98_6405, 0xF718_E5CF, 0x03D4_47F6, 0xF72E_EC32,
         0xD2E1_38C4, 0xFC87_DEDF, 0x5326_1901);
    Step(s, 41, 0xFC87_DEDF, 0x32DE_1CBA, 0x5326_1901, 0xF718_E5CF, 0x03D4_47F6,
         0x0000_0F00, 0x970A_0D5C, 0x8CB7_872E);
    Step(s, 42, 0x970A_0D5C, 0xFC87_DEDF, 0x8CB7_872E, 0x5326_1901, 0xF718_E5CF,
         0x3AFB_5079, 0x7F19_3DC5, 0xFF21_F7B7);
    Step(s, 43, 0x7F19_3DC5, 0x970A_0D5C, 0xFF21_F7B7, 0x8CB7_872E, 0x5326_1901,
         0x898E_04E5, 0xEE1B_1AAF, 0x25C2_8357);
    Step(s, 44, 0xEE1B_1AAF, 0x7F19_3DC5, 0x25C2_8357, 0xFF21_F7B7, 0x8CB7_872E,
         0xE2BA_3C2B, 0x40F2_8E09, 0x5FC6_4F71);
    Step(s, 45, 0x40F2_8E09, 0xEE1B_1AAF, 0x5FC6_4F71, 0x25C2_8357, 0xFF21_F7B7,
         0x0000_60C0, 0x1C51_E1F2, 0xFB86_C6AB);
    Step(s, 46, 0x1C51_E1F2, 0x40F2_8E09, 0xFB86_C6AB, 0x5FC6_4F71, 0x25C2_8357,
         0x053A_37CD, 0xA01B_846C, 0x503C_A382);
    Step(s, 47, 0xA01B_846C, 0x1C51_E1F2, 0x503C_A382, 0xFB86_C6AB, 0x5FC6_4F71,
         0x7445_8547, 0xBEAD_02CA, 0x8714_787C);
    Step(s, 48, 0xBEAD_02CA, 0xA01B_846C, 0x8714_787C, 0x503C_A382, 0xFB86_C6AB,
         0xDA94_15ED, 0xBAF3_9337, 0x2806_E11B);
    Step(s, 49, 0xBAF3_9337, 0xBEAD_02CA, 0x2806_E11B, 0x8714_787C, 0x503C_A382,
         0x2638_0A16, 0x1207_31C5, 0xAFAB_40B2);
  }

  lemma Rounds50(s: Block)
    requires IsAbc(s)
    ensures After(s, 60, 0x3F52_DE5A, 0x09D7_85FD, 0x3498_BFD4, 0xF211_824F, 0xD799_15AB)
  {
    hide After, WordIs, IsAbc;
    Words48(s);
    Words56(s);
    Rounds40(s);
    Step(s, 50, 0x1207_31C5, 0xBAF3_9337, 0xAFAB_40B2, 0x2806_E11B, 0x8714_787C,
         0x6263_83A1, 0x641D_B2CE, 0xEEBC_E4CD);
    Step(s, 51, 0x641D_B2CE, 0x1207_31C5, 0xEEBC_E4CD, 0xAFAB_40B2, 0x2806_E11B,
         0x4EBF_54DE, 0x3847_AD66, 0x4481_CC71);
    Step(s, 52, 0x3847_AD66, 0x641D_B2CE, 0x4481_CC71, 0xEEBC_E4CD, 0xAFAB_40B2,
         0x3835_B44B, 0xE490_436D, 0x9907_6CB3);
    Step(s, 53, 0xE490_436D, 0x3847_AD66, 0x9907_6CB3, 0x4481_CC71, 0xEEBC_E4CD,
         0x0000_F600, 0x27E9_F1D8, 0x8E11_EB59);
    Step(s, 54, 0x27E9_F1D8, 0xE490_436D, 0x8E11_EB59, 0x9907_6CB3, 0x4481_CC71,
         0x1E84_C7A3, 0x7B71_F76D, 0x7924_10DB);
    Step(s, 55, 0x7B71_F76D, 0x27E9_F1D8, 0x7924_10DB, 0x8E11_EB59, 0x9907_6CB3,
         0x98E0_4D98, 0x5E64_56AF, 0x09FA_7C76);
    Step(s, 56, 0x5E64_56AF, 0x7B71_F76D, 0x09FA_7C76, 0x7924_10DB, 0x8E11_EB59,
         0x651D_16A0, 0xC846_093F, 0x5EDC_7DDB);
    Step(s, 57, 0xC846_093F, 0x5E64_56AF, 0x5EDC_7DDB, 0x09FA_7C76, 0x7924_10DB,
         0x6265_8CA1, 0xD262_FF50, 0xD799_15AB);
    Step(s, 58, 0xD262_FF50, 0xC846_093F, 0xD799_15AB, 0x5EDC_7DDB, 0x09FA_7C76,
         0x4585_44D6, 0x09D7_85FD, 0xF211_824F);
    Step(s, 59, 0x09D7_85FD, 0xD262_FF50, 0xF211_824F, 0xD799_15AB, 0x5EDC_7DDB,
         0x4458_4CB7, 0x3F52_DE5A, 0x3498_BFD4);
  }

  lemma Rounds60(s: Block)
    requires IsAbc(s)
    ensures After(s, 70, 0x3F25_88C2, 0x4970_93C0, 0xDE37_534A, 0x030F_7CAD, 0x4405_957E)
  {
    hide After, WordIs, IsAbc;
    Words56(s);
    Words64(s);
    Rounds50(s);
    Step(s, 60, 0x3F52_DE5A, 0x09D7_85FD, 0x3498_BFD4, 0xF211_824F, 0xD799_15AB,
         0x7BA0_6619, 0xD756_C147, 0x4275_E17F);
    Step(s, 61, 0xD756_C147, 0x3F52_DE5A, 0x4275_E17F, 0x3498_BFD4, 0xF211_824F,
         0x6380_AEA2, 0x548C_9CB2, 0x8FD4_B796);
    Step(s, 62, 0x548C_9CB2, 0xD756_C147, 0x8FD4_B796, 0x4275_E17F, 0x3498_BFD4,
         0x0AE5_5269, 0xB66C_020B, 0xF5D5_B051);
    Step(s, 63, 0xB66C_020B, 0x548C_9CB2, 0xF5D5_B051, 0x8FD4_B796, 0x4275_E17F,
         0x627B_49A1, 0x6B61_C9E1, 0x9523_272C);
    Step(s, 64, 0x6B61_C9E1, 0xB66C_020B, 0x9523_272C, 0xF5D5_B051, 0x8FD4_B796,
         0x7CD4_5C9D, 0x19DF_A7AC, 0xED9B_0082);
    Step(s, 65, 0x19DF_A7AC, 0x6B61_C9E1, 0xED9B_0082, 0x9523_272C, 0xF5D5_B051,
         0x000F_0000, 0x1016_55F9, 0x5AD8_7278);
    Step(s, 66, 0x1016_55F9, 0x19DF_A7AC, 0x5AD8_7278, 0xED9B_0082, 0x9523_272C,
         0xFB50_753A, 0x0C3D_F2B4, 0x0677_E9EB);
    Step(s, 67, 0x0C3D_F2B4, 0x1016_55F9, 0x0677_E9EB, 0x5AD8_7278, 0xED9B_0082,
         0xEC67_65E8, 0x78DD_4D2B, 0x4405_957E);
    Step(s, 68, 0x78DD_4D2B, 0x0C3D_F2B4, 0x4405_957E, 0x0677_E9EB, 0x5AD8_7278,
         0xBA3C_2BE2, 0x4970_93C0, 0x030F_7CAD);
    Step(s, 69, 0x4970_93C0, 0x78DD_4D2B, 0x030F_7CAD, 0x4405_957E, 0x0677_E9EB,
         0x0060_C000, 0x3F25_88C2, 0xDE37_534A);
  }

  lemma Rounds70(s: Block)
    requires IsAbc(s)
    ensures After(s, 80, 0x4254_1B35, 0x5738_D5E1, 0x2183_4873, 0x681E_6DF6, 0xD8FD_F6AD)
  {
    hide After, WordIs, IsAbc;
    Words64(s);
    Words72(s);
    Rounds60(s);
    Step(s, 70, 0x3F25_88C2, 0x4970_93C0, 0xDE37_534A, 0x030F_7CAD, 0x4405_957E,
         0x3A37_CD05, 0xC199_F8C7, 0x125C_24F0);
    Step(s, 71, 0xC199_F8C7, 0x3F25_88C2, 0x125C_24F0, 0xDE37_534A, 0x030F_7CAD,
         0x4585_46F4, 0x3985_9DE7, 0x8FC9_6230);
    Step(s, 72, 0x3985_9DE7, 0xC199_F8C7, 0x8FC9_6230, 0x125C_24F0, 0xDE37_534A,
         0xB859_9DD6, 0xEDB4_2DE4, 0xF066_7E31);
    Step(s, 73, 0xEDB4_2DE4, 0x3985_9DE7, 0xF066_7E31, 0x8FC9_6230, 0x125C_24F0,
         0x380A_1A26, 0x1179_3F6F, 0xCE61_6779);
    Step(s, 74, 0x1179_3F6F, 0xEDB4_2DE4, 0xCE61_6779, 0xF066_7E31, 0x8FC9_6230,
         0x01E0_2203, 0x5EE7_6897, 0x3B6D_0B79);
    Step(s, 75, 0x5EE7_6897, 0x1179_3F6F, 0x3B6D_0B79, 0xCE61_6779, 0xF066_7E31,
         0xE7CC_3456, 0x63F7_DAB7, 0xC45E_4FDB);
    Step(s, 76, 0x63F7_DAB7, 0x5EE7_6897, 0xC45E_4FDB, 0x3B6D_0B79, 0xCE61_6779,
         0xE6E6_0B69, 0xA079_B7D9, 0xD7B9_DA25);
    Step(s, 77, 0xA079_B7D9, 0x63F7_DAB7, 0xD7B9_DA25, 0xC45E_4FDB, 0x3B6D_0B79,
         0x00F6_0A00, 0x860D_21CC, 0xD8FD_F6AD);
    Step(s, 78, 0x860D_21CC, 0xA079_B7D9, 0xD8FD_F6AD, 0xD7B9_DA25, 0xC45E_4FDB,
         0x5795_EF4F, 0x5738_D5E1, 0x681E_6DF6);
    Step(s, 79, 0x5738_D5E1, 0x860D_21CC, 0x681E_6DF6, 0xD8FD_F6AD, 0xD7B9_DA25,
         0x822E_0879, 0x4254_1B35, 0x2183_4873);
  }

  lemma NoRounds(s: Block)
    ensures After(s, 0, 0x6745_2301, 0xEFCD_AB89, 0x98BA_DCFE, 0x1032_5476, 0xC3D2_E1F0)
  {
    hide Number, Schedule;
    NumberIsWeights(Machine(0x6745_2301));
    NumberIsWeights(Machine(0xEFCD_AB89));
    NumberIsWeights(Machine(0x98BA_DCFE));
    NumberIsWeights(Machine(0x1032_5476));
    NumberIsWeights(Machine(0xC3D2_E1F0));
  }

  /** The hash value after a block with these working variables after its last round. */
  lemma AfterAll(s: Block, a: bv32, b: bv32, c: bv32, d: bv32, e: bv32)
    requires After(s, 80, a, b, c, d, e)
    ensures Rounds(INITIAL, Schedule(s))
      == Chain(Number(Machine(a)), Number(Machine(b)), Number(Machine(c)), Number(Machine(d)), Number(Machine(e)))
  {
    hide Number, ScheduleWord, Rounds;
    assert Schedule(s)[..80] == Schedule(s);
  }

  lemma HashOfBlock(s: Block)
    requires IsAbc(s)
    ensures HashBlocks(s) == Chain(0xA999_3E36, 0x4706_816A, 0xBA3E_2571, 0x7850_C26C, 0x9CD0_D89D)
  {
    hide Number, After, Schedule, Rounds, IsAbc;
    Rounds70(s);
    AfterAll(s, 0x4254_1B35, 0x5738_D5E1, 0x2183_4873, 0x681E_6DF6, 0xD8FD_F6AD);
    NumberIsWeights(Machine(0x4254_1B35));
    NumberIsWeights(Machine(0x5738_D5E1));
    NumberIsWeights(Machine(0x2183_4873));
    NumberIsWeights(Machine(0x681E_6DF6));
    NumberIsWeights(Machine(0xD8FD_F6AD));
    assert s[..0] == [] && s[0..] == s;
  }

  lemma BytesOfNumber(v: uint32, b3: byte, b2: byte, b1: byte, b0: byte)
    requires v == 0x100_0000 * (b3 as int) + 0x1_0000 * (b2 as int) + 0x100 * (b1 as int) + b0
    ensures BE32(v) == [b3, b2, b1, b0]
  {
    TopBytes(v, b3 as int, 0x1_0000 * (b2 as int) + 0x100 * (b1 as int) + b0, 0x100_0000);
    TopBytes(v, 0x100 * (b3 as int) + b2, 0x100 * (b1 as int) + b0, 0x1_0000);
    TopBytes(v, 0x1_0000 * (b3 as int) + 0x100 * (b2 as int) + b1, b0, 0x100);
    TopBytes(0x100 * (b3 as int) + b2, b3, b2, 0x100);
    TopBytes(0x1_0000 * (b3 as int) + 0x100 * (b2 as int) + b1, 0x100 * (b3 as int) + b2, b1, 0x100);
  }

  lemma TopBytes(v: int, high: int, low: int, m: int)
    requires m > 0 && v == high * m + low && 0 <= low < m
    ensures v / m == high && v % m == low
  {
    ModuloUnique(v, m, high, low);
  }

  lemma TheBytes()
    ensures ChainBytes(Chain(0xA999_3E36, 0x4706_816A, 0xBA3E_2571, 0x7850_C26C, 0x9CD0_D89D))
      == [0xA9, 0x99, 0x3E, 0x36, 0x47, 0x06, 0x81, 0x6A,
          0xBA, 0x3E, 0x25, 0x71, 0x78, 0x50, 0xC2, 0x6C, 0x9C, 0xD0, 0xD8, 0x9D]
  {
    hide BE32;
    BytesOfNumber(0xA999_3E36, 0xA9, 0x99, 0x3E, 0x36);
    BytesOfNumber(0x4706_816A, 0x47, 0x06, 0x81, 0x6A);
    BytesOfNumber(0xBA3E_2571, 0xBA, 0x3E, 0x25, 0x71);
    BytesOfNumber(0x7850_C26C, 0x78, 0x50, 0xC2, 0x6C);
    BytesOfNumber(0x9CD0_D89D, 0x9C, 0xD0, 0xD8, 0x9D);
  }

  /** The digest of "abc". */
  lemma DigestOfAbc()
    ensures Digest(ABC)
      == [0xA9, 0x99, 0x3E, 0x36, 0x47, 0x06, 0x81, 0x6A,
          0xBA, 0x3E, 0x25, 0x71, 0x78, 0x50, 0xC2, 0x6C, 0x9C, 0xD0, 0xD8, 0x9D]
  {
    hide HashBlocks, Padded, TheBlock, ABC, IsAbc, ChainBytes;
    PaddedAbc();
    HashOfBlock(Padded(ABC));
    TheBytes();
  }
}
