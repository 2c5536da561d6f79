/** The example with one block of FIPS 180-4: the digest of abc, round by round. */
module Sha256Example {
  import opened Sha256

  /** The one block of the padded message, as words. */
  const ABC: seq<bv32> := [0x6162_6380, 0, 0, 0, 0, 0, 0, 0] + [0, 0, 0, 0, 0, 0, 0, 0x18]

  lemma PaddedBytes(p: seq<bv8>)
    requires p == Padded([0x61, 0x62, 0x63])
    ensures |p| == 64 && p[0] == 0x61 && p[1] == 0x62 && p[2] == 0x63 && p[3] == 0x80 && p[63] == 0x18
    ensures forall i :: 4 <= i < 63 ==> p[i] == 0
  {
    hide Length;
    var n := Length(3);
    LengthOfAbc();
    assert p == [0x61, 0x62, 0x63, 0x80] + Zeros(52) + n;
  }

  lemma ByteIs()
    ensures Byte(0) == 0 && Byte(24) == 0x18
  {
  }

  lemma LengthOfAbc()
    ensures Length(3) == [0, 0, 0, 0, 0, 0, 0, 0x18]
  {
    hide Byte;
    ByteIs();
  }

  lemma WordIs(s: seq<bv8>, b: bv8)
    requires |s| == 4 && s[0] == s[1] == s[2] == 0 && s[3] == b
    ensures Word(s) == b as bv32
  {
  }

  lemma FirstWord(s: seq<bv8>)
    requires |s| == 4 && s[0] == 0x61 && s[1] == 0x62 && s[2] == 0x63 && s[3] == 0x80
    ensures Word(s) == 0x6162_6380
  {
  }

  lemma Padding()
    ensures |Padded([0x61, 0x62, 0x63])| == 64 && Words(Padded([0x61, 0x62, 0x63])) == ABC
  {
    hide Padded, Word;
    var p := Padded([0x61, 0x62, 0x63]);
    PaddedBytes(p);
    var w := Words(p);
    FirstWord(p[0..4]);
    WordIs(p[60..64], 0x18);
    forall i | 1 <= i < 15
      ensures w[i] == 0
    {
      WordIs(p[4 * i..4 * i + 4], 0);
    }
    assert w[0] == Word(p[0..4]) && w[15] == Word(p[60..64]);
    assert w == ABC;
  }

  // ---------- The message schedule ----------

  /** Word t of the schedule is w. The quantifier keeps the recursion of Schedule from being unrolled down to 0. */
  ghost predicate WordAt(m: seq<bv32>, t: nat, w: bv32) {
    |m| == 16 && forall i: nat :: i == t ==> Schedule(m, i) == w
  }

  /** The next word of the schedule from four earlier ones. */
  function NewWord(a: bv32, b: bv32, c: bv32, d: bv32): bv32 {
    Add(a, Add(Add(Sigma1(b), c), Sigma0(d)))
  }

  lemma NextWord(m: seq<bv32>, t: nat, a: bv32, b: bv32, c: bv32, d: bv32, w: bv32)
    requires t >= 16 && WordAt(m, t - 16, a) && WordAt(m, t - 2, b) && WordAt(m, t - 7, c) && WordAt(m, t - 15, d)
    requires NewWord(a, b, c, d) == w
    ensures WordAt(m, t, w)
  {
    hide Sigma0, Sigma1, Add;
    assert Schedule(m, t - 16) == a && Schedule(m, t - 2) == b && Schedule(m, t - 7) == c && Schedule(m, t - 15) == d;
  }

  lemma AbcWords(m: seq<bv32>)
    requires m == ABC
    ensures WordAt(m, 0, 0x6162_6380) && WordAt(m, 15, 0x18) && forall t: nat :: 1 <= t < 15 ==> WordAt(m, t, 0)
  {
    assert m[15] == [0, 0, 0, 0, 0, 0, 0, 0x18][7];
    forall t: nat | 1 <= t < 15
      ensures WordAt(m, t, 0)
    {
      assert m[t] == if t < 8 then [0x6162_6380, 0, 0, 0, 0, 0, 0, 0][t] else [0, 0, 0, 0, 0, 0, 0, 0x18][t - 8];
    }
  }

  lemma Schedule16(m: seq<bv32>)
    requires m == ABC
    ensures WordAt(m, 0, 0x6162_6380) && WordAt(m, 1, 0x0000_0000) && WordAt(m, 2, 0x0000_0000)
    ensures WordAt(m, 3, 0x0000_0000) && WordAt(m, 4, 0x0000_0000) && WordAt(m, 5, 0x0000_0000)
    ensures WordAt(m, 6, 0x0000_0000) && WordAt(m, 7, 0x0000_0000) && WordAt(m, 8, 0x0000_0000)
    ensures WordAt(m, 9, 0x0000_0000) && WordAt(m, 10, 0x0000_0000) && WordAt(m, 11, 0x0000_0000)
    ensures WordAt(m, 12, 0x0000_0000) && WordAt(m, 13, 0x0000_0000) && WordAt(m, 14, 0x0000_0000)
    ensures WordAt(m, 15, 0x0000_0018)
  {
    hide WordAt;
    AbcWords(m);
  }

  lemma Schedule32(m: seq<bv32>)
    requires m == ABC
    ensures WordAt(m, 16, 0x6162_6380) && WordAt(m, 17, 0x000f_0000) && WordAt(m, 18, 0x7da8_6405)
    ensures WordAt(m, 19, 0x6000_03c6) && WordAt(m, 20, 0x3e9d_7b78) && WordAt(m, 21, 0x0183_fc00)
    ensures WordAt(m, 22, 0x12dc_bfdb) && WordAt(m, 23, 0xe2e2_c38e) && WordAt(m, 24, 0xc821_5c1a)
    ensures WordAt(m, 25, 0xb736_79a2) && WordAt(m, 26, 0xe5bc_3909) && WordAt(m, 27, 0x3266_3c5b)
    ensures WordAt(m, 28, 0x9d20_9d67) && WordAt(m, 29, 0xec87_26cb) && WordAt(m, 30, 0x7021_38a4)
    ensures WordAt(m, 31, 0xd3b7_973b)
  {
    hide WordAt;
    Schedule16(m);
    NextWord(m, 16, 0x6162_6380, 0x0000_0000, 0x0000_0000, 0x0000_0000, 0x6162_6380);
    NextWord(m, 17, 0x0000_0000, 0x0000_0018, 0x0000_0000, 0x0000_0000, 0x000f_0000);
    NextWord(m, 18, 0x0000_0000, 0x6162_6380, 0x0000_0000, 0x0000_0000, 0x7da8_6405);
    NextWord(m, 19, 0x0000_0000, 0x000f_0000, 0x0000_0000, 0x0000_0000, 0x6000_03c6);
    NextWord(m, 20, 0x0000_0000, 0x7da8_6405, 0x0000_0000, 0x0000_0000, 0x3e9d_7b78);
    NextWord(m, 21, 0x0000_0000, 0x6000_03c6, 0x0000_0000, 0x0000_0000, 0x0183_fc00);
    NextWord(m, 22, 0x0000_0000, 0x3e9d_7b78, 0x0000_0018, 0x0000_0000, 0x12dc_bfdb);
    NextWord(m, 23, 0x0000_0000, 0x0183_fc00, 0x6162_6380, 0x0000_0000, 0xe2e2_c38e);
    NextWord(m, 24, 0x0000_0000, 0x12dc_bfdb, 0x000f_0000, 0x0000_0000, 0xc821_5c1a);
    NextWord(m, 25, 0x0000_0000, 0xe2e2_c38e, 0x7da8_6405, 0x0000_0000, 0xb736_79a2);
    NextWord(m, 26, 0x0000_0000, 0xc821_5c1a, 0x6000_03c6, 0x0000_0000, 0xe5bc_3909);
    NextWord(m, 27, 0x0000_0000, 0xb736_79a2, 0x3e9d_7b78, 0x0000_0000, 0x3266_3c5b);
    NextWord(m, 28, 0x0000_0000, 0xe5bc_3909, 0x0183_fc00, 0x0000_0000, 0x9d20_9d67);
    NextWord(m, 29, 0x0000_0000, 0x3266_3c5b, 0x12dc_bfdb, 0x0000_0000, 0xec87_26cb);
    NextWord(m, 30, 0x0000_0000, 0x9d20_9d67, 0xe2e2_c38e, 0x0000_0018, 0x7021_38a4);
    NextWord(m, 31, 0x0000_0018, 0xec87_26cb, 0xc821_5c1a, 0x6162_6380, 0xd3b7_973b);
  }

  lemma Schedule48(m: seq<bv32>)
    requires m == ABC
    ensures WordAt(m, 32, 0x93f5_997f) && WordAt(m, 33, 0x3b68_ba73) && WordAt(m, 34, 0xaff4_ffc1)
    ensures WordAt(m, 35, 0xf10a_5c62) && WordAt(m, 36, 0x0a8b_3996) && WordAt(m, 37, 0x72af_830a)
    ensures WordAt(m, 38, 0x9409_e33e) && WordAt(m, 39, 0x2464_1522) && WordAt(m, 40, 0x9f47_bf94)
    ensures WordAt(m, 41, 0xf0a6_4f5a) && WordAt(m, 42, 0x3e24_6a79) && WordAt(m, 43, 0x2733_3ba3)
    ensures WordAt(m, 44, 0x0c47_63f2) && WordAt(m, 45, 0x840a_bf27) && WordAt(m, 46, 0x7a29_0d5d)
    ensures WordAt(m, 47, 0x065c_43da)
  {
    hide WordAt;
    Schedule32(m);
    NextWord(m, 32, 0x6162_6380, 0x7021_38a4, 0xb736_79a2, 0x000f_0000, 0x93f5_997f);
    NextWord(m, 33, 0x000f_0000, 0xd3b7_973b, 0xe5bc_3909, 0x7da8_6405, 0x3b68_ba73);
    NextWord(m, 34, 0x7da8_6405, 0x93f5_997f, 0x3266_3c5b, 0x6000_03c6, 0xaff4_ffc1);
    NextWord(m, 35, 0x6000_03c6, 0x3b68_ba73, 0x9d20_9d67, 0x3e9d_7b78, 0xf10a_5c62);
    NextWord(m, 36, 0x3e9d_7b78, 0xaff4_ffc1, 0xec87_26cb, 0x0183_fc00, 0x0a8b_3996);
    NextWord(m, 37, 0x0183_fc00, 0xf10a_5c62, 0x7021_38a4, 0x12dc_bfdb, 0x72af_830a);
    NextWord(m, 38, 0x12dc_bfdb, 0x0a8b_3996, 0xd3b7_973b, 0xe2e2_c38e, 0x9409_e33e);
    NextWord(m, 39, 0xe2e2_c38e, 0x72af_830a, 0x93f5_997f, 0xc821_5c1a, 0x2464_1522);
    NextWord(m, 40, 0xc821_5c1a, 0x9409_e33e, 0x3b68_ba73, 0xb736_79a2, 0x9f47_bf94);
    NextWord(m, 41, 0xb736_79a2, 0x2464_1522, 0xaff4_ffc1, 0xe5bc_3909, 0xf0a6_4f5a);
    NextWord(m, 42, 0xe5bc_3909, 0x9f47_bf94, 0xf10a_5c62, 0x3266_3c5b, 0x3e24_6a79);
    NextWord(m, 43, 0x3266_3c5b, 0xf0a6_4f5a, 0x0a8b_3996, 0x9d20_9d67, 0x2733_3ba3);
    NextWord(m, 44, 0x9d20_9d67, 0x3e24_6a79, 0x72af_830a, 0xec87_26cb, 0x0c47_63f2);
    NextWord(m, 45, 0xec87_26cb, 0x2733_3ba3, 0x9409_e33e, 0x7021_38a4, 0x840a_bf27);
    NextWord(m, 46, 0x7021_38a4, 0x0c47_63f2, 0x2464_1522, 0xd3b7_973b, 0x7a29_0d5d);
    NextWord(m, 47, 0xd3b7_973b, 0x840a_bf27, 0x9f47_bf94, 0x93f5_997f, 0x065c_43da);
  }

  lemma Schedule64(m: seq<bv32>)
    requires m == ABC
    ensures WordAt(m, 48, 0xfb3e_89cb) && WordAt(m, 49, 0xcc76_17db) && WordAt(m, 50, 0xb9e6_6c34)
    ensures WordAt(m, 51, 0xa999_3667) && WordAt(m, 52, 0x84ba_dedd) && WordAt(m, 53, 0xc214_62bc)
    ensures WordAt(m, 54, 0x1487_472c) && WordAt(m, 55, 0xb20f_7a99) && WordAt(m, 56, 0xef57_b9cd)
    ensures WordAt(m, 57, 0xebe6_b238) && WordAt(m, 58, 0x9fe3_095e) && WordAt(m, 59, 0x78bc_8d4b)
    ensures WordAt(m, 60, 0xa43f_cf15) && WordAt(m, 61, 0x668b_2ff8) && WordAt(m, 62, 0xeeab_a2cc)
    ensures WordAt(m, 63, 0x12b1_edeb)
  {
    hide WordAt;
    Schedule48(m);
    NextWord(m, 48, 0x93f5_997f, 0x7a29_0d5d, 0xf0a6_4f5a, 0x3b68_ba73, 0xfb3e_89cb);
    NextWord(m, 49, 0x3b68_ba73, 0x065c_43da, 0x3e24_6a79, 0xaff4_ffc1, 0xcc76_17db);
    NextWord(m, 50, 0xaff4_ffc1, 0xfb3e_89cb, 0x2733_3ba3, 0xf10a_5c62, 0xb9e6_6c34);
    NextWord(m, 51, 0xf10a_5c62, 0xcc76_17db, 0x0c47_63f2, 0x0a8b_3996, 0xa999_3667);
    NextWord(m, 52, 0x0a8b_3996, 0xb9e6_6c34, 0x840a_bf27, 0x72af_830a, 0x84ba_dedd);
    NextWord(m, 53, 0x72af_830a, 0xa999_3667, 0x7a29_0d5d, 0x9409_e33e, 0xc214_62bc);
    NextWord(m, 54, 0x9409_e33e, 0x84ba_dedd, 0x065c_43da, 0x2464_1522, 0x1487_472c);
    NextWord(m, 55, 0x2464_1522, 0xc214_62bc, 0xfb3e_89cb, 0x9f47_bf94, 0xb20f_7a99);
    NextWord(m, 56, 0x9f47_bf94, 0x1487_472c, 0xcc76_17db, 0xf0a6_4f5a, 0xef57_b9cd);
    NextWord(m, 57, 0xf0a6_4f5a, 0xb20f_7a99, 0xb9e6_6c34, 0x3e24_6a79, 0xebe6_b238);
    NextWord(m, 58, 0x3e24_6a79, 0xef57_b9cd, 0xa999_3667, 0x2733_3ba3, 0x9fe3_095e);
    NextWord(m, 59, 0x2733_3ba3, 0xebe6_b238, 0x84ba_dedd, 0x0c47_63f2, 0x78bc_8d4b);
    NextWord(m, 60, 0x0c47_63f2, 0x9fe3_095e, 0xc214_62bc, 0x840a_bf27, 0xa43f_cf15);
    NextWord(m, 61, 0x840a_bf27, 0x78bc_8d4b, 0x1487_472c, 0x7a29_0d5d, 0x668b_2ff8);
    NextWord(m, 62, 0x7a29_0d5d, 0xa43f_cf15, 0xb20f_7a99, 0x065c_43da, 0xeeab_a2cc);
    NextWord(m, 63, 0x065c_43da, 0x668b_2ff8, 0xef57_b9cd, 0xfb3e_89cb, 0x12b1_edeb);
  }

  // ---------- The rounds ----------

  predicate Constant(t: nat, k: bv32) {
    t < |K| == 64 && K[t] == k
  }

  lemma Constants0()
    ensures Constant(0, 0x428a_2f98) && Constant(1, 0x7137_4491) && Constant(2, 0xb5c0_fbcf) && Constant(3, 0xe9b5_dba5)
    ensures Constant(4, 0x3956_c25b) && Constant(5, 0x59f1_11f1) && Constant(6, 0x923f_82a4) && Constant(7, 0xab1c_5ed5)
    ensures Constant(8, 0xd807_aa98) && Constant(9, 0x1283_5b01) && Constant(10, 0x2431_85be) && Constant(11, 0x550c_7dc3)
    ensures Constant(12, 0x72be_5d74) && Constant(13, 0x80de_b1fe) && Constant(14, 0x9bdc_06a7) && Constant(15, 0xc19b_f174)
  {
  }

  lemma Constants1()
    ensures Constant(16, 0xe49b_69c1) && Constant(17, 0xefbe_4786) && Constant(18, 0x0fc1_9dc6) && Constant(19, 0x240c_a1cc)
    ensures Constant(20, 0x2de9_2c6f) && Constant(21, 0x4a74_84aa) && Constant(22, 0x5cb0_a9dc) && Constant(23, 0x76f9_88da)
    ensures Constant(24, 0x983e_5152) && Constant(25, 0xa831_c66d) && Constant(26, 0xb003_27c8) && Constant(27, 0xbf59_7fc7)
    ensures Constant(28, 0xc6e0_0bf3) && Constant(29, 0xd5a7_9147) && Constant(30, 0x06ca_6351) && Constant(31, 0x1429_2967)
  {
  }

  lemma Constants2()
    ensures Constant(32, 0x27b7_0a85) && Constant(33, 0x2e1b_2138) && Constant(34, 0x4d2c_6dfc) && Constant(35, 0x5338_0d13)
    ensures Constant(36, 0x650a_7354) && Constant(37, 0x766a_0abb) && Constant(38, 0x81c2_c92e) && Constant(39, 0x9272_2c85)
    ensures Constant(40, 0xa2bf_e8a1) && Constant(41, 0xa81a_664b) && Constant(42, 0xc24b_8b70) && Constant(43, 0xc76c_51a3)
    ensures Constant(44, 0xd192_e819) && Constant(45, 0xd699_0624) && Constant(46, 0xf40e_3585) && Constant(47, 0x106a_a070)
  {
  }

  lemma Constants3()
    ensures Constant(48, 0x19a4_c116) && Constant(49, 0x1e37_6c08) && Constant(50, 0x2748_774c) && Constant(51, 0x34b0_bcb5)
    ensures Constant(52, 0x391c_0cb3) && Constant(53, 0x4ed8_aa4a) && Constant(54, 0x5b9c_ca4f) && Constant(55, 0x682e_6ff3)
    ensures Constant(56, 0x748f_82ee) && Constant(57, 0x78a5_636f) && Constant(58, 0x84c8_7814) && Constant(59, 0x8cc7_0208)
    ensures Constant(60, 0x90be_fffa) && Constant(61, 0xa450_6ceb) && Constant(62, 0xbef9_a3f7) && Constant(63, 0xc671_78f2)
  {
  }

  predicate After(v: seq<bv32>, m: seq<bv32>, t: nat, r: seq<bv32>) {
    |v| == 8 && |m| == 16 && t <= 64 && Rounds(v, m, t) == r
  }

  /** The two sums of a round. */
  function FirstSum(e: bv32, f: bv32, g: bv32, h: bv32, k: bv32, w: bv32): bv32 {
    Add(h, Add(Add(Add(BigSigma1(e), Choice(e, f, g)), k), w))
  }

  function SecondSum(a: bv32, b: bv32, c: bv32): bv32 {
    Add(BigSigma0(a), Majority(a, b, c))
  }

  lemma NextRound(v: seq<bv32>, m: seq<bv32>, t: nat, a: bv32, b: bv32, c: bv32, d: bv32, e: bv32, f: bv32, g: bv32, h: bv32,
      k: bv32, w: bv32, x: bv32, y: bv32)
    requires t < 64 && Constant(t, k) && WordAt(m, t, w) && After(v, m, t, [a, b, c, d, e, f, g, h])
    requires Add(FirstSum(e, f, g, h, k, w), SecondSum(a, b, c)) == x && Add(d, FirstSum(e, f, g, h, k, w)) == y
    ensures After(v, m, t + 1, [x, a, b, c, y, e, f, g])
  {
    hide Schedule, Add, BigSigma0, BigSigma1, Choice, Majority;
  }

  lemma RoundsNone(v: seq<bv32>, m: seq<bv32>)
    requires v == INIT && m == ABC
    ensures After(v, m, 0,
      [0x6a09_e667, 0xbb67_ae85, 0x3c6e_f372, 0xa54f_f53a, 0x510e_527f, 0x9b05_688c, 0x1f83_d9ab, 0x5be0_cd19])
  {
  }

  lemma Rounds4(v: seq<bv32>, m: seq<bv32>)
    requires v == INIT && m == ABC
    ensures After(v, m, 4,
      [0xd550_f666, 0xc8c3_47a7, 0x5a6a_d9ad, 0x5d6a_ebcd, 0x24e0_0850, 0xf929_39eb, 0x78ce_7989, 0xfa2a_4622])
  {
    hide After, WordAt, Constant;
    RoundsNone(v, m);
    Schedule16(m);
    Constants0();
    NextRound(v, m, 0,
      0x6a09_e667, 0xbb67_ae85, 0x3c6e_f372, 0xa54f_f53a, 0x510e_527f, 0x9b05_688c, 0x1f83_d9ab, 0x5be0_cd19,
      0x428a_2f98, 0x6162_6380, 0x5d6a_ebcd, 0xfa2a_4622);
    NextRound(v, m, 1,
      0x5d6a_ebcd, 0x6a09_e667, 0xbb67_ae85, 0x3c6e_f372, 0xfa2a_4622, 0x510e_527f, 0x9b05_688c, 0x1f83_d9ab,
      0x7137_4491, 0x0000_0000, 0x5a6a_d9ad, 0x78ce_7989);
    NextRound(v, m, 2,
      0x5a6a_d9ad, 0x5d6a_ebcd, 0x6a09_e667, 0xbb67_ae85, 0x78ce_7989, 0xfa2a_4622, 0x510e_527f, 0x9b05_688c,
      0xb5c0_fbcf, 0x0000_0000, 0xc8c3_47a7, 0xf929_39eb);
    NextRound(v, m, 3,
      0xc8c3_47a7, 0x5a6a_d9ad, 0x5d6a_ebcd, 0x6a09_e667, 0xf929_39eb, 0x78ce_7989, 0xfa2a_4622, 0x510e_527f,
      0xe9b5_dba5, 0x0000_0000, 0xd550_f666, 0x24e0_0850);
  }

  lemma Rounds8(v: seq<bv32>, m: seq<bv32>)
    requires v == INIT && m == ABC
    ensures After(v, m, 8,
      [0x85a0_7b5f, 0xe503_0380, 0x2b42_09f5, 0x0440_9a6a, 0x0c65_7a79, 0x9b27_a401, 0x7142_60ad, 0x43ad_a245])
  {
    hide After, WordAt, Constant;
    Rounds4(v, m);
    Schedule16(m);
    Constants0();
    NextRound(v, m, 4,
      0xd550_f666, 0xc8c3_47a7, 0x5a6a_d9ad, 0x5d6a_ebcd, 0x24e0_0850, 0xf929_39eb, 0x78ce_7989, 0xfa2a_4622,
      0x3956_c25b, 0x0000_0000, 0x0440_9a6a, 0x43ad_a245);
    NextRound(v, m, 5,
      0x0440_9a6a, 0xd550_f666, 0xc8c3_47a7, 0x5a6a_d9ad, 0x43ad_a245, 0x24e0_0850, 0xf929_39eb, 0x78ce_7989,
      0x59f1_11f1, 0x0000_0000, 0x2b42_09f5, 0x7142_60ad);
    NextRound(v, m, 6,
      0x2b42_09f5, 0x0440_9a6a, 0xd550_f666, 0xc8c3_47a7, 0x7142_60ad, 0x43ad_a245, 0x24e0_0850, 0xf929_39eb,
      0x923f_82a4, 0x0000_0000, 0xe503_0380, 0x9b27_a401);
    NextRound(v, m, 7,
      0xe503_0380, 0x2b42_09f5, 0x0440_9a6a, 0xd550_f666, 0x9b27_a401, 0x7142_60ad, 0x43ad_a245, 0x24e0_0850,
      0xab1c_5ed5, 0x0000_0000, 0x85a0_7b5f, 0x0c65_7a79);
  }

  lemma Rounds12(v: seq<bv32>, m: seq<bv32>)
    requires v == INIT && m == ABC
    ensures After(v, m, 12,
      [0xf71f_c5a9, 0x4798_a3f4, 0x8c87_346b, 0x8e04_ecb9, 0x816f_d6e9, 0x436b_23e8, 0x1cc9_2596, 0x32ca_2d8c])
  {
    hide After, WordAt, Constant;
    Rounds8(v, m);
    Schedule16(m);
    Constants0();
    NextRound(v, m, 8,
      0x85a0_7b5f, 0xe503_0380, 0x2b42_09f5, 0x0440_9a6a, 0x0c65_7a79, 0x9b27_a401, 0x7142_60ad, 0x43ad_a245,
      0xd807_aa98, 0x0000_0000, 0x8e04_ecb9, 0x32ca_2d8c);
    NextRound(v, m, 9,
      0x8e04_ecb9, 0x85a0_7b5f, 0xe503_0380, 0x2b42_09f5, 0x32ca_2d8c, 0x0c65_7a79, 0x9b27_a401, 0x7142_60ad,
      0x1283_5b01, 0x0000_0000, 0x8c87_346b, 0x1cc9_2596);
    NextRound(v, m, 10,
      0x8c87_346b, 0x8e04_ecb9, 0x85a0_7b5f, 0xe503_0380, 0x1cc9_2596, 0x32ca_2d8c, 0x0c65_7a79, 0x9b27_a401,
      0x2431_85be, 0x0000_0000, 0x4798_a3f4, 0x436b_23e8);
    NextRound(v, m, 11,
      0x4798_a3f4, 0x8c87_346b, 0x8e04_ecb9, 0x85a0_7b5f, 0x436b_23e8, 0x1cc9_2596, 0x32ca_2d8c, 0x0c65_7a79,
      0x550c_7dc3, 0x0000_0000, 0xf71f_c5a9, 0x816f_d6e9);
  }

  lemma Rounds16(v: seq<bv32>, m: seq<bv32>)
    requires v == INIT && m == ABC
    ensures After(v, m, 16,
      [0xb0fa_238e, 0xc064_5fde, 0xd932_eb16, 0x8791_2990, 0x0759_0dcd, 0x0b92_f20c, 0x745a_48de, 0x1e57_8218])
  {
    hide After, WordAt, Constant;
    Rounds12(v, m);
    Schedule16(m);
    Constants0();
    NextRound(v, m, 12,
      0xf71f_c5a9, 0x4798_a3f4, 0x8c87_346b, 0x8e04_ecb9, 0x816f_d6e9, 0x436b_23e8, 0x1cc9_2596, 0x32ca_2d8c,
      0x72be_5d74, 0x0000_0000, 0x8791_2990, 0x1e57_8218);
    NextRound(v, m, 13,
      0x8791_2990, 0xf71f_c5a9, 0x4798_a3f4, 0x8c87_346b, 0x1e57_8218, 0x816f_d6e9, 0x436b_23e8, 0x1cc9_2596,
      0x80de_b1fe, 0x0000_0000, 0xd932_eb16, 0x745a_48de);
    NextRound(v, m, 14,
      0xd932_eb16, 0x8791_2990, 0xf71f_c5a9, 0x4798_a3f4, 0x745a_48de, 0x1e57_8218, 0x816f_d6e9, 0x436b_23e8,
      0x9bdc_06a7, 0x0000_0000, 0xc064_5fde, 0x0b92_f20c);
    NextRound(v, m, 15,
      0xc064_5fde, 0xd932_eb16, 0x8791_2990, 0xf71f_c5a9, 0x0b92_f20c, 0x745a_48de, 0x1e57_8218, 0x816f_d6e9,
      0xc19b_f174, 0x0000_0018, 0xb0fa_238e, 0x0759_0dcd);
  }

  lemma Rounds20(v: seq<bv32>, m: seq<bv32>)
    requires v == INIT && m == ABC
    ensures After(v, m, 20,
      [0xe1f2_0c33, 0xfe77_7bbf, 0xc2fb_d9d1, 0x21da_9a9b, 0xb063_8179, 0xcc89_9961, 0x846e_e454, 0x8034_229c])
  {
    hide After, WordAt, Constant;
    Rounds16(v, m);
    Schedule32(m);
    Constants1();
    NextRound(v, m, 16,
      0xb0fa_238e, 0xc064_5fde, 0xd932_eb16, 0x8791_2990, 0x0759_0dcd, 0x0b92_f20c, 0x745a_48de, 0x1e57_8218,
      0xe49b_69c1, 0x6162_6380, 0x21da_9a9b, 0x8034_229c);
    NextRound(v, m, 17,
      0x21da_9a9b, 0xb0fa_238e, 0xc064_5fde, 0xd932_eb16, 0x8034_229c, 0x0759_0dcd, 0x0b92_f20c, 0x745a_48de,
      0xefbe_4786, 0x000f_0000, 0xc2fb_d9d1, 0x846e_e454);
    NextRound(v, m, 18,
      0xc2fb_d9d1, 0x21da_9a9b, 0xb0fa_238e, 0xc064_5fde, 0x846e_e454, 0x8034_229c, 0x0759_0dcd, 0x0b92_f20c,
      0x0fc1_9dc6, 0x7da8_6405, 0xfe77_7bbf, 0xcc89_9961);
    NextRound(v, m, 19,
      0xfe77_7bbf, 0xc2fb_d9d1, 0x21da_9a9b, 0xb0fa_238e, 0xcc89_9961, 0x846e_e454, 0x8034_229c, 0x0759_0dcd,
      0x240c_a1cc, 0x6000_03c6, 0xe1f2_0c33, 0xb063_8179);
  }

  lemma Rounds24(v: seq<bv32>, m: seq<bv32>)
    requires v == INIT && m == ABC
    ensures After(v, m, 24,
      [0xc5d5_3d8d, 0xa7a3_623f, 0xc260_6d6d, 0x9dc6_8b63, 0xaa47_c347, 0x49f5_114a, 0xe125_7970, 0x8ada_8930])
  {
    hide After, WordAt, Constant;
    Rounds20(v, m);
    Schedule32(m);
    Constants1();
    NextRound(v, m, 20,
      0xe1f2_0c33, 0xfe77_7bbf, 0xc2fb_d9d1, 0x21da_9a9b, 0xb063_8179, 0xcc89_9961, 0x846e_e454, 0x8034_229c,
      0x2de9_2c6f, 0x3e9d_7b78, 0x9dc6_8b63, 0x8ada_8930);
    NextRound(v, m, 21,
      0x9dc6_8b63, 0xe1f2_0c33, 0xfe77_7bbf, 0xc2fb_d9d1, 0x8ada_8930, 0xb063_8179, 0xcc89_9961, 0x846e_e454,
      0x4a74_84aa, 0x0183_fc00, 0xc260_6d6d, 0xe125_7970);
    NextRound(v, m, 22,
      0xc260_6d6d, 0x9dc6_8b63, 0xe1f2_0c33, 0xfe77_7bbf, 0xe125_7970, 0x8ada_8930, 0xb063_8179, 0xcc89_9961,
      0x5cb0_a9dc, 0x12dc_bfdb, 0xa7a3_623f, 0x49f5_114a);
    NextRound(v, m, 23,
      0xa7a3_623f, 0xc260_6d6d, 0x9dc6_8b63, 0xe1f2_0c33, 0x49f5_114a, 0xe125_7970, 0x8ada_8930, 0xb063_8179,
      0x76f9_88da, 0xe2e2_c38e, 0xc5d5_3d8d, 0xaa47_c347);
  }

  lemma Rounds28(v: seq<bv32>, m: seq<bv32>)
    requires v == INIT && m == ABC
    ensures After(v, m, 28,
      [0x77d3_7528, 0xb62e_c4bc, 0xcde8_037d, 0x1c2c_2838, 0xedff_bff8, 0xc74c_6516, 0x1438_3d8e, 0x2823_ef91])
  {
    hide After, WordAt, Constant;
    Rounds24(v, m);
    Schedule32(m);
    Constants1();
    NextRound(v, m, 24,
      0xc5d5_3d8d, 0xa7a3_623f, 0xc260_6d6d, 0x9dc6_8b63, 0xaa47_c347, 0x49f5_114a, 0xe125_7970, 0x8ada_8930,
      0x983e_5152, 0xc821_5c1a, 0x1c2c_2838, 0x2823_ef91);
    NextRound(v, m, 25,
      0x1c2c_2838, 0xc5d5_3d8d, 0xa7a3_623f, 0xc260_6d6d, 0x2823_ef91, 0xaa47_c347, 0x49f5_114a, 0xe125_7970,
      0xa831_c66d, 0xb736_79a2, 0xcde8_037d, 0x1438_3d8e);
    NextRound(v, m, 26,
      0xcde8_037d, 0x1c2c_2838, 0xc5d5_3d8d, 0xa7a3_623f, 0x1438_3d8e, 0x2823_ef91, 0xaa47_c347, 0x49f5_114a,
      0xb003_27c8, 0xe5bc_3909, 0xb62e_c4bc, 0xc74c_6516);
    NextRound(v, m, 27,
      0xb62e_c4bc, 0xcde8_037d, 0x1c2c_2838, 0xc5d5_3d8d, 0xc74c_6516, 0x1438_3d8e, 0x2823_ef91, 0xaa47_c347,
      0xbf59_7fc7, 0x3266_3c5b, 0x77d3_7528, 0xedff_bff8);
  }

  lemma Rounds32(v: seq<bv32>, m: seq<bv32>)
    requires v == INIT && m == ABC
    ensures After(v, m, 32,
      [0x73b3_3bf5, 0xea99_2a22, 0xa006_0b30, 0x3634_82c9, 0xba59_1112, 0x0109_ab3a, 0xade7_9437, 0x6112_a3b7])
  {
    hide After, WordAt, Constant;
    Rounds28(v, m);
    Schedule32(m);
    Constants1();
    NextRound(v, m, 28,
      0x77d3_7528, 0xb62e_c4bc, 0xcde8_037d, 0x1c2c_2838, 0xedff_bff8, 0xc74c_6516, 0x1438_3d8e, 0x2823_ef91,
      0xc6e0_0bf3, 0x9d20_9d67, 0x3634_82c9, 0x6112_a3b7);
    NextRound(v, m, 29,
      0x3634_82c9, 0x77d3_7528, 0xb62e_c4bc, 0xcde8_037d, 0x6112_a3b7, 0xedff_bff8, 0xc74c_6516, 0x1438_3d8e,
      0xd5a7_9147, 0xec87_26cb, 0xa006_0b30, 0xade7_9437);
    NextRound(v, m, 30,
      0xa006_0b30, 0x3634_82c9, 0x77d3_7528, 0xb62e_c4bc, 0xade7_9437, 0x6112_a3b7, 0xedff_bff8, 0xc74c_6516,
      0x06ca_6351, 0x7021_38a4, 0xea99_2a22, 0x0109_ab3a);
    NextRound(v, m, 31,
      0xea99_2a22, 0xa006_0b30, 0x3634_82c9, 0x77d3_7528, 0x0109_ab3a, 0xade7_9437, 0x6112_a3b7, 0xedff_bff8,
      0x1429_2967, 0xd3b7_973b, 0x73b3_3bf5, 0xba59_1112);
  }

  lemma Rounds36(v: seq<bv32>, m: seq<bv32>)
    requires v == INIT && m == ABC
    ensures After(v, m, 36,
      [0x65a0_cfe4, 0xa9a7_738c, 0xfe60_4df5, 0x98e1_2507, 0xf4b0_02d6, 0x085f_3833, 0x5924_9dd3, 0x9cd9_f5f6])
  {
    hide After, WordAt, Constant;
    Rounds32(v, m);
    Schedule48(m);
    Constants2();
    NextRound(v, m, 32,
      0x73b3_3bf5, 0xea99_2a22, 0xa006_0b30, 0x3634_82c9, 0xba59_1112, 0x0109_ab3a, 0xade7_9437, 0x6112_a3b7,
      0x27b7_0a85, 0x93f5_997f, 0x98e1_2507, 0x9cd9_f5f6);
    NextRound(v, m, 33,
      0x98e1_2507, 0x73b3_3bf5, 0xea99_2a22, 0xa006_0b30, 0x9cd9_f5f6, 0xba59_1112, 0x0109_ab3a, 0xade7_9437,
      0x2e1b_2138, 0x3b68_ba73, 0xfe60_4df5, 0x5924_9dd3);
    NextRound(v, m, 34,
      0xfe60_4df5, 0x98e1_2507, 0x73b3_3bf5, 0xea99_2a22, 0x5924_9dd3, 0x9cd9_f5f6, 0xba59_1112, 0x0109_ab3a,
      0x4d2c_6dfc, 0xaff4_ffc1, 0xa9a7_738c, 0x085f_3833);
    NextRound(v, m, 35,
      0xa9a7_738c, 0xfe60_4df5, 0x98e1_2507, 0x73b3_3bf5, 0x085f_3833, 0x5924_9dd3, 0x9cd9_f5f6, 0xba59_1112,
      0x5338_0d13, 0xf10a_5c62, 0x65a0_cfe4, 0xf4b0_02d6);
  }

  lemma Rounds40(v: seq<bv32>, m: seq<bv32>)
    requires v == INIT && m == ABC
    ensures After(v, m, 40,
      [0x79ea_687a, 0x6dc5_7a8a, 0x34df_1604, 0x41a6_5cb1, 0x1efb_c0a0, 0xf078_1bc8, 0xa507_a53d, 0x0772_a26b])
  {
    hide After, WordAt, Constant;
    Rounds36(v, m);
    Schedule48(m);
    Constants2();
    NextRound(v, m, 36,
      0x65a0_cfe4, 0xa9a7_738c, 0xfe60_4df5, 0x98e1_2507, 0xf4b0_02d6, 0x085f_3833, 0x5924_9dd3, 0x9cd9_f5f6,
      0x650a_7354, 0x0a8b_3996, 0x41a6_5cb1, 0x0772_a26b);
    NextRound(v, m, 37,
      0x41a6_5cb1, 0x65a0_cfe4, 0xa9a7_738c, 0xfe60_4df5, 0x0772_a26b, 0xf4b0_02d6, 0x085f_3833, 0x5924_9dd3,
      0x766a_0abb, 0x72af_830a, 0x34df_1604, 0xa507_a53d);
    NextRound(v, m, 38,
      0x34df_1604, 0x41a6_5cb1, 0x65a0_cfe4, 0xa9a7_738c, 0xa507_a53d, 0x0772_a26b, 0xf4b0_02d6, 0x085f_3833,
      0x81c2_c92e, 0x9409_e33e, 0x6dc5_7a8a, 0xf078_1bc8);
    NextRound(v, m, 39,
      0x6dc5_7a8a, 0x34df_1604, 0x41a6_5cb1, 0x65a0_cfe4, 0xf078_1bc8, 0xa507_a53d, 0x0772_a26b, 0xf4b0_02d6,
      0x9272_2c85, 0x2464_1522, 0x79ea_687a, 0x1efb_c0a0);
  }

  lemma Rounds44(v: seq<bv32>, m: seq<bv32>)
    requires v == INIT && m == ABC
    ensures After(v, m, 44,
      [0x9d4b_af93, 0x17aa_0dfe, 0xdf46_652f, 0xd667_0766, 0xfda2_4c2e, 0xdecd_4715, 0x838b_2711, 0x2635_2d63])
  {
    hide After, WordAt, Constant;
    Rounds40(v, m);
    Schedule48(m);
    Constants2();
    NextRound(v, m, 40,
      0x79ea_687a, 0x6dc5_7a8a, 0x34df_1604, 0x41a6_5cb1, 0x1efb_c0a0, 0xf078_1bc8, 0xa507_a53d, 0x0772_a26b,
      0xa2bf_e8a1, 0x9f47_bf94, 0xd667_0766, 0x2635_2d63);
    NextRound(v, m, 41,
      0xd667_0766, 0x79ea_687a, 0x6dc5_7a8a, 0x34df_1604, 0x2635_2d63, 0x1efb_c0a0, 0xf078_1bc8, 0xa507_a53d,
      0xa81a_664b, 0xf0a6_4f5a, 0xdf46_652f, 0x838b_2711);
    NextRound(v, m, 42,
      0xdf46_652f, 0xd667_0766, 0x79ea_687a, 0x6dc5_7a8a, 0x838b_2711, 0x2635_2d63, 0x1efb_c0a0, 0xf078_1bc8,
      0xc24b_8b70, 0x3e24_6a79, 0x17aa_0dfe, 0xdecd_4715);
    NextRound(v, m, 43,
      0x17aa_0dfe, 0xdf46_652f, 0xd667_0766, 0x79ea_687a, 0xdecd_4715, 0x838b_2711, 0x2635_2d63, 0x1efb_c0a0,
      0xc76c_51a3, 0x2733_3ba3, 0x9d4b_af93, 0xfda2_4c2e);
  }

  lemma Rounds48(v: seq<bv32>, m: seq<bv32>)
    requires v == INIT && m == ABC
    ensures After(v, m, 48,
      [0x4172_328d, 0xa14c_14b0, 0x72ab_4b91, 0x2662_8815, 0xfecf_0bc6, 0xd57b_94a9, 0xb775_5da1, 0xa80f_11f0])
  {
    hide After, WordAt, Constant;
    Rounds44(v, m);
    Schedule48(m);
    Constants2();
    NextRound(v, m, 44,
      0x9d4b_af93, 0x17aa_0dfe, 0xdf46_652f, 0xd667_0766, 0xfda2_4c2e, 0xdecd_4715, 0x838b_2711, 0x2635_2d63,
      0xd192_e819, 0x0c47_63f2, 0x2662_8815, 0xa80f_11f0);
    NextRound(v, m, 45,
      0x2662_8815, 0x9d4b_af93, 0x17aa_0dfe, 0xdf46_652f, 0xa80f_11f0, 0xfda2_4c2e, 0xdecd_4715, 0x838b_2711,
      0xd699_0624, 0x840a_bf27, 0x72ab_4b91, 0xb775_5da1);
    NextRound(v, m, 46,
      0x72ab_4b91, 0x2662_8815, 0x9d4b_af93, 0x17aa_0dfe, 0xb775_5da1, 0xa80f_11f0, 0xfda2_4c2e, 0xdecd_4715,
      0xf40e_3585, 0x7a29_0d5d, 0xa14c_14b0, 0xd57b_94a9);
    NextRound(v, m, 47,
      0xa14c_14b0, 0x72ab_4b91, 0x2662_8815, 0x9d4b_af93, 0xd57b_94a9, 0xb775_5da1, 0xa80f_11f0, 0xfda2_4c2e,
      0x106a_a070, 0x065c_43da, 0x4172_328d, 0xfecf_0bc6);
  }

  lemma Rounds52(v: seq<bv32>, m: seq<bv32>)
    requires v == INIT && m == ABC
    ensures After(v, m, 52,
      [0x886e_7a22, 0x7a05_08a1, 0xf11b_faa8, 0x0575_7ceb, 0x4923_1c1e, 0x52f1_ccf7, 0x6e5c_390c, 0xbd71_4038])
  {
    hide After, WordAt, Constant;
    Rounds48(v, m);
    Schedule64(m);
    Constants3();
    NextRound(v, m, 48,
      0x4172_328d, 0xa14c_14b0, 0x72ab_4b91, 0x2662_8815, 0xfecf_0bc6, 0xd57b_94a9, 0xb775_5da1, 0xa80f_11f0,
      0x19a4_c116, 0xfb3e_89cb, 0x0575_7ceb, 0xbd71_4038);
    NextRound(v, m, 49,
      0x0575_7ceb, 0x4172_328d, 0xa14c_14b0, 0x72ab_4b91, 0xbd71_4038, 0xfecf_0bc6, 0xd57b_94a9, 0xb775_5da1,
      0x1e37_6c08, 0xcc76_17db, 0xf11b_faa8, 0x6e5c_390c);
    NextRound(v, m, 50,
      0xf11b_faa8, 0x0575_7ceb, 0x4172_328d, 0xa14c_14b0, 0x6e5c_390c, 0xbd71_4038, 0xfecf_0bc6, 0xd57b_94a9,
      0x2748_774c, 0xb9e6_6c34, 0x7a05_08a1, 0x52f1_ccf7);
    NextRound(v, m, 51,
      0x7a05_08a1, 0xf11b_faa8, 0x0575_7ceb, 0x4172_328d, 0x52f1_ccf7, 0x6e5c_390c, 0xbd71_4038, 0xfecf_0bc6,
      0x34b0_bcb5, 0xa999_3667, 0x886e_7a22, 0x4923_1c1e);
  }

  lemma Rounds56(v: seq<bv32>, m: seq<bv32>)
    requires v == INIT && m == ABC
    ensures After(v, m, 56,
      [0x38cc_9913, 0x3ec4_5cdb, 0xf570_2fdb, 0x101f_d28f, 0x54cb_266b, 0xe50e_1b4f, 0x9f47_87c3, 0x529e_7d00])
  {
    hide After, WordAt, Constant;
    Rounds52(v, m);
    Schedule64(m);
    Constants3();
    NextRound(v, m, 52,
      0x886e_7a22, 0x7a05_08a1, 0xf11b_faa8, 0x0575_7ceb, 0x4923_1c1e, 0x52f1_ccf7, 0x6e5c_390c, 0xbd71_4038,
      0x391c_0cb3, 0x84ba_dedd, 0x101f_d28f, 0x529e_7d00);
    NextRound(v, m, 53,
      0x101f_d28f, 0x886e_7a22, 0x7a05_08a1, 0xf11b_faa8, 0x529e_7d00, 0x4923_1c1e, 0x52f1_ccf7, 0x6e5c_390c,
      0x4ed8_aa4a, 0xc214_62bc, 0xf570_2fdb, 0x9f47_87c3);
    NextRound(v, m, 54,
      0xf570_2fdb, 0x101f_d28f, 0x886e_7a22, 0x7a05_08a1, 0x9f47_87c3, 0x529e_7d00, 0x4923_1c1e, 0x52f1_ccf7,
      0x5b9c_ca4f, 0x1487_472c, 0x3ec4_5cdb, 0xe50e_1b4f);
    NextRound(v, m, 55,
      0x3ec4_5cdb, 0xf570_2fdb, 0x101f_d28f, 0x886e_7a22, 0xe50e_1b4f, 0x9f47_87c3, 0x529e_7d00, 0x4923_1c1e,
      0x682e_6ff3, 0xb20f_7a99, 0x38cc_9913, 0x54cb_266b);
  }

  lemma Rounds60(v: seq<bv32>, m: seq<bv32>)
    requires v == INIT && m == ABC
    ensures After(v, m, 60,
      [0xb6ae_8fff, 0xffb7_0472, 0xc062_d46f, 0xfcd1_887b, 0xb21b_ad3d, 0x6d83_bfc6, 0x7e44_008e, 0x9b5e_906c])
  {
    hide After, WordAt, Constant;
    Rounds56(v, m);
    Schedule64(m);
    Constants3();
    NextRound(v, m, 56,
      0x38cc_9913, 0x3ec4_5cdb, 0xf570_2fdb, 0x101f_d28f, 0x54cb_266b, 0xe50e_1b4f, 0x9f47_87c3, 0x529e_7d00,
      0x748f_82ee, 0xef57_b9cd, 0xfcd1_887b, 0x9b5e_906c);
    NextRound(v, m, 57,
      0xfcd1_887b, 0x38cc_9913, 0x3ec4_5cdb, 0xf570_2fdb, 0x9b5e_906c, 0x54cb_266b, 0xe50e_1b4f, 0x9f47_87c3,
      0x78a5_636f, 0xebe6_b238, 0xc062_d46f, 0x7e44_008e);
    NextRound(v, m, 58,
      0xc062_d46f, 0xfcd1_887b, 0x38cc_9913, 0x3ec4_5cdb, 0x7e44_008e, 0x9b5e_906c, 0x54cb_266b, 0xe50e_1b4f,
      0x84c8_7814, 0x9fe3_095e, 0xffb7_0472, 0x6d83_bfc6);
    NextRound(v, m, 59,
      0xffb7_0472, 0xc062_d46f, 0xfcd1_887b, 0x38cc_9913, 0x6d83_bfc6, 0x7e44_008e, 0x9b5e_906c, 0x54cb_266b,
      0x8cc7_0208, 0x78bc_8d4b, 0xb6ae_8fff, 0xb21b_ad3d);
  }

  lemma Rounds64(v: seq<bv32>, m: seq<bv32>)
    requires v == INIT && m == ABC
    ensures After(v, m, 64,
      [0x506e_3058, 0xd39a_2165, 0x04d2_4d6c, 0xb85e_2ce9, 0x5ef5_0f24, 0xfb12_1210, 0x948d_25b6, 0x961f_4894])
  {
    hide After, WordAt, Constant;
    Rounds60(v, m);
    Schedule64(m);
    Constants3();
    NextRound(v, m, 60,
      0xb6ae_8fff, 0xffb7_0472, 0xc062_d46f, 0xfcd1_887b, 0xb21b_ad3d, 0x6d83_bfc6, 0x7e44_008e, 0x9b5e_906c,
      0x90be_fffa, 0xa43f_cf15, 0xb85e_2ce9, 0x961f_4894);
    NextRound(v, m, 61,
      0xb85e_2ce9, 0xb6ae_8fff, 0xffb7_0472, 0xc062_d46f, 0x961f_4894, 0xb21b_ad3d, 0x6d83_bfc6, 0x7e44_008e,
      0xa450_6ceb, 0x668b_2ff8, 0x04d2_4d6c, 0x948d_25b6);
    NextRound(v, m, 62,
      0x04d2_4d6c, 0xb85e_2ce9, 0xb6ae_8fff, 0xffb7_0472, 0x948d_25b6, 0x961f_4894, 0xb21b_ad3d, 0x6d83_bfc6,
      0xbef9_a3f7, 0xeeab_a2cc, 0xd39a_2165, 0xfb12_1210);
    NextRound(v, m, 63,
      0xd39a_2165, 0x04d2_4d6c, 0xb85e_2ce9, 0xb6ae_8fff, 0xfb12_1210, 0x948d_25b6, 0x961f_4894, 0xb21b_ad3d,
      0xc671_78f2, 0x12b1_edeb, 0x506e_3058, 0x5ef5_0f24);
  }

  // ---------- The digest ----------

  lemma Summed(v: seq<bv32>)
    requires v == INIT
    ensures |v| == 8 && Sums(v,
        [0x506e_3058, 0xd39a_2165, 0x04d2_4d6c, 0xb85e_2ce9, 0x5ef5_0f24, 0xfb12_1210, 0x948d_25b6, 0x961f_4894]) ==
      [0xba78_16bf, 0x8f01_cfea, 0x4141_40de, 0x5dae_2223, 0xb003_61a3, 0x9617_7a9c, 0xb410_ff61, 0xf200_15ad]
  {
    var r := Sums(v,
      [0x506e_3058, 0xd39a_2165, 0x04d2_4d6c, 0xb85e_2ce9, 0x5ef5_0f24, 0xfb12_1210, 0x948d_25b6, 0x961f_4894]);
    assert r == [r[0], r[1], r[2], r[3], r[4], r[5], r[6], r[7]];
  }

  lemma OneBlock(v: seq<bv32>, block: seq<bv8>)
    requires |block| == 64 && |v| == 8
    ensures Blocks(v, block) == Sums(v, Rounds(v, Words(block), 64))
  {
    hide Rounds, Sums, Words;
    assert block[..64] == block && block[64..] == [];
  }

  lemma Hashed(v: seq<bv32>)
    requires v == INIT
    ensures |v| == 8 && Blocks(v, Padded([0x61, 0x62, 0x63])) ==
      [0xba78_16bf, 0x8f01_cfea, 0x4141_40de, 0x5dae_2223, 0xb003_61a3, 0x9617_7a9c, 0xb410_ff61, 0xf200_15ad]
  {
    hide Rounds, Words, Padded, Sums, Blocks;
    TableSizes();
    Padding();
    Rounds64(v, ABC);
    Summed(v);
    OneBlock(v, Padded([0x61, 0x62, 0x63]));
  }

  lemma Written(h: seq<bv32>)
    requires h == [0xba78_16bf, 0x8f01_cfea, 0x4141_40de, 0x5dae_2223, 0xb003_61a3, 0x9617_7a9c, 0xb410_ff61, 0xf200_15ad]
    ensures Output(h) ==
      [0xba, 0x78, 0x16, 0xbf, 0x8f, 0x01, 0xcf, 0xea, 0x41, 0x41, 0x40, 0xde, 0x5d, 0xae, 0x22, 0x23,
       0xb0, 0x03, 0x61, 0xa3, 0x96, 0x17, 0x7a, 0x9c, 0xb4, 0x10, 0xff, 0x61, 0xf2, 0x00, 0x15, 0xad]
  {
  }

  /** The digest of the three bytes abc. */
  lemma DigestOfAbc()
    ensures Digest([0x61, 0x62, 0x63]) ==
      [0xba, 0x78, 0x16, 0xbf, 0x8f, 0x01, 0xcf, 0xea, 0x41, 0x41, 0x40, 0xde, 0x5d, 0xae, 0x22, 0x23,
       0xb0, 0x03, 0x61, 0xa3, 0x96, 0x17, 0x7a, 0x9c, 0xb4, 0x10, 0xff, 0x61, 0xf2, 0x00, 0x15, 0xad]
  {
    hide Blocks, Padded, Output;
    TableSizes();
    Hashed(INIT);
    Written(Blocks(INIT, Padded([0x61, 0x62, 0x63])));
  }
}
