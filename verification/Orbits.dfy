/** The orbit of the word 1, the block x^127, under v -> v^2 + v: after 127 steps it is the
    unit. The steps are evaluated on words; the literals below are its points. */
module Orbits {
  import opened Gf128
  import opened Squares
  import opened Words
  import opened Iterates

  /** v^2 + v. */
  function Diff(v: Block): Block {
    Xor(Square(v), v)
  }

  function DiffWord(v: Word128): Word128 {
    XorWord(SquareWord(v), v)
  }

  lemma DiffBlock(v: Word128)
    ensures BlockOf(DiffWord(v)) == Diff(BlockOf(v))
  {
    SquareBlock(v);
    XorBlock(SquareWord(v), v);
  }

  lemma Eight<T>(f: T -> T, a: T, b: T, c: T, d: T, e: T, p: T, q: T, r: T, s: T)
    requires f(a) == b && f(b) == c && f(c) == d && f(d) == e
    requires f(e) == p && f(p) == q && f(q) == r && f(r) == s
    ensures Iterate(f, a, 8) == s
  {
    assert Iterate(f, q, 2) == s;
    assert Iterate(f, e, 4) == Iterate(f, q, 2);
    assert Iterate(f, c, 6) == Iterate(f, e, 4);
  }

  lemma Orbit1(v: Word128) returns (w: Word128)
    requires v == 1
    ensures w == 0xfb9c_fc95_5924_a78a_b3c5_e37f_b860_da88 && Iterate(DiffWord, v, 8) == w
  {
    w := 0xfb9c_fc95_5924_a78a_b3c5_e37f_b860_da88;
    assert DiffWord(1) == 0xe608_0000_0000_0000_0000_0000_0000_0002;
    assert DiffWord(0xe608_0000_0000_0000_0000_0000_0000_0002) == 0x5200_0080_0000_0000_0000_0000_0000_000c;
    assert DiffWord(0x5200_0080_0000_0000_0000_0000_0000_000c) == 0x0088_0080_0000_8000_0000_0000_0000_00d5;
    assert DiffWord(0x0088_0080_0000_8000_0000_0000_0000_00d5) == 0x9600_8000_0000_0000_0000_0000_8000_da2a;
    assert DiffWord(0x9600_8000_0000_0000_0000_0000_8000_da2a) == 0x0808_8000_8000_0000_e100_0000_5a2b_c4d5;
    assert DiffWord(0x0808_8000_8000_0000_e100_0000_5a2b_c4d5) == 0x4953_0480_0000_0000_5a2b_1efc_1753_5e2a;
    assert DiffWord(0x4953_0480_0000_0000_5a2b_1efc_1753_5e2a) == 0x4eda_3876_9773_040d_199a_f135_b840_00d5;
    assert DiffWord(0x4eda_3876_9773_040d_199a_f135_b840_00d5) == 0xfb9c_fc95_5924_a78a_b3c5_e37f_b860_da88;
    Eight(DiffWord, v,
          0xe608_0000_0000_0000_0000_0000_0000_0002, 0x5200_0080_0000_0000_0000_0000_0000_000c,
          0x0088_0080_0000_8000_0000_0000_0000_00d5, 0x9600_8000_0000_0000_0000_0000_8000_da2a,
          0x0808_8000_8000_0000_e100_0000_5a2b_c4d5, 0x4953_0480_0000_0000_5a2b_1efc_1753_5e2a,
          0x4eda_3876_9773_040d_199a_f135_b840_00d5, w);
  }

  lemma Orbit2(v: Word128) returns (w: Word128)
    requires v == 0xfb9c_fc95_5924_a78a_b3c5_e37f_b860_da88
    ensures w == 0x4069_0a51_740b_2d55_5db7_35ac_098c_af49 && Iterate(DiffWord, v, 8) == w
  {
    w := 0x4069_0a51_740b_2d55_5db7_35ac_098c_af49;
    assert DiffWord(0xfb9c_fc95_5924_a78a_b3c5_e37f_b860_da88) == 0xbd8f_334e_e0d9_84a8_a932_dd0f_ea61_abe1;
    assert DiffWord(0xbd8f_334e_e0d9_84a8_a932_dd0f_ea61_abe1) == 0x3ed7_3a7e_20cd_60d4_028d_59de_01bd_6032;
    assert DiffWord(0x3ed7_3a7e_20cd_60d4_028d_59de_01bd_6032) == 0x2851_698e_d563_146f_5a8e_9132_dbed_cf88;
    assert DiffWord(0x2851_698e_d563_146f_5a8e_9132_dbed_cf88) == 0x1bfa_ba5b_4f66_1d5d_3284_fab2_c459_d2c3;
    assert DiffWord(0x1bfa_ba5b_4f66_1d5d_3284_fab2_c459_d2c3) == 0xeec2_e1eb_51d5_c34d_db56_a9bc_9831_392c;
    assert DiffWord(0xeec2_e1eb_51d5_c34d_db56_a9bc_9831_392c) == 0xecc2_ee11_4625_038a_5b31_0609_b14d_9347;
    assert DiffWord(0xecc2_ee11_4625_038a_5b31_0609_b14d_9347) == 0xf5e2_d78e_6abb_516a_138e_b2b1_97ce_bfba;
    assert DiffWord(0xf5e2_d78e_6abb_516a_138e_b2b1_97ce_bfba) == 0x4069_0a51_740b_2d55_5db7_35ac_098c_af49;
    Eight(DiffWord, v,
          0xbd8f_334e_e0d9_84a8_a932_dd0f_ea61_abe1, 0x3ed7_3a7e_20cd_60d4_028d_59de_01bd_6032,
          0x2851_698e_d563_146f_5a8e_9132_dbed_cf88, 0x1bfa_ba5b_4f66_1d5d_3284_fab2_c459_d2c3,
          0xeec2_e1eb_51d5_c34d_db56_a9bc_9831_392c, 0xecc2_ee11_4625_038a_5b31_0609_b14d_9347,
          0xf5e2_d78e_6abb_516a_138e_b2b1_97ce_bfba, w);
  }

  lemma Orbit3(v: Word128) returns (w: Word128)
    requires v == 0x4069_0a51_740b_2d55_5db7_35ac_098c_af49
    ensures w == 0x9b5b_cce3_5e1b_71d9_8898_878f_7b04_7982 && Iterate(DiffWord, v, 8) == w
  {
    w := 0x9b5b_cce3_5e1b_71d9_8898_878f_7b04_7982;
    assert DiffWord(0x4069_0a51_740b_2d55_5db7_35ac_098c_af49) == 0xbd7f_0a72_ad2c_249e_3775_50ff_aeea_61c9;
    assert DiffWord(0xbd7f_0a72_ad2c_249e_3775_50ff_aeea_61c9) == 0xdc74_c137_5260_da96_8410_dfe0_8099_bec3;
    assert DiffWord(0xdc74_c137_5260_da96_8410_dfe0_8099_bec3) == 0x65c4_a893_2872_d3ec_4718_1586_4a52_b5a6;
    assert DiffWord(0x65c4_a893_2872_d3ec_4718_1586_4a52_b5a6) == 0x1933_dfd6_a34d_74d0_2737_1444_14f7_3620;
    assert DiffWord(0x1933_dfd6_a34d_74d0_2737_1444_14f7_3620) == 0x1594_0c7d_d65b_ae80_ec81_a007_e775_ca30;
    assert DiffWord(0x1594_0c7d_d65b_ae80_ec81_a007_e775_ca30) == 0xc03f_2f5e_bdeb_8417_4dcc_6362_7272_57a4;
    assert DiffWord(0xc03f_2f5e_bdeb_8417_4dcc_6362_7272_57a4) == 0x2825_386d_c31c_04e1_e2b4_ee32_d9a3_6ea6;
    assert DiffWord(0x2825_386d_c31c_04e1_e2b4_ee32_d9a3_6ea6) == 0x9b5b_cce3_5e1b_71d9_8898_878f_7b04_7982;
    Eight(DiffWord, v,
          0xbd7f_0a72_ad2c_249e_3775_50ff_aeea_61c9, 0xdc74_c137_5260_da96_8410_dfe0_8099_bec3,
          0x65c4_a893_2872_d3ec_4718_1586_4a52_b5a6, 0x1933_dfd6_a34d_74d0_2737_1444_14f7_3620,
          0x1594_0c7d_d65b_ae80_ec81_a007_e775_ca30, 0xc03f_2f5e_bdeb_8417_4dcc_6362_7272_57a4,
          0x2825_386d_c31c_04e1_e2b4_ee32_d9a3_6ea6, w);
  }

  lemma Orbit4(v: Word128) returns (w: Word128)
    requires v == 0x9b5b_cce3_5e1b_71d9_8898_878f_7b04_7982
    ensures w == 0x1cc0_c6f0_d8e2_ffaa_0d7c_c419_a635_eb30 && Iterate(DiffWord, v, 8) == w
  {
    w := 0x1cc0_c6f0_d8e2_ffaa_0d7c_c419_a635_eb30;
    assert DiffWord(0x9b5b_cce3_5e1b_71d9_8898_878f_7b04_7982) == 0xe410_0c0c_1f8e_ec07_4b08_113d_2430_be0e;
    assert DiffWord(0xe410_0c0c_1f8e_ec07_4b08_113d_2430_be0e) == 0x183c_9aed_1ca9_65e9_838a_dc01_60d3_eef3;
    assert DiffWord(0x183c_9aed_1ca9_65e9_838a_dc01_60d3_eef3) == 0x0199_e5a2_543c_8d48_337a_8e4a_0b76_c2a8;
    assert DiffWord(0x0199_e5a2_543c_8d48_337a_8e4a_0b76_c2a8) == 0x0c02_c61b_0dc9_6def_01b6_2508_029a_1dd9;
    assert DiffWord(0x0c02_c61b_0dc9_6def_01b6_2508_029a_1dd9) == 0xeaa9_aeb1_f3ca_ab84_011a_77e1_3966_ab55;
    assert DiffWord(0xeaa9_aeb1_f3ca_ab84_011a_77e1_3966_ab55) == 0xd4aa_a158_5e83_22d5_2266_650f_0e10_848a;
    assert DiffWord(0xd4aa_a158_5e83_22d5_2266_650f_0e10_848a) == 0x64b4_0fb6_b0ea_c481_d419_b681_e720_8747;
    assert DiffWord(0x64b4_0fb6_b0ea_c481_d419_b681_e720_8747) == 0x1cc0_c6f0_d8e2_ffaa_0d7c_c419_a635_eb30;
    Eight(DiffWord, v,
          0xe410_0c0c_1f8e_ec07_4b08_113d_2430_be0e, 0x183c_9aed_1ca9_65e9_838a_dc01_60d3_eef3,
          0x0199_e5a2_543c_8d48_337a_8e4a_0b76_c2a8, 0x0c02_c61b_0dc9_6def_01b6_2508_029a_1dd9,
          0xeaa9_aeb1_f3ca_ab84_011a_77e1_3966_ab55, 0xd4aa_a158_5e83_22d5_2266_650f_0e10_848a,
          0x64b4_0fb6_b0ea_c481_d419_b681_e720_8747, w);
  }

  lemma Orbit5(v: Word128) returns (w: Word128)
    requires v == 0x1cc0_c6f0_d8e2_ffaa_0d7c_c419_a635_eb30
    ensures w == 0xf215_b8fa_a11e_5c80_d72c_26df_9071_1114 && Iterate(DiffWord, v, 8) == w
  {
    w := 0xf215_b8fa_a11e_5c80_d72c_26df_9071_1114;
    assert DiffWord(0x1cc0_c6f0_d8e2_ffaa_0d7c_c419_a635_eb30) == 0x1eba_97fd_e1b2_16cc_c4da_31be_1f23_fa2c;
    assert DiffWord(0x1eba_97fd_e1b2_16cc_c4da_31be_1f23_fa2c) == 0xb5ea_875e_7e0f_d42d_3f88_61ab_5d30_4445;
    assert DiffWord(0xb5ea_875e_7e0f_d42d_3f88_61ab_5d30_4445) == 0xa400_1a37_c876_9d79_ba3e_a895_c768_349c;
    assert DiffWord(0xa400_1a37_c876_9d79_ba3e_a895_c768_349c) == 0xb0db_0774_750f_75ec_07cb_600c_4866_bc43;
    assert DiffWord(0xb0db_0774_750f_75ec_07cb_600c_4866_bc43) == 0xc0c6_a852_d775_5f15_5548_56c0_de09_6cae;
    assert DiffWord(0xc0c6_a852_d775_5f15_5548_56c0_de09_6cae) == 0x3799_f4db_6407_f45d_2d71_2c00_4e2a_c14b;
    assert DiffWord(0x3799_f4db_6407_f45d_2d71_2c00_4e2a_c14b) == 0xc951_878e_44ee_16d7_3dc6_72d5_2d49_5f45;
    assert DiffWord(0xc951_878e_44ee_16d7_3dc6_72d5_2d49_5f45) == 0xf215_b8fa_a11e_5c80_d72c_26df_9071_1114;
    Eight(DiffWord, v,
          0x1eba_97fd_e1b2_16cc_c4da_31be_1f23_fa2c, 0xb5ea_875e_7e0f_d42d_3f88_61ab_5d30_4445,
          0xa400_1a37_c876_9d79_ba3e_a895_c768_349c, 0xb0db_0774_750f_75ec_07cb_600c_4866_bc43,
          0xc0c6_a852_d775_5f15_5548_56c0_de09_6cae, 0x3799_f4db_6407_f45d_2d71_2c00_4e2a_c14b,
          0xc951_878e_44ee_16d7_3dc6_72d5_2d49_5f45, w);
  }

  lemma Orbit6(v: Word128) returns (w: Word128)
    requires v == 0xf215_b8fa_a11e_5c80_d72c_26df_9071_1114
    ensures w == 0x0d4b_8d0d_b8d0_1b66_744b_390d_1a5c_9e75 && Iterate(DiffWord, v, 8) == w
  {
    w := 0x0d4b_8d0d_b8d0_1b66_744b_390d_1a5c_9e75;
    assert DiffWord(0xf215_b8fa_a11e_5c80_d72c_26df_9071_1114) == 0xf26c_6011_65b8_7c18_69aa_11a0_3556_16a8;
    assert DiffWord(0xf26c_6011_65b8_7c18_69aa_11a0_3556_16a8) == 0x6ed6_234e_5e3f_150a_4c27_64d2_4c44_abd9;
    assert DiffWord(0x6ed6_234e_5e3f_150a_4c27_64d2_4c44_abd9) == 0x98ef_cf43_b45d_af68_4616_1600_e19a_e577;
    assert DiffWord(0x98ef_cf43_b45d_af68_4616_1600_e19a_e577) == 0xa8b1_345b_4745_df62_1b65_52c9_ae5b_3c16;
    assert DiffWord(0xa8b1_345b_4745_df62_1b65_52c9_ae5b_3c16) == 0x4ff9_1c32_b2af_344a_5088_19c3_95bc_57ac;
    assert DiffWord(0x4ff9_1c32_b2af_344a_5088_19c3_95bc_57ac) == 0x2417_5751_b369_630f_ac3f_b924_e46d_4ced;
    assert DiffWord(0x2417_5751_b369_630f_ac3f_b924_e46d_4ced) == 0x5576_183b_a935_cb25_b15d_e72c_30fe_dbcd;
    assert DiffWord(0x5576_183b_a935_cb25_b15d_e72c_30fe_dbcd) == 0x0d4b_8d0d_b8d0_1b66_744b_390d_1a5c_9e75;
    Eight(DiffWord, v,
          0xf26c_6011_65b8_7c18_69aa_11a0_3556_16a8, 0x6ed6_234e_5e3f_150a_4c27_64d2_4c44_abd9,
          0x98ef_cf43_b45d_af68_4616_1600_e19a_e577, 0xa8b1_345b_4745_df62_1b65_52c9_ae5b_3c16,
          0x4ff9_1c32_b2af_344a_5088_19c3_95bc_57ac, 0x2417_5751_b369_630f_ac3f_b924_e46d_4ced,
          0x5576_183b_a935_cb25_b15d_e72c_30fe_dbcd, w);
  }

  lemma Orbit7(v: Word128) returns (w: Word128)
    requires v == 0x0d4b_8d0d_b8d0_1b66_744b_390d_1a5c_9e75
    ensures w == 0x18aa_c320_9877_5bc1_abf7_304a_b5f4_0ae5 && Iterate(DiffWord, v, 8) == w
  {
    w := 0x18aa_c320_9877_5bc1_abf7_304a_b5f4_0ae5;
    assert DiffWord(0x0d4b_8d0d_b8d0_1b66_744b_390d_1a5c_9e75) == 0xae8d_d52b_a104_9f1e_39a0_b010_ba85_d3b2;
    assert DiffWord(0xae8d_d52b_a104_9f1e_39a0_b010_ba85_d3b2) == 0x3773_3e99_efb2_9410_5dd9_410b_26e6_a980;
    assert DiffWord(0x3773_3e99_efb2_9410_5dd9_410b_26e6_a980) == 0x0647_0ab5_5959_927e_6f55_4c65_1b34_ce80;
    assert DiffWord(0x0647_0ab5_5959_927e_6f55_4c65_1b34_ce80) == 0x30eb_c560_a548_6e37_8abf_f74b_00ab_5528;
    assert DiffWord(0x30eb_c560_a548_6e37_8abf_f74b_00ab_5528) == 0xdb04_91aa_058b_aa9b_969d_3837_87fc_95f3;
    assert DiffWord(0xdb04_91aa_058b_aa9b_969d_3837_87fc_95f3) == 0x6114_23d4_4efc_2fb2_a38a_b8b0_adcb_07a0;
    assert DiffWord(0x6114_23d4_4efc_2fb2_a38a_b8b0_adcb_07a0) == 0xa60b_541b_ba83_6106_6ce8_0fbc_3154_b6b8;
    assert DiffWord(0xa60b_541b_ba83_6106_6ce8_0fbc_3154_b6b8) == 0x18aa_c320_9877_5bc1_abf7_304a_b5f4_0ae5;
    Eight(DiffWord, v,
          0xae8d_d52b_a104_9f1e_39a0_b010_ba85_d3b2, 0x3773_3e99_efb2_9410_5dd9_410b_26e6_a980,
          0x0647_0ab5_5959_927e_6f55_4c65_1b34_ce80, 0x30eb_c560_a548_6e37_8abf_f74b_00ab_5528,
          0xdb04_91aa_058b_aa9b_969d_3837_87fc_95f3, 0x6114_23d4_4efc_2fb2_a38a_b8b0_adcb_07a0,
          0xa60b_541b_ba83_6106_6ce8_0fbc_3154_b6b8, w);
  }

  lemma Orbit8(v: Word128) returns (w: Word128)
    requires v == 0x18aa_c320_9877_5bc1_abf7_304a_b5f4_0ae5
    ensures w == 0x1dbf_a063_e45b_3867_488b_e819_bbf3_a53c && Iterate(DiffWord, v, 8) == w
  {
    w := 0x1dbf_a063_e45b_3867_488b_e819_bbf3_a53c;
    assert DiffWord(0x18aa_c320_9877_5bc1_abf7_304a_b5f4_0ae5) == 0x635e_0b49_e1e9_6b6e_d5d8_0a8c_d791_6d8c;
    assert DiffWord(0x635e_0b49_e1e9_6b6e_d5d8_0a8c_d791_6d8c) == 0xe12b_37c4_e18c_ba35_e72b_9489_4d91_60fd;
    assert DiffWord(0xe12b_37c4_e18c_ba35_e72b_9489_4d91_60fd) == 0x08c4_e5b2_9d1a_bbf7_f3b3_32ae_7549_bed1;
    assert DiffWord(0x08c4_e5b2_9d1a_bbf7_f3b3_32ae_7549_bed1) == 0x3a95_3d0b_aca2_ce38_14fe_cc84_9780_9e3c;
    assert DiffWord(0x3a95_3d0b_aca2_ce38_14fe_cc84_9780_9e3c) == 0x4321_2b2a_2f99_6f8a_3eef_718c_d57b_c9f1;
    assert DiffWord(0x4321_2b2a_2f99_6f8a_3eef_718c_d57b_c9f1) == 0x8860_a4ac_c6c4_02db_acba_0236_b073_19ae;
    assert DiffWord(0x8860_a4ac_c6c4_02db_acba_0236_b073_19ae) == 0x8b89_20d7_5eea_97d9_b006_97cf_271d_d0e3;
    assert DiffWord(0x8b89_20d7_5eea_97d9_b006_97cf_271d_d0e3) == 0x1dbf_a063_e45b_3867_488b_e819_bbf3_a53c;
    Eight(DiffWord, v,
          0x635e_0b49_e1e9_6b6e_d5d8_0a8c_d791_6d8c, 0xe12b_37c4_e18c_ba35_e72b_9489_4d91_60fd,
          0x08c4_e5b2_9d1a_bbf7_f3b3_32ae_7549_bed1, 0x3a95_3d0b_aca2_ce38_14fe_cc84_9780_9e3c,
          0x4321_2b2a_2f99_6f8a_3eef_718c_d57b_c9f1, 0x8860_a4ac_c6c4_02db_acba_0236_b073_19ae,
          0x8b89_20d7_5eea_97d9_b006_97cf_271d_d0e3, w);
  }

  lemma Orbit9(v: Word128) returns (w: Word128)
    requires v == 0x1dbf_a063_e45b_3867_488b_e819_bbf3_a53c
    ensures w == 0xec0d_80b7_ab04_982b_77fc_4d0b_1a1f_fa45 && Iterate(DiffWord, v, 8) == w
  {
    w := 0xec0d_80b7_ab04_982b_77fc_4d0b_1a1f_fa45;
    assert DiffWord(0x1dbf_a063_e45b_3867_488b_e819_bbf3_a53c) == 0x573c_cb25_2fea_130b_88d3_8a4a_ca58_445b;
    assert DiffWord(0x573c_cb25_2fea_130b_88d3_8a4a_ca58_445b) == 0x6edf_1b4c_fa8f_3386_49d6_09e7_f02a_3ff9;
    assert DiffWord(0x6edf_1b4c_fa8f_3386_49d6_09e7_f02a_3ff9) == 0x98dd_e714_a8e7_4043_e38a_87b2_e760_bfe7;
    assert DiffWord(0x98dd_e714_a8e7_4043_e38a_87b2_e760_bfe7) == 0x47a8_3059_f1f8_7af9_ac6f_cdc8_2b20_9c88;
    assert DiffWord(0x47a8_3059_f1f8_7af9_ac6f_cdc8_2b20_9c88) == 0x884b_ce5d_f662_45da_0891_fd58_e3f5_97eb;
    assert DiffWord(0x884b_ce5d_f662_45da_0891_fd58_e3f5_97eb) == 0xf202_0c50_06c4_985d_75e4_95bf_e566_36df;
    assert DiffWord(0xf202_0c50_06c4_985d_75e4_95bf_e566_36df) == 0xe74d_1f30_a4db_921d_76a7_c7f9_3a44_9e6d;
    assert DiffWord(0xe74d_1f30_a4db_921d_76a7_c7f9_3a44_9e6d) == 0xec0d_80b7_ab04_982b_77fc_4d0b_1a1f_fa45;
    Eight(DiffWord, v,
          0x573c_cb25_2fea_130b_88d3_8a4a_ca58_445b, 0x6edf_1b4c_fa8f_3386_49d6_09e7_f02a_3ff9,
          0x98dd_e714_a8e7_4043_e38a_87b2_e760_bfe7, 0x47a8_3059_f1f8_7af9_ac6f_cdc8_2b20_9c88,
          0x884b_ce5d_f662_45da_0891_fd58_e3f5_97eb, 0xf202_0c50_06c4_985d_75e4_95bf_e566_36df,
          0xe74d_1f30_a4db_921d_76a7_c7f9_3a44_9e6d, w);
  }

  lemma Orbit10(v: Word128) returns (w: Word128)
    requires v == 0xec0d_80b7_ab04_982b_77fc_4d0b_1a1f_fa45
    ensures w == 0x6910_e03d_1576_a5bf_61f7_49f7_e9a4_8a24 && Iterate(DiffWord, v, 8) == w
  {
    w := 0x6910_e03d_1576_a5bf_61f7_49f7_e9a4_8a24;
    assert DiffWord(0xec0d_80b7_ab04_982b_77fc_4d0b_1a1f_fa45) == 0xe7c4_8018_539e_d6ed_681d_5e7b_98a4_dab4;
    assert DiffWord(0xe7c4_8018_539e_d6ed_681d_5e7b_98a4_dab4) == 0x09df_2366_2c8d_b155_3c72_33fb_a0a7_8eba;
    assert DiffWord(0x09df_2366_2c8d_b155_3c72_33fb_a0a7_8eba) == 0x1830_f416_391e_d945_4fc2_5c7c_1f72_10e3;
    assert DiffWord(0x1830_f416_391e_d945_4fc2_5c7c_1f72_10e3) == 0xd80c_f358_b823_ae60_0610_bf0e_ae74_e79c;
    assert DiffWord(0xd80c_f358_b823_ae60_0610_bf0e_ae74_e79c) == 0x0a3a_a07c_fe69_5837_3357_d2e8_b1b9_f9c1;
    assert DiffWord(0x0a3a_a07c_fe69_5837_3357_d2e8_b1b9_f9c1) == 0xe123_0505_78a3_b526_7568_921c_c30f_aea8;
    assert DiffWord(0xe123_0505_78a3_b526_7568_921c_c30f_aea8) == 0x7cce_ffbe_9a0b_a659_c6a5_8ec2_72ea_1971;
    assert DiffWord(0x7cce_ffbe_9a0b_a659_c6a5_8ec2_72ea_1971) == 0x6910_e03d_1576_a5bf_61f7_49f7_e9a4_8a24;
    Eight(DiffWord, v,
          0xe7c4_8018_539e_d6ed_681d_5e7b_98a4_dab4, 0x09df_2366_2c8d_b155_3c72_33fb_a0a7_8eba,
          0x1830_f416_391e_d945_4fc2_5c7c_1f72_10e3, 0xd80c_f358_b823_ae60_0610_bf0e_ae74_e79c,
          0x0a3a_a07c_fe69_5837_3357_d2e8_b1b9_f9c1, 0xe123_0505_78a3_b526_7568_921c_c30f_aea8,
          0x7cce_ffbe_9a0b_a659_c6a5_8ec2_72ea_1971, w);
  }

  lemma Orbit11(v: Word128) returns (w: Word128)
    requires v == 0x6910_e03d_1576_a5bf_61f7_49f7_e9a4_8a24
    ensures w == 0x6139_8c70_0101_575c_85e6_3894_f468_430e && Iterate(DiffWord, v, 8) == w
  {
    w := 0x6139_8c70_0101_575c_85e6_3894_f468_430e;
    assert DiffWord(0x6910_e03d_1576_a5bf_61f7_49f7_e9a4_8a24) == 0x0741_b2dc_51d4_fffc_6067_08f7_c069_1ea6;
    assert DiffWord(0x0741_b2dc_51d4_fffc_6067_08f7_c069_1ea6) == 0x5d9b_a4bb_0f3d_89bd_4f25_9c65_ed90_0b20;
    assert DiffWord(0x5d9b_a4bb_0f3d_89bd_4f25_9c65_ed90_0b20) == 0x47ad_fc1a_a140_755c_5c05_b043_6dfe_1b92;
    assert DiffWord(0x47ad_fc1a_a140_755c_5c05_b043_6dfe_1b92) == 0x40ba_3483_2374_4f99_768d_8040_14b4_4fb8;
    assert DiffWord(0x40ba_3483_2374_4f99_768d_8040_14b4_4fb8) == 0x5558_0fd1_0c54_f7d3_7d3b_06cc_4c8a_f54f;
    assert DiffWord(0x5558_0fd1_0c54_f7d3_7d3b_06cc_4c8a_f54f) == 0xc8dc_e429_98c8_dc48_0502_8503_224f_abd1;
    assert DiffWord(0xc8dc_e429_98c8_dc48_0502_8503_224f_abd1) == 0x8e6f_8287_c1d3_10c7_1d9c_0d17_bb13_c596;
    assert DiffWord(0x8e6f_8287_c1d3_10c7_1d9c_0d17_bb13_c596) == 0x6139_8c70_0101_575c_85e6_3894_f468_430e;
    Eight(DiffWord, v,
          0x0741_b2dc_51d4_fffc_6067_08f7_c069_1ea6, 0x5d9b_a4bb_0f3d_89bd_4f25_9c65_ed90_0b20,
          0x47ad_fc1a_a140_755c_5c05_b043_6dfe_1b92, 0x40ba_3483_2374_4f99_768d_8040_14b4_4fb8,
          0x5558_0fd1_0c54_f7d3_7d3b_06cc_4c8a_f54f, 0xc8dc_e429_98c8_dc48_0502_8503_224f_abd1,
          0x8e6f_8287_c1d3_10c7_1d9c_0d17_bb13_c596, w);
  }

  lemma Orbit12(v: Word128) returns (w: Word128)
    requires v == 0x6139_8c70_0101_575c_85e6_3894_f468_430e
    ensures w == 0x532a_c74f_c525_e56c_72f0_fcaf_0654_8830 && Iterate(DiffWord, v, 8) == w
  {
    w := 0x532a_c74f_c525_e56c_72f0_fcaf_0654_8830;
    assert DiffWord(0x6139_8c70_0101_575c_85e6_3894_f468_430e) == 0xc4a0_9594_dcd4_9fe0_1108_4e27_ee0f_f579;
    assert DiffWord(0xc4a0_9594_dcd4_9fe0_1108_4e27_ee0f_f579) == 0x810f_9975_6661_43e5_b02f_bcd3_6c4a_ac4f;
    assert DiffWord(0x810f_9975_6661_43e5_b02f_bcd3_6c4a_ac4f) == 0x6731_971b_dcae_f30e_3a8e_ec7e_b389_7cf9;
    assert DiffWord(0x6731_971b_dcae_f30e_3a8e_ec7e_b389_7cf9) == 0xa468_6cce_d90d_8487_24b7_1134_a88e_e867;
    assert DiffWord(0xa468_6cce_d90d_8487_24b7_1134_a88e_e867) == 0xa8c8_e8ef_262a_ad83_29c4_f041_af1f_5e28;
    assert DiffWord(0xa8c8_e8ef_262a_ad83_29c4_f041_af1f_5e28) == 0x2eba_1517_1a7e_3d6a_4a28_2f99_c8ae_80d3;
    assert DiffWord(0x2eba_1517_1a7e_3d6a_4a28_2f99_c8ae_80d3) == 0xe495_816e_1698_0926_1501_eaf6_730c_7292;
    assert DiffWord(0xe495_816e_1698_0926_1501_eaf6_730c_7292) == 0x532a_c74f_c525_e56c_72f0_fcaf_0654_8830;
    Eight(DiffWord, v,
          0xc4a0_9594_dcd4_9fe0_1108_4e27_ee0f_f579, 0x810f_9975_6661_43e5_b02f_bcd3_6c4a_ac4f,
          0x6731_971b_dcae_f30e_3a8e_ec7e_b389_7cf9, 0xa468_6cce_d90d_8487_24b7_1134_a88e_e867,
          0xa8c8_e8ef_262a_ad83_29c4_f041_af1f_5e28, 0x2eba_1517_1a7e_3d6a_4a28_2f99_c8ae_80d3,
          0xe495_816e_1698_0926_1501_eaf6_730c_7292, w);
  }

  lemma Orbit13(v: Word128) returns (w: Word128)
    requires v == 0x532a_c74f_c525_e56c_72f0_fcaf_0654_8830
    ensures w == 0x35ed_5e31_9e0d_4e23_d2a6_a02a_1e7d_c11a && Iterate(DiffWord, v, 8) == w
  {
    w := 0x35ed_5e31_9e0d_4e23_d2a6_a02a_1e7d_c11a;
    assert DiffWord(0x532a_c74f_c525_e56c_72f0_fcaf_0654_8830) == 0x44fa_0b13_b102_6a02_06e4_9f71_0f97_ad04;
    assert DiffWord(0x44fa_0b13_b102_6a02_06e4_9f71_0f97_ad04) == 0x146c_26f3_13d8_89df_0832_a9c8_1cd5_6934;
    assert DiffWord(0x146c_26f3_13d8_89df_0832_a9c8_1cd5_6934) == 0x662d_03c9_e402_7e74_0965_91b7_6ee5_4232;
    assert DiffWord(0x662d_03c9_e402_7e74_0965_91b7_6ee5_4232) == 0x52c7_b900_c28f_b657_43c2_16d4_b803_7588;
    assert DiffWord(0x52c7_b900_c28f_b657_43c2_16d4_b803_7588) == 0x4882_5464_5bbf_3cab_4fbf_9673_93c4_7243;
    assert DiffWord(0x4882_5464_5bbf_3cab_4fbf_9673_93c4_7243) == 0xaabe_ec2c_4f2d_7152_1bbc_51a1_ecbe_d284;
    assert DiffWord(0xaabe_ec2c_4f2d_7152_1bbc_51a1_ecbe_d284) == 0x51de_1ec9_9c4a_12e1_689f_f540_4c76_01b4;
    assert DiffWord(0x51de_1ec9_9c4a_12e1_689f_f540_4c76_01b4) == 0x35ed_5e31_9e0d_4e23_d2a6_a02a_1e7d_c11a;
    Eight(DiffWord, v,
          0x44fa_0b13_b102_6a02_06e4_9f71_0f97_ad04, 0x146c_26f3_13d8_89df_0832_a9c8_1cd5_6934,
          0x662d_03c9_e402_7e74_0965_91b7_6ee5_4232, 0x52c7_b900_c28f_b657_43c2_16d4_b803_7588,
          0x4882_5464_5bbf_3cab_4fbf_9673_93c4_7243, 0xaabe_ec2c_4f2d_7152_1bbc_51a1_ecbe_d284,
          0x51de_1ec9_9c4a_12e1_689f_f540_4c76_01b4, w);
  }

  lemma Orbit14(v: Word128) returns (w: Word128)
    requires v == 0x35ed_5e31_9e0d_4e23_d2a6_a02a_1e7d_c11a
    ensures w == 0x6965_53a7_9a80_5d5d_d8be_b49e_bc7f_42a6 && Iterate(DiffWord, v, 8) == w
  {
    w := 0x6965_53a7_9a80_5d5d_d8be_b49e_bc7f_42a6;
    assert DiffWord(0x35ed_5e31_9e0d_4e23_d2a6_a02a_1e7d_c11a) == 0xf925_09b5_03b5_4ade_435d_c586_2396_4e7b;
    assert DiffWord(0xf925_09b5_03b5_4ade_435d_c586_2396_4e7b) == 0x91c2_ae89_1e4c_e5ca_1d4a_3916_6b89_89eb;
    assert DiffWord(0x91c2_ae89_1e4c_e5ca_1d4a_3916_6b89_89eb) == 0xeab6_f22e_8b92_e2fa_795e_6c54_a649_7adf;
    assert DiffWord(0xeab6_f22e_8b92_e2fa_795e_6c54_a649_7adf) == 0xfda0_c715_4713_91ae_56f2_86fe_bf7a_1a47;
    assert DiffWord(0xfda0_c715_4713_91ae_56f2_86fe_bf7a_1a47) == 0xe658_cbcf_160f_178f_ca98_65cf_2e13_ba9a;
    assert DiffWord(0xe658_cbcf_160f_178f_ca98_65cf_2e13_ba9a) == 0x8bff_1b2a_80ee_aab1_1277_36ec_5442_c85b;
    assert DiffWord(0x8bff_1b2a_80ee_aab1_1277_36ec_5442_c85b) == 0xf2d7_9461_5bc6_25b0_e98b_e60a_156b_7971;
    assert DiffWord(0xf2d7_9461_5bc6_25b0_e98b_e60a_156b_7971) == 0x6965_53a7_9a80_5d5d_d8be_b49e_bc7f_42a6;
    Eight(DiffWord, v,
          0xf925_09b5_03b5_4ade_435d_c586_2396_4e7b, 0x91c2_ae89_1e4c_e5ca_1d4a_3916_6b89_89eb,
          0xeab6_f22e_8b92_e2fa_795e_6c54_a649_7adf, 0xfda0_c715_4713_91ae_56f2_86fe_bf7a_1a47,
          0xe658_cbcf_160f_178f_ca98_65cf_2e13_ba9a, 0x8bff_1b2a_80ee_aab1_1277_36ec_5442_c85b,
          0xf2d7_9461_5bc6_25b0_e98b_e60a_156b_7971, w);
  }

  lemma Orbit15(v: Word128) returns (w: Word128)
    requires v == 0x6965_53a7_9a80_5d5d_d8be_b49e_bc7f_42a6
    ensures w == 0x6b79_9c1f_cc32_4b6b_d64d_98c6_2c45_584b && Iterate(DiffWord, v, 8) == w
  {
    w := 0x6b79_9c1f_cc32_4b6b_d64d_98c6_2c45_584b;
    assert DiffWord(0x6965_53a7_9a80_5d5d_d8be_b49e_bc7f_42a6) == 0xf762_97c6_0426_7724_e67b_419e_7293_9f22;
    assert DiffWord(0xf762_97c6_0426_7724_e67b_419e_7293_9f22) == 0x960e_daf6_2a4f_b15f_8381_bb3f_2ee9_4d1c;
    assert DiffWord(0x960e_daf6_2a4f_b15f_8381_bb3f_2ee9_4d1c) == 0x85ab_af5d_e0bf_8237_51ce_1c27_1871_a8eb;
    assert DiffWord(0x85ab_af5d_e0bf_8237_51ce_1c27_1871_a8eb) == 0xc466_7a40_3b48_eeb0_2eab_a35a_f388_757d;
    assert DiffWord(0xc466_7a40_3b48_eeb0_2eab_a35a_f388_757d) == 0xfc09_ed94_6add_619b_e0f8_f63b_6ecf_0e73;
    assert DiffWord(0xfc09_ed94_6add_619b_e0f8_f63b_6ecf_0e73) == 0x7bd1_3923_169d_bec3_6af7_dd0d_921a_e920;
    assert DiffWord(0x7bd1_3923_169d_bec3_6af7_dd0d_921a_e920) == 0x67e4_5fc0_1201_7213_4e55_4cc4_df00_c33a;
    assert DiffWord(0x67e4_5fc0_1201_7213_4e55_4cc4_df00_c33a) == 0x6b79_9c1f_cc32_4b6b_d64d_98c6_2c45_584b;
    Eight(DiffWord, v,
          0xf762_97c6_0426_7724_e67b_419e_7293_9f22, 0x960e_daf6_2a4f_b15f_8381_bb3f_2ee9_4d1c,
          0x85ab_af5d_e0bf_8237_51ce_1c27_1871_a8eb, 0xc466_7a40_3b48_eeb0_2eab_a35a_f388_757d,
          0xfc09_ed94_6add_619b_e0f8_f63b_6ecf_0e73, 0x7bd1_3923_169d_bec3_6af7_dd0d_921a_e920,
          0x67e4_5fc0_1201_7213_4e55_4cc4_df00_c33a, w);
  }

  lemma Orbit16(v: Word128) returns (w: Word128)
    requires v == 0x6b79_9c1f_cc32_4b6b_d64d_98c6_2c45_584b
    ensures w == 0x8000_0000_0000_0000_0000_0000_0000_0000 && Iterate(DiffWord, v, 7) == w
  {
    w := 0x8000_0000_0000_0000_0000_0000_0000_0000;
    assert DiffWord(0x6b79_9c1f_cc32_4b6b_d64d_98c6_2c45_584b) == 0x6329_de07_68f7_90b7_2824_eab5_f3ea_486d;
    assert DiffWord(0x6329_de07_68f7_90b7_2824_eab5_f3ea_486d) == 0xd35a_d8ad_5de0_6c32_107d_0320_594b_f4cd;
    assert DiffWord(0xd35a_d8ad_5de0_6c32_107d_0320_594b_f4cd) == 0xe45c_cf2b_3b6d_7e80_09f9_178c_3107_675f;
    assert DiffWord(0xe45c_cf2b_3b6d_7e80_09f9_178c_3107_675f) == 0xc636_bdbd_1c76_43d3_4ee4_bb1b_f9ca_084f;
    assert DiffWord(0xc636_bdbd_1c76_43d3_4ee4_bb1b_f9ca_084f) == 0xd421_30fd_3aac_5e19_0c72_cc9c_c921_92d1;
    assert DiffWord(0xd421_30fd_3aac_5e19_0c72_cc9c_c921_92d1) == 0x90d0_4d25_f935_56e6_9f58_ce2f_8d03_5a94;
    assert DiffWord(0x90d0_4d25_f935_56e6_9f58_ce2f_8d03_5a94) == 0x8000_0000_0000_0000_0000_0000_0000_0000;
    Seven(DiffWord, v,
          0x6329_de07_68f7_90b7_2824_eab5_f3ea_486d, 0xd35a_d8ad_5de0_6c32_107d_0320_594b_f4cd,
          0xe45c_cf2b_3b6d_7e80_09f9_178c_3107_675f, 0xc636_bdbd_1c76_43d3_4ee4_bb1b_f9ca_084f,
          0xd421_30fd_3aac_5e19_0c72_cc9c_c921_92d1, 0x90d0_4d25_f935_56e6_9f58_ce2f_8d03_5a94,
          w);
  }

  lemma Seven<T>(f: T -> T, a: T, b: T, c: T, d: T, e: T, p: T, q: T, r: T)
    requires f(a) == b && f(b) == c && f(c) == d && f(d) == e && f(e) == p && f(p) == q && f(q) == r
    ensures Iterate(f, a, 7) == r
  {
    assert Iterate(f, p, 2) == r;
    assert Iterate(f, d, 4) == Iterate(f, p, 2);
    assert Iterate(f, b, 6) == Iterate(f, d, 4);
  }

  lemma WordOrbit(v: Word128) returns (w: Word128)
    requires v == 1
    ensures w == 0x8000_0000_0000_0000_0000_0000_0000_0000 && Iterate(DiffWord, v, 127) == w
  {
    w := v;
    var w1 := Orbit1(v);
    var w2 := Orbit2(w1);
    IterateAdd(DiffWord, v, 8, 8);
    var w3 := Orbit3(w2);
    IterateAdd(DiffWord, v, 16, 8);
    var w4 := Orbit4(w3);
    IterateAdd(DiffWord, v, 24, 8);
    var w5 := Orbit5(w4);
    IterateAdd(DiffWord, v, 32, 8);
    var w6 := Orbit6(w5);
    IterateAdd(DiffWord, v, 40, 8);
    var w7 := Orbit7(w6);
    IterateAdd(DiffWord, v, 48, 8);
    var w8 := Orbit8(w7);
    IterateAdd(DiffWord, v, 56, 8);
    var w9 := Orbit9(w8);
    IterateAdd(DiffWord, v, 64, 8);
    var w10 := Orbit10(w9);
    IterateAdd(DiffWord, v, 72, 8);
    var w11 := Orbit11(w10);
    IterateAdd(DiffWord, v, 80, 8);
    var w12 := Orbit12(w11);
    IterateAdd(DiffWord, v, 88, 8);
    var w13 := Orbit13(w12);
    IterateAdd(DiffWord, v, 96, 8);
    var w14 := Orbit14(w13);
    IterateAdd(DiffWord, v, 104, 8);
    var w15 := Orbit15(w14);
    IterateAdd(DiffWord, v, 112, 8);
    var w16 := Orbit16(w15);
    IterateAdd(DiffWord, v, 120, 7);
    w := w16;
  }

  /** x^127 ends at 1. */
  lemma BlockOrbit() returns (b: Block)
    ensures b == Unit(127) && Iterate(Diff, b, 127) == ONE
  {
    var v: Word128 := 1;
    var w := WordOrbit(v);
    forall u
      ensures BlockOf(DiffWord(u)) == Diff(BlockOf(u))
    {
      DiffBlock(u);
    }
    IterateMaps(DiffWord, Diff, BlockOf, v, 127);
    LastBlock(v);
    OneBlock(w);
    b := BlockOf(v);
  }
}
