/** AES (lib/crypto-algorithms/aes.c): decryption undoes encryption under every key schedule. */
module Aes {

  // ----- substitution: each table row is sixteen bytes, column 0 first -----

  function SBoxRow(r: bv8): bv128 {
    if r == 0 then 0x637C777B_F26B6FC5_3001672B_FED7AB76
    else if r == 1 then 0xCA82C97D_FA5947F0_ADD4A2AF_9CA472C0
    else if r == 2 then 0xB7FD9326_363FF7CC_34A5E5F1_71D83115
    else if r == 3 then 0x04C723C3_1896059A_071280E2_EB27B275
    else if r == 4 then 0x09832C1A_1B6E5AA0_523BD6B3_29E32F84
    else if r == 5 then 0x53D100ED_20FCB15B_6ACBBE39_4A4C58CF
    else if r == 6 then 0xD0EFAAFB_434D3385_45F9027F_503C9FA8
    else if r == 7 then 0x51A3408F_929D38F5_BCB6DA21_10FFF3D2
    else if r == 8 then 0xCD0C13EC_5F974417_C4A77E3D_645D1973
    else if r == 9 then 0x60814FDC_222A9088_46EEB814_DE5E0BDB
    else if r == 10 then 0xE0323A0A_4906245C_C2D3AC62_9195E479
    else if r == 11 then 0xE7C8376D_8DD54EA9_6C56F4EA_657AAE08
    else if r == 12 then 0xBA78252E_1CA6B4C6_E8DD741F_4BBD8B8A
    else if r == 13 then 0x703EB566_4803F60E_613557B9_86C11D9E
    else if r == 14 then 0xE1F89811_69D98E94_9B1E87E9_CE5528DF
    else 0x8CA1890D_BFE64268_41992D0F_B054BB16
  }

  function InvSBoxRow(r: bv8): bv128 {
    if r == 0 then 0x52096AD5_3036A538_BF40A39E_81F3D7FB
    else if r == 1 then 0x7CE33982_9B2FFF87_348E4344_C4DEE9CB
    else if r == 2 then 0x547B9432_A6C2233D_EE4C950B_42FAC34E
    else if r == 3 then 0x082EA166_28D924B2_765BA249_6D8BD125
    else if r == 4 then 0x72F8F664_86689816_D4A45CCC_5D65B692
    else if r == 5 then 0x6C704850_FDEDB9DA_5E154657_A78D9D84
    else if r == 6 then 0x90D8AB00_8CBCD30A_F7E45805_B8B34506
    else if r == 7 then 0xD02C1E8F_CA3F0F02_C1AFBD03_01138A6B
    else if r == 8 then 0x3A911141_4F67DCEA_97F2CFCE_F0B4E673
    else if r == 9 then 0x96AC7422_E7AD3585_E2F937E8_1C75DF6E
    else if r == 10 then 0x47F11A71_1D29C589_6FB7620E_AA18BE1B
    else if r == 11 then 0xFC563E4B_C6D27920_9ADBC0FE_78CD5AF4
    else if r == 12 then 0x1FDDA833_8807C731_B1121059_2780EC5F
    else if r == 13 then 0x60517FA9_19B54A0D_2DE57A9F_93C99CEF
    else if r == 14 then 0xA0E03B4D_AE2AF5B0_C8EBBB3C_83539961
    else 0x172B047E_BA77D626_E1691463_55210C7D
  }

  /** Byte c of a row. */
  function Pick(row: bv128, c: bv8): bv8 {
    if c == 0 then ((row >> 120) & 0xFF) as bv8
    else if c == 1 then ((row >> 112) & 0xFF) as bv8
    else if c == 2 then ((row >> 104) & 0xFF) as bv8
    else if c == 3 then ((row >> 96) & 0xFF) as bv8
    else if c == 4 then ((row >> 88) & 0xFF) as bv8
    else if c == 5 then ((row >> 80) & 0xFF) as bv8
    else if c == 6 then ((row >> 72) & 0xFF) as bv8
    else if c == 7 then ((row >> 64) & 0xFF) as bv8
    else if c == 8 then ((row >> 56) & 0xFF) as bv8
    else if c == 9 then ((row >> 48) & 0xFF) as bv8
    else if c == 10 then ((row >> 40) & 0xFF) as bv8
    else if c == 11 then ((row >> 32) & 0xFF) as bv8
    else if c == 12 then ((row >> 24) & 0xFF) as bv8
    else if c == 13 then ((row >> 16) & 0xFF) as bv8
    else if c == 14 then ((row >> 8) & 0xFF) as bv8
    else (row & 0xFF) as bv8
  }

  function SBox(x: bv8): bv8 { Pick(SBoxRow(x >> 4), x & 0xF) }

  function InvSBox(x: bv8): bv8 { Pick(InvSBoxRow(x >> 4), x & 0xF) }

  lemma InverseFrom0(x: bv8)
    requires x >> 6 == 0
    ensures InvSBox(SBox(x)) == x
  {
  }

  lemma InverseFrom1(x: bv8)
    requires x >> 6 == 1
    ensures InvSBox(SBox(x)) == x
  {
  }

  lemma InverseFrom2(x: bv8)
    requires x >> 6 == 2
    ensures InvSBox(SBox(x)) == x
  {
  }

  lemma InverseFrom3(x: bv8)
    requires x >> 6 == 3
    ensures InvSBox(SBox(x)) == x
  {
  }

  lemma SubstitutionInverse(x: bv8)
    ensures InvSBox(SBox(x)) == x
  {
    var q := x >> 6;
    assert q == 0 || q == 1 || q == 2 || q == 3;
    hide SBox, InvSBox;
    if q == 0 {
      InverseFrom0(x);
    } else if q == 1 {
      InverseFrom1(x);
    } else if q == 2 {
      InverseFrom2(x);
    } else {
      InverseFrom3(x);
    }
  }

  // ----- multiplication in GF(2^8), which the table gf_mul holds -----

  /** The bits shifted out at the top, reduced by x^8 + x^4 + x^3 + x + 1. */
  function Fold(h: bv8): bv8 { h ^ (h << 1) ^ (h << 3) ^ (h << 4) }

  function Times2(a: bv8): bv8 { (a << 1) ^ Fold(a >> 7) }

  function Times4(a: bv8): bv8 { (a << 2) ^ Fold(a >> 6) }

  function Times8(a: bv8): bv8 { (a << 3) ^ Fold(a >> 5) }

  function Times3(a: bv8): bv8 { Times2(a) ^ a }

  function Times9(a: bv8): bv8 { Times8(a) ^ a }

  function TimesB(a: bv8): bv8 { Times8(a) ^ Times2(a) ^ a }

  function TimesD(a: bv8): bv8 { Times8(a) ^ Times4(a) ^ a }

  function TimesE(a: bv8): bv8 { Times8(a) ^ Times4(a) ^ Times2(a) }

  lemma LinearFold(a: bv8, b: bv8)
    requires a < 8 && b < 8
    ensures Fold(a ^ b) == Fold(a) ^ Fold(b)
  {
  }

  lemma Linear8(a: bv8, b: bv8)
    ensures Times8(a ^ b) == Times8(a) ^ Times8(b)
  {
    LinearFold(a >> 5, b >> 5);
    assert (a ^ b) >> 5 == (a >> 5) ^ (b >> 5);
    hide Fold;
  }

  /** Bits of one byte of InvMixColumns. */
  function InvMixedBits(m0: bv8, m1: bv8, m2: bv8, m3: bv8): bv8 {
    TimesE(m0) ^ TimesB(m1) ^ TimesD(m2) ^ Times9(m3)
  }

  /** The product of the two matrices of MixColumns and InvMixColumns has ones on the diagonal ... */
  lemma DiagonalBits(b: bv8)
    ensures InvMixedBits(Times2(b), b, b, Times3(b)) == b
  {
  }

  /** ... and zeros elsewhere. */
  lemma OffDiagonalBits1(b: bv8)
    ensures InvMixedBits(Times3(b), Times2(b), b, b) == 0
  {
  }

  lemma OffDiagonalBits2(b: bv8)
    ensures InvMixedBits(b, Times3(b), Times2(b), b) == 0
  {
  }

  lemma OffDiagonalBits3(b: bv8)
    ensures InvMixedBits(b, b, Times3(b), Times2(b)) == 0
  {
  }

  // ----- the field, with exclusive or as its sum -----

  datatype Octet = Octet(bits: bv8)

  function Plus(x: Octet, y: Octet): Octet { Octet(x.bits ^ y.bits) }
  function Sum(a: Octet, b: Octet, c: Octet, d: Octet): Octet { Plus(Plus(Plus(a, b), c), d) }

  function Two(x: Octet): Octet { Octet(Times2(x.bits)) }
  function Four(x: Octet): Octet { Octet(Times4(x.bits)) }
  function Eight(x: Octet): Octet { Octet(Times8(x.bits)) }
  function Three(x: Octet): Octet { Plus(Two(x), x) }
  function Nine(x: Octet): Octet { Plus(Eight(x), x) }
  function Eleven(x: Octet): Octet { Plus(Plus(Eight(x), Two(x)), x) }
  function Thirteen(x: Octet): Octet { Plus(Plus(Eight(x), Four(x)), x) }
  function Fourteen(x: Octet): Octet { Plus(Plus(Eight(x), Four(x)), Two(x)) }

  lemma Commute(x: Octet, y: Octet)
    ensures Plus(x, y) == Plus(y, x)
  {
  }

  lemma Associate(x: Octet, y: Octet, z: Octet)
    ensures Plus(Plus(x, y), z) == Plus(x, Plus(y, z))
  {
  }

  lemma Interchange(a: Octet, b: Octet, c: Octet, d: Octet)
    ensures Plus(Plus(a, b), Plus(c, d)) == Plus(Plus(a, c), Plus(b, d))
  {
    hide Plus;
    Associate(a, b, Plus(c, d));
    Associate(b, c, d);
    Commute(b, c);
    Associate(c, b, d);
    Associate(a, c, Plus(b, d));
  }

  lemma Regroup(a: Octet, b: Octet, c: Octet, d: Octet, e: Octet, f: Octet, g: Octet, h: Octet)
    ensures Sum(Plus(a, b), Plus(c, d), Plus(e, f), Plus(g, h)) == Plus(Sum(a, c, e, g), Sum(b, d, f, h))
  {
    hide Plus;
    Interchange(a, b, c, d);
    Interchange(Plus(a, c), Plus(b, d), e, f);
    Interchange(Plus(Plus(a, c), e), Plus(Plus(b, d), f), g, h);
  }

  lemma Rotate(a: Octet, b: Octet, c: Octet, d: Octet)
    ensures Sum(d, a, b, c) == Sum(a, b, c, d)
  {
    hide Plus;
    Associate(d, a, b);
    Associate(d, Plus(a, b), c);
    Commute(d, Plus(Plus(a, b), c));
  }

  lemma OnlyOne(b: Octet)
    ensures Sum(b, Octet(0), Octet(0), Octet(0)) == b
  {
  }

  lemma LinearTwo(x: Octet, y: Octet)
    ensures Two(Plus(x, y)) == Plus(Two(x), Two(y))
  {
  }

  lemma LinearFour(x: Octet, y: Octet)
    ensures Four(Plus(x, y)) == Plus(Four(x), Four(y))
  {
  }

  lemma LinearEight(x: Octet, y: Octet)
    ensures Eight(Plus(x, y)) == Plus(Eight(x), Eight(y))
  {
    Linear8(x.bits, y.bits);
    hide Times8;
  }

  lemma LinearNine(x: Octet, y: Octet)
    ensures Nine(Plus(x, y)) == Plus(Nine(x), Nine(y))
  {
    hide Plus, Eight;
    LinearEight(x, y);
    Interchange(Eight(x), Eight(y), x, y);
  }

  lemma LinearSum(p: Octet, p': Octet, q: Octet, q': Octet, r: Octet, r': Octet)
    ensures Plus(Plus(Plus(p, p'), Plus(q, q')), Plus(r, r')) == Plus(Plus(Plus(p, q), r), Plus(Plus(p', q'), r'))
  {
    hide Plus;
    Interchange(p, p', q, q');
    Interchange(Plus(p, q), Plus(p', q'), r, r');
  }

  lemma LinearEleven(x: Octet, y: Octet)
    ensures Eleven(Plus(x, y)) == Plus(Eleven(x), Eleven(y))
  {
    hide Plus, Eight, Two;
    LinearEight(x, y);
    LinearTwo(x, y);
    LinearSum(Eight(x), Eight(y), Two(x), Two(y), x, y);
  }

  lemma LinearThirteen(x: Octet, y: Octet)
    ensures Thirteen(Plus(x, y)) == Plus(Thirteen(x), Thirteen(y))
  {
    hide Plus, Eight, Four;
    LinearEight(x, y);
    LinearFour(x, y);
    LinearSum(Eight(x), Eight(y), Four(x), Four(y), x, y);
  }

  lemma LinearFourteen(x: Octet, y: Octet)
    ensures Fourteen(Plus(x, y)) == Plus(Fourteen(x), Fourteen(y))
  {
    hide Plus, Eight, Four, Two;
    LinearEight(x, y);
    LinearFour(x, y);
    LinearTwo(x, y);
    LinearSum(Eight(x), Eight(y), Four(x), Four(y), Two(x), Two(y));
  }

  /** One byte of MixColumns and of InvMixColumns; the others take the column rotated. */
  function MixedByte(b0: Octet, b1: Octet, b2: Octet, b3: Octet): Octet { Sum(Two(b0), Three(b1), b2, b3) }
  function InvMixedByte(b0: Octet, b1: Octet, b2: Octet, b3: Octet): Octet {
    Sum(Fourteen(b0), Eleven(b1), Thirteen(b2), Nine(b3))
  }

  lemma InvMixedByteBits(b0: Octet, b1: Octet, b2: Octet, b3: Octet)
    ensures InvMixedByte(b0, b1, b2, b3) == Octet(InvMixedBits(b0.bits, b1.bits, b2.bits, b3.bits))
  {
    ProductBits(b0);
    ProductBits(b1);
    ProductBits(b2);
    ProductBits(b3);
    hide Times9, TimesB, TimesD, TimesE, Nine, Eleven, Thirteen, Fourteen;
    SumBits(Fourteen(b0), Eleven(b1), Thirteen(b2), Nine(b3));
    hide Sum;
  }

  lemma ProductBits(x: Octet)
    ensures Nine(x).bits == Times9(x.bits) && Eleven(x).bits == TimesB(x.bits)
    ensures Thirteen(x).bits == TimesD(x.bits) && Fourteen(x).bits == TimesE(x.bits)
  {
    NineBits(x);
    ElevenBits(x);
    ThirteenBits(x);
    FourteenBits(x);
    hide *;
  }

  lemma NineBits(x: Octet)
    ensures Nine(x).bits == Times9(x.bits)
  {
    hide Times2, Times4, Times8;
  }

  lemma ElevenBits(x: Octet)
    ensures Eleven(x).bits == TimesB(x.bits)
  {
    hide Times2, Times4, Times8;
  }

  lemma ThirteenBits(x: Octet)
    ensures Thirteen(x).bits == TimesD(x.bits)
  {
    hide Times2, Times4, Times8;
  }

  lemma FourteenBits(x: Octet)
    ensures Fourteen(x).bits == TimesE(x.bits)
  {
    hide Times2, Times4, Times8;
  }

  lemma SumBits(a: Octet, b: Octet, c: Octet, d: Octet)
    ensures Sum(a, b, c, d) == Octet(a.bits ^ b.bits ^ c.bits ^ d.bits)
  {
  }

  lemma InvMixedAdds(m0: Octet, m1: Octet, m2: Octet, m3: Octet, n0: Octet, n1: Octet, n2: Octet, n3: Octet)
    ensures InvMixedByte(Plus(m0, n0), Plus(m1, n1), Plus(m2, n2), Plus(m3, n3))
         == Plus(InvMixedByte(m0, m1, m2, m3), InvMixedByte(n0, n1, n2, n3))
  {
    hide Plus, Sum, Nine, Eleven, Thirteen, Fourteen;
    LinearFourteen(m0, n0);
    LinearEleven(m1, n1);
    LinearThirteen(m2, n2);
    LinearNine(m3, n3);
    Regroup(Fourteen(m0), Fourteen(n0), Eleven(m1), Eleven(n1), Thirteen(m2), Thirteen(n2), Nine(m3), Nine(n3));
  }

  lemma ThreeBits(b: Octet)
    ensures Three(b).bits == Times3(b.bits)
  {
    hide Times2;
  }

  lemma Diagonal(b: Octet)
    ensures InvMixedByte(Two(b), b, b, Three(b)) == b
    ensures InvMixedByte(Three(b), Two(b), b, b) == Octet(0)
    ensures InvMixedByte(b, Three(b), Two(b), b) == Octet(0)
    ensures InvMixedByte(b, b, Three(b), Two(b)) == Octet(0)
  {
    InvMixedByteBits(Two(b), b, b, Three(b));
    InvMixedByteBits(Three(b), Two(b), b, b);
    InvMixedByteBits(b, Three(b), Two(b), b);
    InvMixedByteBits(b, b, Three(b), Two(b));
    ThreeBits(b);
    hide InvMixedByte, InvMixedBits, Three, Times2, Times3;
    DiagonalBits(b.bits);
    OffDiagonalBits1(b.bits);
    OffDiagonalBits2(b.bits);
    OffDiagonalBits3(b.bits);
  }

  lemma ByteBack(b0: Octet, b1: Octet, b2: Octet, b3: Octet)
    ensures InvMixedByte(MixedByte(b0, b1, b2, b3), MixedByte(b1, b2, b3, b0), MixedByte(b2, b3, b0, b1),
                         MixedByte(b3, b0, b1, b2)) == b0
  {
    hide InvMixedByte, Plus, Two, Three;
    var d0, t0, d1, t1 := Two(b0), Three(b0), Two(b1), Three(b1);
    var d2, t2, d3, t3 := Two(b2), Three(b2), Two(b3), Three(b3);
    Rotate(d1, t2, b3, b0);
    Rotate(b0, d2, t3, b0);
    Rotate(d2, t3, b0, b1);
    Rotate(b1, d2, t3, b0);
    Rotate(d3, t0, b1, b2);
    Rotate(b2, d3, t0, b1);
    Rotate(b1, b2, d3, t0);
    InvMixedAdds(d0, b0, b0, t0, t1, d1, b1, b1);
    InvMixedAdds(Plus(d0, t1), Plus(b0, d1), Plus(b0, b1), Plus(t0, b1), b2, t2, d2, b2);
    InvMixedAdds(Plus(Plus(d0, t1), b2), Plus(Plus(b0, d1), t2), Plus(Plus(b0, b1), d2), Plus(Plus(t0, b1), b2), b3, b3,
                 t3, d3);
    Diagonal(b0);
    Diagonal(b1);
    Diagonal(b2);
    Diagonal(b3);
    OnlyOne(b0);
  }
}
