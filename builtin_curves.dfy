/** The generator's three built-in curve records: the prime-field Weierstrass
    curves P-256, P-384 and P-521 of section 3.2.1 of NIST SP 800-186. Each gives
    q and n twice, as a polynomial in powers of two and as a literal, so that
    FormatPrimeCurve can check one against the other. */
module BuiltInCurves {
  import opened PyInt
  import opened GenerateCurves

  const P256: CurveSpec := CurveSpec(
    qFormula := Pow2(256) - Pow2(224) + Pow2(192) + Pow2(96) - 1,
    q := 115792089210356248762697446949407573530086143415290314195533631308867097853951,
    nFormula := Pow2(256) - Pow2(224) + Pow2(192) - Pow2(128) + 0xbce6faad_a7179e84_f3b9cac2_fc632551,
    n := 0xffffffff_00000000_ffffffff_ffffffff_bce6faad_a7179e84_f3b9cac2_fc632551,
    a := -3,
    b := 0x5ac635d8_aa3a93e7_b3ebbd55_769886bc_651d06b0_cc53b0f6_3bce3c3e_27d2604b,
    gx := 0x6b17d1f2_e12c4247_f8bce6e5_63a440f2_77037d81_2deb33a0_f4a13945_d898c296,
    gy := 0x4fe342e2_fe1a7f9b_8ee7eb4a_7c0f9e16_2bce3357_6b315ece_cbb64068_37bf51f5,
    cofactor := 1)

  const P384: CurveSpec := CurveSpec(
    qFormula := Pow2(384) - Pow2(128) - Pow2(96) + Pow2(32) - 1,
    q := 0xffffffff_ffffffff_ffffffff_ffffffff_ffffffff_ffffffff_ffffffff_fffffffe_ffffffff_00000000_00000000_ffffffff,
    nFormula := Pow2(384) - Pow2(192) + 0xc7634d81_f4372ddf_581a0db2_48b0a77a_ecec196a_ccc52973,
    n := 0xffffffff_ffffffff_ffffffff_ffffffff_ffffffff_ffffffff_c7634d81_f4372ddf_581a0db2_48b0a77a_ecec196a_ccc52973,
    a := -3,
    b := 0xb3312fa7_e23ee7e4_988e056b_e3f82d19_181d9c6e_fe814112_0314088f_5013875a_c656398d_8a2ed19d_2a85c8ed_d3ec2aef,
    gx := 0xaa87ca22_be8b0537_8eb1c71e_f320ad74_6e1d3b62_8ba79b98_59f741e0_82542a38_5502f25d_bf55296c_3a545e38_72760ab7,
    gy := 0x3617de4a_96262c6f_5d9e98bf_9292dc29_f8f41dbd_289a147c_e9da3113_b5f0b8c0_0a60b1ce_1d7e819d_7a431d7c_90ea0e5f,
    cofactor := 1)

  const P521: CurveSpec := CurveSpec(
    qFormula := Pow2(521) - 1,
    q := 0x1ff_ffffffff_ffffffff_ffffffff_ffffffff_ffffffff_ffffffff_ffffffff_ffffffff_ffffffff_ffffffff_ffffffff_ffffffff_ffffffff_ffffffff_ffffffff_ffffffff,
    nFormula := Pow2(521) - Pow2(260) + 0xa_51868783_bf2f966b_7fcc0148_f709a5d0_3bb5c9b8_899c47ae_bb6fb71e_91386409,
    n := 0x1ff_ffffffff_ffffffff_ffffffff_ffffffff_ffffffff_ffffffff_ffffffff_fffffffa_51868783_bf2f966b_7fcc0148_f709a5d0_3bb5c9b8_899c47ae_bb6fb71e_91386409,
    a := -3,
    b := 0x051_953eb961_8e1c9a1f_929a21a0_b68540ee_a2da725b_99b315f3_b8b48991_8ef109e1_56193951_ec7e937b_1652c0bd_3bb1bf07_3573df88_3d2c34f1_ef451fd4_6b503f00,
    gx := 0xc6_858e06b7_0404e9cd_9e3ecb66_2395b442_9c648139_053fb521_f828af60_6b4d3dba_a14b5e77_efe75928_fe1dc127_a2ffa8de_3348b3c1_856a429b_f97e7e31_c2e5bd66,
    gy := 0x118_39296a78_9a3bc004_5c8a5fb4_2c7d1bd9_98f54449_579b4468_17afbd17_273e662c_97ee7299_5ef42640_c550b901_3fad0761_353c7086_a272c240_88be9476_9fd16650,
    cofactor := 1)

  /** The records in the order the generator processes them, smallest modulus first. */
  const Curves: seq<CurveSpec> := [P256, P384, P521]

  /** The powers of two up to 2^128 that the records use, as literals. */
  lemma Pow2Upto128()
    ensures Pow2(4) == 16
    ensures Pow2(8) == 256
    ensures Pow2(32) == 4294967296
    ensures Pow2(64) == 0x1_00000000_00000000
    ensures Pow2(96) == 0x1_00000000_00000000_00000000
    ensures Pow2(128) == 0x1_00000000_00000000_00000000_00000000
  {
    Pow2Sum(1, 1, 2, 2);
    Pow2Sum(2, 2, 4, 4);
    Pow2Sum(4, 4, 16, 16);
    Pow2Sum(8, 8, 256, 256);
    Pow2Sum(16, 16, 65536, 65536);
    Pow2Sum(32, 32, 4294967296, 4294967296);
    Pow2Sum(64, 32, 0x1_00000000_00000000, 4294967296);
    Pow2Sum(64, 64, 0x1_00000000_00000000, 0x1_00000000_00000000);
  }

  /** The powers of two from 2^192 to 2^260 that the records use, as literals. */
  lemma Pow2Upto260()
    ensures Pow2(192) == 0x1_00000000_00000000_00000000_00000000_00000000_00000000
    ensures Pow2(224) == 0x1_00000000_00000000_00000000_00000000_00000000_00000000_00000000
    ensures Pow2(256) == 0x1_00000000_00000000_00000000_00000000_00000000_00000000_00000000_00000000
    ensures Pow2(260) == 0x10_00000000_00000000_00000000_00000000_00000000_00000000_00000000_00000000
  {
    Pow2Upto128();
    Pow2Sum(128, 64, 0x1_00000000_00000000_00000000_00000000, 0x1_00000000_00000000);
    Pow2Sum(192, 32, 0x1_00000000_00000000_00000000_00000000_00000000_00000000, 4294967296);
    Pow2Sum(128, 128, 0x1_00000000_00000000_00000000_00000000, 0x1_00000000_00000000_00000000_00000000);
    Pow2Sum(256, 4, 0x1_00000000_00000000_00000000_00000000_00000000_00000000_00000000_00000000, 16);
  }

  /** The powers of two from 2^384 to 2^521 that the records use, as literals. */
  lemma Pow2Upto521()
    ensures Pow2(384) == 0x1_00000000_00000000_00000000_00000000_00000000_00000000_00000000_00000000_00000000_00000000_00000000_00000000
    ensures Pow2(520) == 0x100_00000000_00000000_00000000_00000000_00000000_00000000_00000000_00000000_00000000_00000000_00000000_00000000_00000000_00000000_00000000_00000000
    ensures Pow2(521) == 0x200_00000000_00000000_00000000_00000000_00000000_00000000_00000000_00000000_00000000_00000000_00000000_00000000_00000000_00000000_00000000_00000000
  {
    Pow2Upto128();
    Pow2Upto260();
    Pow2Sum(256, 128, 0x1_00000000_00000000_00000000_00000000_00000000_00000000_00000000_00000000, 0x1_00000000_00000000_00000000_00000000);
    Pow2Sum(256, 256, 0x1_00000000_00000000_00000000_00000000_00000000_00000000_00000000_00000000, 0x1_00000000_00000000_00000000_00000000_00000000_00000000_00000000_00000000);
    Pow2Sum(512, 8, 0x1_00000000_00000000_00000000_00000000_00000000_00000000_00000000_00000000_00000000_00000000_00000000_00000000_00000000_00000000_00000000_00000000, 256);
    Pow2Sum(520, 1, 0x100_00000000_00000000_00000000_00000000_00000000_00000000_00000000_00000000_00000000_00000000_00000000_00000000_00000000_00000000_00000000_00000000, 2);
  }

  /** P-256's polynomial forms of q and n equal their literals. */
  lemma P256Supported()
    ensures Supported(P256)
  {
    Pow2Upto128();
    Pow2Upto260();
  }

  /** P-384's polynomial forms of q and n equal their literals. */
  lemma P384Supported()
    ensures Supported(P384)
  {
    Pow2Upto128();
    Pow2Upto260();
    Pow2Upto521();
  }

  /** P-521's polynomial forms of q and n equal their literals. */
  lemma P521Supported()
    ensures Supported(P521)
  {
    Pow2Upto260();
    Pow2Upto521();
  }

  /** Every built-in record passes the generator's checks. */
  lemma BuiltInCurvesAccepted()
    ensures forall i :: 0 <= i < |Curves| ==> FormatPrimeCurve(Curves[i]).Success?
  {
    P256Supported();
    P384Supported();
    P521Supported();
  }

  /** The bit lengths of the three field moduli. */
  lemma BuiltInBitLengths()
    ensures BitLength(P256.q) == 256 && BitLength(P384.q) == 384 && BitLength(P521.q) == 521
  {
    P256BitLength();
    P384BitLength();
    P521BitLength();
  }

  lemma P256BitLength()
    ensures BitLength(P256.q) == 256
  {
    Pow2Upto260();
    assert Pow2(256) == 2 * Pow2(255);
    BitLengthUnique(P256.q, 256);
  }

  lemma P384BitLength()
    ensures BitLength(P384.q) == 384
  {
    Pow2Upto521();
    assert Pow2(384) == 2 * Pow2(383);
    BitLengthUnique(P384.q, 384);
  }

  lemma P521BitLength()
    ensures BitLength(P521.q) == 521
  {
    Pow2Upto521();
    BitLengthUnique(P521.q, 521);
  }

  /** The curves are named after the bit length of q. */
  lemma BuiltInCurveNames()
    ensures FormatCurveName(P256) == "p256"
    ensures FormatCurveName(P384) == "p384"
    ensures FormatCurveName(P521) == "p521"
  {
    BuiltInBitLengths();
    DecimalLiterals();
    NameOf(P256, 256, "p256");
    NameOf(P384, 384, "p384");
    NameOf(P521, 521, "p521");
  }

  lemma DecimalLiterals()
    ensures "p" + Decimal(256) == "p256" && "p" + Decimal(384) == "p384" && "p" + Decimal(521) == "p521"
  {
    assert Decimal(2) == "2" && Decimal(25) == "25";
    assert Decimal(3) == "3" && Decimal(38) == "38";
    assert Decimal(5) == "5" && Decimal(52) == "52";
  }

  lemma NameOf(c: CurveSpec, bits: nat, name: string)
    requires BitLength(c.q) == bits && name == "p" + Decimal(bits)
    ensures FormatCurveName(c) == name
  {
  }

  /** The P-256 base point in Montgomery form, against an independent
      computation of (x * 2^256) mod q. */
  lemma P256BasePointInMontgomeryForm()
    ensures FormatPrimeCurve(P256).Success?
    ensures FormatPrimeCurve(P256).value.gx
         == 0x18905f76_a53755c6_79fb732b_77622510_75ba95fc_5fedb601_79e730d4_18a9143c
    ensures FormatPrimeCurve(P256).value.gy
         == 0x8571ff18_25885d85_d2e88688_dd21f325_8b4ab8e4_ba19e45c_ddf25357_ce95560a
  {
    P256Supported();
    P256BaseX();
    P256BaseY();
  }

  /** The Montgomery radix of P-256's field is 2^256. */
  lemma P256Radix()
    ensures MontR(P256.q) == 0x1_00000000_00000000_00000000_00000000_00000000_00000000_00000000_00000000
  {
    P256BitLength();
    Pow2Upto260();
  }

  lemma P256BaseX()
    ensures ToMontgomery(P256.gx, P256.q)
         == 0x18905f76_a53755c6_79fb732b_77622510_75ba95fc_5fedb601_79e730d4_18a9143c
  {
    P256Radix();
  }

  lemma P256BaseY()
    ensures ToMontgomery(P256.gy, P256.q)
         == 0x8571ff18_25885d85_d2e88688_dd21f325_8b4ab8e4_ba19e45c_ddf25357_ce95560a
  {
    P256Radix();
  }

  /** Changing the literal q or its polynomial form by one is caught. */
  lemma P256MutatedQRejected()
    ensures FormatPrimeCurve(P256.(q := P256.q + 1)) == Failure(QFormulaMismatch)
    ensures FormatPrimeCurve(P256.(qFormula := P256.qFormula + 1)) == Failure(QFormulaMismatch)
    ensures FormatPrimeCurve(P256.(n := P256.n - 1)) == Failure(NFormulaMismatch)
  {
    P256Supported();
  }

  /** A curve with a different coefficient a is refused before anything else. */
  lemma P256OtherARejected()
    ensures FormatPrimeCurve(P256.(a := -2)) == Failure(UnsupportedA)
  {
  }
}
