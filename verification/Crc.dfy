/**
 The checksum of crc64.c. The table is the source's, in rows of sixteen; it is linear in the bits of the
 index, and from that every step of the checksum loses nothing.
 */
module Crc {
  import opened Arith
  import opened Bytes
  import opened Tables

  // ----- The table -----

  function Row0(l: bv8): bv64 {
    Pick(l,
         0x0000000000000000, 0x7ad870c830358979, 0xf5b0e190606b12f2, 0x8f689158505e9b8b,
         0xc038e5739841b68f, 0xbae095bba8743ff6, 0x358804e3f82aa47d, 0x4f50742bc81f2d04,
         0xab28ecb46814fe75, 0xd1f09c7c5821770c, 0x5e980d24087fec87, 0x24407dec384a65fe,
         0x6b1009c7f05548fa, 0x11c8790fc060c183, 0x9ea0e857903e5a08, 0xe478989fa00bd371)
  }

  function Row1(l: bv8): bv64 {
    Pick(l,
         0x7d08ff3b88be6f81, 0x07d08ff3b88be6f8, 0x88b81eabe8d57d73, 0xf2606e63d8e0f40a,
         0xbd301a4810ffd90e, 0xc7e86a8020ca5077, 0x4880fbd87094cbfc, 0x32588b1040a14285,
         0xd620138fe0aa91f4, 0xacf86347d09f188d, 0x2390f21f80c18306, 0x594882d7b0f40a7f,
         0x1618f6fc78eb277b, 0x6cc0863448deae02, 0xe3a8176c18803589, 0x997067a428b5bcf0)
  }

  function Row2(l: bv8): bv64 {
    Pick(l,
         0xfa11fe77117cdf02, 0x80c98ebf2149567b, 0x0fa11fe77117cdf0, 0x75796f2f41224489,
         0x3a291b04893d698d, 0x40f16bccb908e0f4, 0xcf99fa94e9567b7f, 0xb5418a5cd963f206,
         0x513912c379682177, 0x2be1620b495da80e, 0xa489f35319033385, 0xde51839b2936bafc,
         0x9101f7b0e12997f8, 0xebd98778d11c1e81, 0x64b116208142850a, 0x1e6966e8b1770c73)
  }

  function Row3(l: bv8): bv64 {
    Pick(l,
         0x8719014c99c2b083, 0xfdc17184a9f739fa, 0x72a9e0dcf9a9a271, 0x08719014c99c2b08,
         0x4721e43f0183060c, 0x3df994f731b68f75, 0xb29105af61e814fe, 0xc849756751dd9d87,
         0x2c31edf8f1d64ef6, 0x56e99d30c1e3c78f, 0xd9810c6891bd5c04, 0xa3597ca0a188d57d,
         0xec09088b6997f879, 0x96d1784359a27100, 0x19b9e91b09fcea8b, 0x636199d339c963f2)
  }

  function Row4(l: bv8): bv64 {
    Pick(l,
         0xdf7adabd7a6e2d6f, 0xa5a2aa754a5ba416, 0x2aca3b2d1a053f9d, 0x50124be52a30b6e4,
         0x1f423fcee22f9be0, 0x659a4f06d21a1299, 0xeaf2de5e82448912, 0x902aae96b271006b,
         0x74523609127ad31a, 0x0e8a46c1224f5a63, 0x81e2d7997211c1e8, 0xfb3aa75142244891,
         0xb46ad37a8a3b6595, 0xceb2a3b2ba0eecec, 0x41da32eaea507767, 0x3b024222da65fe1e)
  }

  function Row5(l: bv8): bv64 {
    Pick(l,
         0xa2722586f2d042ee, 0xd8aa554ec2e5cb97, 0x57c2c41692bb501c, 0x2d1ab4dea28ed965,
         0x624ac0f56a91f461, 0x1892b03d5aa47d18, 0x97fa21650afae693, 0xed2251ad3acf6fea,
         0x095ac9329ac4bc9b, 0x7382b9faaaf135e2, 0xfcea28a2faafae69, 0x8632586aca9a2710,
         0xc9622c4102850a14, 0xb3ba5c8932b0836d, 0x3cd2cdd162ee18e6, 0x460abd1952db919f)
  }

  function Row6(l: bv8): bv64 {
    Pick(l,
         0x256b24ca6b12f26d, 0x5fb354025b277b14, 0xd0dbc55a0b79e09f, 0xaa03b5923b4c69e6,
         0xe553c1b9f35344e2, 0x9f8bb171c366cd9b, 0x10e3202993385610, 0x6a3b50e1a30ddf69,
         0x8e43c87e03060c18, 0xf49bb8b633338561, 0x7bf329ee636d1eea, 0x012b592653589793,
         0x4e7b2d0d9b47ba97, 0x34a35dc5ab7233ee, 0xbbcbcc9dfb2ca865, 0xc113bc55cb19211c)
  }

  function Row7(l: bv8): bv64 {
    Pick(l,
         0x5863dbf1e3ac9dec, 0x22bbab39d3991495, 0xadd33a6183c78f1e, 0xd70b4aa9b3f20667,
         0x985b3e827bed2b63, 0xe2834e4a4bd8a21a, 0x6debdf121b863991, 0x1733afda2bb3b0e8,
         0xf34b37458bb86399, 0x8993478dbb8deae0, 0x06fbd6d5ebd3716b, 0x7c23a61ddbe6f812,
         0x3373d23613f9d516, 0x49aba2fe23cc5c6f, 0xc6c333a67392c7e4, 0xbc1b436e43a74e9d)
  }

  function Row8(l: bv8): bv64 {
    Pick(l,
         0x95ac9329ac4bc9b5, 0xef74e3e19c7e40cc, 0x601c72b9cc20db47, 0x1ac40271fc15523e,
         0x5594765a340a7f3a, 0x2f4c0692043ff643, 0xa02497ca54616dc8, 0xdafce7026454e4b1,
         0x3e847f9dc45f37c0, 0x445c0f55f46abeb9, 0xcb349e0da4342532, 0xb1eceec59401ac4b,
         0xfebc9aee5c1e814f, 0x8464ea266c2b0836, 0x0b0c7b7e3c7593bd, 0x71d40bb60c401ac4)
  }

  function Row9(l: bv8): bv64 {
    Pick(l,
         0xe8a46c1224f5a634, 0x927c1cda14c02f4d, 0x1d148d82449eb4c6, 0x67ccfd4a74ab3dbf,
         0x289c8961bcb410bb, 0x5244f9a98c8199c2, 0xdd2c68f1dcdf0249, 0xa7f41839ecea8b30,
         0x438c80a64ce15841, 0x3954f06e7cd4d138, 0xb63c61362c8a4ab3, 0xcce411fe1cbfc3ca,
         0x83b465d5d4a0eece, 0xf96c151de49567b7, 0x76048445b4cbfc3c, 0x0cdcf48d84fe7545)
  }

  function Row10(l: bv8): bv64 {
    Pick(l,
         0x6fbd6d5ebd3716b7, 0x15651d968d029fce, 0x9a0d8ccedd5c0445, 0xe0d5fc06ed698d3c,
         0xaf85882d2576a038, 0xd55df8e515432941, 0x5a3569bd451db2ca, 0x20ed197575283bb3,
         0xc49581ead523e8c2, 0xbe4df122e51661bb, 0x3125607ab548fa30, 0x4bfd10b2857d7349,
         0x04ad64994d625e4d, 0x7e7514517d57d734, 0xf11d85092d094cbf, 0x8bc5f5c11d3cc5c6)
  }

  function Row11(l: bv8): bv64 {
    Pick(l,
         0x12b5926535897936, 0x686de2ad05bcf04f, 0xe70573f555e26bc4, 0x9ddd033d65d7e2bd,
         0xd28d7716adc8cfb9, 0xa85507de9dfd46c0, 0x273d9686cda3dd4b, 0x5de5e64efd965432,
         0xb99d7ed15d9d8743, 0xc3450e196da80e3a, 0x4c2d9f413df695b1, 0x36f5ef890dc31cc8,
         0x79a59ba2c5dc31cc, 0x037deb6af5e9b8b5, 0x8c157a32a5b7233e, 0xf6cd0afa9582aa47)
  }

  function Row12(l: bv8): bv64 {
    Pick(l,
         0x4ad64994d625e4da, 0x300e395ce6106da3, 0xbf66a804b64ef628, 0xc5bed8cc867b7f51,
         0x8aeeace74e645255, 0xf036dc2f7e51db2c, 0x7f5e4d772e0f40a7, 0x05863dbf1e3ac9de,
         0xe1fea520be311aaf, 0x9b26d5e88e0493d6, 0x144e44b0de5a085d, 0x6e963478ee6f8124,
         0x21c640532670ac20, 0x5b1e309b16452559, 0xd476a1c3461bbed2, 0xaeaed10b762e37ab)
  }

  function Row13(l: bv8): bv64 {
    Pick(l,
         0x37deb6af5e9b8b5b, 0x4d06c6676eae0222, 0xc26e573f3ef099a9, 0xb8b627f70ec510d0,
         0xf7e653dcc6da3dd4, 0x8d3e2314f6efb4ad, 0x0256b24ca6b12f26, 0x788ec2849684a65f,
         0x9cf65a1b368f752e, 0xe62e2ad306bafc57, 0x6946bb8b56e467dc, 0x139ecb4366d1eea5,
         0x5ccebf68aecec3a1, 0x2616cfa09efb4ad8, 0xa97e5ef8cea5d153, 0xd3a62e30fe90582a)
  }

  function Row14(l: bv8): bv64 {
    Pick(l,
         0xb0c7b7e3c7593bd8, 0xca1fc72bf76cb2a1, 0x45775673a732292a, 0x3faf26bb9707a053,
         0x70ff52905f188d57, 0x0a2722586f2d042e, 0x854fb3003f739fa5, 0xff97c3c80f4616dc,
         0x1bef5b57af4dc5ad, 0x61372b9f9f784cd4, 0xee5fbac7cf26d75f, 0x9487ca0fff135e26,
         0xdbd7be24370c7322, 0xa10fceec0739fa5b, 0x2e675fb4576761d0, 0x54bf2f7c6752e8a9)
  }

  function Row15(l: bv8): bv64 {
    Pick(l,
         0xcdcf48d84fe75459, 0xb71738107fd2dd20, 0x387fa9482f8c46ab, 0x42a7d9801fb9cfd2,
         0x0df7adabd7a6e2d6, 0x772fdd63e7936baf, 0xf8474c3bb7cdf024, 0x829f3cf387f8795d,
         0x66e7a46c27f3aa2c, 0x1c3fd4a417c62355, 0x935745fc4798b8de, 0xe98f353477ad31a7,
         0xa6df411fbfb21ca3, 0xdc0731d78f8795da, 0x536fa08fdfd90e51, 0x29b7d047efec8728)
  }

  /** crc64_tab. */
  function Table(i: bv8): bv64 {
    Pick(i >> 4, Row0(i & 15), Row1(i & 15), Row2(i & 15), Row3(i & 15), Row4(i & 15), Row5(i & 15), Row6(i & 15),
         Row7(i & 15), Row8(i & 15), Row9(i & 15), Row10(i & 15), Row11(i & 15),
         Row12(i & 15), Row13(i & 15), Row14(i & 15), Row15(i & 15))
  }

  /** The entries of the single bits of `i`, combined. */
  function Linear(i: bv8): bv64 {
    (if i & 0x01 != 0 then 0x7ad870c830358979 else 0)
    ^ (if i & 0x02 != 0 then 0xf5b0e190606b12f2 else 0)
    ^ (if i & 0x04 != 0 then 0xc038e5739841b68f else 0)
    ^ (if i & 0x08 != 0 then 0xab28ecb46814fe75 else 0)
    ^ (if i & 0x10 != 0 then 0x7d08ff3b88be6f81 else 0)
    ^ (if i & 0x20 != 0 then 0xfa11fe77117cdf02 else 0)
    ^ (if i & 0x40 != 0 then 0xdf7adabd7a6e2d6f else 0)
    ^ (if i & 0x80 != 0 then 0x95ac9329ac4bc9b5 else 0)
  }

  lemma LowRows(i: bv8)
    ensures i >> 4 == 0 ==> Row0(i & 15) == Linear(i)
    ensures i >> 4 == 1 ==> Row1(i & 15) == Linear(i)
    ensures i >> 4 == 2 ==> Row2(i & 15) == Linear(i)
    ensures i >> 4 == 3 ==> Row3(i & 15) == Linear(i)
    ensures i >> 4 == 4 ==> Row4(i & 15) == Linear(i)
    ensures i >> 4 == 5 ==> Row5(i & 15) == Linear(i)
    ensures i >> 4 == 6 ==> Row6(i & 15) == Linear(i)
    ensures i >> 4 == 7 ==> Row7(i & 15) == Linear(i)
  {
  }

  lemma HighRows(i: bv8)
    ensures i >> 4 == 8 ==> Row8(i & 15) == Linear(i)
    ensures i >> 4 == 9 ==> Row9(i & 15) == Linear(i)
    ensures i >> 4 == 10 ==> Row10(i & 15) == Linear(i)
    ensures i >> 4 == 11 ==> Row11(i & 15) == Linear(i)
    ensures i >> 4 == 12 ==> Row12(i & 15) == Linear(i)
    ensures i >> 4 == 13 ==> Row13(i & 15) == Linear(i)
    ensures i >> 4 == 14 ==> Row14(i & 15) == Linear(i)
    ensures i >> 4 == 15 ==> Row15(i & 15) == Linear(i)
  {
  }

  /** All 256 entries of the table are the combination of eight of them. */
  lemma TableIsLinear(i: bv8)
    ensures Table(i) == Linear(i)
  {
    hide Linear, Pick, Row0, Row1, Row2, Row3, Row4, Row5, Row6, Row7, Row8, Row9, Row10, Row11, Row12, Row13, Row14, Row15;
    LowRows(i);
    HighRows(i);
    PickRight(i >> 4, Linear(i), Row0(i & 15), Row1(i & 15), Row2(i & 15), Row3(i & 15), Row4(i & 15), Row5(i & 15),
              Row6(i & 15), Row7(i & 15), Row8(i & 15), Row9(i & 15), Row10(i & 15),
              Row11(i & 15), Row12(i & 15), Row13(i & 15), Row14(i & 15), Row15(i & 15));
  }

  function Top(w: bv64): bv8 { (w >> 56) as bv8 }

  /** The top bytes of the entries of the single bits. */
  function LinearTop(i: bv8): bv8 {
    (if i & 0x01 != 0 then 0x7a else 0)
    ^ (if i & 0x02 != 0 then 0xf5 else 0)
    ^ (if i & 0x04 != 0 then 0xc0 else 0)
    ^ (if i & 0x08 != 0 then 0xab else 0)
    ^ (if i & 0x10 != 0 then 0x7d else 0)
    ^ (if i & 0x20 != 0 then 0xfa else 0)
    ^ (if i & 0x40 != 0 then 0xdf else 0)
    ^ (if i & 0x80 != 0 then 0x95 else 0)
  }

  lemma TopOfSum(a: bv64, b: bv64, c: bv64, d: bv64, e: bv64, f: bv64, g: bv64, h: bv64)
    ensures Top(a ^ b ^ c ^ d ^ e ^ f ^ g ^ h) == Top(a) ^ Top(b) ^ Top(c) ^ Top(d) ^ Top(e) ^ Top(f) ^ Top(g) ^ Top(h)
  {
  }

  lemma TopOfLinear(i: bv8)
    ensures Top(Linear(i)) == LinearTop(i)
  {
    var t0 := if i & 0x01 != 0 then 0x7ad870c830358979 else 0;
    var t1 := if i & 0x02 != 0 then 0xf5b0e190606b12f2 else 0;
    var t2 := if i & 0x04 != 0 then 0xc038e5739841b68f else 0;
    var t3 := if i & 0x08 != 0 then 0xab28ecb46814fe75 else 0;
    var t4 := if i & 0x10 != 0 then 0x7d08ff3b88be6f81 else 0;
    var t5 := if i & 0x20 != 0 then 0xfa11fe77117cdf02 else 0;
    var t6 := if i & 0x40 != 0 then 0xdf7adabd7a6e2d6f else 0;
    var t7 := if i & 0x80 != 0 then 0x95ac9329ac4bc9b5 else 0;
    TopOfSum(t0, t1, t2, t3, t4, t5, t6, t7);
  }

  lemma LinearTopInjective(a: bv8, b: bv8)
    requires LinearTop(a) == LinearTop(b)
    ensures a == b
  {
  }

  /** The top bytes of the table's entries are all different. */
  lemma TopBytesDiffer(a: bv8, b: bv8)
    requires Top(Table(a)) == Top(Table(b))
    ensures a == b
  {
    hide Linear, LinearTop, Table, Top;
    TableIsLinear(a);
    TableIsLinear(b);
    TopOfLinear(a);
    TopOfLinear(b);
    LinearTopInjective(a, b);
  }

  // ----- The running checksum -----

  function FromBits(p0: bool, p1: bool, p2: bool, p3: bool, p4: bool, p5: bool, p6: bool, p7: bool): bv8 {
    (if p0 then 0x01 else 0) | (if p1 then 0x02 else 0) | (if p2 then 0x04 else 0) | (if p3 then 0x08 else 0)
    | (if p4 then 0x10 else 0) | (if p5 then 0x20 else 0) | (if p6 then 0x40 else 0) | (if p7 then 0x80 else 0)
  }

  /** A byte as eight bits. */
  function Octet(b: byte): bv8 {
    var x: nat := b;
    FromBits(x % 2 == 1, x / 2 % 2 == 1, x / 4 % 2 == 1, x / 8 % 2 == 1,
             x / 16 % 2 == 1, x / 32 % 2 == 1, x / 64 % 2 == 1, x / 128 % 2 == 1)
  }

  lemma FromBitsInjective(p0: bool, p1: bool, p2: bool, p3: bool, p4: bool, p5: bool, p6: bool, p7: bool,
                          q0: bool, q1: bool, q2: bool, q3: bool, q4: bool, q5: bool, q6: bool, q7: bool)
    requires FromBits(p0, p1, p2, p3, p4, p5, p6, p7) == FromBits(q0, q1, q2, q3, q4, q5, q6, q7)
    ensures p0 == q0 && p1 == q1 && p2 == q2 && p3 == q3 && p4 == q4 && p5 == q5 && p6 == q6 && p7 == q7
  {
  }

  lemma Halves(x: nat, y: nat)
    requires x % 2 == 1 <==> y % 2 == 1
    requires x / 2 == y / 2
    ensures x == y
  {
  }

  lemma OctetDiffers(a: byte, b: byte)
    requires Octet(a) == Octet(b)
    ensures a == b
  {
    hide FromBits;
    var x: nat, y: nat := a, b;
    FromBitsInjective(x % 2 == 1, x / 2 % 2 == 1, x / 4 % 2 == 1, x / 8 % 2 == 1,
                      x / 16 % 2 == 1, x / 32 % 2 == 1, x / 64 % 2 == 1, x / 128 % 2 == 1,
                      y % 2 == 1, y / 2 % 2 == 1, y / 4 % 2 == 1, y / 8 % 2 == 1,
                      y / 16 % 2 == 1, y / 32 % 2 == 1, y / 64 % 2 == 1, y / 128 % 2 == 1);
    SameNumber(x, y);
  }

  lemma SameNumber(x: nat, y: nat)
    requires x < 256 && y < 256
    requires (x % 2 == 1 <==> y % 2 == 1) && (x / 2 % 2 == 1 <==> y / 2 % 2 == 1)
    requires (x / 4 % 2 == 1 <==> y / 4 % 2 == 1) && (x / 8 % 2 == 1 <==> y / 8 % 2 == 1)
    requires (x / 16 % 2 == 1 <==> y / 16 % 2 == 1) && (x / 32 % 2 == 1 <==> y / 32 % 2 == 1)
    requires (x / 64 % 2 == 1 <==> y / 64 % 2 == 1) && (x / 128 % 2 == 1 <==> y / 128 % 2 == 1)
    ensures x == y
  {
    assert x / 256 == 0 && y / 256 == 0;
    Up(x, y, 128);
    Up(x, y, 64);
    Up(x, y, 32);
    Up(x, y, 16);
    Up(x, y, 8);
    Up(x, y, 4);
    Up(x, y, 2);
    Up(x, y, 1);
  }

  lemma Up(x: nat, y: nat, d: nat)
    requires d > 0 && x / (2 * d) == y / (2 * d) && (x / d % 2 == 1 <==> y / d % 2 == 1)
    ensures x / d == y / d
  {
    HalveQuotient(x, d);
    HalveQuotient(y, d);
    Halves(x / d, y / d);
  }

  function Slot(crc: bv64, b: bv8): bv8 { ((crc & 0xff) as bv8) ^ b }

  function Shift(crc: bv64): bv64 { crc >> 8 }

  function Xor(x: bv64, y: bv64): bv64 { x ^ y }

  /** One byte. */
  function Step(crc: bv64, b: bv8): bv64 {
    Xor(Table(Slot(crc, b)), Shift(crc))
  }

  lemma StepTop(t: bv64, crc: bv64)
    ensures Top(Xor(t, Shift(crc))) == Top(t)
  {
  }

  lemma XorCancel(t: bv64, x: bv64, y: bv64)
    requires Xor(t, x) == Xor(t, y)
    ensures x == y
  {
  }

  lemma SameSlot(c: bv64, d: bv64, b: bv8)
    requires Slot(c, b) == Slot(d, b) && Shift(c) == Shift(d)
    ensures c == d
  {
  }

  lemma SameByte(c: bv64, a: bv8, b: bv8)
    requires Slot(c, a) == Slot(c, b)
    ensures a == b
  {
  }

  /** The step is injective in the checksum for a fixed byte, and in the byte for a fixed checksum. */
  lemma StepInjective(c: bv64, d: bv64, a: bv8, b: bv8)
    requires Step(c, a) == Step(d, b)
    ensures a == b ==> c == d
    ensures c == d ==> a == b
  {
    hide Table, Slot, Top, Xor, Shift;
    var i, j := Slot(c, a), Slot(d, b);
    StepTop(Table(i), c);
    StepTop(Table(j), d);
    TopBytesDiffer(i, j);
    XorCancel(Table(i), Shift(c), Shift(d));
    if a == b {
      SameSlot(c, d, a);
    }
    if c == d {
      SameByte(c, a, b);
    }
  }

  /** The checksum of `s` from `crc` on. */
  function Crc64(crc: bv64, s: seq<byte>): bv64
    decreases |s|
  {
    if s == [] then crc else Crc64(Step(crc, Octet(s[0])), s[1..])
  }

  // ----- The checksum bit by bit -----

  /** The generator polynomial, lowest bits first. */
  const POLYNOMIAL: bv64 := 0x95ac9329ac4bc9b5

  /** One bit: the lowest bit leaves, and the polynomial is taken off when it differs from `bit`. */
  function BitStep(crc: bv64, bit: bool): bv64 {
    if (crc & 1 != 0) != bit then (crc >> 1) ^ POLYNOMIAL else crc >> 1
  }

  /** The lowest `n` bits of the number `x`, the lowest first. */
  function BitSteps(crc: bv64, x: nat, n: nat): bv64
    decreases n
  {
    if n == 0 then crc else BitSteps(BitStep(crc, x % 2 == 1), x / 2, n - 1)
  }

  /** The checksum of `s` from `crc` on, bit by bit. */
  function BitSerial(crc: bv64, s: seq<byte>): bv64
    decreases |s|
  {
    if s == [] then crc else BitSerial(BitSteps(crc, s[0], 8), s[1..])
  }

  function Eight(c: bv64, p0: bool, p1: bool, p2: bool, p3: bool, p4: bool, p5: bool, p6: bool, p7: bool): bv64 {
    BitStep(BitStep(BitStep(BitStep(BitStep(BitStep(BitStep(BitStep(c, p0), p1), p2), p3), p4), p5), p6), p7)
  }

  function Divide(x: bv64): bv64 {
    Eight(x, false, false, false, false, false, false, false, false)
  }

  function Low(x: bv64): bool { x & 1 != 0 }

  function Half(x: bv64): bv64 { x >> 1 }

  function Wide(b: bv8): bv64 { b as bv64 }

  function Upper(x: bv64): bv64 { x & 0xffff_ffff_ffff_ff00 }

  function Times(b: bool, k: bv64): bv64 { if b then k else 0 }

  lemma LowSum(a: bv64, b: bv64)
    ensures Low(Xor(a, b)) <==> Low(a) != Low(b)
  {
  }

  lemma HalfSum(a: bv64, b: bv64)
    ensures Half(Xor(a, b)) == Xor(Half(a), Half(b))
  {
  }

  lemma XorUnit(k: bv64)
    ensures Xor(k, k) == 0 && Xor(k, 0) == k && Xor(0, k) == k
  {
  }

  lemma XorFlip(a: bv64, b: bv64)
    ensures Xor(a, b) == Xor(b, a)
  {
  }

  predicate IsXor(r: bv64, x: bv64, y: bv64) { r == x ^ y }

  lemma IsXorRight(a: bv64, b: bv64)
    ensures IsXor(Xor(a, b), a, b)
  {
  }

  lemma IsXorLast(a: bv64, b: bv64, c: bv64, x: bv64, y: bv64, u: bv64, v: bv64)
    requires IsXor(x, a, b) && IsXor(y, a, c) && IsXor(u, x, c) && IsXor(v, y, b)
    ensures u == v
  {
  }

  lemma XorLast(a: bv64, b: bv64, c: bv64)
    ensures Xor(Xor(a, b), c) == Xor(Xor(a, c), b)
  {
    hide *;
    IsXorRight(a, b);
    IsXorRight(a, c);
    IsXorRight(Xor(a, b), c);
    IsXorRight(Xor(a, c), b);
    IsXorLast(a, b, c, Xor(a, b), Xor(a, c), Xor(Xor(a, b), c), Xor(Xor(a, c), b));
  }

  lemma XorSwap(a: bv64, b: bv64, c: bv64, d: bv64)
    ensures Xor(Xor(a, b), Xor(c, d)) == Xor(Xor(a, c), Xor(b, d))
  {
    hide *;
    XorLast(a, b, Xor(c, d));
    XorFlip(a, Xor(c, d));
    XorLast(c, d, a);
    XorFlip(c, a);
    XorLast(Xor(a, c), d, b);
    XorFlip(Xor(a, c), b);
    XorLast(b, Xor(a, c), d);
    XorFlip(Xor(b, d), Xor(a, c));
  }

  lemma TimesSum(a: bool, b: bool, k: bv64)
    ensures Times(a != b, k) == Xor(Times(a, k), Times(b, k))
  {
    hide Xor;
    XorUnit(k);
    XorUnit(0);
  }

  lemma StepTakes(c: bv64, bit: bool)
    requires Low(c) != bit
    ensures BitStep(c, bit) == Xor(Half(c), POLYNOMIAL)
  {
  }

  lemma StepLeaves(c: bv64, bit: bool)
    requires Low(c) == bit
    ensures BitStep(c, bit) == Half(c)
  {
  }

  lemma StepHalf(c: bv64, bit: bool)
    ensures BitStep(c, bit) == Xor(Half(c), Times(Low(c) != bit, POLYNOMIAL))
  {
    hide BitStep, Xor, Half, Low;
    if Low(c) != bit {
      StepTakes(c, bit);
    } else {
      StepLeaves(c, bit);
      XorUnit(Half(c));
    }
  }

  /** A bit may be combined with the checksum beforehand. */
  lemma BitApart(c: bv64, r: bv64)
    ensures Xor(BitStep(c, Low(r)), Half(r)) == BitStep(Xor(c, r), false)
  {
    hide *;
    StepHalf(c, Low(r));
    StepHalf(Xor(c, r), false);
    LowSum(c, r);
    HalfSum(c, r);
    XorLast(Half(c), Half(r), Times(Low(c) != Low(r), POLYNOMIAL));
  }

  /** Division by the polynomial is linear. */
  lemma StepSum(a: bv64, b: bv64)
    ensures BitStep(Xor(a, b), false) == Xor(BitStep(a, false), BitStep(b, false))
  {
    hide *;
    StepHalf(a, false);
    StepHalf(b, false);
    StepHalf(Xor(a, b), false);
    LowSum(a, b);
    HalfSum(a, b);
    TimesSum(Low(a), Low(b), POLYNOMIAL);
    XorSwap(Half(a), Times(Low(a), POLYNOMIAL), Half(b), Times(Low(b), POLYNOMIAL));
  }

  lemma WideBits(p0: bool, p1: bool, p2: bool, p3: bool, p4: bool, p5: bool, p6: bool, p7: bool)
    ensures var r := Wide(FromBits(p0, p1, p2, p3, p4, p5, p6, p7));
            && Low(r) == p0 && Low(Half(r)) == p1 && Low(Half(Half(r))) == p2
            && Low(Half(Half(Half(r)))) == p3 && Low(Half(Half(Half(Half(r))))) == p4
            && Low(Half(Half(Half(Half(Half(r)))))) == p5 && Low(Half(Half(Half(Half(Half(Half(r))))))) == p6
            && Low(Half(Half(Half(Half(Half(Half(Half(r)))))))) == p7
  {
  }

  lemma AllShifted(b: bv8)
    ensures Half(Half(Half(Half(Half(Half(Half(Half(Wide(b))))))))) == 0
  {
  }

  /** All eight bits of a byte may be combined with the checksum beforehand. */
  lemma ByteApart(c: bv64, p0: bool, p1: bool, p2: bool, p3: bool, p4: bool, p5: bool, p6: bool, p7: bool)
    ensures Eight(c, p0, p1, p2, p3, p4, p5, p6, p7) == Divide(Xor(c, Wide(FromBits(p0, p1, p2, p3, p4, p5, p6, p7))))
  {
    hide BitStep, Xor, Half, Low, Wide, FromBits;
    var b := FromBits(p0, p1, p2, p3, p4, p5, p6, p7);
    WideBits(p0, p1, p2, p3, p4, p5, p6, p7);
    var r0 := Wide(b);
    var r1 := Half(r0);
    var r2 := Half(r1);
    var r3 := Half(r2);
    var r4 := Half(r3);
    var r5 := Half(r4);
    var r6 := Half(r5);
    var r7 := Half(r6);
    var c1 := BitStep(c, p0);
    var c2 := BitStep(c1, p1);
    var c3 := BitStep(c2, p2);
    var c4 := BitStep(c3, p3);
    var c5 := BitStep(c4, p4);
    var c6 := BitStep(c5, p5);
    var c7 := BitStep(c6, p6);
    BitApart(c, r0);
    BitApart(c1, r1);
    BitApart(c2, r2);
    BitApart(c3, r3);
    BitApart(c4, r4);
    BitApart(c5, r5);
    BitApart(c6, r6);
    BitApart(c7, r7);
    AllShifted(b);
    XorUnit(BitStep(c7, p7));
  }

  lemma DivideSum(x: bv64, y: bv64)
    ensures Divide(Xor(x, y)) == Xor(Divide(x), Divide(y))
  {
    hide BitStep, Xor;
    var x1, y1 := BitStep(x, false), BitStep(y, false);
    var x2, y2 := BitStep(x1, false), BitStep(y1, false);
    var x3, y3 := BitStep(x2, false), BitStep(y2, false);
    var x4, y4 := BitStep(x3, false), BitStep(y3, false);
    var x5, y5 := BitStep(x4, false), BitStep(y4, false);
    var x6, y6 := BitStep(x5, false), BitStep(y5, false);
    var x7, y7 := BitStep(x6, false), BitStep(y6, false);
    StepSum(x, y);
    StepSum(x1, y1);
    StepSum(x2, y2);
    StepSum(x3, y3);
    StepSum(x4, y4);
    StepSum(x5, y5);
    StepSum(x6, y6);
    StepSum(x7, y7);
  }

  lemma DivideLow(i: bv8)
    ensures i >> 4 == 0 ==> Divide(Wide(i)) == Linear(i)
    ensures i >> 4 == 1 ==> Divide(Wide(i)) == Linear(i)
    ensures i >> 4 == 2 ==> Divide(Wide(i)) == Linear(i)
    ensures i >> 4 == 3 ==> Divide(Wide(i)) == Linear(i)
    ensures i >> 4 == 4 ==> Divide(Wide(i)) == Linear(i)
    ensures i >> 4 == 5 ==> Divide(Wide(i)) == Linear(i)
    ensures i >> 4 == 6 ==> Divide(Wide(i)) == Linear(i)
    ensures i >> 4 == 7 ==> Divide(Wide(i)) == Linear(i)
  {
  }

  lemma DivideHigh(i: bv8)
    ensures i >> 4 == 8 ==> Divide(Wide(i)) == Linear(i)
    ensures i >> 4 == 9 ==> Divide(Wide(i)) == Linear(i)
    ensures i >> 4 == 10 ==> Divide(Wide(i)) == Linear(i)
    ensures i >> 4 == 11 ==> Divide(Wide(i)) == Linear(i)
    ensures i >> 4 == 12 ==> Divide(Wide(i)) == Linear(i)
    ensures i >> 4 == 13 ==> Divide(Wide(i)) == Linear(i)
    ensures i >> 4 == 14 ==> Divide(Wide(i)) == Linear(i)
    ensures i >> 4 == 15 ==> Divide(Wide(i)) == Linear(i)
  {
  }

  lemma DivideByte(i: bv8)
    ensures Divide(Wide(i)) == Linear(i)
  {
    hide Divide, Wide, Linear;
    DivideLow(i);
    DivideHigh(i);
  }

  lemma DivideUpper(x: bv64)
    ensures Divide(Upper(x)) == Shift(x)
  {
  }

  lemma InTwo(c: bv64, b: bv8)
    ensures Xor(c, Wide(b)) == Xor(Wide(Slot(c, b)), Upper(c))
  {
  }

  /** The table is that of the polynomial: one lookup divides by it eight times. */
  lemma StepDivides(crc: bv64, b: bv8)
    ensures Step(crc, b) == Divide(Xor(crc, Wide(b)))
  {
    hide Divide, Xor, Wide, Slot, Upper, Table, Linear, Shift;
    InTwo(crc, b);
    DivideSum(Wide(Slot(crc, b)), Upper(crc));
    DivideByte(Slot(crc, b));
    DivideUpper(crc);
    TableIsLinear(Slot(crc, b));
  }

  function One(b: bool): int { if b then 1 else 0 }

  function Value(x: bv8): int { x as int }

  lemma FromBitsValue(p0: bool, p1: bool, p2: bool, p3: bool, p4: bool, p5: bool, p6: bool, p7: bool)
    ensures Value(FromBits(p0, p1, p2, p3, p4, p5, p6, p7)) == One(p0) + 2 * One(p1) + 4 * One(p2) + 8 * One(p3)
                                                              + 16 * One(p4) + 32 * One(p5) + 64 * One(p6)
                                                              + 128 * One(p7)
  {
  }

  lemma BinaryDigits(x: nat)
    requires x < 256
    ensures x == x % 2 + 2 * (x / 2 % 2) + 4 * (x / 4 % 2) + 8 * (x / 8 % 2)
                 + 16 * (x / 16 % 2) + 32 * (x / 32 % 2) + 64 * (x / 64 % 2) + 128 * (x / 128 % 2)
  {
    assert x / 2 / 2 == x / 4 && x / 4 / 2 == x / 8 && x / 8 / 2 == x / 16;
    assert x / 16 / 2 == x / 32 && x / 32 / 2 == x / 64 && x / 64 / 2 == x / 128 && x / 128 / 2 == 0;
    assert x == x % 2 + 2 * (x / 2);
    assert x / 2 == x / 2 % 2 + 2 * (x / 4);
    assert x / 4 == x / 4 % 2 + 2 * (x / 8);
    assert x / 8 == x / 8 % 2 + 2 * (x / 16);
    assert x / 16 == x / 16 % 2 + 2 * (x / 32);
    assert x / 32 == x / 32 % 2 + 2 * (x / 64);
    assert x / 64 == x / 64 % 2 + 2 * (x / 128);
    assert x / 128 == x / 128 % 2;
  }

  lemma OneRight(q: nat)
    ensures One(q % 2 == 1) == q % 2
  {
  }

  lemma NumberOfBits(x: nat)
    requires x < 256
    ensures One(x % 2 == 1) + 2 * One(x / 2 % 2 == 1) + 4 * One(x / 4 % 2 == 1) + 8 * One(x / 8 % 2 == 1)
            + 16 * One(x / 16 % 2 == 1) + 32 * One(x / 32 % 2 == 1) + 64 * One(x / 64 % 2 == 1)
            + 128 * One(x / 128 % 2 == 1) == x
  {
    hide One;
    BinaryDigits(x);
    OneRight(x);
    OneRight(x / 2);
    OneRight(x / 4);
    OneRight(x / 8);
    OneRight(x / 16);
    OneRight(x / 32);
    OneRight(x / 64);
    OneRight(x / 128);
  }

  /** The bits of a byte are those of its number. */
  lemma OctetValue(b: byte)
    ensures Octet(b) as int == b
  {
    OctetNumber(b);
  }

  lemma OctetNumber(b: byte)
    ensures Value(Octet(b)) == b
  {
    hide FromBits, One, Value;
    NumberOfBits(b);
    FromBitsValue(b % 2 == 1, b / 2 % 2 == 1, b / 4 % 2 == 1, b / 8 % 2 == 1,
                  b / 16 % 2 == 1, b / 32 % 2 == 1, b / 64 % 2 == 1, b / 128 % 2 == 1);
  }

  lemma BitStepsEight(c: bv64, x: nat)
    requires x < 256
    ensures BitSteps(c, x, 8) == Eight(c, x % 2 == 1, x / 2 % 2 == 1, x / 4 % 2 == 1, x / 8 % 2 == 1,
                                       x / 16 % 2 == 1, x / 32 % 2 == 1, x / 64 % 2 == 1, x / 128 % 2 == 1)
  {
    hide BitStep;
    assert x / 2 / 2 == x / 4 && x / 4 / 2 == x / 8 && x / 8 / 2 == x / 16;
    assert x / 16 / 2 == x / 32 && x / 32 / 2 == x / 64 && x / 64 / 2 == x / 128;
    var c1 := BitStep(c, x % 2 == 1);
    var c2 := BitStep(c1, x / 2 % 2 == 1);
    var c3 := BitStep(c2, x / 4 % 2 == 1);
    var c4 := BitStep(c3, x / 8 % 2 == 1);
    var c5 := BitStep(c4, x / 16 % 2 == 1);
    var c6 := BitStep(c5, x / 32 % 2 == 1);
    var c7 := BitStep(c6, x / 64 % 2 == 1);
    assert BitSteps(c, x, 8) == BitSteps(c1, x / 2, 7);
    assert BitSteps(c1, x / 2, 7) == BitSteps(c2, x / 4, 6);
    assert BitSteps(c2, x / 4, 6) == BitSteps(c3, x / 8, 5);
    assert BitSteps(c3, x / 8, 5) == BitSteps(c4, x / 16, 4);
    assert BitSteps(c4, x / 16, 4) == BitSteps(c5, x / 32, 3);
    assert BitSteps(c5, x / 32, 3) == BitSteps(c6, x / 64, 2);
    assert BitSteps(c6, x / 64, 2) == BitSteps(c7, x / 128, 1);
    assert BitSteps(c7, x / 128, 1) == BitStep(c7, x / 128 % 2 == 1);
  }

  /** One lookup in the table does what the eight bits of the byte do one after the other. */
  lemma StepIsBits(crc: bv64, b: byte)
    ensures Step(crc, Octet(b)) == BitSteps(crc, b, 8)
  {
    hide Step, BitSteps, Eight, Divide, FromBits, Wide, Xor;
    BitStepsEight(crc, b);
    ByteApart(crc, b % 2 == 1, b / 2 % 2 == 1, b / 4 % 2 == 1, b / 8 % 2 == 1,
              b / 16 % 2 == 1, b / 32 % 2 == 1, b / 64 % 2 == 1, b / 128 % 2 == 1);
    StepDivides(crc, Octet(b));
  }

  /** The checksum by table is the one bit by bit. */
  lemma {:induction false} Crc64IsSerial(crc: bv64, s: seq<byte>)
    ensures Crc64(crc, s) == BitSerial(crc, s)
    decreases |s|
  {
    hide Step, Octet, BitSteps;
    if s != [] {
      StepIsBits(crc, s[0]);
      Crc64IsSerial(Step(crc, Octet(s[0])), s[1..]);
    }
  }

  /** The nine bytes of the check, one at a time. */
  lemma CheckBytes()
    ensures Eight(0x0000000000000000, true, false, false, false, true, true, false, false) == 0xfdc17184a9f739fa
    ensures Eight(0xfdc17184a9f739fa, false, true, false, false, true, true, false, false) == 0xe10364513a98ed96
    ensures Eight(0xe10364513a98ed96, true, true, false, false, true, true, false, false) == 0xd5bcfb814479b1ac
    ensures Eight(0xd5bcfb814479b1ac, false, false, true, false, true, true, false, false) == 0x43593c5dcda521f0
    ensures Eight(0x43593c5dcda521f0, true, false, true, false, true, true, false, false) == 0xf0758513239c7e0d
    ensures Eight(0xf0758513239c7e0d, false, true, true, false, true, true, false, false) == 0xa3a90925b2ab4903
    ensures Eight(0xa3a90925b2ab4903, true, true, true, false, true, true, false, false) == 0x47824d362431ad45
    ensures Eight(0x47824d362431ad45, false, false, false, true, true, true, false, false) == 0x49ec20b315e86dc2
    ensures Eight(0x49ec20b315e86dc2, true, false, false, true, true, true, false, false) == 0xe9c6d914c4b8d9ca
  {
  }

  lemma CheckStep(c: bv64, b: byte, p0: bool, p1: bool, p2: bool, p3: bool, p4: bool, p5: bool, p6: bool, p7: bool)
    requires p0 == (b % 2 == 1) && p1 == (b / 2 % 2 == 1) && p2 == (b / 4 % 2 == 1) && p3 == (b / 8 % 2 == 1)
    requires p4 == (b / 16 % 2 == 1) && p5 == (b / 32 % 2 == 1) && p6 == (b / 64 % 2 == 1) && p7 == (b / 128 % 2 == 1)
    ensures BitSteps(c, b, 8) == Eight(c, p0, p1, p2, p3, p4, p5, p6, p7)
  {
    hide Eight, BitSteps;
    BitStepsEight(c, b);
  }

  lemma SerialFirst(crc: bv64, b: byte, s: seq<byte>)
    ensures BitSerial(crc, [b] + s) == BitSerial(BitSteps(crc, b, 8), s)
  {
    hide BitSteps;
    assert ([b] + s)[1..] == s;
  }

  lemma SerialNothing(crc: bv64)
    ensures BitSerial(crc, []) == crc
  {
  }

  /** The check value of the specification: that of "123456789". */
  lemma CheckValue()
    ensures BitSerial(0, [49, 50, 51, 52, 53, 54, 55, 56, 57]) == 0xe9c6d914c4b8d9ca
  {
    hide Eight, BitSteps, BitSerial;
    CheckBytes();
    CheckStep(0x0000000000000000, 49, true, false, false, false, true, true, false, false);
    CheckStep(0xfdc17184a9f739fa, 50, false, true, false, false, true, true, false, false);
    CheckStep(0xe10364513a98ed96, 51, true, true, false, false, true, true, false, false);
    CheckStep(0xd5bcfb814479b1ac, 52, false, false, true, false, true, true, false, false);
    CheckStep(0x43593c5dcda521f0, 53, true, false, true, false, true, true, false, false);
    CheckStep(0xf0758513239c7e0d, 54, false, true, true, false, true, true, false, false);
    CheckStep(0xa3a90925b2ab4903, 55, true, true, true, false, true, true, false, false);
    CheckStep(0x47824d362431ad45, 56, false, false, false, true, true, true, false, false);
    CheckStep(0x49ec20b315e86dc2, 57, true, false, false, true, true, true, false, false);
    SerialFirst(0x0000000000000000, 49, [50, 51, 52, 53, 54, 55, 56, 57]);
    assert [49] + [50, 51, 52, 53, 54, 55, 56, 57] == [49, 50, 51, 52, 53, 54, 55, 56, 57];
    SerialFirst(0xfdc17184a9f739fa, 50, [51, 52, 53, 54, 55, 56, 57]);
    assert [50] + [51, 52, 53, 54, 55, 56, 57] == [50, 51, 52, 53, 54, 55, 56, 57];
    SerialFirst(0xe10364513a98ed96, 51, [52, 53, 54, 55, 56, 57]);
    assert [51] + [52, 53, 54, 55, 56, 57] == [51, 52, 53, 54, 55, 56, 57];
    SerialFirst(0xd5bcfb814479b1ac, 52, [53, 54, 55, 56, 57]);
    assert [52] + [53, 54, 55, 56, 57] == [52, 53, 54, 55, 56, 57];
    SerialFirst(0x43593c5dcda521f0, 53, [54, 55, 56, 57]);
    assert [53] + [54, 55, 56, 57] == [53, 54, 55, 56, 57];
    SerialFirst(0xf0758513239c7e0d, 54, [55, 56, 57]);
    assert [54] + [55, 56, 57] == [54, 55, 56, 57];
    SerialFirst(0xa3a90925b2ab4903, 55, [56, 57]);
    assert [55] + [56, 57] == [55, 56, 57];
    SerialFirst(0x47824d362431ad45, 56, [57]);
    assert [56] + [57] == [56, 57];
    SerialFirst(0x49ec20b315e86dc2, 57, []);
    assert [57] + [] == [57];
    SerialNothing(0xe9c6d914c4b8d9ca);
  }

  /** crc64: the loop over the bytes. */
  method Crc64Loop(crc0: bv64, s: seq<byte>) returns (crc: bv64)
    ensures crc == Crc64(crc0, s) == BitSerial(crc0, s)
  {
    hide Step, Octet, BitSteps;
    Crc64IsSerial(crc0, s);
    crc := crc0;
    var j := 0;
    assert s[0..] == s;
    while j < |s|
      invariant 0 <= j <= |s| && Crc64(crc, s[j..]) == Crc64(crc0, s)
    {
      var b := s[j];
      assert s[j..][1..] == s[j + 1..];
      crc := Step(crc, Octet(b));
      j := j + 1;
    }
  }

  /** Chunks make no difference. */
  lemma {:induction false} Crc64Append(crc: bv64, a: seq<byte>, b: seq<byte>)
    ensures Crc64(crc, a + b) == Crc64(Crc64(crc, a), b)
    decreases |a|
  {
    hide Step, Octet;
    if a == [] {
      assert a + b == b;
    } else {
      assert (a + b)[1..] == a[1..] + b;
      Crc64Append(Step(crc, Octet(a[0])), a[1..], b);
    }
  }

  /** Different checksums stay different over the same bytes. */
  lemma {:induction false} Crc64Injective(c: bv64, d: bv64, s: seq<byte>)
    requires Crc64(c, s) == Crc64(d, s)
    ensures c == d
    decreases |s|
  {
    hide Step, Octet;
    if s != [] {
      Crc64Injective(Step(c, Octet(s[0])), Step(d, Octet(s[0])), s[1..]);
      StepInjective(c, d, Octet(s[0]), Octet(s[0]));
    }
  }

  /** A change of exactly one byte always changes the checksum. */
  lemma OneByteChanges(crc: bv64, s: seq<byte>, t: seq<byte>, i: nat)
    requires i < |s| == |t| && s[i] != t[i] && s[..i] == t[..i] && s[i + 1..] == t[i + 1..]
    ensures Crc64(crc, s) != Crc64(crc, t)
  {
    hide Step, Octet;
    if Crc64(crc, s) == Crc64(crc, t) {
      var c := Crc64(crc, s[..i]);
      CrcAround(crc, s, i);
      CrcAround(crc, t, i);
      Crc64Injective(Step(c, Octet(s[i])), Step(c, Octet(t[i])), s[i + 1..]);
      StepInjective(c, c, Octet(s[i]), Octet(t[i]));
      OctetDiffers(s[i], t[i]);
    }
  }

  lemma CrcAround(crc: bv64, s: seq<byte>, i: nat)
    requires i < |s|
    ensures Crc64(crc, s) == Crc64(Step(Crc64(crc, s[..i]), Octet(s[i])), s[i + 1..])
  {
    hide Step, Octet;
    assert s == s[..i] + s[i..];
    Crc64Append(crc, s[..i], s[i..]);
    assert s[i..][1..] == s[i + 1..];
  }
}
