/** Values of the hash in liblwgeom/lookup3.c that its author publishes: they fix the rotations of Mix and
    Final, which no law tells apart. */
module Lookup3Values {
  import opened Arith
  import opened ByteOrder
  import opened Lookup3

  // ----- exclusive or, the highest bit first -----

  /** A number below 2p without its bit p. */
  function Cut(x: nat, p: nat): (r: nat)
    ensures x < p + p ==> r < p || p == 0
  {
    if x < p then x else x - p
  }

  /** That bit of x ^ y. */
  function TopXor(x: nat, y: nat, p: nat): nat {
    if (x < p) == (y < p) then 0 else p
  }

  lemma {:induction false} TopBit(x: nat, y: nat, k: nat)
    requires x < Pow2(k + 1) && y < Pow2(k + 1)
    ensures BitXor(x, y) == TopXor(x, y, Pow2(k)) + BitXor(Cut(x, Pow2(k)), Cut(y, Pow2(k)))
    decreases k
  {
    if k == 0 {
      assert BitXor(1, 1) == BitXor(0, 0) == 0 && BitXor(1, 0) == BitXor(0, 1) == 1;
    } else {
      TopBit(x / 2, y / 2, k - 1);
      CutHalf(x, Pow2(k - 1));
      CutHalf(y, Pow2(k - 1));
      LowBit(x, y);
      LowBit(Cut(x, Pow2(k)), Cut(y, Pow2(k)));
    }
  }

  lemma LowBit(x: nat, y: nat)
    ensures BitXor(x, y) == (if x % 2 == y % 2 then 0 else 1) + 2 * BitXor(x / 2, y / 2)
  {
  }

  lemma CutHalf(x: nat, p: nat)
    ensures Cut(x, 2 * p) / 2 == Cut(x / 2, p) && Cut(x, 2 * p) % 2 == x % 2
    ensures x < 2 * p <==> x / 2 < p
  {
  }

  /** Four bits of x ^ y from 8p down, and what is left of a number below them. */
  function XorFour(x: nat, y: nat, p: nat): nat {
    var x1, y1 := Cut(x, 8 * p), Cut(y, 8 * p);
    var x2, y2 := Cut(x1, 4 * p), Cut(y1, 4 * p);
    TopXor(x, y, 8 * p) + TopXor(x1, y1, 4 * p) + TopXor(x2, y2, 2 * p) + TopXor(Cut(x2, 2 * p), Cut(y2, 2 * p), p)
  }

  function CutFour(x: nat, p: nat): nat {
    Cut(Cut(Cut(Cut(x, 8 * p), 4 * p), 2 * p), p)
  }

  lemma FourBits(x: nat, y: nat, k: nat)
    requires x < Pow2(k + 4) && y < Pow2(k + 4)
    ensures BitXor(x, y) == XorFour(x, y, Pow2(k)) + BitXor(CutFour(x, Pow2(k)), CutFour(y, Pow2(k)))
    ensures CutFour(x, Pow2(k)) < Pow2(k) && CutFour(y, Pow2(k)) < Pow2(k)
  {
    hide BitXor, Cut, TopXor;
    var p := Pow2(k);
    assert Pow2(k + 1) == 2 * p && Pow2(k + 2) == 4 * p && Pow2(k + 3) == 8 * p && Pow2(k + 4) == 16 * p;
    TopBit(x, y, k + 3);
    var x1, y1 := Cut(x, 8 * p), Cut(y, 8 * p);
    TopBit(x1, y1, k + 2);
    var x2, y2 := Cut(x1, 4 * p), Cut(y1, 4 * p);
    TopBit(x2, y2, k + 1);
    TopBit(Cut(x2, 2 * p), Cut(y2, 2 * p), k);
  }

  /** Exclusive or of two words. */
  function XorNumber(x: nat, y: nat): nat {
    var x1, y1 := CutFour(x, 0x1000_0000), CutFour(y, 0x1000_0000);
    var x2, y2 := CutFour(x1, 0x100_0000), CutFour(y1, 0x100_0000);
    var x3, y3 := CutFour(x2, 0x10_0000), CutFour(y2, 0x10_0000);
    var x4, y4 := CutFour(x3, 0x1_0000), CutFour(y3, 0x1_0000);
    var x5, y5 := CutFour(x4, 0x1000), CutFour(y4, 0x1000);
    var x6, y6 := CutFour(x5, 0x100), CutFour(y5, 0x100);
    var x7, y7 := CutFour(x6, 0x10), CutFour(y6, 0x10);
    XorFour(x, y, 0x1000_0000) + XorFour(x1, y1, 0x100_0000) + XorFour(x2, y2, 0x10_0000)
    + XorFour(x3, y3, 0x1_0000) + XorFour(x4, y4, 0x1000) + XorFour(x5, y5, 0x100) + XorFour(x6, y6, 0x10)
    + XorFour(x7, y7, 1)
  }

  lemma XorIsNumber(x: word, y: word)
    ensures Xor(x, y) == XorNumber(x, y)
  {
    hide BitXor, CutFour, XorFour, Pow2;
    FourPowers();
    FourBits(x, y, 28);
    var x1, y1 := CutFour(x, 0x1000_0000), CutFour(y, 0x1000_0000);
    FourBits(x1, y1, 24);
    var x2, y2 := CutFour(x1, 0x100_0000), CutFour(y1, 0x100_0000);
    FourBits(x2, y2, 20);
    var x3, y3 := CutFour(x2, 0x10_0000), CutFour(y2, 0x10_0000);
    FourBits(x3, y3, 16);
    var x4, y4 := CutFour(x3, 0x1_0000), CutFour(y3, 0x1_0000);
    FourBits(x4, y4, 12);
    var x5, y5 := CutFour(x4, 0x1000), CutFour(y4, 0x1000);
    FourBits(x5, y5, 8);
    var x6, y6 := CutFour(x5, 0x100), CutFour(y5, 0x100);
    FourBits(x6, y6, 4);
    var x7, y7 := CutFour(x6, 0x10), CutFour(y6, 0x10);
    FourBits(x7, y7, 0);
    XorOfNothing();
  }

  lemma FourPowers()
    ensures Pow2(0) == 1 && Pow2(4) == 0x10 && Pow2(8) == 0x100 && Pow2(12) == 0x1000 && Pow2(16) == 0x1_0000
    ensures Pow2(20) == 0x10_0000 && Pow2(24) == 0x100_0000 && Pow2(28) == 0x1000_0000
    ensures Pow2(32) == 0x1_0000_0000
  {
    hide Pow2;
    Small();
    Pow2Add(4, 4);
    Pow2Add(8, 4);
    Pow2Add(12, 4);
    Pow2Add(16, 4);
    Pow2Add(20, 4);
    Pow2Add(24, 4);
    Pow2Add(28, 4);
  }

  lemma Small()
    ensures Pow2(0) == 1 && Pow2(4) == 0x10
  {
  }

  lemma XorOfNothing()
    ensures BitXor(0, 0) == 0
  {
  }

  // ----- the lines of mix and final -----

  /** Two to the power of the rotations and of what they leave. */
  function Power(k: nat): nat {
    if k == 4 then 0x10 else if k == 6 then 0x40 else if k == 8 then 0x100 else if k == 11 then 0x800
    else if k == 14 then 0x4000 else if k == 16 then 0x1_0000 else if k == 19 then 0x8_0000
    else if k == 24 then 0x100_0000 else 0x200_0000
  }

  function Left(k: nat): nat {
    if k == 4 then 0x1000_0000 else if k == 6 then 0x400_0000 else if k == 8 then 0x100_0000
    else if k == 11 then 0x20_0000 else if k == 14 then 0x4_0000 else if k == 16 then 0x1_0000
    else if k == 19 then 0x2000 else if k == 24 then 0x100 else 0x80
  }

  lemma Powers(k: nat)
    requires k in {4, 6, 8, 11, 14, 16, 19, 24, 25}
    ensures Pow2(k) == Power(k) && Pow2(32 - k) == Left(k)
  {
    assert Pow2(4) == 16;
    Pow2Add(4, 4);
    Pow2Add(8, 8);
    Pow2Add(16, 8);
    Pow2Add(24, 4);
    assert Pow2(6) == 64 && Pow2(7) == 128 && Pow2(11) == 2048;
    assert Pow2(13) == 8192 && Pow2(14) == 16384;
    assert Pow2(18) == 262144 && Pow2(19) == 524288 && Pow2(21) == 2097152;
    assert Pow2(25) == 33554432 && Pow2(26) == 67108864;
  }

  lemma Line(x: word, z: word, k: nat, d: word, rot: word, r: word)
    requires k in {4, 6, 8, 16, 19}
    requires d == Minus(x, z) && rot == z % Left(k) * Power(k) + z / Left(k)
    requires XorNumber(d, rot) == r
    ensures MixX(x, z, k) == r
  {
    hide Pow2, Left, Power, XorNumber;
    Powers(k);
    XorIsNumber(d, rot);
  }

  lemma LastLine(x: word, y: word, k: nat, e: word, rot: word, r: word)
    requires k in {4, 11, 14, 16, 24, 25}
    requires rot == y % Left(k) * Power(k) + y / Left(k) && Minus(e, rot) == r
    requires XorNumber(x, y) == e
    ensures Minus(Xor(x, y), Rot(y, k)) == r
  {
    hide Pow2, Left, Power, XorNumber;
    Powers(k);
    XorIsNumber(x, y);
  }

  // ----- the values -----

  /** The empty key leaves the start values, to which the seeds are added. */
  lemma EmptyKey()
    ensures Hash([], 0, 0).c == Hash([], 0, 0).b == 0xdeadbeef
    ensures Hash([], 0, 0xdeadbeef).c == 0xbd5b7dde && Hash([], 0, 0xdeadbeef).b == 0xdeadbeef
    ensures Hash([], 0xdeadbeef, 0xdeadbeef).c == 0x9c093ccd && Hash([], 0xdeadbeef, 0xdeadbeef).b == 0xbd5b7dde
  {
  }

  // ----- "Four score and seven years ago": two blocks are mixed, the rest is finished -----

  lemma First1()
    ensures MixX(0x51232e53, 0x3fce247f, 4) == 0xedb74e27
  {
    Line(0x51232e53, 0x3fce247f, 4, 0x115509d4, 0xfce247f3, 0xedb74e27);
  }

  lemma First2()
    ensures MixX(0x4e11322d, 0xedb74e27, 6) == 0x0d8a6dfd
  {
    Line(0x4e11322d, 0xedb74e27, 6, 0x6059e406, 0x6dd389fb, 0x0d8a6dfd);
  }

  lemma First3()
    ensures MixX(0x8ddf56ac, 0x0d8a6dfd, 8) == 0x0a3915a2
  {
    Line(0x8ddf56ac, 0x0d8a6dfd, 8, 0x8054e8af, 0x8a6dfd0d, 0x0a3915a2);
  }

  lemma First4()
    ensures MixX(0x7b96a4d3, 0x0a3915a2, 16) == 0x64ff8508
  {
    Line(0x7b96a4d3, 0x0a3915a2, 16, 0x715d8f31, 0x15a20a39, 0x64ff8508);
  }

  lemma First5()
    ensures MixX(0x892112d0, 0x64ff8508, 19) == 0x0c62aa34
  {
    Line(0x892112d0, 0x64ff8508, 19, 0x24218dc8, 0x284327fc, 0x0c62aa34);
  }

  lemma First6()
    ensures MixX(0x935a2872, 0x0c62aa34, 4) == 0x40dddd7e
  {
    Line(0x935a2872, 0x0c62aa34, 4, 0x86f77e3e, 0xc62aa340, 0x40dddd7e);
  }

  lemma FirstBlock()
    ensures Mix(Abc(0x51232e53, 0x4e11322d, 0x3fce247f))
            == Abc(0xf859ad7a, 0x04bc57ae, 0x40dddd7e)
  {
    hide MixX;
    First1();
    First2();
    First3();
    First4();
    First5();
    First6();
  }

  lemma Second1()
    ensures MixX(0x6b7a11e8, 0xa243569e, 4) == 0xed03d2a0
  {
    Line(0x6b7a11e8, 0xa243569e, 4, 0xc936bb4a, 0x243569ea, 0xed03d2a0);
  }

  lemma Second2()
    ensures MixX(0x7321ce13, 0xed03d2a0, 6) == 0xc6e95348
  {
    Line(0x7321ce13, 0xed03d2a0, 6, 0x861dfb73, 0x40f4a83b, 0xc6e95348);
  }

  lemma Second3()
    ensures MixX(0x156524b1, 0xc6e95348, 8) == 0xa72899af
  {
    Line(0x156524b1, 0xc6e95348, 8, 0x4e7bd169, 0xe95348c6, 0xa72899af);
  }

  lemma Second4()
    ensures MixX(0x0268f751, 0xa72899af, 16) == 0xc2effa8a
  {
    Line(0x0268f751, 0xa72899af, 16, 0x5b405da2, 0x99afa728, 0xc2effa8a);
  }

  lemma Second5()
    ensures MixX(0xc9524a99, 0xc2effa8a, 19) == 0xd2344770
  {
    Line(0xc9524a99, 0xc2effa8a, 19, 0x0662500f, 0xd456177f, 0xd2344770);
  }

  lemma Second6()
    ensures MixX(0x707ae448, 0xd2344770, 4) == 0xbd02ebd5
  {
    Line(0x707ae448, 0xd2344770, 4, 0x9e469cd8, 0x2344770d, 0xbd02ebd5);
  }

  lemma SecondBlock()
    ensures Mix(Abc(0x6b7a11e8, 0x7321ce13, 0xa243569e))
            == Abc(0x336aded2, 0x059f2642, 0xbd02ebd5)
  {
    hide MixX;
    Second1();
    Second2();
    Second3();
    Second4();
    Second5();
    Second6();
  }

  lemma Last1()
    ensures Minus(Xor(0xbd02ebd5, 0x059f95a9), Rot(0x059f95a9, 14)) == 0xd3333d15
  {
    hide Xor, Rot;
    LastLine(0xbd02ebd5, 0x059f95a9, 14, 0xb89d7e7c, 0xe56a4167, 0xd3333d15);
  }

  lemma Last2()
    ensures Minus(Xor(0x948b5244, 0xd3333d15), Rot(0xd3333d15, 11)) == 0xadcfc0b8
  {
    hide Xor, Rot;
    LastLine(0x948b5244, 0xd3333d15, 11, 0x47b86f51, 0x99e8ae99, 0xadcfc0b8);
  }

  lemma Last3()
    ensures Minus(Xor(0x059f95a9, 0xadcfc0b8), Rot(0xadcfc0b8, 25)) == 0x36f4b590
  {
    hide Xor, Rot;
    LastLine(0x059f95a9, 0xadcfc0b8, 25, 0xa8505511, 0x715b9f81, 0x36f4b590);
  }

  lemma Last4()
    ensures Minus(Xor(0xd3333d15, 0x36f4b590), Rot(0x36f4b590, 16)) == 0x30375191
  {
    hide Xor, Rot;
    LastLine(0xd3333d15, 0x36f4b590, 16, 0xe5c78885, 0xb59036f4, 0x30375191);
  }

  lemma Last5()
    ensures Minus(Xor(0xadcfc0b8, 0x30375191), Rot(0x30375191, 4)) == 0x9a837816
  {
    hide Xor, Rot;
    LastLine(0xadcfc0b8, 0x30375191, 4, 0x9df89129, 0x03751913, 0x9a837816);
  }

  lemma Last6()
    ensures Minus(Xor(0x36f4b590, 0x9a837816), Rot(0x9a837816, 14)) == 0xce7226e6
  {
    hide Xor, Rot;
    LastLine(0x36f4b590, 0x9a837816, 14, 0xac77cd86, 0xde05a6a0, 0xce7226e6);
  }

  lemma Last7()
    ensures Minus(Xor(0x30375191, 0xce7226e6), Rot(0xce7226e6, 24)) == 0x17770551
  {
    hide Xor, Rot;
    LastLine(0x30375191, 0xce7226e6, 24, 0xfe457777, 0xe6ce7226, 0x17770551);
  }

  lemma LastBlock()
    ensures Final(Abc(0x948b5244, 0x059f95a9, 0xbd02ebd5))
            == Abc(0x9a837816, 0xce7226e6, 0x17770551)
  {
    hide Xor, Rot;
    Last1();
    Last2();
    Last3();
    Last4();
    Last5();
    Last6();
    Last7();
  }

  /** "Four score and seven years ago". */
  function FourScore(): (key: seq<byte>)
    ensures |key| == 30
  {
    [70, 111, 117, 114, 32, 115, 99, 111, 114, 101, 32, 97, 110, 100, 32,
     115, 101, 118, 101, 110, 32, 121, 101, 97, 114, 115, 32, 97, 103, 111]
  }

  lemma FirstWords()
    ensures Word(FourScore(), 0) == 0x72756f46
    ensures Word(FourScore(), 4) == 0x6f637320 && Word(FourScore(), 8) == 0x61206572
  {
  }

  lemma SecondWords()
    ensures Word(FourScore(), 12) == 0x7320646e
    ensures Word(FourScore(), 16) == 0x6e657665 && Word(FourScore(), 20) == 0x61657920
  {
  }

  lemma LastWords()
    ensures Word(FourScore(), 24) == 0x61207372
    ensures Word(FourScore(), 28) == 0x00006f67 && Word(FourScore(), 32) == 0x00000000
  {
  }

  lemma FourScoreHash()
    ensures Hash(FourScore(), 0, 0).c == 0x17770551 && Hash(FourScore(), 0, 0).b == 0xce7226e6
  {
    var k := FourScore();
    FirstWords();
    SecondWords();
    LastWords();
    FirstBlock();
    SecondBlock();
    LastBlock();
    hide Mix, Final, Word, FourScore;
    var s := Start(30, 0, 0);
    assert Absorb(s, k, 0) == Abc(0x51232e53, 0x4e11322d, 0x3fce247f);
    var t := Mix(Absorb(s, k, 0));
    assert Absorb(t, k, 12) == Abc(0x6b7a11e8, 0x7321ce13, 0xa243569e);
    var u := Mix(Absorb(t, k, 12));
    assert Absorb(u, k, 24) == Abc(0x948b5244, 0x059f95a9, 0xbd02ebd5);
    RoundsUnfold(s, k, 0);
    RoundsUnfold(t, k, 12);
    RoundsUnfold(u, k, 24);
  }

  lemma RoundsUnfold(s: Abc, key: seq<byte>, i: nat)
    ensures Rounds(s, key, i) == if |key| > i + 12 then Rounds(Mix(Absorb(s, key, i)), key, i + 12)
                                 else if |key| <= i then s
                                 else Final(Absorb(s, key, i))
  {
  }
}
