/** hashlittle2 of liblwgeom/lookup3.c on a little-endian machine: three loops, one hash. */
module Lookup3 {
  import opened Arith
  import opened ByteOrder

  /** uint32_t. */
  type word = x: int | 0 <= x < 0x1_0000_0000

  /** The internal state. */
  datatype Abc = Abc(a: word, b: word, c: word)

  // ----- 32-bit arithmetic; additions and subtractions wrap -----

  function Plus(x: word, y: word): word {
    if x + y < 0x1_0000_0000 then x + y else x + y - 0x1_0000_0000
  }

  function Minus(x: word, y: word): word {
    if y <= x then x - y else x - y + 0x1_0000_0000
  }

  /** Bitwise exclusive or. */
  function BitXor(x: nat, y: nat): nat
    decreases x + y
  {
    if x + y == 0 then 0 else (if x % 2 == y % 2 then 0 else 1) + 2 * BitXor(x / 2, y / 2)
  }

  lemma {:induction false} XorFits(x: nat, y: nat, k: nat)
    requires x < Pow2(k) && y < Pow2(k)
    ensures BitXor(x, y) < Pow2(k)
    decreases k
  {
    if 0 < x + y {
      XorFits(x / 2, y / 2, k - 1);
    }
  }

  lemma {:induction false} BitXorTwice(x: nat, y: nat)
    ensures BitXor(BitXor(x, y), y) == x
    decreases x + y
  {
    if 0 < x + y {
      BitXorTwice(x / 2, y / 2);
      var r := (if x % 2 == y % 2 then 0 else 1) + 2 * BitXor(x / 2, y / 2);
      assert r / 2 == BitXor(x / 2, y / 2);
    }
  }

  lemma Pow2Of32()
    ensures Pow2(32) == 0x1_0000_0000
  {
    assert Pow2(8) == 256;
    Pow2Add(8, 8);
    Pow2Add(16, 16);
  }

  function Xor(x: word, y: word): word {
    Pow2Of32();
    XorFits(x, y, 32);
    BitXor(x, y)
  }

  lemma XorTwice(x: word, y: word)
    ensures Xor(Xor(x, y), y) == x
  {
    BitXorTwice(x, y);
  }

  lemma RotBound(x: nat, v: nat, w: nat)
    requires 1 <= v && 1 <= w && x < v * w
    ensures 0 <= x % v * w + x / v < v * w
  {
    var q, r := x / v, x % v;
    if w <= q {
      ProductsAtLeast(w, q, v);
    }
    SmallRemainder(q, r, w, v);
    assert w * v == v * w;
  }

  lemma RotFits(x: word, k: nat)
    requires k <= 32
    ensures 0 <= x % Pow2(32 - k) * Pow2(k) + x / Pow2(32 - k) < 0x1_0000_0000
  {
    hide Pow2;
    Pow2Of32();
    Pow2Add(32 - k, k);
    RotBound(x, Pow2(32 - k), Pow2(k));
  }

  /** (x << k) | (x >> (32 - k)): the low bits move up, the high k bits come in below. */
  function Rot(x: word, k: nat): word
    requires k <= 32
  {
    RotFits(x, k);
    x % Pow2(32 - k) * Pow2(k) + x / Pow2(32 - k)
  }

  /** A byte moved up by 8, 16 or 24 bits. */
  function Up8(x: byte): word { 0x100 * x }

  function Up16(x: byte): word { 0x1_0000 * x }

  function Up24(x: byte): word { 0x100_0000 * x }

  /** Four bytes as one word, lowest first. */
  function Join(x: byte, y: byte, z: byte, w: byte): word {
    x + 0x100 * y + 0x1_0000 * z + 0x100_0000 * w
  }

  /** x & 0xff, x & 0xffff and x & 0xffffff. */
  function LowByte(x: word): word { x % 0x100 }

  function LowHalf(x: word): word { x % 0x1_0000 }

  function Low24(x: word): word { x % 0x100_0000 }

  /** A 16-bit value moved up by 16 bits. */
  function UpHalf(x: word): word
    requires x < 0x1_0000
  {
    0x1_0000 * x
  }

  lemma PlusMinus(x: word, y: word)
    ensures Minus(Plus(x, y), y) == x && Plus(Minus(x, y), y) == x
  {
  }

  lemma JoinOfNothing(none: byte)
    requires none == 0
    ensures Join(none, none, none, none) == 0
  {
    hide Plus, Minus;
  }

  lemma PlusZero(x: word, zero: word)
    requires zero == 0
    ensures Plus(x, zero) == x
  {
  }

  lemma PlusNothing(x: word, none: byte)
    requires none == 0
    ensures Plus(x, Join(none, none, none, none)) == x
  {
    hide Plus, Join;
    JoinOfNothing(none);
    PlusZero(x, Join(none, none, none, none));
  }

  lemma JoinMasked(x: byte, y: byte, z: byte, w: byte)
    ensures Low24(Join(x, y, z, w)) == Join(x, y, z, 0)
    ensures LowHalf(Join(x, y, z, w)) == Join(x, y, 0, 0)
    ensures LowByte(Join(x, y, z, w)) == Join(x, 0, 0, 0)
  {
    DivModOf(Join(x, y, z, w), w, Join(x, y, z, 0), 0x100_0000);
    DivModOf(Join(x, y, z, w), z + 0x100 * w, Join(x, y, 0, 0), 0x1_0000);
    DivModOf(Join(x, y, z, w), y + 0x100 * z + 0x1_0000 * w, Join(x, 0, 0, 0), 0x100);
  }

  /** Adding four bytes one by one, from either end, is adding their word. */
  lemma AddBytes(v: word, x: byte, y: byte, z: byte, w: byte)
    ensures Plus(Plus(Plus(Plus(v, x), Up8(y)), Up16(z)), Up24(w)) == Plus(v, Join(x, y, z, w))
    ensures Plus(Plus(Plus(Plus(v, Up24(w)), Up16(z)), Up8(y)), x) == Plus(v, Join(x, y, z, w))
  {
  }

  lemma ZeroByte(v: word)
    ensures Plus(v, 0) == v && Up8(0) == 0 && Up16(0) == 0 && Up24(0) == 0
  {
  }

  /** The words of the 16-bit reads. */
  lemma JoinHalves(x: byte, y: byte, z: byte, w: byte)
    ensures Join(z, w, 0, 0) < 0x1_0000
    ensures Plus(Join(x, y, 0, 0), UpHalf(Join(z, w, 0, 0))) == Join(x, y, z, w)
    ensures x == Join(x, 0, 0, 0)
  {
  }

  lemma ThirdByteFirst(v: word, x: byte, y: byte, z: byte)
    ensures Plus(Plus(v, Up16(z)), Join(x, y, 0, 0)) == Plus(v, Join(x, y, z, 0))
  {
  }

  // ----- mix and final -----

  /** One line of mix: x -= z; x ^= rot(z, k); z += y. */
  function MixX(x: word, z: word, k: nat): word
    requires k <= 32
  {
    Xor(Minus(x, z), Rot(z, k))
  }

  function UnmixX(x: word, z: word, k: nat): word
    requires k <= 32
  {
    Plus(Xor(x, Rot(z, k)), z)
  }

  function Mix(s: Abc): Abc {
    var a, c := MixX(s.a, s.c, 4), Plus(s.c, s.b);
    var b, a := MixX(s.b, a, 6), Plus(a, c);
    var c, b := MixX(c, b, 8), Plus(b, a);
    var a, c := MixX(a, c, 16), Plus(c, b);
    var b, a := MixX(b, a, 19), Plus(a, c);
    var c, b := MixX(c, b, 4), Plus(b, a);
    Abc(a, b, c)
  }

  /** The lines of mix undone, last one first. */
  function Unmix(s: Abc): Abc {
    var b := Minus(s.b, s.a);
    var c := UnmixX(s.c, b, 4);
    var a := Minus(s.a, c);
    var b := UnmixX(b, a, 19);
    var c := Minus(c, b);
    var a := UnmixX(a, c, 16);
    var b := Minus(b, a);
    var c := UnmixX(c, b, 8);
    var a := Minus(a, c);
    var b := UnmixX(b, a, 6);
    var c := Minus(c, b);
    var a := UnmixX(a, c, 4);
    Abc(a, b, c)
  }

  lemma LineUndone(x: word, z: word, k: nat)
    requires k <= 32
    ensures UnmixX(MixX(x, z, k), z, k) == x && MixX(UnmixX(x, z, k), z, k) == x
  {
    hide Rot, Plus, Minus, Xor;
    XorTwice(Minus(x, z), Rot(z, k));
    XorTwice(x, Rot(z, k));
    PlusMinus(Xor(x, Rot(z, k)), z);
    PlusMinus(x, z);
  }

  lemma UnmixAfterMix(s: Abc)
    ensures Unmix(Mix(s)) == s
  {
    hide MixX, UnmixX, Plus, Minus;
    var a, c := MixX(s.a, s.c, 4), Plus(s.c, s.b);
    var b, a1 := MixX(s.b, a, 6), Plus(a, c);
    var c1, b1 := MixX(c, b, 8), Plus(b, a1);
    var a2, c2 := MixX(a1, c1, 16), Plus(c1, b1);
    var b2, a3 := MixX(b1, a2, 19), Plus(a2, c2);
    LineUndone(c2, b2, 4);
    LineUndone(b1, a2, 19);
    LineUndone(a1, c1, 16);
    LineUndone(c, b, 8);
    LineUndone(s.b, a, 6);
    LineUndone(s.a, s.c, 4);
    PlusMinus(b2, a3);
    PlusMinus(a2, c2);
    PlusMinus(c1, b1);
    PlusMinus(b, a1);
    PlusMinus(a, c);
    PlusMinus(s.c, s.b);
  }

  lemma MixAfterUnmix(s: Abc)
    ensures Mix(Unmix(s)) == s
  {
    hide MixX, UnmixX, Plus, Minus;
    var b := Minus(s.b, s.a);
    var c := UnmixX(s.c, b, 4);
    var a := Minus(s.a, c);
    var b1 := UnmixX(b, a, 19);
    var c1 := Minus(c, b1);
    var a1 := UnmixX(a, c1, 16);
    var b2 := Minus(b1, a1);
    var c2 := UnmixX(c1, b2, 8);
    var a2 := Minus(a1, c2);
    var b3 := UnmixX(b2, a2, 6);
    var c3 := Minus(c2, b3);
    LineUndone(a2, c3, 4);
    LineUndone(b2, a2, 6);
    LineUndone(c1, b2, 8);
    LineUndone(a, c1, 16);
    LineUndone(b, a, 19);
    LineUndone(s.c, b, 4);
    PlusMinus(c2, b3);
    PlusMinus(a1, c2);
    PlusMinus(b1, a1);
    PlusMinus(c, b1);
    PlusMinus(s.a, c);
    PlusMinus(s.b, s.a);
  }

  /** Different states stay different: mix loses nothing, and reaches every state. */
  lemma MixIsBijection(s: Abc, t: Abc)
    ensures Mix(s) == Mix(t) ==> s == t
    ensures exists u :: Mix(u) == s
  {
    hide Mix, Unmix;
    UnmixAfterMix(s);
    UnmixAfterMix(t);
    MixAfterUnmix(s);
  }

  function Final(s: Abc): Abc {
    var c := Minus(Xor(s.c, s.b), Rot(s.b, 14));
    var a := Minus(Xor(s.a, c), Rot(c, 11));
    var b := Minus(Xor(s.b, a), Rot(a, 25));
    var c := Minus(Xor(c, b), Rot(b, 16));
    var a := Minus(Xor(a, c), Rot(c, 4));
    var b := Minus(Xor(b, a), Rot(a, 14));
    var c := Minus(Xor(c, b), Rot(b, 24));
    Abc(a, b, c)
  }

  // ----- the hash of a byte string -----

  /** A byte of the key, or zero after its end. */
  function ByteOf(key: seq<byte>, i: nat): byte {
    if i < |key| then key[i] else 0
  }

  /** Four bytes of the key from i on. */
  function Word(key: seq<byte>, i: nat): word {
    Join(ByteOf(key, i), ByteOf(key, i + 1), ByteOf(key, i + 2), ByteOf(key, i + 3))
  }

  function Absorb(s: Abc, key: seq<byte>, i: nat): Abc {
    Abc(Plus(s.a, Word(key, i)), Plus(s.b, Word(key, i + 4)), Plus(s.c, Word(key, i + 8)))
  }

  /** Blocks of twelve bytes are mixed in, the last one, unless empty, is finished. */
  function Rounds(s: Abc, key: seq<byte>, i: nat): Abc
    decreases |key| - i
  {
    if |key| > i + 12 then Rounds(Mix(Absorb(s, key, i)), key, i + 12)
    else if |key| <= i then s
    else Final(Absorb(s, key, i))
  }

  function Start(length: nat, pc: word, pb: word): Abc {
    var a := Plus(Plus(0xdeadbeef, length % 0x1_0000_0000), pc);
    Abc(a, a, Plus(a, pb))
  }

  function Hash(key: seq<byte>, pc: word, pb: word): Abc {
    Rounds(Start(|key|, pc, pb), key, 0)
  }

  // ----- the path of 32-bit reads -----

  function Read32(mem: seq<byte>, i: nat): word
    requires i + 4 <= |mem|
  {
    Join(mem[i], mem[i + 1], mem[i + 2], mem[i + 3])
  }

  /** A read at i, masked to the bytes of the key in it. */
  lemma ReadWord(mem: seq<byte>, length: nat, i: nat)
    requires i + 4 <= |mem| && length <= |mem|
    ensures i + 4 <= length ==> Read32(mem, i) == Word(mem[..length], i)
    ensures i + 3 == length ==> Low24(Read32(mem, i)) == Word(mem[..length], i)
    ensures i + 2 == length ==> LowHalf(Read32(mem, i)) == Word(mem[..length], i)
    ensures i + 1 == length ==> LowByte(Read32(mem, i)) == Word(mem[..length], i)
  {
    hide Join, Low24, LowHalf, LowByte;
    JoinMasked(mem[i], mem[i + 1], mem[i + 2], mem[i + 3]);
  }

  lemma WordPastEnd(key: seq<byte>, i: nat, v: word)
    requires |key| <= i
    ensures Plus(v, Word(key, i)) == v
  {
    hide Join, Plus;
    PlusNothing(v, ByteOf(key, i));
  }

  /** The last block of the 32-bit path. */
  method LastByWords(mem: seq<byte>, length: nat, k: nat, s: Abc) returns (r: Abc)
    requires k < length <= k + 12 && (length + 3) / 4 * 4 <= |mem| && k % 4 == 0
    ensures r == Absorb(s, mem[..length], k)
  {
    hide Read32, Word, Plus, Low24, LowHalf, LowByte;
    var a, b, c := s.a, s.b, s.c;
    ghost var key := mem[..length];
    var n := length - k;
    ReadWord(mem, length, k);
    if 4 < n { ReadWord(mem, length, k + 4); } else { WordPastEnd(key, k + 4, b); }
    if 8 < n { ReadWord(mem, length, k + 8); } else { WordPastEnd(key, k + 8, c); }
    if n == 12 {
      c := Plus(c, Read32(mem, k + 8));
      b := Plus(b, Read32(mem, k + 4));
      a := Plus(a, Read32(mem, k));
    } else if n == 11 {
      c := Plus(c, Low24(Read32(mem, k + 8)));
      b := Plus(b, Read32(mem, k + 4));
      a := Plus(a, Read32(mem, k));
    } else if n == 10 {
      c := Plus(c, LowHalf(Read32(mem, k + 8)));
      b := Plus(b, Read32(mem, k + 4));
      a := Plus(a, Read32(mem, k));
    } else if n == 9 {
      c := Plus(c, LowByte(Read32(mem, k + 8)));
      b := Plus(b, Read32(mem, k + 4));
      a := Plus(a, Read32(mem, k));
    } else if n == 8 {
      b := Plus(b, Read32(mem, k + 4));
      a := Plus(a, Read32(mem, k));
    } else if n == 7 {
      b := Plus(b, Low24(Read32(mem, k + 4)));
      a := Plus(a, Read32(mem, k));
    } else if n == 6 {
      b := Plus(b, LowHalf(Read32(mem, k + 4)));
      a := Plus(a, Read32(mem, k));
    } else if n == 5 {
      b := Plus(b, LowByte(Read32(mem, k + 4)));
      a := Plus(a, Read32(mem, k));
    } else if n == 4 {
      a := Plus(a, Read32(mem, k));
    } else if n == 3 {
      a := Plus(a, Low24(Read32(mem, k)));
    } else if n == 2 {
      a := Plus(a, LowHalf(Read32(mem, k)));
    } else {
      a := Plus(a, LowByte(Read32(mem, k)));
    }
    r := Abc(a, b, c);
  }

  /** A key aligned to four bytes, followed by any bytes up to the end of its last word: they do not
      reach the hash. */
  method HashByWords(mem: seq<byte>, length: nat, pc: word, pb: word) returns (pc': word, pb': word)
    requires (length + 3) / 4 * 4 <= |mem|
    ensures pc' == Hash(mem[..length], pc, pb).c && pb' == Hash(mem[..length], pc, pb).b
  {
    hide Mix, Final, Read32, Word, Plus, Start;
    ghost var key := mem[..length];
    var s := Start(length, pc, pb);
    var left, k := length, 0;
    while left > 12
      invariant 0 <= left && k + left == length && k % 4 == 0 && (0 < k ==> 0 < left)
      invariant Rounds(s, key, k) == Hash(key, pc, pb)
    {
      ReadWord(mem, length, k);
      ReadWord(mem, length, k + 4);
      ReadWord(mem, length, k + 8);
      s := Mix(Abc(Plus(s.a, Read32(mem, k)), Plus(s.b, Read32(mem, k + 4)), Plus(s.c, Read32(mem, k + 8))));
      left := left - 12;
      k := k + 12;
    }
    if left == 0 { return s.c, s.b; }
    s := LastByWords(mem, length, k, s);
    s := Final(s);
    return s.c, s.b;
  }

  // ----- the path of 16-bit reads -----

  /** A 16-bit read, widened to 32 bits. */
  function Read16(mem: seq<byte>, i: nat): (r: word)
    requires i + 2 <= |mem|
    ensures r < 0x1_0000
  {
    Join(mem[i], mem[i + 1], 0, 0)
  }

  function TwoHalves(mem: seq<byte>, i: nat): word
    requires i + 4 <= |mem|
  {
    Plus(Read16(mem, i), UpHalf(Read16(mem, i + 2)))
  }

  lemma ReadHalves(mem: seq<byte>, length: nat, i: nat)
    requires i + 4 <= length <= |mem|
    ensures TwoHalves(mem, i) == Word(mem[..length], i)
  {
    hide Join, Plus, UpHalf;
    JoinHalves(mem[i], mem[i + 1], mem[i + 2], mem[i + 3]);
  }

  /** A word with one, two or three bytes of the key. */
  lemma PartialHalves(mem: seq<byte>, length: nat, i: nat, v: word)
    requires i < length <= |mem|
    ensures i + 3 == length ==> Plus(Plus(v, Up16(mem[i + 2])), Read16(mem, i)) == Plus(v, Word(mem[..length], i))
    ensures i + 2 == length ==> Read16(mem, i) == Word(mem[..length], i)
    ensures i + 1 == length ==> mem[i] == Word(mem[..length], i)
  {
    hide Join, Plus, UpHalf, Up16;
    if i + 3 == length { ThirdByteFirst(v, mem[i], mem[i + 1], mem[i + 2]); }
    JoinHalves(mem[i], 0, 0, 0);
  }

  method LastByHalves(mem: seq<byte>, length: nat, k: nat, s: Abc) returns (r: Abc)
    requires k < length <= k + 12 && length <= |mem|
    ensures r == Absorb(s, mem[..length], k)
  {
    hide Read16, Word, Plus, UpHalf, Up16, TwoHalves;
    var a, b, c := s.a, s.b, s.c;
    ghost var key := mem[..length];
    var n := length - k;
    if 4 <= n { ReadHalves(mem, length, k); } else { PartialHalves(mem, length, k, a); }
    if 8 <= n { ReadHalves(mem, length, k + 4); }
    else if 4 < n { PartialHalves(mem, length, k + 4, b); }
    else { WordPastEnd(key, k + 4, b); }
    if 12 <= n { ReadHalves(mem, length, k + 8); }
    else if 8 < n { PartialHalves(mem, length, k + 8, c); }
    else { WordPastEnd(key, k + 8, c); }
    if n == 12 {
      c := Plus(c, TwoHalves(mem, k + 8));
      b := Plus(b, TwoHalves(mem, k + 4));
      a := Plus(a, TwoHalves(mem, k));
    } else if n == 11 || n == 10 {
      if n == 11 { c := Plus(c, Up16(mem[k + 10])); }
      c := Plus(c, Read16(mem, k + 8));
      b := Plus(b, TwoHalves(mem, k + 4));
      a := Plus(a, TwoHalves(mem, k));
    } else if n == 9 || n == 8 {
      if n == 9 { c := Plus(c, mem[k + 8]); }
      b := Plus(b, TwoHalves(mem, k + 4));
      a := Plus(a, TwoHalves(mem, k));
    } else if n == 7 || n == 6 {
      if n == 7 { b := Plus(b, Up16(mem[k + 6])); }
      b := Plus(b, Read16(mem, k + 4));
      a := Plus(a, TwoHalves(mem, k));
    } else if n == 5 || n == 4 {
      if n == 5 { b := Plus(b, mem[k + 4]); }
      a := Plus(a, TwoHalves(mem, k));
    } else if n == 3 || n == 2 {
      if n == 3 { a := Plus(a, Up16(mem[k + 2])); }
      a := Plus(a, Read16(mem, k));
    } else {
      a := Plus(a, mem[k]);
    }
    r := Abc(a, b, c);
  }

  /** A key aligned to two bytes. */
  method HashByHalves(mem: seq<byte>, length: nat, pc: word, pb: word) returns (pc': word, pb': word)
    requires length <= |mem|
    ensures pc' == Hash(mem[..length], pc, pb).c && pb' == Hash(mem[..length], pc, pb).b
  {
    hide Mix, Final, TwoHalves, Word, Plus, Start;
    ghost var key := mem[..length];
    var s := Start(length, pc, pb);
    var left, k := length, 0;
    while left > 12
      invariant 0 <= left && k + left == length && (0 < k ==> 0 < left)
      invariant Rounds(s, key, k) == Hash(key, pc, pb)
    {
      ReadHalves(mem, length, k);
      ReadHalves(mem, length, k + 4);
      ReadHalves(mem, length, k + 8);
      s := Mix(Abc(Plus(s.a, TwoHalves(mem, k)), Plus(s.b, TwoHalves(mem, k + 4)), Plus(s.c, TwoHalves(mem, k + 8))));
      left := left - 12;
      k := k + 12;
    }
    if left == 0 { return s.c, s.b; }
    s := LastByHalves(mem, length, k, s);
    s := Final(s);
    return s.c, s.b;
  }

  // ----- the byte-wise path -----

  lemma AddWord(v: word, key: seq<byte>, i: nat)
    ensures Plus(Plus(Plus(Plus(v, ByteOf(key, i)), Up8(ByteOf(key, i + 1))), Up16(ByteOf(key, i + 2))),
                 Up24(ByteOf(key, i + 3))) == Plus(v, Word(key, i))
    ensures Plus(Plus(Plus(Plus(v, Up24(ByteOf(key, i + 3))), Up16(ByteOf(key, i + 2))), Up8(ByteOf(key, i + 1))),
                 ByteOf(key, i)) == Plus(v, Word(key, i))
  {
    hide Plus, Up8, Up16, Up24, Join, ByteOf;
    AddBytes(v, ByteOf(key, i), ByteOf(key, i + 1), ByteOf(key, i + 2), ByteOf(key, i + 3));
  }

  method AddFour(v: word, key: seq<byte>, i: nat) returns (r: word)
    requires i + 4 <= |key|
    ensures r == Plus(v, Word(key, i))
  {
    hide Plus, Up8, Up16, Up24, Word;
    AddWord(v, key, i);
    r := Plus(v, key[i]);
    r := Plus(r, Up8(key[i + 1]));
    r := Plus(r, Up16(key[i + 2]));
    r := Plus(r, Up24(key[i + 3]));
  }

  /** One word of the last block; the cases fall through from the highest byte down. */
  method AddTail(v: word, key: seq<byte>, i: nat) returns (r: word)
    ensures r == Plus(v, Word(key, i))
  {
    hide Plus, Up8, Up16, Up24, Word;
    AddWord(v, key, i);
    r := v;
    ZeroByte(r);
    if i + 3 < |key| { r := Plus(r, Up24(key[i + 3])); }
    ZeroByte(r);
    if i + 2 < |key| { r := Plus(r, Up16(key[i + 2])); }
    ZeroByte(r);
    if i + 1 < |key| { r := Plus(r, Up8(key[i + 1])); }
    ZeroByte(r);
    if i < |key| { r := Plus(r, key[i]); }
  }

  /** The path for keys at odd addresses. */
  method HashByBytes(key: seq<byte>, pc: word, pb: word) returns (pc': word, pb': word)
    ensures pc' == Hash(key, pc, pb).c && pb' == Hash(key, pc, pb).b
  {
    hide Mix, Final, Word, Plus, Start;
    var s := Start(|key|, pc, pb);
    var left, k := |key|, 0;
    while left > 12
      invariant 0 <= left && k + left == |key| && (0 < k ==> 0 < left)
      invariant Rounds(s, key, k) == Hash(key, pc, pb)
    {
      var a := AddFour(s.a, key, k);
      var b := AddFour(s.b, key, k + 4);
      var c := AddFour(s.c, key, k + 8);
      s := Mix(Abc(a, b, c));
      left := left - 12;
      k := k + 12;
    }
    if left == 0 { return s.c, s.b; }
    var c := AddTail(s.c, key, k + 8);
    var b := AddTail(s.b, key, k + 4);
    var a := AddTail(s.a, key, k);
    s := Final(Abc(a, b, c));
    return s.c, s.b;
  }

  /** hashlittle2: the path depends on the address of the key, the result does not. */
  method HashLittle2(mem: seq<byte>, address: nat, length: nat, pc: word, pb: word) returns (pc': word, pb': word)
    requires (length + 3) / 4 * 4 <= |mem|
    ensures pc' == Hash(mem[..length], pc, pb).c && pb' == Hash(mem[..length], pc, pb).b
  {
    hide Hash;
    if address % 4 == 0 {
      pc', pb' := HashByWords(mem, length, pc, pb);
    } else if address % 2 == 0 {
      pc', pb' := HashByHalves(mem, length, pc, pb);
    } else {
      pc', pb' := HashByBytes(mem[..length], pc, pb);
    }
  }
}
