/** Little-endian numbers in byte strings, and stretches of a byte string. */
module ByteOrder {

  type byte = x: int | 0 <= x < 256

  function Pow256(k: nat): (p: nat)
    ensures 1 <= p
  {
    if k == 0 then 1 else 256 * Pow256(k - 1)
  }

  /** The low k bytes of a number, lowest first. */
  function Little(value: nat, k: nat): (s: seq<byte>)
    ensures |s| == k
  {
    if k == 0 then [] else [value % 256] + Little(value / 256, k - 1)
  }

  function Value(s: seq<byte>): nat {
    if s == [] then 0 else s[0] + 256 * Value(s[1..])
  }

  lemma {:induction false} ValueOfLittle(value: nat, k: nat)
    requires value < Pow256(k)
    ensures Value(Little(value, k)) == value
  {
    if 0 < k {
      ValueOfLittle(value / 256, k - 1);
      assert Little(value, k)[1..] == Little(value / 256, k - 1);
    }
  }

  lemma {:induction false} ValueBound(s: seq<byte>)
    ensures Value(s) < Pow256(|s|)
  {
    if s != [] {
      ValueBound(s[1..]);
    }
  }

  lemma {:induction false} LittleOfValue(s: seq<byte>)
    ensures Little(Value(s), |s|) == s
  {
    if s != [] {
      LittleOfValue(s[1..]);
      assert Value(s) % 256 == s[0] && Value(s) / 256 == Value(s[1..]);
    }
  }

  // ----- stretches -----

  /** s stands in buf at position i. */
  ghost predicate At(buf: seq<byte>, i: int, s: seq<byte>) {
    0 <= i && i + |s| <= |buf| && buf[i..i + |s|] == s
  }

  lemma AtSplit(buf: seq<byte>, i: int, s: seq<byte>, t: seq<byte>)
    ensures At(buf, i, s + t) <==> At(buf, i, s) && At(buf, i + |s|, t)
  {
    if 0 <= i && i + |s| + |t| <= |buf| {
      var whole := buf[i..i + |s| + |t|];
      assert whole[..|s|] == buf[i..i + |s|] && whole[|s|..] == buf[i + |s|..i + |s| + |t|];
      assert whole == whole[..|s|] + whole[|s|..];
      assert (s + t)[..|s|] == s && (s + t)[|s|..] == t;
    }
  }

  // ----- writing -----

  /** now is was with the bytes from position i on overwritten by s. */
  ghost predicate Wrote(was: seq<byte>, now: seq<byte>, i: int, s: seq<byte>) {
    0 <= i && i + |s| <= |was| && now == was[..i] + s + was[i + |s|..]
  }

  lemma WroteMore(was: seq<byte>, mid: seq<byte>, now: seq<byte>, i: int, s: seq<byte>, t: seq<byte>)
    requires Wrote(was, mid, i, s) && Wrote(mid, now, i + |s|, t)
    ensures Wrote(was, now, i, s + t)
  {
    assert mid[..i + |s|] == was[..i] + s;
    assert mid[i + |s| + |t|..] == was[i + |s| + |t|..];
    assert was[..i] + s + t == was[..i] + (s + t);
  }

  lemma WroteNothing(was: seq<byte>, i: int)
    requires 0 <= i <= |was|
    ensures Wrote(was, was, i, [])
  {
    assert was == was[..i] + was[i..];
  }

  lemma WroteAt(was: seq<byte>, now: seq<byte>, i: int, s: seq<byte>)
    requires Wrote(was, now, i, s)
    ensures At(now, i, s) && |now| == |was|
  {
  }

  /** memcpy from a byte string. */
  method Copy(buf: array<byte>, at: nat, src: seq<byte>)
    requires at + |src| <= buf.Length
    modifies buf
    ensures Wrote(old(buf[..]), buf[..], at, src)
  {
    forall k | 0 <= k < |src| {
      buf[at + k] := src[k];
    }
  }
}
