/**
 * A Rust `u32` as its 32 bits. Bit i (worth 2^i) is at index i, so the mode
 * constant 0o400 is bit 8 and 0o1 is bit 0. Setting and clearing take the
 * set of bit positions a constant has: `m |= c` is `SetBits(m, c)` and
 * `m &= !c` is `ClearBits(m, c)`.
 */
module Bits {
  import Numbers

  const WIDTH: nat := 32

  /** The 32 bits of a u32, least significant first. */
  type Word = b: seq<bool> | |b| == WIDTH witness seq(32, i => false)

  /** `m | c`, for the constant whose set bits are `positions`. */
  function SetBits(m: Word, positions: set<nat>): (r: Word)
    ensures forall i :: 0 <= i < WIDTH ==> r[i] == (m[i] || i in positions)
  {
    seq(WIDTH, i requires 0 <= i < WIDTH => m[i] || i in positions)
  }

  /** `m & !c`, for the constant whose set bits are `positions`. */
  function ClearBits(m: Word, positions: set<nat>): (r: Word)
    ensures forall i :: 0 <= i < WIDTH ==> r[i] == (m[i] && i !in positions)
  {
    seq(WIDTH, i requires 0 <= i < WIDTH => m[i] && i !in positions)
  }

  function Pow2(k: nat): (p: nat)
    ensures p >= 1
  {
    if k == 0 then 1 else 2 * Pow2(k - 1)
  }

  /** The number a bit string stands for, least significant bit first. */
  function Value(b: seq<bool>): nat
    decreases |b|
  {
    if |b| == 0 then 0 else (if b[0] then 1 else 0) + 2 * Value(b[1..])
  }

  /** The low `width` bits of `n`, least significant first. */
  function FromValue(n: nat, width: nat): (b: seq<bool>)
    ensures |b| == width
    decreases width
  {
    if width == 0 then [] else [n % 2 == 1] + FromValue(n / 2, width - 1)
  }

  /** A u32 value as a word. */
  function FromU32(n: Numbers.U32): Word {
    FromValue(n, WIDTH)
  }

  lemma {:induction false} ValueBound(b: seq<bool>)
    ensures Value(b) < Pow2(|b|)
    decreases |b|
  {
    if |b| > 0 {
      ValueBound(b[1..]);
    }
  }

  /** Taking the bits of a number that fits and reading them back gives the number. */
  lemma {:induction false} ValueOfFromValue(n: nat, width: nat)
    requires n < Pow2(width)
    ensures Value(FromValue(n, width)) == n
    decreases width
  {
    if width > 0 {
      var b := FromValue(n, width);
      assert b[1..] == FromValue(n / 2, width - 1);
      ValueOfFromValue(n / 2, width - 1);
    }
  }

  /** Reading a bit string as a number and taking its bits again gives the string. */
  lemma {:induction false} FromValueOfValue(b: seq<bool>)
    ensures FromValue(Value(b), |b|) == b
    decreases |b|
  {
    if |b| > 0 {
      var n := Value(b);
      assert n % 2 == 1 <==> b[0];
      assert n / 2 == Value(b[1..]);
      FromValueOfValue(b[1..]);
      assert b == [b[0]] + b[1..];
    }
  }

  lemma {:induction false} Pow2Add(a: nat, b: nat)
    ensures Pow2(a + b) == Pow2(a) * Pow2(b)
    decreases a
  {
    if a > 0 {
      Pow2Add(a - 1, b);
    }
  }

  lemma Pow2Width()
    ensures Pow2(WIDTH) == Numbers.U32_LIMIT
  {
    assert Pow2(4) == 16;
    Pow2Add(4, 4);
    Pow2Add(8, 8);
    Pow2Add(16, 16);
  }

  /** Every word is a u32, and the u32 of a word converts back to that word. */
  lemma WordValue(w: Word)
    ensures Value(w) < Numbers.U32_LIMIT
    ensures FromU32(Value(w)) == w
  {
    ValueBound(w);
    Pow2Width();
    FromValueOfValue(w);
  }

  /** The bits of a u32 read back as the same u32. */
  lemma U32Value(n: Numbers.U32)
    ensures Value(FromU32(n)) == n
  {
    Pow2Width();
    ValueOfFromValue(n, WIDTH);
  }
}
