/**
  `elf_hash` of libdl/dl.c: the System V hash of a symbol name, with the C
  operators on 32-bit words, and its value in arithmetic.
 */
module DlHash {
  import opened Base
  import opened Bits

  /** 2 to the 28. */
  const TOP: nat := 0x1000_0000

  /** `(h << 4) + c` on 32-bit words. */
  function ShiftIn(h: word, c: byte): word {
    ((h * 16) % UINT32_RANGE + c) % UINT32_RANGE
  }

  /** The word below bit 28, with what is above xored into bits 4 to 7. */
  function Fold(t: word): (r: nat)
    ensures r < TOP
  {
    FoldBound(t);
    Xor(t % TOP, 16 * (t / TOP))
  }

  function HashOf(name: seq<byte>): (h: nat)
    ensures h < TOP
  {
    if |name| == 0 then 0 else Fold(ShiftIn(HashOf(name[..|name| - 1]), name[|name| - 1]))
  }

  // ----- folding in arithmetic

  lemma {:induction false} PowSum(a: nat, b: nat)
    ensures Pow2(a + b) == Pow2(a) * Pow2(b)
  {
    if a > 0 {
      PowSum(a - 1, b);
      assert Pow2(a) * Pow2(b) == 2 * (Pow2(a - 1) * Pow2(b));
    }
  }

  lemma {:induction false} Powers()
    ensures Pow2(4) == 16 && Pow2(8) == 256 && Pow2(28) == TOP
  {
    assert Pow2(2) == 4;
    PowSum(2, 2);
    PowSum(4, 4);
    PowSum(8, 8);
    PowSum(8, 4);
    PowSum(16, 12);
  }

  /** The top four bits of a word. */
  lemma {:induction false} TopBits(low: nat, n: nat)
    requires low < TOP && n < 16
    ensures And(Glue(low, n, 28), 0xf000_0000) == n * TOP
  {
    Powers();
    assert 0xf000_0000 == Glue(0, 15, 28);
    AndParts(low, n, 0, 15, 28);
    AndZero(low);
    AndOnes(n, 4);
  }

  /** A word without the bits it is folded by. */
  lemma {:induction false} ClearTop(low: nat, n: nat)
    requires low < TOP && n < 16
    ensures And(Glue(low, n, 28), UINT32_RANGE - 1 - n * TOP) == low
  {
    Powers();
    assert UINT32_RANGE - 1 - n * TOP == Glue(TOP - 1, 15 - n, 28);
    AndParts(low, n, TOP - 1, 15 - n, 28);
    AndOnes(low, 28);
    AndComplement(n, 4);
  }

  lemma {:induction false} FoldBound(t: word)
    ensures Xor(t % TOP, 16 * (t / TOP)) < TOP
  {
    Powers();
    XorBound(t % TOP, 16 * (t / TOP), 28);
  }

  /** The two parts of a word that is xored with its top four bits brought down. */
  lemma {:induction false} XorDown(low: nat, n: nat)
    requires low < TOP && n < 16
    ensures Xor(low, 16 * n) < TOP && Xor(Glue(low, n, 28), 16 * n) == Glue(Xor(low, 16 * n), n, 28)
  {
    Powers();
    assert 16 * n == Glue(16 * n, 0, 28);
    XorParts(low, n, 16 * n, 0, 28);
    XorZero(n);
    XorBound(low, 16 * n, 28);
  }

  lemma {:induction false} InParts(t: word)
    ensures t % TOP < TOP && t / TOP < 16 && t == Glue(t % TOP, t / TOP, 28)
  {
    Powers();
  }

  lemma {:induction false} Down(n: nat)
    requires n < 16
    ensures (n * TOP) / 0x100_0000 == 16 * n
  {
  }

  lemma {:induction false} FoldNothing(t: word)
    requires t < TOP
    ensures Fold(t) == t
  {
    SmallParts(t);
    FoldOf(t, t, 0);
    XorZero(t);
  }

  lemma {:induction false} SmallParts(t: nat)
    requires t < TOP
    ensures t % TOP == t && t / TOP == 0
  {
  }

  lemma {:induction false} FoldOf(t: word, low: nat, n: nat)
    requires t % TOP == low && t / TOP == n
    ensures Fold(t) == Xor(low, 16 * n)
  {
  }

  // ----- the value of a hash

  /** Shifting in is 16 * h + c modulo 2^32. */
  lemma {:induction false} ShiftValue(h: word, c: byte)
    ensures ShiftIn(h, c) == (16 * h + c) % UINT32_RANGE
  {
  }

  lemma {:induction false} HashSnoc(name: seq<byte>, c: byte)
    ensures HashOf(name + [c]) == Fold(ShiftIn(HashOf(name), c))
  {
    assert (name + [c])[..|name|] == name;
  }

  /** One more character: with t = 16 * h + c modulo 2^32, t modulo 2^28 with t / 2^28 xored into bits 4 to 7. */
  lemma {:induction false} HashValue(name: seq<byte>, c: byte)
    ensures var t := (16 * HashOf(name) + c) % UINT32_RANGE;
            HashOf(name + [c]) == Xor(t % TOP, 16 * (t / TOP))
  {
    HashSnoc(name, c);
    ShiftValue(HashOf(name), c);
  }

  function Pow16(k: nat): nat {
    if k == 0 then 1 else 16 * Pow16(k - 1)
  }

  /** The characters as digits of a number in base 16, the first the most significant. */
  function Digits(name: seq<byte>): nat {
    if |name| == 0 then 0 else name[0] * Pow16(|name| - 1) + Digits(name[1..])
  }

  lemma {:induction false} DigitsSnoc(name: seq<byte>, c: byte)
    ensures Digits(name + [c]) == 16 * Digits(name) + c
  {
    if |name| > 0 {
      var n := name + [c];
      DigitsSnoc(name[1..], c);
      assert n[1..] == name[1..] + [c] && n[0] == name[0];
      assert n[0] * Pow16(|name|) == 16 * (name[0] * Pow16(|name| - 1));
    }
  }

  predicate Ascii(name: seq<byte>) {
    forall i :: 0 <= i < |name| ==> name[i] < 0x80
  }

  lemma {:induction false} DigitsBound(name: seq<byte>)
    requires Ascii(name)
    ensures 15 * Digits(name) <= 127 * (Pow16(|name|) - 1)
  {
    if |name| > 0 {
      DigitsBound(name[1..]);
      var p := Pow16(|name| - 1);
      assert name[0] * p <= 127 * p by {
        assert (127 - name[0]) * p >= 0;
        assert (127 - name[0]) * p == 127 * p - name[0] * p;
      }
    }
  }

  lemma {:induction false} SixDigits(k: nat)
    requires k <= 6
    ensures 127 * (Pow16(k) - 1) < 15 * TOP
  {
    assert Pow16(2) == 0x100;
    assert Pow16(4) == 0x1_0000;
    assert Pow16(6) == 0x100_0000;
    assert k == 0 || k == 1 || k == 2 || k == 3 || k == 4 || k == 5 || k == 6;
  }

  /** An ASCII name of at most six characters hashes to its digits. */
  lemma {:induction false} ShortHash(name: seq<byte>)
    requires Ascii(name) && |name| <= 6
    ensures HashOf(name) == Digits(name)
  {
    if |name| > 0 {
      var front, c := name[..|name| - 1], name[|name| - 1];
      assert name == front + [c];
      ShortHash(front);
      DigitsSnoc(front, c);
      DigitsBound(name);
      SixDigits(|name|);
      HashSnoc(front, c);
      ShiftSmall(HashOf(front), c);
    }
  }

  lemma {:induction false} ShiftSmall(h: nat, c: byte)
    requires 16 * h + c < TOP
    ensures Fold(ShiftIn(h, c)) == 16 * h + c
  {
    ShiftNoWrap(h, c);
    FoldNothing(16 * h + c);
  }

  /** "printf", and one character more than six: "syscall" folds a 7 into bits 4 to 7. */
  lemma {:induction false} KnownHashes(printf: seq<byte>, syscall: seq<byte>)
    requires printf == [0x70, 0x72, 0x69, 0x6e, 0x74, 0x66]
    requires syscall == [0x73, 0x79, 0x73, 0x63, 0x61, 0x6c] + [0x6c]
    ensures HashOf(printf) == 0x0779_05a6 && HashOf(syscall) == 0x0b09_985c
  {
    ShortHash(printf);
    SixFromTheFront(printf, 0x70, 0x72, 0x69, 0x6e, 0x74, 0x66);
    var syscal := syscall[..6];
    ShortHash(syscal);
    SixFromTheFront(syscal, 0x73, 0x79, 0x73, 0x63, 0x61, 0x6c);
    XorSyscall();
    NextHash(syscal, 0x6c, 0x07b0_997c, 0x0b09_982c, 7);
    assert syscal + [0x6c] == syscall;
  }

  lemma {:induction false} NextHash(name: seq<byte>, c: byte, h: nat, low: nat, n: nat)
    requires HashOf(name) == h && 16 * h + c == low + n * TOP && low < TOP && n < 16
    ensures HashOf(name + [c]) == Xor(low, 16 * n)
  {
    HashSnoc(name, c);
    PartsOf(low, n);
    ShiftNoWrap(h, c);
    FoldOf(16 * h + c, low, n);
  }

  lemma {:induction false} PartsOf(low: nat, n: nat)
    requires low < TOP && n < 16
    ensures low + n * TOP < UINT32_RANGE && (low + n * TOP) % TOP == low && (low + n * TOP) / TOP == n
  {
  }

  lemma {:induction false} ShiftNoWrap(h: nat, c: byte)
    requires 16 * h + c < UINT32_RANGE
    ensures ShiftIn(h, c) == 16 * h + c
  {
  }

  lemma {:induction false} SixFromTheFront(
      name: seq<byte>, a: byte, b: byte, c: byte, d: byte, e: byte, f: byte)
    requires name == [a, b, c, d, e, f]
    ensures Digits(name)
         == 0x10_0000 * a + 0x1_0000 * b + 0x1000 * c + 0x100 * d + 0x10 * e + f
  {
    ThreeFromTheFront(a, b, c);
    var abc: seq<byte> := [a, b, c];
    DigitsSnoc(abc, d);
    DigitsSnoc(abc + [d], e);
    DigitsSnoc(abc + [d] + [e], f);
    assert abc + [d] + [e] + [f] == name;
  }

  lemma {:induction false} ThreeFromTheFront(a: byte, b: byte, c: byte)
    ensures Digits([a, b, c]) == 0x100 * a + 0x10 * b + c
  {
    var none: seq<byte> := [];
    DigitsSnoc(none, a);
    DigitsSnoc(none + [a], b);
    DigitsSnoc(none + [a] + [b], c);
    assert none + [a] + [b] + [c] == [a, b, c];
  }

  lemma {:induction false} XorSyscall()
    ensures Xor(0x0b09_982c, 0x70) == 0x0b09_985c
  {
    Powers();
    XorParts(0x2c, 0x0b_0998, 0x70, 0, 8);
    XorZero(0x0b_0998);
    XorHalf(0x2c, 0x70);
    XorHalf(0x16, 0x38);
    XorHalf(0xb, 0x1c);
    XorHalf(5, 0xe);
    XorHalf(2, 7);
    XorHalf(1, 3);
    XorHalf(0, 1);
    XorZero(0);
    assert Xor(0x2c, 0x70) == 0x5c;
  }

  // ----- the loop

  /** `elf_hash`. */
  method ElfHash(name: seq<byte>) returns (h: word)
    ensures h == HashOf(name) < TOP
  {
    h := 0;
    for i := 0 to |name|
      invariant h == HashOf(name[..i])
    {
      assert name[..i + 1][..i] == name[..i];
      h := HashChar(h, name[i]);
    }
    assert name[..|name|] == name;
  }

  /** The loop body of `elf_hash`. */
  method HashChar(h: word, c: byte) returns (r: word)
    ensures r == Fold(ShiftIn(h, c))
  {
    var t := ((h * 16) % UINT32_RANGE + c) % UINT32_RANGE;
    r := FoldTop(t);
  }

  /** The top four bits, if any, are xored into bits 4 to 7 and then cleared. */
  method FoldTop(t: word) returns (r: word)
    ensures r == Fold(t)
  {
    CodeFolds(t);
    var g := And(t, 0xf000_0000);
    var h := t;
    if g != 0 {
      h := Xor(h, g / 0x100_0000);
    }
    r := And(h, UINT32_RANGE - 1 - g);
  }

  lemma {:induction false} CodeFolds(t: word)
    ensures var g := And(t, 0xf000_0000);
            var x := Xor(t, g / 0x100_0000);
            g < UINT32_RANGE && x < UINT32_RANGE && And(x, UINT32_RANGE - 1 - g) == Fold(t) && (g == 0 ==> x == t)
  {
    var low, n := t % TOP, t / TOP;
    InParts(t);
    TopBits(low, n);
    Down(n);
    XorDown(low, n);
    XorZero(t);
    Cleared(t, n, low);
  }

  lemma {:induction false} Cleared(t: word, n: nat, low: nat)
    requires low == t % TOP && n == t / TOP && Xor(low, 16 * n) < TOP
    ensures Glue(Xor(low, 16 * n), n, 28) < UINT32_RANGE
    ensures And(Glue(Xor(low, 16 * n), n, 28), UINT32_RANGE - 1 - n * TOP) == Fold(t)
  {
    Powers();
    ClearTop(Xor(low, 16 * n), n);
  }
}
