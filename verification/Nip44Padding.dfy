/**
 * The padding scheme of crypto-core/src/nip44.rs: a length prefix in one of two forms, the
 * plaintext, and zero bytes up to a size that reveals little of the length.
 */
module Nip44Padding {
  import opened Arithmetic

  const EXTENDED_PREFIX_THRESHOLD: nat := 65_536
  const PREFIX_LEN_SMALL: nat := 2
  const PREFIX_LEN_EXTENDED: nat := 6
  const U32_SIZE: nat := 0x1_0000_0000

  // ---------------------------------------------------------------------------------------------
  // Padded sizes
  // ---------------------------------------------------------------------------------------------

  function Pow2(k: nat): (r: nat)
    ensures r >= 1
  {
    if k == 0 then 1 else 2 * Pow2(k - 1)
  }

  /** The position of the highest set bit. */
  function Log2RoundDown(n: nat): (k: nat)
    requires n > 0
    ensures Pow2(k) <= n < 2 * Pow2(k)
  {
    if n == 1 then 0 else 1 + Log2RoundDown(n / 2)
  }

  /**
   * The least positive multiple of `chunk` that holds `n`; `RoundUpFormula` shows it to be the
   * product `chunk * ((n - 1) / chunk + 1)` of the program.
   */
  function RoundUp(n: nat, chunk: nat): nat
    requires chunk > 0
    decreases n
  {
    if n <= chunk then chunk else chunk + RoundUp(n - chunk, chunk)
  }

  function CalcPadding(len: nat): nat {
    if len <= 32 then 32
    else
      var nextPower := NextPower(len);
      RoundUp(len, if nextPower <= 256 then 32 else nextPower / 8)
  }

  function NextPower(len: nat): nat
    requires len > 1
  {
    Pow2(Log2RoundDown(len - 1) + 1)
  }

  lemma {:induction false} Pow2Apart(a: nat, b: nat)
    requires a < b
    ensures 2 * Pow2(a) <= Pow2(b)
    decreases b
  {
    if a < b - 1 {
      Pow2Apart(a, b - 1);
    }
  }

  lemma {:induction false} Pow2Multiple(k: nat, j: nat) returns (q: nat)
    requires j <= k
    ensures Pow2(k) == q * Pow2(j) && q == Pow2(k - j)
    decreases k
  {
    if j == k {
      q := 1;
    } else {
      q := Pow2Multiple(k - 1, j);
      q := 2 * q;
    }
  }

  lemma Log2Unique(n: nat, k: nat)
    requires n > 0 && Pow2(k) <= n < 2 * Pow2(k)
    ensures Log2RoundDown(n) == k
  {
    var j := Log2RoundDown(n);
    if j < k {
      Pow2Apart(j, k);
    }
    if k < j {
      Pow2Apart(k, j);
    }
  }

  lemma RoundUpFormula(n: nat, chunk: nat)
    requires n > 0 && chunk > 0
    ensures RoundUp(n, chunk) == chunk * ((n - 1) / chunk + 1)
  {
    var q := (n - 1) / chunk;
    assert n - 1 == chunk * q + (n - 1) % chunk;
    RoundUpWithin(n, chunk, q);
    MulNext(chunk, q);
  }

  lemma {:induction false} RoundUpWithin(n: nat, chunk: nat, q: nat)
    requires chunk > 0 && chunk * q < n <= chunk * q + chunk
    ensures RoundUp(n, chunk) == chunk * q + chunk
  {
    if q > 0 {
      MulNext(chunk, q - 1);
      RoundUpWithin(n - chunk, chunk, q - 1);
    }
  }

  lemma {:induction false} RoundUpBounds(n: nat, chunk: nat)
    requires n > 0 && chunk > 0
    ensures n <= RoundUp(n, chunk) < n + chunk
    decreases n
  {
    if n > chunk {
      RoundUpBounds(n - chunk, chunk);
    }
  }

  lemma {:induction false} RoundUpMultipleOf32(n: nat, chunk: nat)
    requires chunk > 0 && chunk % 32 == 0
    ensures RoundUp(n, chunk) % 32 == 0
    decreases n
  {
    if n > chunk {
      RoundUpMultipleOf32(n - chunk, chunk);
    }
  }

  lemma {:induction false} RoundUpMonotone(a: nat, b: nat, chunk: nat)
    requires 0 < a <= b && chunk > 0
    ensures RoundUp(a, chunk) <= RoundUp(b, chunk)
    decreases a
  {
    if b > chunk {
      RoundUpBounds(b - chunk, chunk);
    }
    if a > chunk {
      RoundUpMonotone(a - chunk, b - chunk, chunk);
    }
  }

  lemma {:induction false} RoundUpAgain(n: nat, chunk: nat)
    requires n > 0 && chunk > 0
    ensures RoundUp(RoundUp(n, chunk), chunk) == RoundUp(n, chunk)
    decreases n
  {
    if n > chunk {
      RoundUpAgain(n - chunk, chunk);
      RoundUpBounds(n - chunk, chunk);
    }
  }

  // ---------------------------------------------------------------------------------------------
  // What is known of a padded size
  // ---------------------------------------------------------------------------------------------

  function Chunk(len: nat): nat
    requires len > 1
  {
    if NextPower(len) <= 256 then 32 else NextPower(len) / 8
  }

  lemma ChunkShape(len: nat)
    requires len > 32
    ensures Chunk(len) > 0 && Chunk(len) % 32 == 0
    ensures RoundUp(NextPower(len), Chunk(len)) == NextPower(len)
    ensures len <= NextPower(len) < 2 * len
    ensures len <= 256 ==> Chunk(len) == 32
    ensures len > 256 ==> 4 * Chunk(len) < len
  {
    var k := Log2RoundDown(len - 1);
    assert Pow2(3) == 8 && Pow2(5) == 32 && Pow2(7) == 128 && Pow2(8) == 256;
    if k < 5 {
      Pow2Apart(k, 5);
    }
    if 7 < k {
      Pow2Apart(7, k);
      var c := Pow2Multiple(k - 2, 5);
      var d := Pow2Multiple(k + 1, 3);
      EightTimes(Chunk(len));
    } else {
      SmallPowers(k);
    }
  }

  lemma SmallPowers(k: nat)
    requires 5 <= k <= 7
    ensures Pow2(k + 1) <= 256 && RoundUp(Pow2(k + 1), 32) == Pow2(k + 1)
  {
    assert Pow2(3) == 8 && Pow2(6) == 64 && Pow2(7) == 128 && Pow2(8) == 256;
    assert RoundUp(64, 32) == 64;
    assert RoundUp(128, 32) == 32 + 32 + RoundUp(64, 32);
    assert RoundUp(256, 32) == 32 + 32 + 32 + 32 + RoundUp(128, 32);
  }

  lemma EightTimes(chunk: nat)
    requires chunk > 0
    ensures RoundUp(8 * chunk, chunk) == 8 * chunk
  {
    assert RoundUp(2 * chunk, chunk) == 2 * chunk;
    assert RoundUp(4 * chunk, chunk) == 2 * chunk + RoundUp(2 * chunk, chunk);
    assert RoundUp(6 * chunk, chunk) == 2 * chunk + RoundUp(4 * chunk, chunk);
  }

  /** The padded size holds the plaintext, is a multiple of 32, and never wastes much. */
  lemma PaddingBounds(len: nat)
    requires len > 0
    ensures CalcPadding(len) >= len && CalcPadding(len) >= 32 && CalcPadding(len) % 32 == 0
    ensures len <= 256 ==> CalcPadding(len) - len < 32
    ensures len > 256 ==> 4 * (CalcPadding(len) - len) < len
  {
    if len > 32 {
      hide Log2RoundDown, Pow2;
      ChunkShape(len);
      RoundUpBounds(len, Chunk(len));
      RoundUpMultipleOf32(len, Chunk(len));
    }
  }

  /**
   * The steps of the padding: 32 bytes up to a length of 256, and an eighth of the next power of
   * two beyond; the padded size is the least multiple of the step that holds the length.
   */
  lemma PaddingSteps(len: nat, k: nat)
    ensures len <= 32 ==> CalcPadding(len) == 32
    ensures 32 < len <= 256 ==> CalcPadding(len) % 32 == 0 && len <= CalcPadding(len) < len + 32
    ensures 256 <= Pow2(k) < len <= 2 * Pow2(k) ==>
      CalcPadding(len) % (Pow2(k) / 4) == 0 && len <= CalcPadding(len) < len + Pow2(k) / 4
  {
    if 32 < len <= 256 {
      PaddingBounds(len);
    }
    if 256 <= Pow2(k) < len <= 2 * Pow2(k) {
      hide CalcPadding, Pow2, RoundUp;
      StepBeyond256(len, k, Pow2(k));
      RoundUpBounds(len, Pow2(k) / 4);
      RoundUpIsMultiple(len, Pow2(k) / 4);
    }
  }

  lemma StepBeyond256(len: nat, k: nat, power: nat)
    requires power == Pow2(k) && 256 <= power < len <= 2 * power
    ensures CalcPadding(len) == RoundUp(len, power / 4)
  {
    hide RoundUp, Log2RoundDown;
    Log2Unique(len - 1, k);
    assert NextPower(len) == 2 * power;
    hide Pow2;
    assert 2 * power / 8 == power / 4;
  }

  lemma {:induction false} RoundUpIsMultiple(n: nat, chunk: nat)
    requires chunk > 0
    ensures RoundUp(n, chunk) % chunk == 0
    decreases n
  {
    if n > chunk {
      RoundUpIsMultiple(n - chunk, chunk);
      DivStep(RoundUp(n - chunk, chunk), chunk);
      var q := RoundUp(n - chunk, chunk) / chunk;
      assert RoundUp(n - chunk, chunk) == chunk * q;
      MulNext(chunk, q);
      MultipleHasNoRest(chunk, q + 1);
    } else {
      MultipleHasNoRest(chunk, 1);
    }
  }

  lemma MultipleHasNoRest(chunk: nat, q: nat)
    requires chunk > 0
    ensures (chunk * q) % chunk == 0
  {
    DivUnique(chunk * q, chunk, q, 0);
  }

  /** Sizes at and around the places where the step changes. */
  lemma PaddingExamples()
    ensures CalcPadding(1) == 32 && CalcPadding(33) == 64 && CalcPadding(256) == 256
    ensures CalcPadding(257) == 320 && CalcPadding(513) == 640 && CalcPadding(900) == 1024
  {
    PowersOf256();
    hide CalcPadding, Pow2;
    PaddingSteps(1, 0);
    PaddingSteps(33, 0);
    PaddingSteps(256, 0);
    PaddingSteps(257, 8);
    PaddingSteps(513, 9);
    PaddingSteps(900, 9);
  }

  lemma PowersOf256()
    ensures Pow2(8) == 256 && Pow2(9) == 512
  {
  }

  /** A padded size never passes the power of two above the length, so it keeps its chunk. */
  lemma PaddingBelowPower(len: nat)
    requires len > 32
    ensures len <= CalcPadding(len) <= NextPower(len) && NextPower(CalcPadding(len)) == NextPower(len)
  {
    hide Log2RoundDown, RoundUp;
    ChunkShape(len);
    RoundUpBounds(len, Chunk(len));
    RoundUpMonotone(len, NextPower(len), Chunk(len));
    Log2Unique(CalcPadding(len) - 1, Log2RoundDown(len - 1));
  }

  /** Padding an already padded size changes nothing. */
  lemma PaddingIsIdempotent(len: nat)
    requires len > 0
    ensures CalcPadding(CalcPadding(len)) == CalcPadding(len)
  {
    if len > 32 {
      PaddingBelowPower(len);
      ChunkShape(len);
      RoundUpAgain(len, Chunk(len));
    }
  }

  lemma PaddingIsMonotone(a: nat, b: nat)
    requires 0 < a <= b
    ensures CalcPadding(a) <= CalcPadding(b)
  {
    PaddingBounds(b);
    if a > 32 {
      if NextPower(a) == NextPower(b) {
        ChunkShape(a);
        RoundUpMonotone(a, b, Chunk(a));
      } else {
        PowersApart(a, b);
        PaddingBelowPower(a);
      }
    }
  }

  lemma PowersApart(a: nat, b: nat)
    requires 1 < a <= b && NextPower(a) != NextPower(b)
    ensures NextPower(a) < b
  {
    var k, l := Log2RoundDown(a - 1), Log2RoundDown(b - 1);
    if l < k {
      Pow2Apart(l, k);
    }
    if k < l {
      Pow2Apart(k, l);
    }
  }
}
