/** The 32-bit table word: an output index, a target state and a validity bit joined by `|`. */
module PackedWord {

  function Pow2(k: nat): (p: nat)
    ensures p > 0
  {
    if k == 0 then 1 else 2 * Pow2(k - 1)
  }

  /** Python's `|` on non-negative integers of any size. */
  function BitOr(a: nat, b: nat): nat {
    if a == 0 && b == 0 then 0
    else (if a % 2 == 1 || b % 2 == 1 then 1 else 0) + 2 * BitOr(a / 2, b / 2)
  }

  const OUTPUT_FIELD := 0x1_0000
  const STATE_FIELD := 0x8000
  const VALID := 0x8000_0000
  const WORD := 0x1_0000_0000

  /** `output | (state << 16) | valid`, whatever the sizes of the operands. */
  function Pack(output: nat, state: nat, valid: bool): nat {
    BitOr(BitOr(output, state * OUTPUT_FIELD), if valid then VALID else 0)
  }

  function Output(word: nat): nat { word % OUTPUT_FIELD }

  function State(word: nat): nat { word / OUTPUT_FIELD % STATE_FIELD }

  predicate Valid(word: nat) { word / VALID % 2 == 1 }

  /** Bit `k` of `n`, bit 0 the lowest. */
  predicate Bit(n: nat, k: nat) {
    if k == 0 then n % 2 == 1 else Bit(n / 2, k - 1)
  }

  /** A bit is set where it is set in either operand. */
  lemma {:induction false} OrBits(a: nat, b: nat, k: nat)
    ensures Bit(BitOr(a, b), k) <==> Bit(a, k) || Bit(b, k)
    decreases k
  {
    var low := if a % 2 == 1 || b % 2 == 1 then 1 else 0;
    assert BitOr(a, b) == low + 2 * BitOr(a / 2, b / 2);
    assert BitOr(a, b) % 2 == low && BitOr(a, b) / 2 == BitOr(a / 2, b / 2);
    if k > 0 {
      OrBits(a / 2, b / 2, k - 1);
    }
  }

  lemma {:induction false} OrCommutes(a: nat, b: nat)
    ensures BitOr(a, b) == BitOr(b, a)
  {
    if a != 0 || b != 0 {
      OrCommutes(a / 2, b / 2);
    }
  }

  lemma {:induction false} OrZero(a: nat)
    ensures BitOr(a, 0) == a
  {
    if a > 0 {
      OrZero(a / 2);
    }
  }

  lemma {:induction false} OrZeroLeft(b: nat)
    ensures BitOr(0, b) == b
  {
    if b > 0 {
      OrZeroLeft(b / 2);
    }
  }

  /** Operands that share no bit position add up. */
  lemma {:induction false} OrDisjoint(low: nat, high: nat, k: nat)
    requires low < Pow2(k)
    ensures BitOr(low, high * Pow2(k)) == low + high * Pow2(k)
  {
    if k == 0 {
      OrZeroLeft(high);
    } else {
      var p := Pow2(k - 1);
      var shifted := high * p;
      assert high * Pow2(k) == 2 * shifted;
      OrDisjoint(low / 2, high, k - 1);
      if low == 0 && shifted == 0 {
      } else {
        assert (2 * shifted) / 2 == shifted && (2 * shifted) % 2 == 0;
      }
    }
  }

  lemma Powers()
    ensures Pow2(16) == OUTPUT_FIELD && Pow2(31) == VALID
  {
    assert Pow2(8) == 256;
    assert Pow2(12) == 4096;
    assert Pow2(16) == OUTPUT_FIELD;
    assert Pow2(20) == 0x10_0000;
    assert Pow2(24) == 0x100_0000;
    assert Pow2(28) == 0x1000_0000;
  }

  /** Indices that fit their fields come back out of the word, and the word fits 32 bits. */
  lemma PackUnpack(output: nat, state: nat, valid: bool)
    requires output < OUTPUT_FIELD && state < STATE_FIELD
    ensures Output(Pack(output, state, valid)) == output
    ensures State(Pack(output, state, valid)) == state
    ensures Valid(Pack(output, state, valid)) == valid
    ensures Pack(output, state, valid) < WORD
  {
    Powers();
    OrDisjoint(output, state, 16);
    var low := output + state * OUTPUT_FIELD;
    OrZero(low);
    OrDisjoint(low, 1, 31);
    assert Pack(output, state, valid) == low + if valid then VALID else 0;
    Unpack(output, state, if valid then 1 else 0);
  }

  lemma Unpack(output: nat, state: nat, valid: nat)
    requires output < OUTPUT_FIELD && state < STATE_FIELD && valid < 2
    ensures var word := output + state * OUTPUT_FIELD + valid * VALID;
            word % OUTPUT_FIELD == output && word / OUTPUT_FIELD % STATE_FIELD == state
            && word / VALID % 2 == valid && word < WORD
  {
    var word := output + state * OUTPUT_FIELD + valid * VALID;
    assert word == output + (state + valid * STATE_FIELD) * OUTPUT_FIELD;
  }

  /** A state index that needs a sixteenth bit would be read as the validity bit. */
  lemma StateOverflowIsVisible(state: nat)
    requires STATE_FIELD <= state < 2 * STATE_FIELD
    ensures Valid(Pack(0, state, false)) && State(Pack(0, state, false)) == state - STATE_FIELD
  {
    OrZeroLeft(state * OUTPUT_FIELD);
    OrZero(state * OUTPUT_FIELD);
  }
}
