/**
 The sign mask of the rotation (`signs_from_seed` in `src/codec/qam_lloyd_max.rs` and `upq.rs`, over
 `src/codec/prng.rs`), on 64-bit words.
 */
module Signs {
  import Hadamard

  type Word = bv64

  /** One draw of SplitMix64 from an already advanced state. */
  function Mix(state: Word): Word
  {
    var a := (state ^ (state >> 30)) * 0xBF58_476D_1CE4_E5B9;
    var b := (a ^ (a >> 27)) * 0x94D0_49BB_1331_11EB;
    b ^ (b >> 31)
  }

  function Advanced(state: Word): Word { state + 0x9E37_79B9_7F4A_7C15 }

  /** The state after `k` draws. */
  function StateAfter(seed: Word, k: nat): Word
  {
    if k == 0 then seed else Advanced(StateAfter(seed, k - 1))
  }

  /** Draw `k`, counted from 0. */
  function Draw(seed: Word, k: nat): Word
  {
    Mix(StateAfter(seed, k + 1))
  }

  /** A word shifted right `k` times. */
  function Shifted(word: Word, k: nat): Word
  {
    if k == 0 then word else Shifted(word, k - 1) >> 1
  }

  predicate LowBit(word: Word)
  {
    word & 1 != 0
  }

  /** Bit `i mod 64` of draw `i / 64`: a zero bit leaves the coordinate, a one bit negates it. */
  function SignAt(seed: Word, i: nat): real
  {
    if LowBit(Shifted(Draw(seed, i / 64), i % 64)) then -1.0 else 1.0
  }

  /** Each sign depends on the seed and its place alone, so a shorter mask is a prefix of a longer one. */
  method SignsFromSeed(seed: Word, dim: nat) returns (signs: seq<real>)
    ensures |signs| == dim && forall i :: 0 <= i < dim ==> signs[i] == SignAt(seed, i)
    ensures Hadamard.SignMask(signs)
  {
    hide *;
    signs := [];
    var state: Word, bits: Word, bitsLeft: nat := seed, 0, 0;
    ghost var draws: nat := 0;
    StateStep(seed, 0);
    for i := 0 to dim
      invariant |signs| == i && forall j :: 0 <= j < i ==> signs[j] == SignAt(seed, j)
      invariant bitsLeft < 64 && state == StateAfter(seed, draws) && 64 * draws == i + bitsLeft
      invariant bitsLeft > 0 ==> bits == Shifted(Mix(state), 64 - bitsLeft)
    {
      if bitsLeft == 0 {
        StateStep(seed, draws);
        state, draws := Advanced(state), draws + 1;
        bits, bitsLeft := Mix(state), 64;
        ShiftStep(bits, 0);
      }
      SignIs(seed, i, draws, bitsLeft);
      signs := signs + [if LowBit(bits) then -1.0 else 1.0];
      ShiftStep(Mix(state), 64 - bitsLeft);
      bits, bitsLeft := bits >> 1, bitsLeft - 1;
    }
    AllSigns(seed, signs);
  }

  lemma StateStep(seed: Word, k: nat)
    ensures StateAfter(seed, 0) == seed && StateAfter(seed, k + 1) == Advanced(StateAfter(seed, k))
  {
  }

  lemma ShiftStep(word: Word, k: nat)
    ensures Shifted(word, 0) == word && Shifted(word, k + 1) == Shifted(word, k) >> 1
  {
  }

  lemma SignIs(seed: Word, i: nat, draws: nat, left: nat)
    requires 1 <= left <= 64 && 64 * draws == i + left
    ensures SignAt(seed, i) == if LowBit(Shifted(Mix(StateAfter(seed, draws)), 64 - left)) then -1.0 else 1.0
  {
    assert i / 64 + 1 == draws && i % 64 == 64 - left;
    hide Mix, StateAfter, Shifted, LowBit;
  }

  lemma AllSigns(seed: Word, signs: seq<real>)
    requires forall i :: 0 <= i < |signs| ==> signs[i] == SignAt(seed, i)
    ensures Hadamard.SignMask(signs)
  {
    hide Draw, Shifted, LowBit;
  }

  /** The generator's published sequence for seed 0. */
  lemma GoldenSequence()
    ensures Draw(0, 0) == 0xE220_A839_7B1D_CDAF
    ensures Draw(0, 1) == 0x6E78_9E6A_A1B9_65F4
    ensures Draw(0, 2) == 0x06C4_5D18_8009_454F
    ensures Draw(0, 3) == 0xF88B_B8A8_724C_81EC
    ensures Draw(0, 4) == 0x1B39_896A_51A8_749B
  {
  }

  /** Its lowest four bits are ones, so a mask from seed 0 starts with four negations. */
  lemma FirstSigns()
    ensures SignAt(0, 0) == SignAt(0, 1) == SignAt(0, 2) == SignAt(0, 3) == -1.0 && SignAt(0, 4) == 1.0
  {
    GoldenSequence();
    hide Draw;
    var word: Word := Draw(0, 0);
    assert Shifted(word, 0) == word && Shifted(word, 1) == word >> 1 && Shifted(word, 2) == word >> 1 >> 1;
  }
}
