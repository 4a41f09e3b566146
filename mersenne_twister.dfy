/**
 * The benchmark's Mersenne Twister: a 624-word buffer regenerated in place by the
 * MT19937 recurrence (Matsumoto and Nishimura, 1998), read out one word per call
 * through a BYTE index that steps by 4. This variant applies no output tempering,
 * and its initialisation stores the seed words as they are, so the first 624
 * outputs are the seed words themselves.
 *
 * The pure part (State, Next, Regenerate, Outputs) is the specification; the class
 * MT is the in-place implementation, proved against it.
 */
module MersenneTwister {
  const MT_LEN: int := 624
  const MT_IA: int := 397
  const MT_IB: int := MT_LEN - MT_IA
  const UPPER_MASK: bv32 := 0x8000_0000
  const LOWER_MASK: bv32 := 0x7FFF_FFFF
  const MATRIX_A: bv32 := 0x9908_B0DF
  /** The byte index at which the buffer is used up: MT_LEN * sizeof(uint32_t). */
  const MT_BYTES: int := MT_LEN * 4

  /** The generator's state: the word buffer and the byte index of the next word. */
  datatype State = State(buffer: seq<bv32>, index: int)

  /** A full buffer and a word-aligned byte index no further than its end. */
  predicate WellFormed(g: State) {
    |g.buffer| == MT_LEN && 0 <= g.index <= MT_BYTES && g.index % 4 == 0
  }

  /** MAGIC(s): the twist matrix applied to the low bit of s. */
  function Magic(s: bv32): (m: bv32)
    ensures m == if s & 1 == 0 then 0 else MATRIX_A
  {
    (s & 1) * MATRIX_A
  }

  /** TWIST: the upper bit of `hi` joined to the lower 31 bits of `lo`. */
  function Twist(hi: bv32, lo: bv32): (s: bv32)
    ensures s & UPPER_MASK == hi & UPPER_MASK
    ensures s & LOWER_MASK == lo & LOWER_MASK
  {
    (hi & UPPER_MASK) | (lo & LOWER_MASK)
  }

  /**
   * The new value of a word: `far ^ (s >> 1) ^ MAGIC(s)`, where `far` is the word
   * MT_IA places on (cyclically) and `s` the twisted pair.
   */
  function Recur(far: bv32, s: bv32): (r: bv32)
    ensures r ^ (s >> 1) ^ Magic(s) == far
    ensures s & 1 == 0 ==> r == far ^ (s >> 1)
  {
    far ^ (s >> 1) ^ Magic(s)
  }

  /** An index taken cyclically: j mod MT_LEN for 0 <= j < 2 * MT_LEN. */
  function Cyclic(j: int): (k: int)
    requires 0 <= j < 2 * MT_LEN
    ensures 0 <= k < MT_LEN && k == j % MT_LEN
  {
    if j < MT_LEN then j else j - MT_LEN
  }

  /**
   * One step of the regeneration, in the uniform form of the recurrence: word i
   * is recomputed from the CURRENT words i, (i+1) mod 624 and (i+397) mod 624.
   */
  function StepAt(b: seq<bv32>, i: int): (b': seq<bv32>)
    requires |b| == MT_LEN && 0 <= i < MT_LEN
    ensures |b'| == MT_LEN
    ensures forall j :: 0 <= j < MT_LEN && j != i ==> b'[j] == b[j]
    ensures b'[i] == Recur(b[Cyclic(i + MT_IA)], Twist(b[i], b[Cyclic(i + 1)]))
  {
    b[i := Recur(b[Cyclic(i + MT_IA)], Twist(b[i], b[Cyclic(i + 1)]))]
  }

  /** The buffer after the first k steps of the regeneration, in index order. */
  function Prefix(b: seq<bv32>, k: int): (r: seq<bv32>)
    requires |b| == MT_LEN && 0 <= k <= MT_LEN
    ensures |r| == MT_LEN
    decreases k, b  // the second component only stops the solver unfolding calls on literal arguments
  {
    if k == 0 then b else StepAt(Prefix(b, k - 1), k - 1)
  }

  /** The regenerated buffer: all 624 steps applied in place. */
  function Regenerate(b: seq<bv32>): (r: seq<bv32>)
    requires |b| == MT_LEN
    ensures |r| == MT_LEN
  {
    Prefix(b, |b|)
  }

  /** The regeneration ends with the step for the last word. */
  lemma RegenerateLastStep(b: seq<bv32>)
    requires |b| == MT_LEN
    ensures Regenerate(b) == StepAt(Prefix(b, |b| - 1), |b| - 1)
  {
  }

  /** `m` regenerations in a row. */
  function Iterate(b: seq<bv32>, m: nat): (r: seq<bv32>)
    requires |b| == MT_LEN
    ensures |r| == MT_LEN
    decreases m, b  // the second component only stops the solver unfolding calls on literal arguments
  {
    if m == 0 then b else Regenerate(Iterate(b, m - 1))
  }

  /** mt_random as a function of the state: the word returned and the next state. */
  function Next(g: State): (res: (bv32, State))
    requires WellFormed(g)
    ensures WellFormed(res.1) && 4 <= res.1.index
  {
    if g.index == MT_BYTES then
      var b := Regenerate(g.buffer);
      (b[0], State(b, 4))
    else
      (g.buffer[g.index / 4], State(g.buffer, g.index + 4))
  }

  /** The state after n calls of mt_random. */
  function After(g: State, n: nat): (r: State)
    requires WellFormed(g)
    ensures WellFormed(r)
    decreases n, g  // the second component only stops the solver unfolding calls on literal arguments
  {
    if n == 0 then g else After(Next(g).1, n - 1)
  }

  /** The first n words mt_random returns from state g, in order. */
  function Outputs(g: State, n: nat): (r: seq<bv32>)
    requires WellFormed(g)
    ensures |r| == n
    decreases n, g  // the second component only stops the solver unfolding calls on literal arguments
  {
    if n == 0 then [] else [Next(g).0] + Outputs(Next(g).1, n - 1)
  }

  /** One more call of mt_random extends the state and the outputs by one step. */
  lemma {:induction false} AfterSnoc(g: State, n: nat)
    requires WellFormed(g)
    ensures After(g, n + 1) == Next(After(g, n)).1
    ensures Outputs(g, n + 1) == Outputs(g, n) + [Next(After(g, n)).0]
    decreases n
  {
    if n > 0 {
      var g' := Next(g).1;
      AfterSnoc(g', n - 1);
      assert Outputs(g, n + 1) == [Next(g).0] + (Outputs(g', n - 1) + [Next(After(g', n - 1)).0]);
    }
  }

  /** A step leaves the words at and after k as they were. */
  lemma {:induction false} PrefixKeeps(b: seq<bv32>, k: int, j: int)
    requires |b| == MT_LEN && 0 <= k <= j < MT_LEN
    ensures Prefix(b, k)[j] == b[j]
  {
    if k > 0 {
      PrefixKeeps(b, k - 1, j);
    }
  }

  /** Once step j has run, word j keeps the value that step gave it. */
  lemma {:induction false} PrefixStable(b: seq<bv32>, k: int, j: int)
    requires |b| == MT_LEN && 0 <= j < k <= MT_LEN
    ensures Prefix(b, k)[j] == Prefix(b, j + 1)[j]
  {
    if k > j + 1 {
      PrefixStable(b, k - 1, j);
    }
  }

  /** Word j after k steps: already regenerated when j < k, still the old word otherwise. */
  lemma PrefixAt(b: seq<bv32>, k: int, j: int)
    requires |b| == MT_LEN && 0 <= k <= MT_LEN && 0 <= j < MT_LEN
    ensures Prefix(b, k)[j] == if j < k then Regenerate(b)[j] else b[j]
  {
    if j < k {
      PrefixStable(b, k, j);
      if j + 1 < |b| {
        PrefixStable(b, |b|, j);
      }
    } else {
      PrefixKeeps(b, k, j);
    }
  }

  /** Word i of the regenerated buffer is what step i computed from the buffer as it then stood. */
  lemma RegeneratedStep(b: seq<bv32>, i: int)
    requires |b| == MT_LEN && 0 <= i < MT_LEN
    ensures Regenerate(b)[i] ==
      Recur(Prefix(b, i)[Cyclic(i + MT_IA)], Twist(Prefix(b, i)[i], Prefix(b, i)[Cyclic(i + 1)]))
  {
    if i + 1 < |b| {
      PrefixStable(b, |b|, i);
    }
  }

  /**
   * The regenerated buffer word by word, in terms of the old buffer b and the
   * new buffer r: word i combines the upper bit of the old b[i] with the low 31
   * bits of word i+1 (for the last word, of the NEW r[0]), and takes the far
   * term from the old b[i+397] for i < 227 and from the new r[i-227] after that.
   */
  lemma RegeneratedAt(b: seq<bv32>, i: int)
    requires |b| == MT_LEN && 0 <= i < MT_LEN
    ensures Regenerate(b)[i] == Recur(
      if i < MT_IB then b[i + MT_IA] else Regenerate(b)[i - MT_IB],
      Twist(b[i], if i < MT_LEN - 1 then b[i + 1] else Regenerate(b)[0]))
  {
    RegeneratedStep(b, i);
    var far := Cyclic(i + MT_IA);
    var near := Cyclic(i + 1);
    PrefixAt(b, i, far);
    PrefixAt(b, i, i);
    PrefixAt(b, i, near);
  }

  /** Inside a block a call returns the word under the index and moves on by 4 bytes. */
  lemma NextInside(b: seq<bv32>, j: int)
    requires |b| == MT_LEN && 0 <= j < MT_LEN
    ensures Next(State(b, 4 * j)) == (b[j], State(b, 4 * j + 4))
  {
  }

  /** At the end of the buffer a call regenerates it and returns its new first word. */
  lemma NextAtEnd(b: seq<bv32>)
    requires |b| == MT_LEN
    ensures Next(State(b, MT_BYTES)) == (Regenerate(b)[0], State(Regenerate(b), 4))
  {
  }

  /** m calls inside one block only advance the index. */
  lemma {:induction false} AfterInside(b: seq<bv32>, j: nat, m: nat)
    requires |b| == MT_LEN && j + m <= MT_LEN
    ensures After(State(b, 4 * j), m) == State(b, 4 * (j + m))
    decreases m
  {
    if m > 0 {
      NextInside(b, j);
      AfterInside(b, j + 1, m - 1);
    }
  }

  /** m calls followed by n calls are m + n calls. */
  lemma {:induction false} AfterAdd(g: State, m: nat, n: nat)
    requires WellFormed(g)
    ensures After(g, m + n) == After(After(g, m), n)
    decreases m
  {
    if m > 0 {
      AfterAdd(Next(g).1, m - 1, n);
    }
  }

  /** From a used-up buffer, r + 1 calls regenerate it once and stand at word r + 1. */
  lemma AfterEnd(b: seq<bv32>, r: nat)
    requires |b| == MT_LEN && r < MT_LEN
    ensures After(State(b, MT_BYTES), r + 1) == State(Regenerate(b), 4 * (r + 1))
  {
    var g := State(b, MT_BYTES);
    NextAtEnd(b);
    assert After(g, 1) == State(Regenerate(b), 4);
    AfterAdd(g, 1, r);
    AfterInside(Regenerate(b), 1, r);
  }

  lemma {:induction false} OutputsAt(g: State, n: nat, k: nat)
    requires WellFormed(g) && k < n
    ensures Outputs(g, n)[k] == Next(After(g, k)).0
    decreases k
  {
    if k > 0 {
      OutputsAt(Next(g).1, n - 1, k - 1);
    }
  }

  /** Output k does not depend on how many outputs are taken. */
  lemma OutputsAgree(g: State, n: nat, n': nat, k: nat)
    requires WellFormed(g) && k < n && k < n'
    ensures Outputs(g, n)[k] == Outputs(g, n')[k]
  {
    OutputsAt(g, n, k);
    OutputsAt(g, n', k);
  }

  /** The outputs of m + n calls are those of the first m followed by those of the next n. */
  lemma {:induction false} OutputsAdd(g: State, m: nat, n: nat)
    requires WellFormed(g)
    ensures Outputs(g, m + n) == Outputs(g, m) + Outputs(After(g, m), n)
    decreases m
  {
    if m > 0 {
      var g' := Next(g).1;
      OutputsAdd(g', m - 1, n);
      assert [Next(g).0] + (Outputs(g', m - 1) + Outputs(After(g', m - 1), n))
        == ([Next(g).0] + Outputs(g', m - 1)) + Outputs(After(g', m - 1), n);
    }
  }

  /** From a freshly seeded state the first 624 calls return the seed words, in order. */
  lemma SeedBlock(seed: seq<bv32>)
    requires |seed| == MT_LEN
    ensures Outputs(State(seed, 0), MT_LEN) == seed
    ensures After(State(seed, 0), MT_LEN) == State(seed, MT_BYTES)
  {
    var g := State(seed, 0);
    forall r | 0 <= r < MT_LEN
      ensures Outputs(g, MT_LEN)[r] == seed[r]
    {
      OutputsAt(g, MT_LEN, r);
      AfterInside(seed, 0, r);
      NextInside(seed, r);
    }
    AfterInside(seed, 0, MT_LEN);
  }

  /** From a used-up buffer the next 624 calls return the regenerated buffer, in order. */
  lemma EndBlock(b: seq<bv32>)
    requires |b| == MT_LEN
    ensures Outputs(State(b, MT_BYTES), MT_LEN) == Regenerate(b)
    ensures After(State(b, MT_BYTES), MT_LEN) == State(Regenerate(b), MT_BYTES)
  {
    var g := State(b, MT_BYTES);
    forall r | 0 <= r < MT_LEN
      ensures Outputs(g, MT_LEN)[r] == Regenerate(b)[r]
    {
      OutputsAt(g, MT_LEN, r);
      if r == 0 {
        NextAtEnd(b);
      } else {
        AfterEnd(b, r - 1);
        NextInside(Regenerate(b), r);
      }
    }
    AfterEnd(b, MT_LEN - 1);
  }

  /** The words of q whole blocks from a freshly seeded state: the seed, then its regenerations. */
  function Blocks(seed: seq<bv32>, q: nat): (r: seq<bv32>)
    requires |seed| == MT_LEN
    ensures |r| == MT_LEN * q
    decreases q, seed  // the second component only stops the solver unfolding calls on literal arguments
  {
    if q == 0 then [] else Blocks(seed, q - 1) + Iterate(seed, q - 1)
  }

  /** After q whole blocks from the seed the buffer holds the (q-1)-th regeneration, used up. */
  lemma {:induction false} AfterBlocks(seed: seq<bv32>, q: nat)
    requires |seed| == MT_LEN && q > 0
    ensures After(State(seed, 0), MT_LEN * q) == State(Iterate(seed, q - 1), MT_BYTES)
  {
    var g := State(seed, 0);
    if q == 1 {
      SeedBlock(seed);
    } else {
      var m := MT_LEN * (q - 1);
      AfterBlocks(seed, q - 1);
      AfterAdd(g, m, MT_LEN);
      EndBlock(Iterate(seed, q - 2));
      assert m + MT_LEN == MT_LEN * q;
    }
  }

  /** The first 624 q outputs from a freshly seeded state are the seed and its regenerations. */
  lemma {:induction false} OutputsBlocks(seed: seq<bv32>, q: nat)
    requires |seed| == MT_LEN
    ensures Outputs(State(seed, 0), MT_LEN * q) == Blocks(seed, q)
  {
    if q > 0 {
      var g := State(seed, 0);
      var m := MT_LEN * (q - 1);
      OutputsBlocks(seed, q - 1);
      OutputsAdd(g, m, MT_LEN);
      if q == 1 {
        SeedBlock(seed);
      } else {
        AfterBlocks(seed, q - 1);
        EndBlock(Iterate(seed, q - 2));
      }
      assert m + MT_LEN == MT_LEN * q;
    }
  }

  /** Word 624 i + r of Blocks(seed, q) is word r of the i-th regeneration. */
  lemma {:induction false} BlocksAt(seed: seq<bv32>, q: nat, i: nat, r: nat)
    requires |seed| == MT_LEN && i < q && r < MT_LEN
    ensures Blocks(seed, q)[MT_LEN * i + r] == Iterate(seed, i)[r]
  {
    if i < q - 1 {
      BlocksAt(seed, q - 1, i, r);
    }
  }

  /**
   * From a freshly seeded state, call 624 q + r returns word r of the buffer
   * regenerated q times: there is no tempering and no regeneration before the
   * first 624 calls.
   */
  lemma OutputFromSeed(seed: seq<bv32>, n: nat, q: nat, r: nat)
    requires |seed| == MT_LEN && r < MT_LEN && MT_LEN * q + r < n
    ensures Outputs(State(seed, 0), n)[MT_LEN * q + r] == Iterate(seed, q)[r]
  {
    var g := State(seed, 0);
    var k := MT_LEN * q + r;
    OutputsAgree(g, n, MT_LEN * (q + 1), k);
    OutputsBlocks(seed, q + 1);
    BlocksAt(seed, q + 1, q, r);
  }

  /** struct MT: the byte index mt_index and the fixed buffer mt_buffer. */
  class MT {
    var index: int
    const buffer: array<bv32>

    ghost predicate Valid()
      reads this
    {
      buffer.Length == MT_LEN && 0 <= index <= MT_BYTES && index % 4 == 0
    }

    ghost function Model(): State
      reads this, buffer
    {
      State(buffer[..], index)
    }

    /** A zero-filled generator, as a static struct starts out. */
    constructor ()
      ensures Valid() && fresh(buffer)
      ensures Model() == State(seq(MT_LEN, _ => 0), 0)
    {
      buffer := new bv32[MT_LEN](_ => 0);
      index := 0;
    }

    /** mt_init, with the words rand() would supply given as `seed`. */
    method Init(seed: seq<bv32>)
      requires buffer.Length == MT_LEN && |seed| == MT_LEN
      modifies this, buffer
      ensures Valid() && Model() == State(seed, 0)
    {
      var i := 0;
      while i < MT_LEN
        invariant 0 <= i <= MT_LEN
        invariant buffer[..i] == seed[..i]
      {
        buffer[i] := seed[i];
        i := i + 1;
      }
      index := 0;
    }

    /** The three loops of mt_random that regenerate the buffer in place. */
    method RegenerateInPlace()
      requires buffer.Length == MT_LEN
      modifies buffer
      ensures buffer[..] == Regenerate(old(buffer[..]))
    {
      ghost var b0 := buffer[..];
      RegenerateAhead(b0);
      RegenerateBehind(b0);
      var s := Twist(buffer[MT_LEN - 1], buffer[0]);
      buffer[MT_LEN - 1] := Recur(buffer[MT_IA - 1], s);
      RegenerateLastStep(b0);
    }

    /**
     * The body shared by the first two loops: word i (not the last) from its
     * successor and from the far word, found `far` places into the buffer.
     */
    method StepInPlace(i: int, far: int)
      requires buffer.Length == MT_LEN && 0 <= i < MT_LEN - 1 && far == Cyclic(i + MT_IA)
      modifies buffer
      ensures buffer[..] == StepAt(old(buffer[..]), i)
    {
      var s := Twist(buffer[i], buffer[i + 1]);
      buffer[i] := Recur(buffer[far], s);
    }

    /** The first loop of the regeneration: words 0 .. 226, whose far word lies 397 ahead. */
    method RegenerateAhead(ghost b0: seq<bv32>)
      requires buffer.Length == MT_LEN && buffer[..] == b0
      modifies buffer
      ensures buffer[..] == Prefix(b0, MT_IB)
    {
      var i := 0;
      while i < MT_IB
        invariant 0 <= i <= MT_IB
        invariant buffer[..] == Prefix(b0, i)
      {
        StepInPlace(i, i + MT_IA);
        i := i + 1;
      }
    }

    /** The second loop: words 227 .. 622, whose far word lies 227 behind and is already new. */
    method RegenerateBehind(ghost b0: seq<bv32>)
      requires buffer.Length == MT_LEN && |b0| == MT_LEN && buffer[..] == Prefix(b0, MT_IB)
      modifies buffer
      ensures buffer[..] == Prefix(b0, MT_LEN - 1)
    {
      var i := MT_IB;
      while i < MT_LEN - 1
        invariant MT_IB <= i <= MT_LEN - 1
        invariant buffer[..] == Prefix(b0, i)
      {
        StepInPlace(i, i - MT_IB);
        i := i + 1;
      }
    }

    /** mt_random: the next word, regenerating the buffer first when it is used up. */
    method Random() returns (r: bv32)
      requires Valid()
      modifies this, buffer
      ensures Valid()
      ensures (r, Model()) == Next(old(Model()))
    {
      var idx := index;
      if idx == MT_BYTES {
        idx := 0;
        RegenerateInPlace();
      }
      index := idx + 4;
      r := buffer[idx / 4];
    }
  }
}
