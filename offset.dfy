/**
 * The random-mode block offset: a generator word reduced modulo the file size,
 * with the bits of todo - 1 cleared, as the two's-complement expression
 * (r % filesize) & ~(todo - 1) computes it on non-negative 64-bit values.
 */
module Offset {
  /** x & ~m for non-negative x and m: the bits of x that are clear in m. */
  function AndNot(x: nat, m: nat): (r: nat)
    ensures r <= x
    decreases x
  {
    if x == 0 then 0
    else 2 * AndNot(x / 2, m / 2) + (if x % 2 == 1 && m % 2 == 0 then 1 else 0)
  }

  /** n is a power of two. */
  predicate IsPow2(n: int)
    decreases if n < 1 then 0 else n
  {
    n == 1 || (n > 1 && n % 2 == 0 && IsPow2(n / 2))
  }

  /** Clearing no bits leaves x as it is. */
  lemma {:induction false} AndNotNone(x: nat)
    ensures AndNot(x, 0) == x
  {
    if x > 0 {
      AndNotNone(x / 2);
    }
  }

  /** A positive multiple of d is at least d. */
  lemma MulAtLeast(d: int, k: int)
    requires d > 0 && k > 0
    ensures d * k >= d
  {
    if k > 1 {
      MulAtLeast(d, k - 1);
      assert d * k == d * (k - 1) + d;
    }
  }

  /** Euclidean division is unique. */
  lemma DivUnique(x: int, d: int, q: int, e: int)
    requires d > 0 && x == d * q + e && 0 <= e < d
    ensures x / d == q
  {
    var q', e' := x / d, x % d;
    assert x == d * q' + e' && 0 <= e' < d;
    assert d * (q - q') == e' - e;
    if q > q' {
      MulAtLeast(d, q - q');
    } else if q < q' {
      MulAtLeast(d, q' - q);
    }
  }

  /** Halving the dividend, then dividing by h, is dividing by 2 h. */
  lemma HalfDiv(x: nat, h: int)
    requires h > 0
    ensures (x / 2) / h == x / (2 * h)
  {
    var q, e := x / (2 * h), x % (2 * h);
    assert x == (2 * h) * q + e && 0 <= e < 2 * h;
    assert x == 2 * (h * q) + e;
    assert x / 2 == h * q + e / 2;
    DivUnique(x / 2, h, q, e / 2);
  }

  /** The residue lies in [0, d) and does not exceed a non-negative dividend. */
  lemma ModBounds(x: int, d: int)
    requires x >= 0 && d > 0
    ensures 0 <= x % d < d && x % d <= x
  {
    var q := x / d;
    assert x == d * q + x % d;
    if q > 0 {
      MulAtLeast(d, q);
    } else {
      assert q == 0;
    }
  }

  /** A multiple of d leaves no residue. */
  lemma MulMod(a: int, d: int)
    requires d > 0
    ensures (a * d) % d == 0
  {
    DivUnique(a * d, d, a, 0);
  }

  /**
   * Doubling a product doubles either factor: kept apart so that the solver
   * meets this nonlinear step without the context of the caller.
   */
  lemma Twice(a: int, h: int)
    ensures 2 * (a * h) == a * (2 * h)
  {
  }

  /** Rounding x down to a multiple of d: d divides the result and takes less than d off. */
  lemma RoundDown(x: int, d: int)
    requires x >= 0 && d > 0
    ensures ((x / d) * d) % d == 0
    ensures 0 <= x - (x / d) * d < d
  {
    MulMod(x / d, d);
  }

  /** With todo a power of two, clearing todo - 1 rounds x down to a multiple of todo. */
  lemma {:induction false} AndNotAligned(x: nat, t: nat)
    requires IsPow2(t)
    ensures AndNot(x, t - 1) == (x / t) * t
    decreases t
  {
    if t == 1 {
      AndNotNone(x);
    } else if x > 0 {
      var h := t / 2;
      var m := t - 1;
      assert t == 2 * h && IsPow2(h);
      assert m / 2 == h - 1 && m % 2 == 1;
      assert AndNot(x, m) == 2 * AndNot(x / 2, h - 1);
      AndNotAligned(x / 2, h);
      HalfDiv(x, h);
      Twice(x / t, h);
    } else {
      assert x / t == 0;
    }
  }

  /**
   * The offset of one random-mode operation: generator word r (zero-extended)
   * reduced modulo filesize, with the bits of todo - 1 cleared.
   */
  function RandomOffset(r: bv32, filesize: int, todo: int): (offset: int)
    requires filesize > 0 && todo > 0
    ensures 0 <= offset <= (r as int) % filesize < filesize
    ensures offset <= r as int < 0x1_0000_0000
  {
    var x := r as int;
    ModBounds(x, filesize);
    AndNot(x % filesize, todo - 1)
  }

  /**
   * For a power-of-two block size the offset is the residue rounded down to a
   * multiple of the block size: aligned, and less than one block below it.
   */
  lemma RandomOffsetAligned(r: bv32, filesize: int, todo: int)
    requires filesize > 0 && IsPow2(todo)
    ensures RandomOffset(r, filesize, todo) % todo == 0
    ensures (r as int) % filesize - RandomOffset(r, filesize, todo) < todo
  {
    var x := (r as int) % filesize;
    AndNotAligned(x, todo);
    RoundDown(x, todo);
  }

  /** The offsets of successive operations, one per generator word. */
  function Offsets(words: seq<bv32>, filesize: int, todo: int): (os: seq<int>)
    requires filesize > 0 && todo > 0
    ensures |os| == |words|
    ensures forall i :: 0 <= i < |os| ==> 0 <= os[i] < filesize
    decreases |words|
  {
    if words == [] then []
    else Offsets(words[..|words| - 1], filesize, todo) + [RandomOffset(words[|words| - 1], filesize, todo)]
  }

  /** Offset i is the one computed from word i. */
  lemma {:induction false} OffsetsAt(words: seq<bv32>, filesize: int, todo: int, i: int)
    requires filesize > 0 && todo > 0 && 0 <= i < |words|
    ensures Offsets(words, filesize, todo)[i] == RandomOffset(words[i], filesize, todo)
    decreases |words|
  {
    if i < |words| - 1 {
      OffsetsAt(words[..|words| - 1], filesize, todo, i);
    }
  }

  /** One more generator word adds its offset at the end. */
  lemma OffsetsSnoc(words: seq<bv32>, w: bv32, filesize: int, todo: int)
    requires filesize > 0 && todo > 0
    ensures Offsets(words + [w], filesize, todo) == Offsets(words, filesize, todo) + [RandomOffset(w, filesize, todo)]
  {
    assert (words + [w])[..|words|] == words;
  }

  /**
   * With a power-of-two block size every offset of a run is block-aligned and
   * equals the corrected offset of its word.
   */
  lemma OffsetsAligned(words: seq<bv32>, filesize: int, todo: int)
    requires filesize > 0 && IsPow2(todo)
    ensures forall i :: 0 <= i < |words| ==> Offsets(words, filesize, todo)[i] % todo == 0
    ensures forall i :: 0 <= i < |words| ==> Offsets(words, filesize, todo)[i] == AlignedOffset(words[i], filesize, todo)
  {
    forall i | 0 <= i < |words|
      ensures Offsets(words, filesize, todo)[i] % todo == 0
      ensures Offsets(words, filesize, todo)[i] == AlignedOffset(words[i], filesize, todo)
    {
      OffsetsAt(words, filesize, todo, i);
      AlignedAgrees(words[i], filesize, todo);
    }
  }

  /**
   * The expression needs a power-of-two block size: a block size of 3 KiB,
   * which the command line accepts, lets word 1024 through as offset 1024,
   * which is not a multiple of the block.
   */
  lemma UnalignedOffset(r: bv32, filesize: int, todo: int)
    requires r == 1024 && filesize == 0x4000_0000 && todo == 3 * 1024
    ensures RandomOffset(r, filesize, todo) == 1024
    ensures RandomOffset(r, filesize, todo) % todo != 0
  {
    DivUnique(r as int, filesize, 0, 1024);
    assert (r as int) % filesize == 1024;
    AndNotExample();
    SmallMod(1024, todo);
  }

  /** A non-negative number below d is its own residue. */
  lemma SmallMod(x: int, d: int)
    requires 0 <= x < d
    ensures x % d == x
  {
    DivUnique(x, d, 0, x);
  }

  /** Clearing an odd mask from an even number clears the halved mask from the half. */
  lemma AndNotOdd(x: nat, m: nat)
    ensures AndNot(2 * x, 2 * m + 1) == 2 * AndNot(x, m)
  {
  }

  /** 1024 & ~3071 == 1024: bit 10 survives because it is clear in 3071, the bits below are clear in 1024. */
  lemma AndNotExample()
    ensures AndNot(1024, 3071) == 1024
  {
    assert AndNot(1, 2) == 1;
    AndNotOdd(1, 2);
    AndNotOdd(2, 5);
    AndNotOdd(4, 11);
    AndNotOdd(8, 23);
    AndNotOdd(16, 47);
    AndNotOdd(32, 95);
    AndNotOdd(64, 191);
    AndNotOdd(128, 383);
    AndNotOdd(256, 767);
    AndNotOdd(512, 1535);
  }

  /**
   * The offset as evidently intended for every block size: the residue rounded
   * down to a multiple of the block size, so at most one block below it.
   */
  function AlignedOffset(r: bv32, filesize: int, todo: int): (offset: int)
    requires filesize > 0 && todo > 0
    ensures offset % todo == 0
    ensures 0 <= offset <= (r as int) % filesize < offset + todo
    ensures offset < filesize
  {
    var x := (r as int) % filesize;
    ModBounds(r as int, filesize);
    RoundDown(x, todo);
    (x / todo) * todo
  }

  /** For a power-of-two block size the expression as written computes the intended offset. */
  lemma AlignedAgrees(r: bv32, filesize: int, todo: int)
    requires filesize > 0 && IsPow2(todo)
    ensures AlignedOffset(r, filesize, todo) == RandomOffset(r, filesize, todo)
  {
    ModBounds(r as int, filesize);
    AndNotAligned((r as int) % filesize, todo);
  }

  /** A block size of k KiB is a power of two whenever k is. */
  lemma {:induction false} KibPow2(k: int)
    requires IsPow2(k)
    ensures IsPow2(k * 1024)
    decreases if k < 1 then 0 else k
  {
    if k == 1 {
      assert IsPow2(1) && IsPow2(2) && IsPow2(4) && IsPow2(8) && IsPow2(16) && IsPow2(32);
      assert IsPow2(64) && IsPow2(128) && IsPow2(256) && IsPow2(512) && IsPow2(1024);
    } else {
      KibPow2(k / 2);
      assert (k * 1024) / 2 == (k / 2) * 1024;
    }
  }
}
