/** `Math.random()` as an oracle. A draw is a natural number `k` below
    `Scale` = 2^53 and stands for the double `k / 2^53` in [0, 1); the
    expression `Math.floor(Math.random() * n)` is then `Pick(k, n)`. The
    oracle is an endless stream of draws with a read position, so every
    roll is a deterministic function of the stream and the position. */
module Random {
  import opened Outcomes

  const Scale: nat := 0x20_0000_0000_0000

  type Draw = k: nat | k < Scale

  /** `Math.floor(r * n)` with `r = k / 2^53`: an index into a collection of `n` items. */
  function Pick(k: Draw, n: nat): (i: nat)
    ensures n > 0 ==> i < n
    ensures n == 0 ==> i == 0
  {
    PickBelow(k, n);
    k * n / Scale
  }

  lemma {:induction false} PickBelow(k: Draw, n: nat)
    ensures n > 0 ==> k * n / Scale < n
    ensures n == 0 ==> k * n / Scale == 0
  {
    if n > 0 {
      MulStrict(k, Scale, n);
      DivBelow(k * n, Scale, n);
    }
  }

  lemma {:induction false} MulStrict(x: nat, y: nat, n: nat)
    requires x < y && n > 0
    ensures x * n < y * n
  {
    assert y * n == x * n + (y - x) * n;
  }

  lemma {:induction false} DivBelow(a: nat, b: nat, n: nat)
    requires b > 0 && a < b * n
    ensures a / b < n
  {
    var q := a / b;
    assert q * b + a % b == a;
    MulMonotone(n, q, b);
  }

  lemma {:induction false} MulMonotone(x: nat, y: nat, b: nat)
    ensures x <= y ==> x * b <= y * b
  {
    if x <= y {
      assert y * b == x * b + (y - x) * b;
    }
  }

  /** The oracle: `src(pos)` is the value the next `Math.random()` call returns. */
  datatype Rng = Rng(src: nat -> Draw, pos: nat) {
    function Next(): Draw {
      src(pos)
    }

    function Advance(n: nat): (g: Rng)
      ensures g.pos == pos + n
    {
      Rng(src, pos + n)
    }
  }

  /** The outcome of one random computation together with the oracle after it. */
  datatype Drawn<+T> = Drawn(value: T, rng: Rng)

  /** `Math.floor(Math.random() * n)`, then one step of the oracle. */
  function PickNext(g: Rng, n: nat): (d: Drawn<nat>)
    ensures n > 0 ==> d.value < n
    ensures d.rng == g.Advance(1)
  {
    Drawn(Pick(g.Next(), n), g.Advance(1))
  }

  /** A dice roller whose source is not part of this model, such as
      `DiceRoller.roll(notation)` of src/services/DiceRoller.ts: it reads
      draws and may throw. */
  type DiceRoll = (Rng, string) -> Drawn<Result<int>>
}
