/** The four reversible commands of `ClassDecimalProcess.cs`.

    Each command reads the shared number, computes with C#'s unchecked
    `int` arithmetic, and writes the result back. Increment, Decrement and
    Double carry no state that matters to their `undo`; RandomAdd records
    the amount it drew so that its `undo` subtracts exactly that amount. */
module Commands {
  import opened Int32
  import opened SharedStore

  /** An amount RandomAdd can draw. */
  type Delta = d: int | 1 <= d <= 9 witness 1

  /** An executed command, as kept on the history stack. */
  datatype Cmd = Inc | Dec | Dbl | RandAdd(delta: Delta)

  /** The result `exec` would store if `int` were unbounded. */
  function Intended(c: Cmd, v: int): int {
    match c
    case Inc => v + 1
    case Dec => v - 1
    case Dbl => 2 * v
    case RandAdd(d) => v + d
  }

  /** `exec`: read the shared number, change it, store the result. */
  function Exec(c: Cmd, s: Store): (r: Store)
    ensures Congruent(r.Get(), Intended(c, s.Get()))
    ensures InRange(Intended(c, s.Get())) ==> r.Get() == Intended(c, s.Get())
  {
    var n := s.Get();
    match c
    case Inc => s.Set(Wrap(n + 1))
    case Dec => s.Set(Wrap(n - 1))
    case Dbl => s.Set(Wrap(n * 2))
    case RandAdd(d) => s.Set(Wrap(n + d))
  }

  /** `undo`: read the shared number, apply the opposite change, store it.
      Double halves with truncation toward zero and does not check parity. */
  function Undo(c: Cmd, s: Store): (r: Store)
    ensures c.Inc? ==> Congruent(r.Get() + 1, s.Get())
    ensures c.Dec? ==> Congruent(r.Get() - 1, s.Get())
    ensures c.RandAdd? ==> Congruent(r.Get() + c.delta, s.Get())
    ensures c.Dbl? && s.Get() >= 0 ==> 0 <= s.Get() - 2 * r.Get() <= 1
    ensures c.Dbl? && s.Get() < 0 ==> -1 <= s.Get() - 2 * r.Get() <= 0
  {
    var n := s.Get();
    match c
    case Inc => s.Set(Wrap(n - 1))
    case Dec => s.Set(Wrap(n + 1))
    case Dbl => s.Set(DivTwo(n))
    case RandAdd(d) => s.Set(Wrap(n - d))
  }

  /** `exec` on value `v` is one that `undo` can take back: only a Double
      whose product overflows loses information. */
  predicate Reversible(c: Cmd, v: int) {
    c.Dbl? ==> InRange(2 * v)
  }

  /** Increment's undo reverses its exec and its exec reverses its undo,
      MaxValue included. */
  lemma IncRoundTrip(s: Store)
    ensures Undo(Inc, Exec(Inc, s)) == s
    ensures Exec(Inc, Undo(Inc, s)) == s
  {
    IncThenUndo(s);
    UndoThenInc(s);
  }

  lemma IncThenUndo(s: Store)
    ensures Undo(Inc, Exec(Inc, s)) == s
  {
    WrapAddSub(s.Get(), 1);
  }

  lemma UndoThenInc(s: Store)
    ensures Exec(Inc, Undo(Inc, s)) == s
  {
    WrapAddSub(s.Get(), -1);
  }

  /** Decrement's undo reverses its exec and its exec reverses its undo,
      MinValue included. */
  lemma DecRoundTrip(s: Store)
    ensures Undo(Dec, Exec(Dec, s)) == s
    ensures Exec(Dec, Undo(Dec, s)) == s
  {
    DecThenUndo(s);
    UndoThenDec(s);
  }

  lemma DecThenUndo(s: Store)
    ensures Undo(Dec, Exec(Dec, s)) == s
  {
    WrapAddSub(s.Get(), -1);
  }

  lemma UndoThenDec(s: Store)
    ensures Exec(Dec, Undo(Dec, s)) == s
  {
    WrapAddSub(s.Get(), 1);
  }

  /** The undo subtracts the amount recorded by the exec, whatever it was. */
  lemma RandAddRoundTrip(d: Delta, s: Store)
    ensures Undo(RandAdd(d), Exec(RandAdd(d), s)) == s
    ensures Exec(RandAdd(d), Undo(RandAdd(d), s)) == s
  {
    RandAddThenUndo(d, s);
    UndoThenRandAdd(d, s);
  }

  lemma RandAddThenUndo(d: Delta, s: Store)
    ensures Undo(RandAdd(d), Exec(RandAdd(d), s)) == s
  {
    WrapAddSub(s.Get(), d);
  }

  lemma UndoThenRandAdd(d: Delta, s: Store)
    ensures Exec(RandAdd(d), Undo(RandAdd(d), s)) == s
  {
    WrapAddSub(s.Get(), -(d as int));
  }

  /** Double always stores an even number, since 2^32 is even. */
  lemma DoubleExecEven(s: Store)
    ensures Exec(Dbl, s).Get() % 2 == 0
  {
    var r := Exec(Dbl, s).Get();
    var q := (r - 2 * s.Get()) / Modulus;
    assert r == 2 * (s.Get() + q * 0x8000_0000);
  }

  /** Double's exec-then-undo restores the value exactly when the doubling
      did not overflow. */
  lemma DoubleRoundTrip(s: Store)
    ensures Undo(Dbl, Exec(Dbl, s)) == s <==> InRange(2 * s.Get())
  {
    var v: int := s.Get();
    if InRange(2 * v) {
      assert Exec(Dbl, s).Get() == 2 * v;
    } else {
      DoubleOverflowLosesSign(s);
    }
  }

  /** When the doubling overflows, halving gives the original value with its
      sign flipped into the other half of the `int` range. */
  lemma DoubleOverflowLosesSign(s: Store)
    requires !InRange(2 * s.Get())
    ensures s.Get() > 0 ==> Undo(Dbl, Exec(Dbl, s)).Get() == s.Get() + MinValue
    ensures s.Get() < 0 ==> Undo(Dbl, Exec(Dbl, s)).Get() == s.Get() - MinValue
  {
    var v := s.Get();
    var w := Exec(Dbl, s).Get();
    if v > 0 {
      assert Congruent(2 * v - Modulus, 2 * v);
      WrapCongruent(2 * v - Modulus, 2 * v);
      assert w == 2 * v - Modulus;
    } else {
      assert Congruent(2 * v + Modulus, 2 * v);
      WrapCongruent(2 * v + Modulus, 2 * v);
      assert w == 2 * v + Modulus;
    }
  }

  /** Halving then doubling restores the value exactly when it is even. */
  lemma DoubleUndoThenExec(s: Store)
    ensures Exec(Dbl, Undo(Dbl, s)) == s <==> s.Get() % 2 == 0
  {
    var h := Undo(Dbl, s).Get();
    assert InRange(2 * h);
    assert Exec(Dbl, Undo(Dbl, s)).Get() == 2 * h;
  }

  /** Every `undo` reverses its own `exec`, restoring the previous state,
      except a Double that overflowed. */
  lemma UndoReversesExec(c: Cmd, s: Store)
    ensures Undo(c, Exec(c, s)) == s <==> Reversible(c, s.Get())
  {
    match c
    case Inc => IncRoundTrip(s);
    case Dec => DecRoundTrip(s);
    case Dbl => DoubleRoundTrip(s);
    case RandAdd(d) => RandAddRoundTrip(d, s);
  }

  /** `Random.Next(minValue, maxValue)`: a value at least `minValue` and
      below `maxValue` (or `minValue` itself when the two are equal). The
      generator's choice is the parameter `draw`. */
  function Next(minValue: int32, maxValue: int32, draw: nat): (r: int32)
    requires minValue <= maxValue
    ensures minValue == maxValue ==> r == minValue
    ensures minValue < maxValue ==> minValue <= r < maxValue
  {
    if minValue == maxValue then minValue
    else minValue + draw % (maxValue - minValue)
  }

  /** RandomAdd's amount, `Next(1, 10)`: the upper bound is exclusive. */
  function RandomAmount(draw: nat): (d: int)
    ensures 1 <= d <= 9
  {
    Next(1, 10, draw)
  }

  /** Each amount from 1 to 9 is a possible draw, and 10 never is. */
  lemma RandomAmountRange(d: int)
    ensures (exists draw: nat :: RandomAmount(draw) == d) <==> 1 <= d <= 9
  {
    if 1 <= d <= 9 {
      assert RandomAmount(d - 1) == d;
    }
  }
}
