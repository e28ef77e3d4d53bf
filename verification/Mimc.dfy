/** The MiMC Feistel permutation and the sponge built on it, for any round function. */
module Mimc {
  import opened Arithmetic
  import opened PrimeField

  /** Both halves of a state, `(left, right)`. */
  type State = (int, int)

  predicate IsState(f: Field, s: State) { f.Element(s.0) && f.Element(s.1) }

  function Pow5(f: Field, t: int): int
    requires f.p > 0
  {
    var t2 := f.Mul(t, t);
    f.Mul(f.Mul(t2, t2), t)
  }

  /** One uniform round: the right half absorbs `g` of the left, then the halves swap. */
  function Round(f: Field, g: int -> int, k: int, c: int, s: State): (s': State)
    requires f.p > 0
  {
    (f.Add(s.1, g(f.Add(f.Add(s.0, k), c))), s.0)
  }

  /** The first `n` uniform rounds. */
  function Rounds(f: Field, g: int -> int, k: int, constants: seq<int>, n: nat, s: State): State
    requires f.p > 0 && n <= |constants|
  {
    if n == 0 then s else Round(f, g, k, constants[n - 1], Rounds(f, g, k, constants, n - 1, s))
  }

  function Swap(s: State): State { (s.1, s.0) }

  /** All rounds, the last swap undone. */
  function Feistel(f: Field, g: int -> int, k: int, constants: seq<int>, s: State): State
    requires f.p > 0
  {
    Swap(Rounds(f, g, k, constants, |constants|, s))
  }

  /** The network with the round function of MiMC. */
  function Permute(f: Field, constants: seq<int>, key: int, s: State): State
    requires f.p > 0
  {
    Feistel(f, t => Pow5(f, t), key, constants, s)
  }

  /** The permutation: a first round without its constant, swapping rounds, a last round without the swap. */
  method Hash(f: Field, constants: seq<int>, left: int, right: int, k: int) returns (xl: int, xr: int)
    requires f.p > 0 && |constants| >= 2 && constants[0] == 0
    ensures (xl, xr) == Permute(f, constants, k, (left, right))
  {
    var last := |constants| - 1;
    ghost var g := (t: int) => Pow5(f, t);
    xl, xr := left, right;
    FirstConstant(f, xl, k);
    xr := f.Add(xr, Pow5(f, f.Add(xl, k)));
    xl, xr := xr, xl;
    assert (xl, xr) == Rounds(f, g, k, constants, 1, (left, right)) by {
      assert Rounds(f, g, k, constants, 0, (left, right)) == (left, right);
    }
    for i := 1 to last
      invariant (xl, xr) == Rounds(f, g, k, constants, i, (left, right))
    {
      var t5 := Pow5(f, f.Add(f.Add(xl, k), constants[i]));
      xr := f.Add(xr, t5);
      xl, xr := xr, xl;
    }
    xr := f.Add(xr, Pow5(f, f.Add(f.Add(xl, k), constants[last])));
  }

  /** A round constant of zero may be skipped. */
  lemma FirstConstant(f: Field, x: int, k: int)
    requires f.p > 0
    ensures f.Add(f.Add(x, k), 0) == f.Add(x, k)
  {
  }

  // ---------- what the rounds compute ----------

  /** The fifth power. */
  lemma Pow5Exact(f: Field, t: int)
    requires f.p > 0
    ensures Pow5(f, t) == Reduce(f.p, t * t * t * t * t)
  {
    var t2 := f.Mul(t, t);
    f.EqMul(t2, t * t, t2, t * t);
    f.EqMul(f.Mul(t2, t2), (t * t) * (t * t), t, t);
    FiveFactors(t);
  }

  lemma FiveFactors(t: int)
    ensures ((t * t) * (t * t)) * t == t * t * t * t * t
  {
    MulAssociate(t * t, t, t);
  }

  /** Each term after the second is the term two before plus the fifth power of the one before, keyed. */
  ghost predicate Recurrence(f: Field, constants: seq<int>, key: int, terms: seq<int>)
    requires f.p > 0 && |terms| <= |constants| + 2
  {
    forall i {:trigger constants[i]} :: 0 <= i < |terms| - 2 ==>
      var t := terms[i + 1] + key + constants[i];
      terms[i + 2] == Reduce(f.p, terms[i] + t * t * t * t * t)
  }

  lemma RoundIs(f: Field, k: int, c: int, s: State)
    requires f.p > 0
    ensures var t := s.0 + k + c;
            Round(f, t => Pow5(f, t), k, c, s) == (Reduce(f.p, s.1 + t * t * t * t * t), s.0)
  {
    var t, u := s.0 + k + c, f.Add(f.Add(s.0, k), c);
    f.EqAdd(f.Add(s.0, k), s.0 + k, c, c);
    Pow5Exact(f, u);
    Pow5Exact(f, t);
    SamePower(f, u, t);
    f.EqAdd(s.1, s.1, Pow5(f, u), t * t * t * t * t);
  }

  lemma SamePower(f: Field, u: int, t: int)
    requires f.p > 0 && f.Eq(u, t)
    ensures Pow5(f, u) == Pow5(f, t)
  {
    f.EqMul(u, t, u, t);
    assert f.Mul(u, u) == f.Mul(t, t);
    f.EqMul(f.Mul(f.Mul(t, t), f.Mul(t, t)), f.Mul(f.Mul(t, t), f.Mul(t, t)), u, t);
  }

  lemma {:induction false} RoundsAreTerms(f: Field, constants: seq<int>, key: int, n: nat, s: State)
    returns (terms: seq<int>)
    requires f.p > 0 && n <= |constants|
    ensures |terms| == n + 2 && terms[0] == s.1 && terms[1] == s.0 && Recurrence(f, constants, key, terms)
    ensures Rounds(f, t => Pow5(f, t), key, constants, n, s) == (terms[n + 1], terms[n])
  {
    if n == 0 {
      terms := [s.1, s.0];
    } else {
      var before := RoundsAreTerms(f, constants, key, n - 1, s);
      RoundIs(f, key, constants[n - 1], (before[n], before[n - 1]));
      var t := before[n] + key + constants[n - 1];
      var next := Reduce(f.p, before[n - 1] + t * t * t * t * t);
      OneMoreTerm(f, constants, key, before, next);
      terms := before + [next];
    }
  }

  lemma OneMoreTerm(f: Field, constants: seq<int>, key: int, terms: seq<int>, next: int)
    requires f.p > 0 && 2 <= |terms| < |constants| + 2 && Recurrence(f, constants, key, terms)
    requires var n := |terms|; var t := terms[n - 1] + key + constants[n - 2];
             next == Reduce(f.p, terms[n - 2] + t * t * t * t * t)
    ensures Recurrence(f, constants, key, terms + [next])
  {
  }

  /**
   The permutation, as one sequence of numbers: it starts with the right half and the left half, each
   further term adds the keyed fifth power of the term before to the one before that, one term for
   each constant, and the last two are the halves of the result.
   */
  lemma PermuteIsRecurrence(f: Field, constants: seq<int>, key: int, left: int, right: int) returns (terms: seq<int>)
    requires f.p > 0
    ensures |terms| == |constants| + 2 && terms[0] == right && terms[1] == left
    ensures Recurrence(f, constants, key, terms)
    ensures Permute(f, constants, key, (left, right)) == (terms[|constants|], terms[|constants| + 1])
  {
    terms := RoundsAreTerms(f, constants, key, |constants|, (left, right));
  }

  // ---------- the permutation ----------

  lemma UndoAdd(f: Field, x: int, t: int)
    requires f.p > 0 && f.Element(x)
    ensures f.Sub(f.Add(x, t), t) == x && f.Add(f.Sub(x, t), t) == x
  {
    f.EqSub(f.Add(x, t), x + t, t, t);
    f.EqAdd(f.Sub(x, t), x - t, t, t);
  }

  /** What undoes a round. */
  function Unround(f: Field, g: int -> int, k: int, c: int, s: State): State
    requires f.p > 0
  {
    (s.1, f.Sub(s.0, g(f.Add(f.Add(s.1, k), c))))
  }

  /** Undoes the first `n` rounds, the constants from the last to the first. */
  function Unrounds(f: Field, g: int -> int, k: int, constants: seq<int>, n: nat, s: State): State
    requires f.p > 0 && n <= |constants|
  {
    if n == 0 then s else Unrounds(f, g, k, constants, n - 1, Unround(f, g, k, constants[n - 1], s))
  }

  function Unfeistel(f: Field, g: int -> int, k: int, constants: seq<int>, s: State): State
    requires f.p > 0
  {
    Unrounds(f, g, k, constants, |constants|, Swap(s))
  }

  lemma {:induction false} UnroundsUndoRounds(f: Field, g: int -> int, k: int, constants: seq<int>, n: nat, s: State)
    requires f.p > 0 && n <= |constants| && IsState(f, s)
    ensures Unrounds(f, g, k, constants, n, Rounds(f, g, k, constants, n, s)) == s
    ensures IsState(f, Rounds(f, g, k, constants, n, s))
  {
    if n > 0 {
      UnroundsUndoRounds(f, g, k, constants, n - 1, s);
      var before, c := Rounds(f, g, k, constants, n - 1, s), constants[n - 1];
      UndoAdd(f, before.1, g(f.Add(f.Add(before.0, k), c)));
      assert Unround(f, g, k, c, Round(f, g, k, c, before)) == before;
    }
  }

  lemma {:induction false} RoundsRedoUnrounds(f: Field, g: int -> int, k: int, constants: seq<int>, n: nat, s: State)
    requires f.p > 0 && n <= |constants| && IsState(f, s)
    ensures Rounds(f, g, k, constants, n, Unrounds(f, g, k, constants, n, s)) == s
    ensures IsState(f, Unrounds(f, g, k, constants, n, s))
  {
    if n > 0 {
      var c := constants[n - 1];
      var earlier := Unround(f, g, k, c, s);
      UndoAdd(f, s.0, g(f.Add(f.Add(s.1, k), c)));
      RoundsRedoUnrounds(f, g, k, constants, n - 1, earlier);
      assert Round(f, g, k, c, earlier) == s;
    }
  }

  /** For every key and whatever the round function, the Feistel network is a bijection on states. */
  lemma FeistelBijective(f: Field, g: int -> int, k: int, constants: seq<int>, s: State)
    requires f.p > 0 && IsState(f, s)
    ensures Unfeistel(f, g, k, constants, Feistel(f, g, k, constants, s)) == s
    ensures Feistel(f, g, k, constants, Unfeistel(f, g, k, constants, s)) == s
    ensures IsState(f, Feistel(f, g, k, constants, s)) && IsState(f, Unfeistel(f, g, k, constants, s))
  {
    UnroundsUndoRounds(f, g, k, constants, |constants|, s);
    RoundsRedoUnrounds(f, g, k, constants, |constants|, Swap(s));
  }

  // ---------- the sponge ----------

  function Fold(step: (State, int) -> State, s: State, inputs: seq<int>): State {
    if inputs == [] then s else step(Fold(step, s, inputs[..|inputs| - 1]), inputs[|inputs| - 1])
  }

  function Iterate(step: State -> State, s: State, i: nat): State {
    if i == 0 then s else step(Iterate(step, s, i - 1))
  }

  function PermuteOn(f: Field, constants: seq<int>, key: int): State -> State
    requires f.p > 0
  {
    s => Permute(f, constants, key, s)
  }

  /** Adding an input to the left half, then a permutation. */
  function AbsorbOn(f: Field, constants: seq<int>, key: int): (State, int) -> State
    requires f.p > 0
  {
    (s: State, x: int) => Permute(f, constants, key, (f.Add(s.0, x), s.1))
  }

  /** The state after absorbing `inputs`. */
  function Absorbed(f: Field, constants: seq<int>, key: int, inputs: seq<int>): State
    requires f.p > 0
  {
    Fold(AbsorbOn(f, constants, key), (0, 0), inputs)
  }

  /** The state before the output numbered `i` is read. */
  function Squeezed(f: Field, constants: seq<int>, key: int, s: State, i: nat): State
    requires f.p > 0
  {
    Iterate(PermuteOn(f, constants, key), s, i)
  }

  /** The sponge. It always gives at least one output, even when none is asked for. */
  method MultiHash(f: Field, constants: seq<int>, arr: seq<int>, key: int, numOutputs: nat) returns (out: seq<int>)
    requires f.p > 0 && |constants| >= 2 && constants[0] == 0
    ensures |out| == Max(1, numOutputs)
    ensures forall i :: 0 <= i < |out| ==>
      out[i] == Squeezed(f, constants, key, Absorbed(f, constants, key, arr), i).0
  {
    var r, c := Absorb(f, constants, arr, key);
    out := [r];
    ghost var step, s := PermuteOn(f, constants, key), (r, c);
    var i := 1;
    while i < numOutputs
      invariant |out| == i <= Max(1, numOutputs)
      invariant (r, c) == Iterate(step, s, i - 1)
      invariant forall j :: 0 <= j < i ==> out[j] == Iterate(step, s, j).0
    {
      r, c := HashState(f, constants, r, c, key);
      out := out + [r];
      i := i + 1;
    }
  }

  /** One permutation a state: of the state before with the next input added, or of the state before as it is. */
  ghost predicate Chained(f: Field, constants: seq<int>, key: int, arr: seq<int>, states: seq<State>)
    requires f.p > 0
  {
    && states != [] && states[0] == (0, 0)
    && forall i :: 0 <= i < |states| - 1 ==>
         states[i + 1] == Permute(f, constants, key,
                                  (if i < |arr| then f.Add(states[i].0, arr[i]) else states[i].0, states[i].1))
  }

  lemma {:induction false} AbsorbedStates(f: Field, constants: seq<int>, key: int, arr: seq<int>, n: nat)
    returns (states: seq<State>)
    requires f.p > 0 && n <= |arr|
    ensures |states| == n + 1 && Chained(f, constants, key, arr, states)
    ensures states[n] == Absorbed(f, constants, key, arr[..n])
  {
    if n == 0 {
      states := [(0, 0)];
    } else {
      states := AbsorbedStates(f, constants, key, arr, n - 1);
      FoldNext(AbsorbOn(f, constants, key), (0, 0), arr, n - 1);
      states := states + [Absorbed(f, constants, key, arr[..n])];
    }
  }

  /**
   The sponge, state by state: from zeros, one permutation for each input, added to the left half, and
   one more between two outputs; each output is the left half of a state, the first of that after the
   last input.
   */
  lemma {:induction false} SpongeStates(f: Field, constants: seq<int>, key: int, arr: seq<int>, i: nat)
    returns (states: seq<State>)
    requires f.p > 0
    ensures |states| == |arr| + i + 1 && Chained(f, constants, key, arr, states)
    ensures states[|arr| + i] == Squeezed(f, constants, key, Absorbed(f, constants, key, arr), i)
  {
    if i == 0 {
      states := AbsorbedStates(f, constants, key, arr, |arr|);
      assert arr[..|arr|] == arr;
    } else {
      states := SpongeStates(f, constants, key, arr, i - 1);
      states := states + [Squeezed(f, constants, key, Absorbed(f, constants, key, arr), i)];
    }
  }

  /** The first loop of the sponge. */
  method Absorb(f: Field, constants: seq<int>, arr: seq<int>, key: int) returns (r: int, c: int)
    requires f.p > 0 && |constants| >= 2 && constants[0] == 0
    ensures (r, c) == Absorbed(f, constants, key, arr)
  {
    ghost var step := AbsorbOn(f, constants, key);
    r, c := 0, 0;
    var i := 0;
    while i < |arr|
      invariant 0 <= i <= |arr| && (r, c) == Fold(step, (0, 0), arr[..i])
    {
      FoldNext(step, (0, 0), arr, i);
      r, c := HashAdded(f, constants, r, c, arr[i], key);
      i := i + 1;
    }
    assert arr[..|arr|] == arr;
  }

  method HashState(f: Field, constants: seq<int>, left: int, right: int, key: int) returns (r: int, c: int)
    requires f.p > 0 && |constants| >= 2 && constants[0] == 0
    ensures (r, c) == PermuteOn(f, constants, key)((left, right))
  {
    r, c := Hash(f, constants, left, right, key);
  }

  method HashAdded(f: Field, constants: seq<int>, left: int, right: int, x: int, key: int) returns (r: int, c: int)
    requires f.p > 0 && |constants| >= 2 && constants[0] == 0
    ensures (r, c) == AbsorbOn(f, constants, key)((left, right), x)
  {
    r := f.Add(left, x);
    r, c := Hash(f, constants, r, right, key);
  }

  lemma FoldNext(step: (State, int) -> State, s: State, inputs: seq<int>, i: nat)
    requires i < |inputs|
    ensures Fold(step, s, inputs[..i + 1]) == step(Fold(step, s, inputs[..i]), inputs[i])
  {
    assert inputs[..i + 1][..i] == inputs[..i];
  }

  lemma {:induction false} AbsorbedIsState(f: Field, constants: seq<int>, key: int, inputs: seq<int>)
    requires f.p > 0
    ensures IsState(f, Absorbed(f, constants, key, inputs))
  {
    if inputs != [] {
      AbsorbedIsState(f, constants, key, inputs[..|inputs| - 1]);
      var s := Absorbed(f, constants, key, inputs[..|inputs| - 1]);
      FeistelBijective(f, t => Pow5(f, t), key, constants, (f.Add(s.0, inputs[|inputs| - 1]), s.1));
    }
  }

  /** After the same inputs, the full state tells the next input: nothing absorbed is lost. */
  lemma AbsorbInjective(f: Field, constants: seq<int>, key: int, inputs: seq<int>, x: int, y: int)
    requires f.p > 0 && f.Element(x) && f.Element(y)
    requires Absorbed(f, constants, key, inputs + [x]) == Absorbed(f, constants, key, inputs + [y])
    ensures x == y
  {
    AbsorbedIsState(f, constants, key, inputs);
    var s, g := Absorbed(f, constants, key, inputs), (t: int) => Pow5(f, t);
    assert (inputs + [x])[..|inputs|] == inputs && (inputs + [y])[..|inputs|] == inputs;
    FeistelBijective(f, g, key, constants, (f.Add(s.0, x), s.1));
    FeistelBijective(f, g, key, constants, (f.Add(s.0, y), s.1));
    UndoAdd(f, x, s.0);
    UndoAdd(f, y, s.0);
    assert f.Sub(f.Add(x, s.0), s.0) == x && f.Add(s.0, x) == f.Add(x, s.0);
  }
}
