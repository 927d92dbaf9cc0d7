/** Repeating a fallible step a fixed number of times while recording an
    observation after every step: the shape of a puzzle's "play n rounds"
    loop.  The lemmas here are stated for any step, so a game's rounds can
    be reasoned about one round at a time. */
module Iteration {
  import opened Results

  /** `n` steps from `s`, or the first failure. */
  function Repeat<S>(s: S, n: nat, step: S -> Result<S>): Result<S>
    decreases n
  {
    if n == 0 then Ok(s)
    else
      match step(s)
      case Err(e) => Err(e)
      case Ok(next) => Repeat(next, n - 1, step)
  }

  /** Steps that keep two states related make repetitions that fail
      together and end in related states. */
  lemma {:induction false} RepeatSimulation<S>(a: S, b: S, n: nat, stepA: S -> Result<S>, stepB: S -> Result<S>,
                                               related: (S, S) -> bool)
    requires related(a, b)
    requires forall x, y :: related(x, y) ==>
               stepA(x).Ok? == stepB(y).Ok? &&
               (stepA(x).Ok? ==> related(stepA(x).value, stepB(y).value))
    ensures Repeat(a, n, stepA).Ok? == Repeat(b, n, stepB).Ok?
    ensures Repeat(a, n, stepA).Ok? ==> related(Repeat(a, n, stepA).value, Repeat(b, n, stepB).value)
    decreases n
  {
    if n > 0 && stepA(a).Ok? {
      RepeatSimulation(stepA(a).value, stepB(b).value, n - 1, stepA, stepB, related);
    }
  }

  /** Steps that agree on the states satisfying `holds`, which the steps
      keep, give the same repetition from any such state. */
  lemma {:induction false} RepeatAgreement<S>(s: S, n: nat, stepA: S -> Result<S>, stepB: S -> Result<S>,
                                              holds: S -> bool)
    requires holds(s)
    requires forall x :: holds(x) ==>
               stepA(x) == stepB(x) && (stepA(x).Ok? ==> holds(stepA(x).value))
    ensures Repeat(s, n, stepA) == Repeat(s, n, stepB)
    decreases n
  {
    if n > 0 && stepA(s).Ok? {
      RepeatAgreement(stepA(s).value, n - 1, stepA, stepB, holds);
    }
  }

  /** A state that is good for `k` more steps takes one step to a state
      good for `k - 1`: then `n` steps from a state good for `n` all
      succeed and end in a state good for none more. */
  lemma {:induction false} RepeatBudget<S>(s: S, n: nat, step: S -> Result<S>, good: (S, nat) -> bool)
    requires good(s, n)
    requires forall x, k: nat :: 0 < k && good(x, k) ==> step(x).Ok? && good(step(x).value, k - 1)
    ensures Repeat(s, n, step).Ok? && good(Repeat(s, n, step).value, 0)
    decreases n
  {
    if n > 0 {
      RepeatBudget(step(s).value, n - 1, step, good);
    }
  }

  /** `n` steps from `s`: the final state and the observation after each
      step, or the first failure. */
  function Iterate<S, O>(s: S, n: nat, step: S -> Result<S>, observe: S -> O): (r: Result<(S, seq<O>)>)
    ensures r.Ok? ==> |r.value.1| == n
    decreases n
  {
    if n == 0 then Ok((s, []))
    else
      match step(s)
      case Err(e) => Err(e)
      case Ok(next) =>
        match Iterate(next, n - 1, step, observe)
        case Err(e) => Err(e)
        case Ok(rest) => Ok((rest.0, [observe(next)] + rest.1))
  }

  /** Two iterations whose states stay related: if related states fail
      together and step to related states with equal observations, the
      iterations fail together, end in related states and record the same
      observations. */
  lemma {:induction false} Simulation<S, O>(a: S, b: S, n: nat, stepA: S -> Result<S>, stepB: S -> Result<S>,
                                            observe: S -> O, related: (S, S) -> bool)
    requires related(a, b)
    requires forall x, y :: related(x, y) ==>
               stepA(x).Ok? == stepB(y).Ok? &&
               (stepA(x).Ok? ==> related(stepA(x).value, stepB(y).value) &&
                                 observe(stepA(x).value) == observe(stepB(y).value))
    ensures Iterate(a, n, stepA, observe).Ok? == Iterate(b, n, stepB, observe).Ok?
    ensures Iterate(a, n, stepA, observe).Ok? ==>
              related(Iterate(a, n, stepA, observe).value.0, Iterate(b, n, stepB, observe).value.0) &&
              Iterate(a, n, stepA, observe).value.1 == Iterate(b, n, stepB, observe).value.1
    decreases n
  {
    if n > 0 && stepA(a).Ok? {
      Simulation(stepA(a).value, stepB(b).value, n - 1, stepA, stepB, observe, related);
    }
  }

  /** Two steps that agree on every state satisfying `holds`, which both
      steps keep, give the same iteration from any such state. */
  lemma {:induction false} Agreement<S, O>(s: S, n: nat, stepA: S -> Result<S>, stepB: S -> Result<S>,
                                           observe: S -> O, holds: S -> bool)
    requires holds(s)
    requires forall x :: holds(x) ==>
               stepA(x) == stepB(x) && (stepA(x).Ok? ==> holds(stepA(x).value))
    ensures Iterate(s, n, stepA, observe) == Iterate(s, n, stepB, observe)
    decreases n
  {
    if n > 0 && stepA(s).Ok? {
      Agreement(stepA(s).value, n - 1, stepA, stepB, observe, holds);
    }
  }

  /** A reflexive and transitive relation that every step respects holds
      between the start and the final state, and every recorded
      observation is taken from a state between the two. */
  lemma {:induction false} Progress<S, O>(s: S, n: nat, step: S -> Result<S>, observe: S -> O,
                                          before: (S, S) -> bool)
    requires forall x :: before(x, x)
    requires forall x, y, z :: before(x, y) && before(y, z) ==> before(x, z)
    requires forall x :: step(x).Ok? ==> before(x, step(x).value)
    ensures Iterate(s, n, step, observe).Ok? ==>
              var r := Iterate(s, n, step, observe).value;
              before(s, r.0) &&
              forall k :: 0 <= k < n ==> exists m :: before(s, m) && before(m, r.0) && r.1[k] == observe(m)
    ensures Iterate(s, n, step, observe).Ok? && n > 0 ==>
              var r := Iterate(s, n, step, observe).value;
              r.1[n - 1] == observe(r.0)
    decreases n
  {
    if n > 0 && step(s).Ok? && Iterate(step(s).value, n - 1, step, observe).Ok? {
      var next := step(s).value;
      var rest := Iterate(next, n - 1, step, observe).value;
      Progress(next, n - 1, step, observe, before);
      var r := Iterate(s, n, step, observe).value;
      assert r == (rest.0, [observe(next)] + rest.1);
      forall k | 0 <= k < n
        ensures exists m :: before(s, m) && before(m, r.0) && r.1[k] == observe(m)
      {
        if k == 0 {
          assert before(s, next) && before(next, r.0) && r.1[k] == observe(next);
        } else {
          var m :| before(next, m) && before(m, rest.0) && rest.1[k - 1] == observe(m);
          Chain(s, next, m, before);
          assert before(s, m) && before(m, r.0) && r.1[k] == observe(m);
        }
      }
      Chain(s, next, r.0, before);
      if n == 1 {
        assert Iterate(next, 0, step, observe) == Ok((next, []));
      } else {
        assert r.1[n - 1] == rest.1[n - 2];
      }
    }
  }

  /** One use of transitivity. */
  lemma Chain<S>(a: S, b: S, c: S, before: (S, S) -> bool)
    requires forall x, y, z :: before(x, y) && before(y, z) ==> before(x, z)
    requires before(a, b) && before(b, c)
    ensures before(a, c)
  {
  }
}
