/** A model of the toy metabolic agent of the quickstart script: an agent
    starts with 100 units of energy and age 0, and every step of its life it
    grows one year older and pays a fixed metabolic cost, until its energy is
    no longer positive. */
module Quickstart {

  /** Energy every agent is born with. */
  const InitialEnergy: int := 100

  /** Inclusive bounds of the metabolic cost drawn at birth. */
  const MinCost: int := 10
  const MaxCost: int := 30

  /** The number of steps the decay loop runs when it starts at `energy` and
      each step costs `cost`. The loop runs at all exactly when the energy is
      positive; `StepsUntilDeathExhausts` shows that this is the least number
      of payments of `cost` that use up `energy`. */
  function StepsUntilDeath(energy: int, cost: int): (n: nat)
    requires cost > 0
    ensures n == 0 <==> energy <= 0
    decreases energy
  {
    if energy <= 0 then 0 else 1 + StepsUntilDeath(energy - cost, cost)
  }

  /** `StepsUntilDeath(energy, cost)` payments of `cost` use up `energy`,
      and one payment fewer does not. */
  lemma {:induction false} StepsUntilDeathExhausts(energy: int, cost: int)
    requires cost > 0
    ensures energy <= StepsUntilDeath(energy, cost) * cost
    ensures StepsUntilDeath(energy, cost) > 0 ==> (StepsUntilDeath(energy, cost) - 1) * cost < energy
    decreases energy
  {
    if energy > 0 {
      var m := StepsUntilDeath(energy - cost, cost);
      StepsUntilDeathExhausts(energy - cost, cost);
      assert (m + 1) * cost == m * cost + cost;
      assert m * cost == (m - 1) * cost + cost;
    }
  }

  /** Multiplying by a non-negative factor preserves order. */
  lemma MulMonotone(a: int, b: int, k: int)
    requires a <= b && 0 <= k
    ensures a * k <= b * k
  {
  }

  /** No smaller number of payments than `StepsUntilDeath` exhausts the
      energy: after any earlier step the agent is still alive. */
  lemma StepsUntilDeathIsLeast(energy: int, cost: int, k: nat)
    requires cost > 0
    requires energy <= k * cost
    ensures StepsUntilDeath(energy, cost) <= k
  {
    var n := StepsUntilDeath(energy, cost);
    StepsUntilDeathExhausts(energy, cost);
    if k < n {
      MulMonotone(k, n - 1, cost);
      assert false;
    }
  }

  /** A state whose energy lies in (-cost, 0] after `n` payments was reached
      by exactly `StepsUntilDeath` steps. */
  lemma StepsUntilDeathUnique(energy: int, cost: int, n: nat)
    requires cost > 0
    requires -cost < energy - n * cost <= 0
    ensures StepsUntilDeath(energy, cost) == n
  {
    var m := StepsUntilDeath(energy, cost);
    StepsUntilDeathExhausts(energy, cost);
    StepsUntilDeathIsLeast(energy, cost, n);
    if m < n {
      MulMonotone(m, n - 1, cost);
      assert false;
    }
  }

  /** Integer division is determined by its defining inequalities. */
  lemma DivUnique(x: int, d: int, q: int)
    requires d > 0
    requires q * d <= x < q * d + d
    ensures x / d == q
  {
    var r := x / d;
    assert x == r * d + x % d;
    if r < q {
      MulMonotone(r + 1, q, d);
      assert false;
    } else if r > q {
      MulMonotone(q + 1, r, d);
      assert false;
    }
  }

  /** The loop count is the ceiling of `energy / cost`. */
  lemma StepsUntilDeathIsCeiling(energy: int, cost: int)
    requires energy > 0 && cost > 0
    ensures StepsUntilDeath(energy, cost) == (energy + cost - 1) / cost
  {
    var n := StepsUntilDeath(energy, cost);
    StepsUntilDeathExhausts(energy, cost);
    assert n * cost == (n - 1) * cost + cost;
    DivUnique(energy + cost - 1, cost, n);
  }

  /** More energy never means fewer steps. */
  lemma {:induction false} StepsUntilDeathMonotone(less: int, more: int, cost: int)
    requires cost > 0 && less <= more
    ensures StepsUntilDeath(less, cost) <= StepsUntilDeath(more, cost)
    decreases more
  {
    if less > 0 {
      StepsUntilDeathMonotone(less - cost, more - cost, cost);
    }
  }

  /** A costlier metabolism never lives longer. */
  lemma {:induction false} StepsUntilDeathAntitone(energy: int, cheap: int, dear: int)
    requires 0 < cheap <= dear
    ensures StepsUntilDeath(energy, dear) <= StepsUntilDeath(energy, cheap)
    decreases energy
  {
    if energy > 0 {
      StepsUntilDeathAntitone(energy - dear, cheap, dear);
      StepsUntilDeathMonotone(energy - dear, energy - cheap, cheap);
    }
  }

  /** The age at which an agent born with metabolic cost `cost` dies, the
      ceiling of 100 / cost by `LifespanIsCeiling`: for the allowed costs,
      between 4 and 10 years. */
  function Lifespan(cost: int): (n: nat)
    requires MinCost <= cost <= MaxCost
    ensures 4 <= n <= 10
  {
    StepsUntilDeathAntitone(InitialEnergy, cost, MaxCost);
    StepsUntilDeathAntitone(InitialEnergy, MinCost, cost);
    assert StepsUntilDeath(InitialEnergy, MaxCost) == 4;
    assert StepsUntilDeath(InitialEnergy, MinCost) == 10;
    StepsUntilDeath(InitialEnergy, cost)
  }

  /** The lifespan is exactly the ceiling of 100 / cost. */
  lemma LifespanIsCeiling(cost: int)
    requires MinCost <= cost <= MaxCost
    ensures Lifespan(cost) == (InitialEnergy + cost - 1) / cost
  {
    StepsUntilDeathIsCeiling(InitialEnergy, cost);
  }

  /** The states an agent can reach: its cost was drawn from the allowed
      range, every year of its age has been paid for out of the initial
      energy, and it has paid at most one step beyond exhaustion. */
  predicate Reachable(energy: int, age: int, cost: int)
  {
    MinCost <= cost <= MaxCost &&
    0 <= age &&
    energy == InitialEnergy - age * cost &&
    -cost < energy
  }

  /** One step of the decay loop, taken while energy is positive, leads
      from a reachable state to a reachable state. */
  lemma DecayStep(energy: int, age: int, cost: int)
    requires Reachable(energy, age, cost) && energy > 0
    ensures Reachable(energy - cost, age + 1, cost)
  {
  }

  /** Where the decay loop stops: started in a reachable state, it ends in
      the reachable state with no energy left. That state has aged by the
      number of steps `StepsUntilDeath` predicts, has paid one cost per step,
      has reached the lifespan of its cost, and is the starting state itself
      when the agent was already dead. */
  lemma DecayEnd(energy0: int, age0: int, energy: int, age: int, cost: int)
    requires Reachable(energy0, age0, cost) && Reachable(energy, age, cost)
    requires age0 <= age && energy <= 0
    ensures age == age0 + StepsUntilDeath(energy0, cost)
    ensures energy == energy0 - (age - age0) * cost
    ensures age == Lifespan(cost)
    ensures energy0 <= 0 ==> energy == energy0 && age == age0
  {
    assert (age - age0) * cost == age * cost - age0 * cost;
    StepsUntilDeathUnique(energy0, cost, age - age0);
    StepsUntilDeathUnique(InitialEnergy, cost, age);
  }

  class Agent {
    var energy: int
    var age: int
    var metabolicConstraints: int

    /** The object invariant: the agent is in a reachable state. */
    ghost predicate Valid()
      reads this
    {
      Reachable(energy, age, metabolicConstraints)
    }

    /** Birth: full energy, age 0, and the given metabolic cost. */
    constructor (cost: int)
      requires MinCost <= cost <= MaxCost
      ensures Valid()
      ensures energy == InitialEnergy && age == 0 && metabolicConstraints == cost
    {
      energy := InitialEnergy;
      age := 0;
      metabolicConstraints := cost;
    }

    /** Runs the decay loop until energy is no longer positive. */
    method Live()
      requires Valid()
      modifies this`energy, this`age
      ensures Valid()
      ensures metabolicConstraints == old(metabolicConstraints)
      ensures age == old(age) + StepsUntilDeath(old(energy), metabolicConstraints)
      ensures energy == old(energy) - (age - old(age)) * metabolicConstraints
      ensures -metabolicConstraints < energy <= 0
      ensures age == Lifespan(metabolicConstraints)
      ensures old(energy) <= 0 ==> energy == old(energy) && age == old(age)
    {
      while energy > 0
        invariant Valid()
        invariant old(age) <= age
        decreases energy
      {
        DecayStep(energy, age, metabolicConstraints);
        age := age + 1;
        energy := energy - metabolicConstraints;
      }
      DecayEnd(old(energy), old(age), energy, age, metabolicConstraints);
    }
  }

  /** The script's entry point: an agent is born with the drawn cost and
      lives its whole life. It dies at the lifespan of its cost, with energy
      at most zero and less than one step's cost below it. */
  method Run(cost: int) returns (age: int, energy: int)
    requires MinCost <= cost <= MaxCost
    ensures age == Lifespan(cost) && 4 <= age <= 10
    ensures energy == InitialEnergy - age * cost
    ensures -cost < energy <= 0
  {
    var agent := new Agent(cost);
    agent.Live();
    age, energy := agent.age, agent.energy;
  }
}
