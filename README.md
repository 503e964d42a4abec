# Thermo-AI quickstart agent, modelled in Dafny

`quickstart.py` of Thermo-AI defines a toy metabolic agent. An `Agent` is
born with 100 units of energy, age 0 and a metabolic cost drawn uniformly
from 10 to 30 inclusive. `live()` is its life: while its energy is
positive it grows one year older and pays its metabolic cost.

`quickstart.dfy` models this as module `Quickstart`:

- class `Agent`, with the fields `energy`, `age` and `metabolicConstraints`;
- its constructor, which takes the cost as a parameter instead of drawing it;
- `Live`, the decay loop as a `while` loop with invariants;
- `Run`, the script's entry point (create an agent, let it live).

Beside the class sit the specification functions and their lemmas:

- `StepsUntilDeath(energy, cost)` is the number of iterations the loop makes.
  It is proved to be the least `n` with `n * cost >= energy`
  (`StepsUntilDeathExhausts`, `StepsUntilDeathIsLeast`).
  For positive energy, it is also proved equal to the ceiling of
  `energy / cost` (`StepsUntilDeathIsCeiling`).
- `Lifespan(cost)` is the age at which a newborn agent dies. It always lies
  between 4 and 10, and equals the ceiling of `100 / cost` (`LifespanIsCeiling`).
- `Reachable(energy, age, cost)` describes the states an agent can be in.
  The cost lies in the allowed range. The energy equals
  `100 - age * cost`. The agent has gone at most one step past exhaustion.
  The constructor establishes it, each loop iteration preserves it
  (`DecayStep`), and `DecayEnd` describes where the loop leaves it.
  The class invariant `Agent.Valid` is `Reachable` of the fields.

## Model

| member | source | states |
|---|---|---|
| `Quickstart.StepsUntilDeath` | quickstart.py:10-12 | The loop's iteration count from a given energy and cost. It is zero exactly when the energy is not positive, that is, when the guard fails at once. |
| `Quickstart.StepsUntilDeathExhausts` | quickstart.py:10-12 | That many payments of the cost use up the energy. With one payment fewer, the energy is still positive. |
| `Quickstart.StepsUntilDeathIsLeast` | quickstart.py:10-12 | No smaller number of payments exhausts the energy. So the guard `energy > 0` holds at every iteration boundary before the last one. |
| `Quickstart.StepsUntilDeathUnique` | quickstart.py:10-12 | If the energy left after `n` payments lies in `(-cost, 0]`, then the loop ran exactly `n` times. |
| `Quickstart.StepsUntilDeathIsCeiling` | quickstart.py:10-12 | For positive energy, the iteration count equals the ceiling of energy divided by cost, written `(energy + cost - 1) / cost`. |
| `Quickstart.StepsUntilDeathMonotone` | quickstart.py:10-12 | Starting with more energy never gives fewer iterations. |
| `Quickstart.StepsUntilDeathAntitone` | quickstart.py:7-12 | A higher metabolic cost never gives more iterations. |
| `Quickstart.Lifespan` | quickstart.py:5-12 | A newborn agent with a cost in `[10, 30]` lives between 4 and 10 years. |
| `Quickstart.LifespanIsCeiling` | quickstart.py:5-12 | A newborn agent's lifespan is exactly the ceiling of 100 divided by its cost, written `(100 + cost - 1) / cost`. |
| `Quickstart.DecayStep` | quickstart.py:10-12 | One iteration taken with positive energy (age + 1, energy - cost) leads from a reachable state to a reachable state. So `energy == 100 - age * cost` holds at every iteration boundary. |
| `Quickstart.DecayEnd` | quickstart.py:10-12 | The loop leaves a reachable state once energy is not positive. At that point the age has grown by the predicted iteration count. The energy has dropped by one cost per year aged. The age equals the lifespan. If the agent was already dead, the state is unchanged. |
| `Quickstart.Agent.constructor` | quickstart.py:4-7 | A new agent has energy 100, age 0 and the given cost. The cost must lie in the inclusive range `[10, 30]` of `random.randint(10, 30)`. The new agent satisfies the class invariant. |
| `Quickstart.Agent.Live` | quickstart.py:9-13 | Terminates, with `decreases energy` (the cost is at least 10). Keeps the class invariant and changes only `energy` and `age`, so the cost stays the same. The age grows by exactly `StepsUntilDeath(old energy, cost)` and ends at `Lifespan(cost)`. The energy drops by the cost once per year aged and ends in `(-cost, 0]`. Called on a dead agent (energy not positive), it changes nothing, so a second call is a no-op. |
| `Quickstart.Run` | quickstart.py:17-19 | Creating an agent with a cost in `[10, 30]` and letting it live ends at an age between 4 and 10. That age is `Lifespan(cost)`. The final energy is `100 - age * cost`, in `(-cost, 0]`. |

## Left out

- The `print` calls in `live` and after it (quickstart.py:13, quickstart.py:15) are left out. They are console output with no effect on the state.
- `random.randint(10, 30)` (quickstart.py:1, quickstart.py:7) is not modelled. Randomness comes from an external library. The drawn cost is a constructor parameter instead, with a precondition matching randint's inclusive range.
- `Quickstart.Agent.Live`: requires the class invariant. Python fields are public, so a caller could set the cost to zero or below from outside. With positive energy, `live()` would then loop forever. The model rules out such external writes.
- Python integers are unbounded, and so are Dafny's `int`. No wrap-around is involved.
- The thermodynamic organism (`BioDigitalOrganism`, its death modes, survival probability, Expected-Free-Energy evaluation and refusal policy) is not part of this model. The scripts under `tests/` only drive it and print results. It lives in `src/thermodynamic_agency`. Its state is also floating point.
