# Genetic string search, modelled in Dafny

The engine in `index.js` tries to type a target word at random. A
*member* is a candidate string of lowercase letters, as long as the target.
Its fitness is the fraction of positions where it matches the target. A
*population* of members evolves for a fixed number of generations. In each
generation it builds a fitness-proportional mating pool, where a member
appears `floor(fitness * 100) || 1` times. It then replaces every member,
slot by slot, with a mutated child of two parents drawn from that pool.

The model follows the source's own shape. It has four modules:

- `Draws` holds `random` and `generateLetter`. Every value `Math.random()`
  would return is an explicit argument `u` with `0 <= u < 1`, so the helpers
  are deterministic.
- `Members` holds the class `Member`. Its keys are reassigned in place by its
  constructor loop, its crossover loop and its mutation loop. Beside the class
  sit the value-level functions that specify those loops: `Matches`, `Cross`
  and `Mutated`.
- `Selection` holds the mating pool as a value. It defines each member's
  multiplicity, the pool `Replicate(members, counts)`, and lemmas about
  the pool's block layout, its size and its exact counts.
- `Populations` holds the class `Population`: its constructor, the pool
  loop `SelectMembersForMating`, the in-place `Reproduce`, and `Evolve`.
  Each is proved against value-level functions: `Generation` (one child
  per slot), `NextGeneration` (select, then reproduce) and `Evolved` (any
  number of generations).

The random values each step consumes are grouped per reproduction slot in
`SlotDraws`. One generation takes one `SlotDraws` per member, and a run of
`g` generations takes `g` such sequences.

Fitness is modelled as the exact rational `matches / |target|`. The lemma
`MultiplicityFromFitness` shows that `Math.floor(fitness * 100) || 1` on that
value equals the integer `max(matches * 100 / |target|, 1)`.

## Model

| member | source | states |
|---|---|---|
| Draws.Random | index.js:16-22 | for a draw `u` in [0, 1), `random(min, max)` lands in [min, max) when min < max, and is `min` when min == max |
| Draws.GenerateLetter | index.js:24-27 | the character drawn from codes [97, 123) is one of 'a'..'z' |
| Draws.Letters | index.js:34-36 | the letters made from n draws are n lowercase letters, position i being the letter of draw i |
| Members.Member.constructor | index.js:30-37 | a new member keeps the target and has one lowercase letter per target position, the i-th from the i-th draw |
| Members.Matches | index.js:40-46 | the number of matching positions among the first n never exceeds n |
| Members.MatchesAllIff | index.js:40-46 | all of the first n positions match exactly when the two prefixes are equal |
| Members.RatioBounds | index.js:48 | a count m out of len gives m / len in [0, 1], equal to 1 exactly when m == len |
| Members.Member.Fitness | index.js:39-49 | fitness is the match count divided by the target length, lies in [0, 1], and is 1 exactly when the keys spell the target |
| Members.MatchesAgree | index.js:40-46 | positions where two strings agree contribute equally to their match counts |
| Members.Cross | index.js:51-65 | the child has the target's length; position i comes from this member when i > midpoint and from the partner otherwise; lowercase parents give a lowercase child; identical parents give that same string |
| Members.CrossMatches | index.js:51-65 | the child's match count is the partner's matches up to the midpoint plus this member's matches after it |
| Members.Member.Crossover | index.js:51-65 | returns a fresh, well-formed child over the same target whose keys are the split of the two parents at a midpoint drawn from [0, length); neither parent is modified (the method may modify nothing but the fresh child) |
| Members.Mutated | index.js:67-75 | mutation keeps the length; a position changes only when its coin is below the rate, and every position whose coin is below the rate holds the letter of its replacement draw; lowercase stays lowercase; rate <= 0 changes nothing; rate >= 1 redraws every position |
| Members.Member.Mutate | index.js:67-75 | the keys are updated in place to the mutated keys and the member stays well formed |
| Selection.Repeat | index.js:105-107 | the inner push loop adds n copies of the member and nothing else |
| Selection.RepeatCount | index.js:105-107 | n copies of x hold x exactly n times and nothing else |
| Selection.Replicate | index.js:96-111 | the pool's length is the sum of the counts, and every pool entry is one of the members |
| Selection.SumBounds | index.js:103 | counts between 1 and 100 add up to between n and 100 * n |
| Selection.ReplicateBlock | index.js:99-108 | the copies of member i fill a contiguous block starting at the sum of the earlier counts, and the blocks follow member order |
| Selection.ReplicatePrefix | index.js:99-108 | handling one more member appends exactly its block to the pool built so far |
| Selection.ReplicateOnes | index.js:103 | when every count is 1, the pool is the population itself |
| Selection.ReplicateCount | index.js:96-111 | for distinct members, member i occurs exactly c[i] times in the pool |
| Selection.Multiplicity | index.js:103 | a member's number of copies lies in [1, 100] and is 100 exactly when it spells the target |
| Selection.ScaledBounds | index.js:103 | `matches * 100 / len` lies in [0, 100] and is 100 exactly when all positions match |
| Selection.FitnessFloor | index.js:103 | `Math.floor(fitness * 100)`, with the fitness `m / len` that index.js:48 returns taken as the exact fraction, equals the integer quotient `m * 100 / len` |
| Selection.MultiplicityFromFitness | index.js:103 | `Math.floor(fitness * 100) \|\| 1`, applied to the fitness the source computes, equals the member's multiplicity |
| Selection.LowMultiplicity | index.js:103 | a member with fitness below 1% (in particular fitness 0) goes into the pool once |
| Selection.CountBounds | index.js:99-108 | the counts of n members add up to between n and 100 * n entries, and a member gets the full 100 copies exactly when it spells the target |
| Selection.MatingPool | index.js:96-111 | a pool over n members has between n and 100 * n entries (empty exactly when there are no members) and holds only members |
| Selection.LowFitnessPool | index.js:96-111 | when every member is below 1% fitness, the pool is the population itself |
| Populations.Offspring | index.js:116-124 | a child bred from a pool of target-length strings has the target's length |
| Populations.Generation | index.js:113-127 | reproduction yields one child per slot, each of the target's length and lowercase |
| Populations.InheritedLetter | index.js:116-124 | each letter of a child is at the same position of some pool entry unless that position's mutation coin fell below the rate |
| Populations.NextGeneration | index.js:90-93 | one generation keeps the population size, and every member stays a lowercase string of the target's length |
| Populations.Evolved | index.js:89-94 | any number of generations keeps the size and the lowercase target-length form |
| Populations.EvolvedStep | index.js:90-93 | running g + 1 generations is running g and then one more |
| Populations.UniformGenerationStable | index.js:96-127 | with mutation rate <= 0, a population of copies of one string breeds only copies of that string |
| Populations.UniformPopulationStable | index.js:89-94 | with mutation rate <= 0, a uniform population stays the same through any number of generations |
| Populations.GenesReplicate | index.js:96-111 | the keys of a pool of member objects are the pool built from their keys |
| Populations.PoolOfMembers | index.js:96-111 | the pool built from valid members holds only valid members over the same target, and its keys are the mating pool of their keys |
| Populations.Population.PoolCopies | index.js:96-111 | in a valid population, each member object appears in the pool exactly its multiplicity many times |
| Populations.Population.constructor | index.js:79-87 | builds `size` fresh, distinct members for positive `size`, one member for size 0 and none for a negative size; all share the target and spell their draws |
| Populations.Population.SelectMembersForMating | index.js:96-111 | the pool is each member, in order, repeated by its multiplicity |
| Populations.Population.Reproduce | index.js:113-127 | the population keeps its size and stays valid; slot i becomes a fresh child, the mutated crossover of the two pool entries its draws pick; the pool members' keys are left unchanged |
| Populations.Population.Breed | index.js:90-93 | one round of selection and reproduction turns the members' keys into the next generation of them |
| Populations.Population.Evolve | index.js:89-94 | after g rounds the keys are the g-fold evolved population; the size is unchanged and g <= 0 changes nothing |

## Left out

- The DOM and UI code is not modelled: element lookups, rendering, `console.log`, input validation and the click handlers. They hold no algorithmic content.
- `Math.random` itself is left out. Each value it returns is an explicit draw in [0, 1), so the model covers every possible run but says nothing about how likely one is.
- The order in which draws are consumed is grouped per slot in `SlotDraws`. That grouping is parent A, parent B, the child's construction letters, the midpoint, then one coin and one replacement letter per position. The source takes the replacement letter only when the coin falls below the rate, so some supplied letters go unused. This changes which stream of numbers yields which run, but not the set of possible runs.
- Selection.Multiplicity: IEEE float rounding in `matches / length` and `fitness * 100` is not modelled. The fitness is the exact fraction, so the model's count can be one higher than the source's at exact multiples. For example, in floats `29 / 100 * 100` is `28.999…`. Every property that relies only on the bounds 1..100 holds either way.
- Members.Member.Fitness: the target must be non-empty. With an empty target the source divides 0 by 0, and the resulting NaN makes the multiplicity 1.
- Populations.Population.constructor: `size` is an integer. The JavaScript coercions of `size || 1` (a string "0" is truthy and yields no members; `undefined` is falsy and becomes 1) are not modelled beyond 0 → 1 and negative → no members.
- The target is a sequence of Dafny characters (Unicode scalar values). JavaScript's `target.length` and `target[i]` count UTF-16 code units, so the two agree only for text inside the Basic Multilingual Plane. For a target with a character outside it, such as an emoji, the source builds more keys per member and divides by a larger length.
- The mutation rate is not validated by the source, and it is an arbitrary real here.
- Draws.Random: the `Math.ceil`/`Math.floor` on its bounds are the identity on the integer arguments the engine passes, and are not modelled for non-integer bounds.
- Population does not store the target in the source; the model's `target` is a ghost field naming the string every member shares.
- `Populations.Population.Breed` is the body of the `evolve` loop, written as a method of its own.
