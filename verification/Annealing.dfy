/** Simulated annealing over tours: batches of neighbours, unconditional moves and the best-so-far record. */
module Annealing {
  import opened Tours

  datatype Config = Config(maxIterations: nat, minTemperature: real, initialTemperature: real, workers: nat,
                           maxStagnation: nat)

  /** When a fault strikes, if at all: before the numbered round or after its update, counting from 0. */
  datatype Fault = NoFault | Before(round: nat) | After(round: nat)

  /** Why a run stopped. */
  datatype Ending = NothingToDo | Exhausted | Cooled | Stagnated | Faulted

  /** After how many rounds, and why, a run may have ended. */
  ghost predicate EndsAt(config: Config, temperatures: nat -> real, fault: Fault, ended: Ending, iteration: nat,
                         temperature: real, rounds: nat) {
    && rounds <= config.maxIterations && temperature == TemperatureAfter(config, temperatures, iteration)
    && iteration == (if ended.Faulted? && fault.After? then rounds - 1 else rounds)
    && (ended.NothingToDo? ==> rounds == 0)
    && (ended.Faulted? ==> fault == Before(rounds) || (rounds > 0 && fault == After(rounds - 1)))
    && (ended.Exhausted? ==> rounds == config.maxIterations)
    && (ended.Cooled? ==> temperature <= config.minTemperature)
    && (ended.Stagnated? ==> rounds > 0)
    && (!ended.Faulted? && !ended.NothingToDo? ==> fault.NoFault? || fault.round >= rounds)
  }

  lemma FaultEndsRun(config: Config, temperatures: nat -> real, fault: Fault, iteration: nat, temperature: real,
                     rounds: nat)
    requires rounds <= config.maxIterations && temperature == TemperatureAfter(config, temperatures, iteration)
    requires (fault == Before(rounds) && iteration == rounds) || (fault == After(iteration) && rounds == iteration + 1)
    ensures EndsAt(config, temperatures, fault, Faulted, iteration, temperature, rounds)
  {
  }

  lemma RunEnds(config: Config, temperatures: nat -> real, fault: Fault, ended: Ending, temperature: real, rounds: nat)
    requires rounds <= config.maxIterations && temperature == TemperatureAfter(config, temperatures, rounds)
    requires fault.NoFault? || fault.round >= rounds
    requires match ended
             case Exhausted => rounds == config.maxIterations
             case Cooled => temperature <= config.minTemperature
             case Stagnated => rounds > 0
             case _ => false
    ensures EndsAt(config, temperatures, fault, ended, rounds, temperature, rounds)
  {
  }

  function TemperatureAfter(config: Config, temperatures: nat -> real, rounds: nat): real {
    if rounds == 0 then config.initialTemperature else temperatures(rounds)
  }

  lemma NoRoundsYet(config: Config, temperatures: nat -> real)
    ensures TemperatureAfter(config, temperatures, 0) == config.initialTemperature
  {
  }

  lemma SomeRounds(config: Config, temperatures: nat -> real, rounds: nat)
    ensures rounds > 0 ==> TemperatureAfter(config, temperatures, rounds) == temperatures(rounds)
  {
  }

  // ----- Records of energies -----

  /** `m` is one of `s` and none of them is smaller. */
  predicate IsMinimum(s: seq<real>, m: real) {
    m in s && forall x :: x in s ==> m <= x
  }

  lemma MinimumConcat(a: seq<real>, b: seq<real>, m: real, n: real)
    requires IsMinimum(a, m) && IsMinimum(b, n)
    ensures IsMinimum(a + b, if n < m then n else m)
  {
  }

  /** `m` is the least of the initial energy and every energy evaluated in every batch. */
  ghost predicate IsLeast(initial: real, batches: seq<seq<real>>, m: real) {
    && (m == initial || exists i :: 0 <= i < |batches| && m in batches[i])
    && m <= initial && forall i, x :: 0 <= i < |batches| && x in batches[i] ==> m <= x
  }

  lemma LeastAppend(initial: real, batches: seq<seq<real>>, batch: seq<real>, m: real, n: real)
    requires IsLeast(initial, batches, m) && IsMinimum(batch, n)
    ensures IsLeast(initial, batches + [batch], if n < m then n else m)
  {
    var longer := batches + [batch];
    assert longer[|batches|] == batch;
    assert forall i :: 0 <= i < |batches| ==> longer[i] == batches[i];
  }

  /** What happened so far: the energies of every batch, and the tours moved to, starting with the first. */
  datatype History = History(batches: seq<seq<real>>, tours: seq<Tour>)

  /** Each round evaluated a whole batch and moved to its least energy. */
  ghost predicate IsBatched(batches: seq<seq<real>>, energies: seq<real>, workers: nat) {
    && |batches| == |energies|
    && forall i :: 0 <= i < |batches| ==> |batches[i]| == workers && IsMinimum(batches[i], energies[i])
  }

  /** Each tour is a neighbour of the one before, whether or not it was any better. */
  ghost predicate IsTrail(d: Distances, tours: seq<Tour>, energies: seq<real>) {
    && |tours| == |energies| + 1
    && forall i :: 0 <= i < |energies| ==> IsNeighbor(tours[i], tours[i + 1]) && energies[i] == Length(d, tours[i + 1])
  }

  /** The history explains the recorded energies, the present tour and the best energy. */
  ghost predicate Explains(d: Distances, workers: nat, h: History, energies: seq<real>, current: Tour, best: real) {
    && IsBatched(h.batches, energies, workers) && IsTrail(d, h.tours, energies)
    && h.tours[|energies|] == current && IsLeast(Length(d, h.tours[0]), h.batches, best)
  }

  lemma TrailGrows(d: Distances, tours: seq<Tour>, energies: seq<real>, tour: Tour)
    requires IsTrail(d, tours, energies) && IsNeighbor(tours[|energies|], tour)
    ensures IsTrail(d, tours + [tour], energies + [Length(d, tour)])
  {
    hide IsNeighbor, Length;
  }

  /** One more round, with the candidate it moved to. */
  lemma ExplainsGrows(d: Distances, workers: nat, h: History, energies: seq<real>, current: Tour, best: real,
                      batch: seq<real>, candidate: Tour)
    requires Explains(d, workers, h, energies, current, best)
    requires |batch| == workers && IsMinimum(batch, Length(d, candidate)) && IsNeighbor(current, candidate)
    ensures var e := Length(d, candidate);
            Explains(d, workers, History(h.batches + [batch], h.tours + [candidate]), energies + [e], candidate,
                if e < best then e else best)
  {
    hide IsNeighbor, Length, IsLeast, IsMinimum;
    TrailGrows(d, h.tours, energies, candidate);
    LeastAppend(Length(d, h.tours[0]), h.batches, batch, best, Length(d, candidate));
  }

  /** Each of the last `n` rounds ended on the least energy evaluated until then. */
  ghost predicate StagnantTail(initial: real, batches: seq<seq<real>>, energies: seq<real>, n: nat) {
    && |energies| == |batches| && n <= |energies|
    && forall i :: |energies| - n <= i < |energies| ==> IsLeast(initial, batches[..i + 1], energies[i])
  }

  lemma StagnantTailGrows(initial: real, batches: seq<seq<real>>, energies: seq<real>, n: nat, batch: seq<real>,
                          energy: real)
    requires StagnantTail(initial, batches, energies, n) && IsLeast(initial, batches + [batch], energy)
    ensures StagnantTail(initial, batches + [batch], energies + [energy], n + 1)
  {
    var longer, energies' := batches + [batch], energies + [energy];
    forall i | |energies'| - (n + 1) <= i < |energies'| ensures IsLeast(initial, longer[..i + 1], energies'[i]) {
      if i < |energies| {
        assert longer[..i + 1] == batches[..i + 1];
      } else {
        assert longer[..i + 1] == longer;
      }
    }
  }

  class SAState {
    var currentEnergy: real
    var bestEnergy: real
    var currentSolution: array<nat>
    var bestSolution: array<nat>
    var iteration: nat
    var temperature: real

    constructor (energy: real, solution: array<nat>, temperature: real)
      ensures currentEnergy == energy && bestEnergy == energy && this.temperature == temperature && iteration == 0
      ensures fresh(currentSolution) && fresh(bestSolution)
      ensures currentSolution[..] == solution[..] && bestSolution[..] == solution[..]
    {
      currentEnergy, bestEnergy, iteration, this.temperature := energy, energy, 0, temperature;
      currentSolution := new nat[solution.Length](k requires 0 <= k < solution.Length reads solution => solution[k]);
      bestSolution := new nat[solution.Length](k requires 0 <= k < solution.Length reads solution => solution[k]);
      new;
      assert currentSolution[..] == solution[..];
      assert bestSolution[..] == solution[..];
    }

    /** The end of a round. */
    method Cool(temperature: real, ghost d: Distances, ghost bag: multiset<nat>)
      requires Records(d, bag)
      modifies this`iteration, this`temperature
      ensures iteration == old(iteration) + 1 && this.temperature == temperature && Records(d, bag)
    {
      iteration := iteration + 1;
      this.temperature := temperature;
    }

    /** Both recorded solutions have their recorded energies and are rearrangements of `bag`. */
    ghost predicate Records(d: Distances, bag: multiset<nat>)
      reads this, currentSolution, bestSolution
    {
      && currentEnergy == Length(d, currentSolution[..]) && multiset(currentSolution[..]) == bag
      && bestEnergy == Length(d, bestSolution[..]) && multiset(bestSolution[..]) == bag
    }
  }

  /** Copies an array. */
  method CopyOf(a: array<nat>) returns (b: array<nat>)
    ensures fresh(b) && b[..] == a[..]
  {
    b := new nat[a.Length](k requires 0 <= k < a.Length reads a => a[k]);
    assert b[..] == a[..];
  }

  class SimulatedAnnealing {
    const solver: TSPSolver
    const config: Config
    /** The energy the process moved to in each round. */
    var energies: seq<real>

    constructor (solver: TSPSolver, config: Config)
      ensures this.solver == solver && this.config == config && energies == []
    {
      this.solver, this.config, energies := solver, config, [];
    }

    /** The first candidate of least energy in a batch of neighbours of `current`; `batch` lists the
        energies of the whole batch, and `candidates` its tours. */
    method BestCandidate(current: array<nat>)
      returns (solution: array<nat>, energy: real, ghost batch: seq<real>, ghost candidates: seq<Tour>)
      requires config.workers > 0 && current.Length >= 2
      ensures fresh(solution) && IsNeighbor(current[..], solution[..])
      ensures energy == Length(solver.distances, solution[..])
      ensures |batch| == |candidates| == config.workers && IsMinimum(batch, energy)
      ensures forall k :: 0 <= k < |batch| ==>
                IsNeighbor(current[..], candidates[k]) && batch[k] == Length(solver.distances, candidates[k])
      ensures exists k ::
                0 <= k < |batch| && candidates[k] == solution[..] && forall j :: 0 <= j < k ==> batch[j] > energy
    {
      hide IsNeighbor, Length;
      solution := solver.GenerateNeighbor(current);
      energy := solver.Calculate(solution);
      batch, candidates := [energy], [solution[..]];
      ghost var at := 0;
      for k := 1 to config.workers
        invariant fresh(solution) && IsNeighbor(current[..], solution[..])
        invariant energy == Length(solver.distances, solution[..])
        invariant |batch| == |candidates| == k && IsMinimum(batch, energy)
        invariant forall j :: 0 <= j < k ==>
                    IsNeighbor(current[..], candidates[j]) && batch[j] == Length(solver.distances, candidates[j])
        invariant forall j :: 0 <= j < k ==> energy <= batch[j]
        invariant 0 <= at < k && candidates[at] == solution[..] && forall j :: 0 <= j < at ==> batch[j] > energy
      {
        var candidate := solver.GenerateNeighbor(current);
        var e := solver.Calculate(candidate);
        MinimumConcat(batch, [e], energy, e);
        batch, candidates := batch + [e], candidates + [candidate[..]];
        if e < energy {
          solution, energy, at := candidate, e, k;
        }
      }
    }

    /** Moves to the candidate whether or not it was accepted, and keeps the better of it and the best. */
    method UpdateState(state: SAState, energy: real, solution: array<nat>)
      requires solution != state.currentSolution && solution != state.bestSolution
      modifies state, this`energies
      ensures state.currentEnergy == energy && fresh(state.currentSolution) && state.currentSolution[..] == solution[..]
      ensures energies == old(energies) + [energy]
      ensures state.iteration == old(state.iteration) && state.temperature == old(state.temperature)
      ensures if energy < old(state.bestEnergy)
              then state.bestEnergy == energy && fresh(state.bestSolution) && state.bestSolution[..] == solution[..]
              else state.bestEnergy == old(state.bestEnergy) && state.bestSolution == old(state.bestSolution)
    {
      state.currentEnergy := energy;
      state.currentSolution := CopyOf(solution);
      if energy < state.bestEnergy {
        state.bestEnergy := energy;
        state.bestSolution := CopyOf(solution);
      }
      energies := energies + [energy];
    }

    /** One round: a batch of candidates, and the move to the best of them. */
    method Round(state: SAState, initial: array<nat>, ghost h: History, ghost tail: nat) returns (ghost h': History)
      requires config.workers > 0 && state.currentSolution.Length >= 2
      requires initial != state.currentSolution && initial != state.bestSolution
      requires state.Records(solver.distances, multiset(initial[..]))
      requires Explains(solver.distances, config.workers, h, energies, state.currentSolution[..], state.bestEnergy)
      requires h.tours != [] && IsTail(Length(solver.distances, h.tours[0]), h.batches, energies, tail)
      modifies state, this`energies
      ensures state.Records(solver.distances, multiset(initial[..]))
      ensures Explains(solver.distances, config.workers, h', energies, state.currentSolution[..], state.bestEnergy)
      ensures h.tours <= h'.tours && h.tours != [] && |h'.batches| == |h.batches| + 1
      ensures h'.batches[..|h.batches|] == h.batches
      ensures |energies| == |h'.batches| && energies == old(energies) + [state.currentEnergy]
      ensures h'.tours != [] && h'.tours[0] == h.tours[0] && state.currentSolution.Length == initial.Length
      ensures IsTail(Length(solver.distances, h'.tours[0]), h'.batches, energies,
                if state.bestEnergy < state.currentEnergy then 0 else tail + 1)
      ensures state.bestEnergy <= state.currentEnergy
      ensures fresh(state.currentSolution)
      ensures state.bestSolution == old(state.bestSolution) || fresh(state.bestSolution)
      ensures state.iteration == old(state.iteration) && state.temperature == old(state.temperature)
    {
      hide Length, IsNeighbor, IsLeast, IsMinimum, IsTail;
      var solution, energy, batch, _ := BestCandidate(state.currentSolution);
      NeighborIsMutual(state.currentSolution[..], solution[..]);
      ExplainsGrows(solver.distances, config.workers, h, energies, state.currentSolution[..], state.bestEnergy,
          batch, solution[..]);
      h' := History(h.batches + [batch], h.tours + [solution[..]]);
      UpdateState(state, energy, solution);
      NeighborKeepsSize(state, initial);
      TailAfterRound(solver.distances, config.workers, h', h.batches, old(energies), energies,
          state.currentSolution[..], state.bestEnergy, tail);
    }

    /** The annealing process; `temperatures` gives the temperature after each number of rounds.  It goes on until
        the rounds are used up, the temperature is low enough, `maxStagnation` rounds in a row did end on the best
        energy known, or a fault strikes outside the update of the state; the state reached is returned. */
    method Run(initial: array<nat>, temperatures: nat -> real, fault: Fault)
      returns (state: SAState, ended: Ending, ghost h: History)
      requires energies == []
      modifies this`energies
      ensures fresh(state) && state.Records(solver.distances, multiset(initial[..]))
      ensures Explains(solver.distances, config.workers, h, energies, state.currentSolution[..], state.bestEnergy)
      ensures h.tours != [] && h.tours[0] == initial[..]
      ensures ended.NothingToDo? <==> config.workers == 0 || initial.Length < 2
      ensures EndsAt(config, temperatures, fault, ended, state.iteration, state.temperature, |h.batches|)
      ensures h.batches != [] && !ended.Faulted? ==>
                (ended.Stagnated? <==>
                   StagnantTail(Length(solver.distances, initial[..]), h.batches, energies, config.maxStagnation))
    {
      hide Length, Explains, StagnantTail, IsTail, TemperatureAfter;
      NoRoundsYet(config, temperatures);
      var energy := solver.Calculate(initial);
      state := new SAState(energy, initial, config.initialTemperature);
      h := History([], [initial[..]]);
      NothingEvaluated(solver.distances, config.workers, initial[..]);
      if config.workers == 0 || initial.Length < 2 {
        return state, NothingToDo, h;
      }
      assert state.Records(solver.distances, multiset(initial[..]));
      hide SAState.Records, EndsAt;
      var stagnation := 0;
      ghost var first := Length(solver.distances, initial[..]);
      ended := Exhausted;
      while state.iteration < config.maxIterations && state.temperature > config.minTemperature
        invariant fresh(state) && fresh(state.currentSolution) && fresh(state.bestSolution)
        invariant state.currentSolution.Length == initial.Length
        invariant state.Records(solver.distances, multiset(initial[..]))
        invariant Explains(solver.distances, config.workers, h, energies, state.currentSolution[..], state.bestEnergy)
        invariant state.iteration == |h.batches| == |energies| <= config.maxIterations
        invariant state.temperature == TemperatureAfter(config, temperatures, state.iteration)
        invariant fault.NoFault? || fault.round >= |h.batches|
        invariant h.tours != [] && h.tours[0] == initial[..]
        invariant IsTail(first, h.batches, energies, stagnation)
        invariant ended == Exhausted && (h.batches != [] ==> stagnation < config.maxStagnation)
        decreases config.maxIterations - state.iteration
      {
        if fault == Before(state.iteration) {
          ended := Faulted;
          FaultEndsRun(config, temperatures, fault, state.iteration, state.temperature, |h.batches|);
          break;
        }
        h := Round(state, initial, h, stagnation);
        if fault == After(state.iteration) {
          ended := Faulted;
          FaultEndsRun(config, temperatures, fault, state.iteration, state.temperature, |h.batches|);
          break;
        }
        state.Cool(temperatures(state.iteration + 1), solver.distances, multiset(initial[..]));
        SomeRounds(config, temperatures, state.iteration);
        stagnation := if state.bestEnergy < energies[|energies| - 1] then 0 else stagnation + 1;
        if stagnation >= config.maxStagnation {
          ended := Stagnated;
          RunEnds(config, temperatures, fault, ended, state.temperature, |h.batches|);
          break;
        }
      }
      if ended.Exhausted? {
        ended := if state.iteration < config.maxIterations then Cooled else Exhausted;
        RunEnds(config, temperatures, fault, ended, state.temperature, |h.batches|);
      }
      if h.batches != [] && !ended.Faulted? {
        TailMeans(first, h.batches, energies, stagnation, config.maxStagnation);
      }
    }
  }

  /** `n` is the number of last rounds that did end on the least energy evaluated until then. */
  ghost predicate IsTail(initial: real, batches: seq<seq<real>>, energies: seq<real>, n: nat) {
    && StagnantTail(initial, batches, energies, n)
    && forall m: nat :: m > n ==> !StagnantTail(initial, batches, energies, m)
  }

  lemma TailMeans(initial: real, batches: seq<seq<real>>, energies: seq<real>, n: nat, m: nat)
    requires IsTail(initial, batches, energies, n)
    ensures StagnantTail(initial, batches, energies, m) <==> m <= n
  {
  }

  /** How the run of rounds that ended on the best energy continues. */
  lemma TailAfterRound(d: Distances, workers: nat, h: History, batches: seq<seq<real>>, before: seq<real>,
                       energies: seq<real>, current: Tour, best: real, n: nat)
    requires Explains(d, workers, h, energies, current, best) && |h.batches| == |batches| + 1
    requires h.batches[..|batches|] == batches
    requires |before| == |batches| && energies == before + [energies[|energies| - 1]]
    requires best <= energies[|energies| - 1] && IsTail(Length(d, h.tours[0]), batches, before, n)
    ensures IsTail(Length(d, h.tours[0]), h.batches, energies, if best < energies[|energies| - 1] then 0 else n + 1)
  {
    hide Length, IsLeast, IsNeighbor, StagnantTail;
    var first, last := Length(d, h.tours[0]), |batches|;
    assert h.batches == batches + [h.batches[last]];
    if best == energies[last] {
      StagnantTailGrows(first, batches, before, n, h.batches[last], best);
      forall m: nat | m > n + 1 ensures !StagnantTail(first, h.batches, energies, m) {
        if StagnantTail(first, h.batches, energies, m) {
          TailWithoutLast(first, batches, before, m - 1, h.batches[last], energies[last]);
        }
      }
    } else {
      NoTail(first, h.batches, energies);
      forall m: nat | m > 0 ensures !StagnantTail(first, h.batches, energies, m) {
        LastIsNotLeast(first, h.batches, energies, best, m);
      }
    }
  }

  lemma NoTail(initial: real, batches: seq<seq<real>>, energies: seq<real>)
    requires |batches| == |energies|
    ensures StagnantTail(initial, batches, energies, 0)
  {
  }

  lemma LastIsNotLeast(initial: real, batches: seq<seq<real>>, energies: seq<real>, best: real, m: nat)
    requires energies != [] && IsLeast(initial, batches, best) && best < energies[|energies| - 1] && m > 0
    ensures !StagnantTail(initial, batches, energies, m)
  {
    var n := |energies| - 1;
    assert |batches| == |energies| ==> batches[..n + 1] == batches;
    assert !IsLeast(initial, batches, energies[n]) by {
      if m: real :| m == energies[n] && IsLeast(initial, batches, m) {
        LeastIsUnique(initial, batches, best, m);
      }
    }
  }

  lemma LeastIsUnique(initial: real, batches: seq<seq<real>>, m: real, n: real)
    requires IsLeast(initial, batches, m) && IsLeast(initial, batches, n)
    ensures m == n
  {
  }

  lemma TailWithoutLast(initial: real, batches: seq<seq<real>>, energies: seq<real>, m: nat, batch: seq<real>,
                        energy: real)
    requires |batches| == |energies| && StagnantTail(initial, batches + [batch], energies + [energy], m + 1)
    ensures StagnantTail(initial, batches, energies, m)
  {
    var longer := batches + [batch];
    forall i | |energies| - m <= i < |energies| ensures IsLeast(initial, batches[..i + 1], energies[i]) {
      assert IsLeast(initial, longer[..i + 1], (energies + [energy])[i]);
      assert longer[..i + 1] == batches[..i + 1];
    }
  }

  lemma NothingEvaluated(d: Distances, workers: nat, initial: Tour)
    ensures Explains(d, workers, History([], [initial]), [], initial, Length(d, initial))
    ensures IsTail(Length(d, initial), [], [], 0)
  {
  }

  lemma NeighborKeepsSize(state: SAState, initial: array<nat>)
    requires multiset(state.currentSolution[..]) == multiset(initial[..])
    ensures state.currentSolution.Length == initial.Length
  {
    assert |multiset(state.currentSolution[..])| == state.currentSolution.Length;
    assert |multiset(initial[..])| == initial.Length;
  }
}
