/** The 1-D driver of src/automata/automata_1d.rs: build a simulation with a
    random radius-n rule table, and run it unless its output file exists.
    The random bytes are a parameter; the files already written are a set of
    paths; printing and writing the image are returned as effects. */
module Automata1D {
  import opened Rules
  import opened Engine

  /** The rule table drawn by `new_with_random_rules`: entry i is the low bit
      (`& 1`) of the i-th random byte. */
  function RandomRules(randoms: seq<U8>): (rules: seq<U8>)
    ensures |rules| == |randoms| && AllBits(rules)
  {
    seq(|randoms|, i requires 0 <= i < |randoms| => LowBit(randoms[i]))
  }

  function LowBit(b: U8): (bit: U8)
    ensures bit <= 1 && (b - bit) % 2 == 0
  {
    b % 2
  }

  /** A table drawn for radius n covers every index a 0/1 space of any
      plane produces: `iterate_1d` never indexes past it. */
  lemma RandomRulesCoverIndices(n: nat, randoms: seq<U8>, c: seq<U8>, shape: seq<nat>, t: nat)
    requires |randoms| == Pow2(1 + 2 * n)
    requires |shape| == 2 && AllBits(c)
    ensures Lookups1InRange(c, shape, t, Automata(1, n, RandomRules(randoms)))
  {
    BitsInRange1(c, shape, t, Automata(1, n, RandomRules(randoms)));
  }

  /** `new_with_random_rules`: a 1-D automaton of radius `neighbors` with a
      table of 2^(1 + 2 neighbors) random bits, over a zeroed space of
      maxIterations planes of spaceSize cells, at iteration 0. */
  method NewWithRandomRules(neighbors: nat, spaceSize: nat, maxIterations: nat, randoms: seq<U8>)
    returns (s: Simulation)
    requires 1 + 2 * neighbors < 32 && |randoms| == Pow2(1 + 2 * neighbors)
    ensures fresh(s) && fresh(s.cells) && s.Valid()
    ensures s.iteration == 0 && s.maxIterations == maxIterations
    ensures s.automata == Automata(1, neighbors, RandomRules(randoms))
    ensures s.shape == [maxIterations, spaceSize]
    ensures forall k :: 0 <= k < s.cells.Length ==> s.cells[k] == 0
  {
    var rules := RandomRules(randoms);
    s := new Simulation(maxIterations, Automata(1, neighbors, rules), [maxIterations, spaceSize]);
  }

  /** What `run_random_automata` does that leaves the program: the notice
      that the path exists, the printed line holding the binary key, and the
      call of `write_image` for the path (recorded as the space handed to
      `write_image`; for rules that are not interesting it draws a
      placeholder frame instead of that space). */
  datatype Effect =
    | PathExists(path: PathKey)
    | PrintedRules(line: string)
    | WroteImage(path: PathKey, space: seq<U8>)

  /** The size `run_random_automata` passes for both the space and the
      number of iterations. */
  const Size: nat := 100

  function SeedCell(k: nat): U8 {
    if k == Size / 2 then 1 else 0
  }

  /** The space after `initialize_space`: Size planes of Size cells, all 0
      except cell Size / 2 of plane 0. */
  function Seeded(): (c: seq<U8>)
    ensures |c| == Size * Size && AllBits(c)
  {
    seq(Size * Size, k requires 0 <= k < Size * Size => SeedCell(k))
  }

  /** The space `run_random_automata` hands to `write_image`: run from plane 0
      to the last plane if the rules are interesting, the bare seed
      otherwise. */
  function Outcome(a: Automata): seq<U8> {
    if GetInteresting(a.rules).isInteresting then Run(Seeded(), [Size, Size], 0, Size - 1, a)
    else Seeded()
  }

  /** The space handed to `write_image` always starts from the seed: plane 0
      of the outcome is the seed row, and the outcome holds only 0/1 cells. */
  lemma OutcomeKeepsSeedRow(a: Automata, k: nat)
    requires AllBits(a.rules) && k < Size
    ensures Outcome(a)[k] == SeedCell(k) && AllBits(Outcome(a))
  {
    if GetInteresting(a.rules).isInteresting {
      RunFrame(Seeded(), [Size, Size], 0, Size - 1, a, k);
      RunKeepsBits(Seeded(), [Size, Size], 0, Size - 1, a);
    }
  }

  /** `run_random_automata`: a fresh radius-n simulation over Size x Size
      cells; if its path is already in `existing` nothing else happens,
      otherwise it is seeded, its binary key printed, it is run, and its
      image written to its path. */
  method RunRandomAutomata(n: nat, randoms: seq<U8>, existing: set<PathKey>)
    returns (s: Simulation, effects: seq<Effect>)
    requires 1 + 2 * n < 32 && |randoms| == Pow2(1 + 2 * n)
    ensures s.automata == Automata(1, n, RandomRules(randoms)) && s.shape == [Size, Size]
    ensures PathOf(s.automata) in existing ==>
              effects == [PathExists(PathOf(s.automata))] && s.iteration == 0 &&
              forall k :: 0 <= k < s.cells.Length ==> s.cells[k] == 0
    ensures PathOf(s.automata) !in existing ==>
              effects == [PrintedRules("Rules = " + Encode(s.automata.rules, true)), WroteImage(PathOf(s.automata), Outcome(s.automata))] &&
              s.cells[..] == Outcome(s.automata)
  {
    s := NewWithRandomRules(n, Size, Size, randoms);
    var path := PathOf(s.automata);
    if path in existing {
      effects := [PathExists(path)];
    } else {
      s.InitializeSpace();
      assert s.cells[..] == Seeded();
      var line := ToStr(s.automata.rules, true);
      s.IterateAll();
      effects := [PrintedRules("Rules = " + line), WroteImage(path, s.cells[..])];
    }
  }
}
