# Cellular automata explorer: rule tables, simulation engine and 1-D driver

This project models the core of a small cellular-automaton explorer written in
Rust. The explorer draws a random rule table and derives an output path from
it. If that path already exists, it prints a notice and does nothing else.
Otherwise it seeds a single cell, prints the table's binary key and runs the
automaton. The run happens only if the table is "interesting"; a table that is
not interesting keeps its seeded space. Either way the space is then handed to
the image writer under that path.

The model has three modules, following the source files:

- `Rules` (`rules.dfy`, from `src/automata/types.rs`) covers the rule table.
  - Its canonical key, `to_str`: complete groups of eight entries are packed
    into bytes, earliest entry in the least significant bit. Each byte is
    rendered as eight binary digits or as unpadded lower-case hexadecimal.
  - The interestingness gate, `get_interesting`: alive / total lies strictly
    between 0.2 and 0.3.
- `Engine` (`engine.dfy`, from `src/automata/types.rs`) covers the
  `Simulation` class.
  - The space is a flat row-major `array<U8>` with a shape `[t, x]` (1-D) or
    `[t, x, y]` (2-D), where the first axis is time.
  - `iterate_1d`, `iterate_2d` and `iterate_all` are imperative methods. Each
    is proved against a specification function of the buffer: `Step1`,
    `Step2`, `Step` and `Run`.
  - `initialize_space` is a method whose new buffer is the old one with one
    cell set to 1.
  - `is_complete` is a function of the simulation's fields.
  - `path` is the pure function `PathOf`.
- `Automata1D` (`automata1d.dfy`, from `src/automata/automata_1d.rs`) covers
  the 1-D driver.
  - `new_with_random_rules` takes its random bytes as a parameter.
  - `run_random_automata` takes the set of paths already on disk as a
    parameter. It returns what it prints and what it hands to the image
    writer as a list of effects.

Behaviour of the code that the model keeps, though a reader might not expect
it:

- **Width.** `iterate_1d` takes its modulus and its loop bound from `dim()[0]`,
  which is the time extent, not the width. `initialize_space` likewise seeds
  cell `dim()[0] / 2`. The model does the same. `Iterate1D`, `StepFrame` and
  `RunFrame` require a space no longer than it is wide, because a longer
  space makes the source index past a row; the function `Step1` itself is
  total.
- **Radius.** Every round of `iterate_1d`'s inner loop reads the same two
  adjacent cells, at distance 1. Cells at distance 2 or more never take part.
  Under radius 2 the index is `6l + 4c + 12r` (`Engine.RadiusTwoIndex`), so
  most of the 32-entry table is never consulted.
- **Hex key.** The hexadecimal key used in the output path does not pad its
  bytes. Once the key has two or more bytes (tables of 16 entries or more,
  such as the 32-entry tables of radius 2), two different interesting tables
  can share one path (`Engine.PathCollision`). The driver prints its
  path-exists notice for the second table and skips it. At radius 1, the
  radius the 1-D driver is given in src/bin/main.rs:10 (a call that is
  commented out there), the 8-entry table packs to a single byte, whose
  unpadded hex is unique, so no collision arises there.

## Model

| member | source | states |
|---|---|---|
| Rules.ToStr | src/automata/types.rs:34-53 | The loop's output is the bytes of the complete groups of eight entries, rendered in order (`Encode`). A trailing partial group is never emitted. |
| Rules.AccIsWeighted | src/automata/types.rs:35-47 | For a 0/1 table, the u8 accumulator never wraps. After n entries of a group it holds their little-endian weighted sum. |
| Rules.PackedByteIsWeighted | src/automata/types.rs:37-45 | Byte k of the key is entries 8k..8k+7 of a 0/1 table read as a binary number, entry 8k+j at bit j. |
| Rules.TrailingEntriesIgnored | src/automata/types.rs:37-51 | The key of a table equals the key of its first 8*(n/8) entries. Entries of an incomplete last group never reach the key. |
| Rules.BinaryKeyLength | src/automata/types.rs:40-42 | The binary key has exactly eight characters per complete group. A table of fewer than eight entries has the empty key. |
| Rules.ParseBinDigits | src/automata/types.rs:42 | The zero-padded eight-digit binary rendering of a byte reads back as that byte. |
| Rules.DecodeRenderAll | src/automata/types.rs:41-42 | Cutting a binary key into eight-character pieces and reading each one back gives the emitted bytes. |
| Rules.BinaryKeyRoundTrip | src/automata/types.rs:34-53 | Decoding the binary key of a 0/1 table whose length is a multiple of eight gives back the table. |
| Rules.BinaryKeyInjective | src/automata/types.rs:34-53 | Two such tables with the same binary key are equal. |
| Rules.PackUnpack | src/automata/types.rs:37-47 | The reverse round trip: any byte sequence, spread out eight bits per byte, gives a 0/1 table that packs back to the same bytes. So every byte sequence is the packing of some 0/1 table. |
| Rules.CountAliveNonZero | src/automata/types.rs:77 | The live count (entries > 0) is the table size minus the number of zero entries. |
| Rules.GetInteresting | src/automata/types.rs:76-86 | The result carries the live count and the table size. It is interesting exactly when the table is non-empty and 0.2 < alive / total < 0.3 as real numbers. |
| Rules.RatioBand | src/automata/types.rs:79-84 | The integer test `10a > 2n && 10a < 3n` holds iff n > 0 and a / n lies strictly inside (0.2, 0.3). Both directions are proved. |
| Rules.BandIsOpen | src/automata/types.rs:84 | Ratios of exactly 1/5 and 3/10, and the empty table, are not interesting. |
| Engine.Simulation.constructor | src/automata/automata_1d.rs:14-23 | A simulation at iteration 0 with the given limit, automaton and shape, whose space is all zeros. |
| Engine.Simulation.IsComplete | src/automata/types.rs:114-116 | Complete exactly when the current plane is the last one, maxIterations - 1. |
| Engine.Simulation.Get2 | src/automata/types.rs:180-181 | `space[[t, i]]` of a 1-D space is buffer cell t*width + i. |
| Engine.Simulation.Neighborhood1 | src/automata/types.rs:176-198 | The inner loop of `iterate_1d` computes `Index1At`. That is the centre weighted by 2^nei, plus, per round, the left cell weighted by 2^(nei+idx-1) and the right cell by 2^(idx+2). The left and right cells wrap modulo dim0. |
| Engine.Simulation.Iterate1D | src/automata/types.rs:172-210 | Cells 0..dim0-1 of plane it+1 become the rule-table entries of their neighbourhoods in plane it. Every other cell is unchanged (`Step1`). The iteration advances by one. |
| Engine.ShiftedIsProduct | src/automata/types.rs:180-190 | The doubling form `Shifted(v, k)` used for the index weights is `v * 2^k`, the source's `v * 2usize.pow(k)`. |
| Engine.Weights1Closed | src/automata/types.rs:182-190 | Closed form of the inner loop: k rounds weight the left cell by 2^(nei-1)+...+2^(nei+k-2) and the right cell by 2^2+...+2^(k+1). |
| Engine.RadiusOneIndex | src/automata/types.rs:179-190 | Under radius 1 the index is l + 2c + 4r. |
| Engine.RadiusTwoIndex | src/automata/types.rs:182-190 | Under radius 2 the index is 6l + 4c + 12r. Both rounds read the same adjacent cells. |
| Engine.Index1Bound | src/automata/types.rs:179-199 | With 0/1 cells, the radius-nei index is below 2^(1+2nei), the size of the table `new_with_random_rules` draws. |
| Engine.BitsInRange1 | src/automata/types.rs:199 | In a 0/1 space, every lookup of a 1-D step lies inside a table of at least 2^(1+2nei) entries. |
| Engine.Simulation.Get3 | src/automata/types.rs:148-164 | `space[[t, x, y]]` of a 2-D space is buffer cell t*X*Y + x*Y + y. |
| Engine.Simulation.Neighborhood2 | src/automata/types.rs:147-164 | The unrolled sum is the 3x3 toroidal window in source order (top-left .. bottom-right), entry j shifted left by j. |
| Engine.Index2IsWeighted | src/automata/types.rs:147-164 | That sum is the window read as a 9-bit binary number, entry j at bit j. |
| Engine.Index2Bound | src/automata/types.rs:165 | With 0/1 cells, the 2-D index is below 512. |
| Engine.BitsInRange2 | src/automata/types.rs:165 | In a 0/1 space, every lookup of a 2-D step lies inside a table of at least 512 entries. |
| Engine.Simulation.FillRow2 | src/automata/types.rs:142-168 | The inner loop of `iterate_2d` fills row x of plane it+1 with the entries of its windows in plane it. Nothing outside that row changes. |
| Engine.Simulation.Iterate2D | src/automata/types.rs:134-171 | Every cell of plane it+1 becomes the rule-table entry of its window in plane it. Every other cell is unchanged (`Step2`). The iteration advances by one. |
| Engine.StepKeepsBits | src/automata/types.rs:165-167 | A step of a 0/1 space under a 0/1 table leaves a 0/1 space. |
| Engine.RunKeepsBits | src/automata/types.rs:211-221 | So does any number of steps. |
| Engine.StepFrame | src/automata/types.rs:167 | A step from plane t writes only plane t+1. |
| Engine.RunFrame | src/automata/types.rs:211-221 | Running from plane t0 to plane t leaves plane t0, every earlier plane and every plane after t untouched. |
| Engine.Simulation.IterateOnce | src/automata/types.rs:213-219 | One loop round steps the space by its dimension (`ndim() == 2` selects 1-D) and keeps the run's invariant. |
| Engine.Simulation.IterateAll | src/automata/types.rs:211-221 | An interesting simulation ends at iteration maxIterations-1, with the buffer equal to `Run` from the old buffer and iteration. A non-interesting one is left unchanged. |
| Engine.Simulation.InitializeSpace | src/automata/types.rs:222-243 | Cell dim()[0]/2 of plane 0 becomes 1 and nothing else changes. |
| Engine.SeededSpace | src/automata/types.rs:227-235 | A zeroed space seeded this way is 0/1 and holds exactly one live cell. |
| Engine.PathOf | src/automata/types.rs:124-133 | The path is built from the dimension, the radius, the exact interestingness result and the unpadded hex key only. |
| Engine.PathCollision | src/automata/types.rs:124-133 | There are two different interesting radius-2 tables, packed as 01 11 07 01 and 11 01 07 01, that have the same path. |
| Engine.HexKeysCollide | src/automata/types.rs:44 | The unpadded hex renderings of the bytes 01 11 07 01 and 11 01 07 01 are both "11171". |
| Engine.SameCountSameInteresting | src/automata/types.rs:76-86 | Interestingness depends only on the live count and the table size. |
| Automata1D.LowBit | src/automata/automata_1d.rs:12 | `b & 1` is 0 or 1 and has the parity of b. |
| Automata1D.RandomRules | src/automata/automata_1d.rs:11-13 | The drawn table has one 0/1 entry per random byte. |
| Automata1D.RandomRulesCoverIndices | src/automata/automata_1d.rs:11 | A table drawn for radius n covers every index a 0/1 space produces, so `iterate_1d` never looks past it. |
| Automata1D.NewWithRandomRules | src/automata/automata_1d.rs:9-24 | A fresh 1-D simulation at iteration 0 with the drawn table, shape [maxIterations, spaceSize] and an all-zero space. |
| Automata1D.Seeded | src/automata/automata_1d.rs:27-30 | The seeded 100x100 space is 0/1 and of full size. |
| Automata1D.OutcomeKeepsSeedRow | src/automata/automata_1d.rs:30-33 | The space handed to `write_image` always keeps the seed row as plane 0 and holds only 0/1 cells. |
| Automata1D.RunRandomAutomata | src/automata/automata_1d.rs:26-35 | If the path exists, only the notice happens and the space stays zero. Otherwise the space is seeded and the "Rules = <binary key>" line is printed. The space is then run by `Outcome` (only if interesting) and handed to `write_image` with the path. |

## Left out

- `write_image` (GIF encoding, directory creation) and the file-system test in `path_exists` are I/O. The model records a write as the path plus the space handed to `write_image`, and takes the existing paths as an input set.
- What `write_image` draws is not modelled. For a table that is not interesting it writes a 2x1 placeholder frame instead of the space.
- The `println!` calls are I/O. The rules line is an effect; the "Path exists" notice is the `PathExists` effect.
- Randomness: `random::<u8>()` is replaced by a caller-supplied byte sequence.
- `Display for InterestingRules` (the f32 text in the path, with its "NotInteresting:" prefix for tables that are not interesting) is not modelled. The path keeps the exact `Interesting` value instead of its text.
- Rules.GetInteresting: the model makes the ratio test in exact integers (`10 alive > 2 total` and `10 alive < 3 total`) and proves it equal to the real-number band `0.2 < alive / total < 0.3` (`Rules.RatioBand`); the source divides and compares in f32. The model compares the exact ratio. The two can differ only for ratios within one f32 rounding step of 0.2 or 0.3, which needs tables of about 10^7 entries or more.
- `IsInterestingSimulation::get_interesting` and `randomize_space` are not part of the core modelled here; neither is called by the 1-D driver.
- `src/automata/automata_2d.rs` and `main.rs` are not part of this model.
- Rules.ToStr: the accumulator is modelled with u8 wrap-around (release builds). A debug build would panic on overflow, which only tables with entries above 1 can cause.
- Integer widths: the `u32`/`usize` arithmetic of `iterate_1d` (`i + dim0`, `2usize.pow`) and `2u32.pow(1 + 2n)` is unbounded in the model.
- Automata1D.NewWithRandomRules requires 1 + 2n < 32 (the source's `2u32.pow` overflows beyond it) and a random sequence of exactly 2^(1+2n) bytes.
- Engine.Simulation.IterateAll requires, for interesting rules, that the run fit (`Runnable`). There must be a plane left (iteration < maxIterations <= shape[0]) and the cells and rules must be 0/1. The table must cover every index, and a 1-D space must be at least as wide as it is long. The 0/1 clauses are stronger than the source needs (entries that are never looked up may hold anything, and a larger table does no harm); they are what the in-range proofs use, and they hold at the only call site, `run_random_automata` (src/automata/automata_1d.rs:27-32). Where the table or the space is too small the source may panic on an index. With maxIterations 0 it loops until `iteration + 1` overflows u32: a debug build panics there, and a release build wraps to 0 and stops. The model does not describe these cases.
- Engine.Simulation.Iterate1D and Engine.Simulation.Iterate2D require the next plane to exist and every lookup to fall inside the rule table. Where these fail, the source panics.
- Engine.Simulation.InitializeSpace requires a 1-D space with a non-empty time axis whose midpoint lies inside the first row. Otherwise the source's index panics.
- `Cell` and `Lookup` read 0 outside the buffer or the table. They are only used on positions the methods prove in range.
