# chempict core in Dafny

A verified model of the core of chempict, a JavaScript chemistry toolkit.
chempict reads molecules from SMILES and ChemDoodle JSON. It finds their
rings: a Hanser path-graph finder and a smallest-set-of-smallest-rings (SSSR)
search over path-included distance matrices, driven by a ring finder that
splits the molecule into ring systems. It then computes 2D coordinates and
writes the molecule as ChemDoodle JSON or as SVG.

The project has one Dafny module per source file, all under `src/`:

- `model.dfy`: the object model (atoms, bonds, molecules, rings).
- `graph.dfy`, `seqs.dfy`: shared views and helpers.
- `path_edge.dfy`, `path_graph.dfy`, `hanser.dfy`, `sssr.dfy`, `detect.dfy`,
  `finder.dfy`, `partitioner.dfy`: ring perception.
- `floyd.dfy`, `connection_matrix.dfy`, `layout_state.dfy`,
  `atom_placer.dfy`, `ring_placer.dfy`, `coordinate_generator.dfy`,
  `overlap_resolver.dfy`: the 2D layout.
- `vec2.dfy`, `math_vector2d.dfy`, `layout_vector2d.dfy`: the two vector
  classes.
- `smiles_atom.dfy`, `smiles_parser.dfy`, `chemdoodle_json.dfy`,
  `json_parser.dfy`, `write_chemdoodlejson.dfy`: input and output.
- `hydrogen_position.dfy`: hydrogen-label placement.
- `js_number.dfy`, `svg_text.dfy`, `svg.dfy`, `svg_depict.dfy`: SVG
  depiction.
- `js_string.dfy`, `utils_array.dfy`, `utils_string.dfy`, `wrappers.dfy`:
  JavaScript semantics and small utilities.

How the model represents the source:

- Code that updates objects in place is modelled as classes with
  `modifies` clauses. This covers the atom, bond, molecule and ring
  objects, the vector classes, the layout flags and coordinates, and the
  SVG text buffer.
- The ring finders and the layout code read the molecule as numbered
  atoms and bonds, as sssr.js and finder.js do through their `index`
  fields. The per-atom flags are sequences indexed by atom.
- A thrown `Error` or `TypeError` is an `Err` result carrying its message.
  `undefined` and `null` are `None`.
- The trigonometry is left uninterpreted: the functions the layout code
  calls are parameters. What is proved about the layout is which atoms
  are placed, in which order, which flags change, and where errors are
  thrown.
- The SVG writers build text from template literals. Each filled-in
  template is kept as an element, and `SvgText.Render` spells the elements
  out. Number-to-string conversion is a parameter.

## Where the code departs from its own comments

In each case below a comment or a name in the source promises one thing,
the code does another, and the model follows the code.

- **Hanser ring order.** The comment at src/ring/hanser.js:67 says the
  rings are sorted by ring size. Line 68 calls the default `sort`, which
  compares the rings' comma-joined string forms.
  `RingHanser.StringOrderIsNotSizeOrder` gives two rings that this order
  puts larger first.
- **Ring partitioning.** The doc comment of `getPartitionedRings`
  (src/ring/partitioner.js:95) promises connected lists of rings. The
  filter at line 116 uses a callback that returns nothing, which empties
  `search`. As a result:
  - only the first ring collects its direct neighbours;
  - every later ring not yet in a partition starts a partition of its own;
  - partitions are not transitive closures.
- **Partitioner shadowing.** partitioner.js defines its two functions
  twice. The later definitions (lines 103-146) replace the earlier ones,
  and only those are modelled.
- **Hydrogen placement.** The class comment at
  src/renderer/hydrogen_position.js:13 names four directions: right,
  left, above and below. `getHydrogenPosition` (lines 42-52) only ever
  answers right or left. The angular rules are commented out at lines 45
  and 47.
- **Ring flags in `generate`.** The comment at
  src/layout/coordinate_generator.js:73 says every ring atom is flagged
  ISINRING. The comma expression at line 75 never calls the callback, so
  no atom is flagged. Hence no later ring system is ever laid out
  (`CoordinateGenerator.LayoutRounds`).
- **Overlap resolution.** The comment at src/layout/overlap_resolver.js:37
  describes a cutoff taken from the standard bond length. Line 43 reads
  `BOND_LENGTH`, which is undefined, so the cutoff is NaN and the overlap
  pass never moves an atom.
- **Most complex ring.** The name `getMostComplexRing`
  (src/layout/coordinate_generator.js:245) promises the ring most shared
  with others. The code counts ring sizes, not shared atoms
  (`CoordinateGenerator.UnsharedRingCountsMost`).

## Model

| member | source | states |
|---|---|---|
| ChemModel.SetAdd | src/model/molecule.js:113-114 | adding to an atom's bond set (`goog.structs.Set.add`): the result holds the bond and every old member and nothing else, and a set without repetitions stays without |
| ChemModel.SetRemove | src/model/molecule.js:235-236 | removing from a bond set: the bond is gone, every other member stays, nothing new appears |
| ChemModel.HydrogenCountUnclamped | src/model/atom.js:106-120 | the count is not clamped at zero: covalence 4 with bond orders 2, 2, 1 gives -1 |
| ChemModel.NextBondAngleCase | src/model/atom.js:139-207 | which branch `nextBondAngle` takes: no bonds exactly for 0 bonds, no angle exactly for 4 or more |
| ChemModel.NextBondAngle | src/model/atom.js:139-207 | 0 for an atom without bonds, undefined exactly when it has four or more bonds |
| ChemModel.Atom.constructor | src/model/atom.js:34-86 | defaults: symbol 'C', missing x, y, charge and isotope are 0, aromatic false, empty bond set, no flags, no molecule |
| ChemModel.Atom.Orders | src/model/atom.js:112-114 | one entry per bond, that bond's order, in bond-set order |
| ChemModel.Atom.HydrogenCount | src/model/atom.js:106-120 | 0 when the covalence table has no non-zero entry for the symbol; otherwise covalence minus the sum of bond orders plus the charge |
| ChemModel.Atom.GetNeighbors | src/model/atom.js:127-134 | one entry per bond, in bond-set order, each the bond's other atom, which touches the bond when the bond touches the atom |
| ChemModel.Atom.SetFlag | src/model/atom.js:247-249 | only `flags[k]` changes; every other field is kept |
| ChemModel.Atom.Clone | src/model/atom.js:215-218 | a fresh atom with the same symbol, coordinates, charge, aromaticity and isotope, and no bonds, flags or molecule |
| ChemModel.Bond.constructor | src/model/bond.js:24-65 | defaults: order SINGLE, stereo NOT_STEREO, aromatic false, the given molecule or null |
| ChemModel.Bond.OtherAtom | src/model/bond.js:76-84 | null for an atom the bond does not touch; the target for the source, and the source for a target that is not also the source |
| ChemModel.Bond.OtherAtomTwice | src/model/bond.js:76-84 | going to the other end and back returns to the start atom |
| ChemModel.Bond.Clone | src/model/bond.js:95-98 | a fresh bond sharing both endpoints, with the same order, stereo, aromaticity and molecule |
| ChemModel.Bond.DeepClone | src/model/bond.js:100-104 | a fresh bond with fresh copies of both endpoints (same symbol and coordinates) and every other field copied |
| ChemModel.Store | src/model/molecule.js:279 | `fragments[i] = v` at or past the end: entry i is v, every other entry unchanged, the array grows only when i is its length |
| ChemModel.Relabel | src/model/molecule.js:105-109 | the relabelling loop keeps the array's length |
| ChemModel.WithAtom | src/model/molecule.js:274-283 | `addAtom`'s bookkeeping keeps the fragment table valid |
| ChemModel.Joined | src/model/molecule.js:90-110 | the merge step of `addBond` keeps the table valid and the atom list unchanged |
| ChemModel.AddAtomFacts | src/model/molecule.js:274-283 | an atom already present changes nothing; otherwise it is appended, the count rises by one, its id is the new count and every other atom keeps its id |
| ChemModel.JoinedRelabels | src/model/molecule.js:92-110 | different ids: the count drops by exactly one, the smaller id is relabelled to the larger, other ids are kept; equal ids: nothing changes |
| ChemModel.AddBondJoinsFragments | src/model/molecule.js:89-117 | after bonding two atoms of the molecule both carry the same fragment id |
| ChemModel.AbsentSourceClearsFragment | src/model/molecule.js:90-110 | a bond from an atom not yet in the molecule reads `fragments[-1]`, so every atom holding the target's id becomes undefined |
| ChemModel.FragmentIdReused | src/model/molecule.js:92-110 | after two atoms merge, a third new atom is given an id that is already in use |
| ChemModel.IncidentMembers | src/model/molecule.js:379-387 | the connected-bonds list holds exactly the bonds touching the atom, and no more than the molecule has |
| ChemModel.MeanOfCoincident | src/ring/ring.js:68-80 | when every atom sits at one point the centroid is that point |
| ChemModel.SumsOfCoincident | src/ring/ring.js:72-76 | the coordinate sums of n atoms at one point are n times its coordinates |
| ChemModel.Ring.constructor | src/ring/ring.js:31-57 | a new ring holds the given atoms and bonds, no flags and no cached centre |
| ChemModel.Ring.SetFlag | src/ring/ring.js:59-61 | only `flags[k]` changes |
| ChemModel.Ring.GetCenter | src/ring/ring.js:68-80 | the first call computes and caches the centroid; while the cache is set later calls return it unchanged |
| ChemModel.Ring.ResetRingCenter | src/ring/ring.js:85-87 | the cache is cleared and nothing else changes |
| ChemModel.Molecule.constructor | src/model/molecule.js:31-74 | no atoms, bonds or rings, the ring cache must be computed, no fragments, count 0, name '' by default |
| ChemModel.Molecule.GetAtom | src/model/molecule.js:127-129 | the atom at the position, undefined exactly past the end |
| ChemModel.Molecule.GetBond | src/model/molecule.js:139-141 | the bond at the position, undefined exactly past the end |
| ChemModel.Molecule.IndexOfAtom | src/model/molecule.js:181-183 | -1 exactly when the atom is absent; otherwise its first position |
| ChemModel.Molecule.IndexOfBond | src/model/molecule.js:192-194 | -1 exactly when the bond is absent; otherwise its first position |
| ChemModel.Molecule.AddAtom | src/model/molecule.js:274-283 | the fragment table becomes `WithAtom` of the old one; a new atom's molecule becomes this one. Only `atoms`, the fragment table and the atom's `molecule` may change, so bonds, rings, the name and every other field of the atom are kept |
| ChemModel.Molecule.AddBond | src/model/molecule.js:89-117 | fragments merged as `Joined`, then both endpoints added; the bond appended to `bonds` and to both endpoints' sets; its molecule set; an endpoint not yet in the molecule gets this molecule as its `molecule`, one already in it keeps its own; the ring cache flag left alone. The frame names only these fields, so every other field of the molecule, the atoms and the bond (symbol, coordinates, charge, isotope, aromaticity, flags, order, stereo, name) stays as it was |
| ChemModel.Molecule.JoinFragments | src/model/molecule.js:90-110 | the fragment table becomes `Joined` of the old one; only the fragment table and its count may change |
| ChemModel.Molecule.RelabelFragments | src/model/molecule.js:105-109 | the loop leaves `Relabel` of the old table; only the fragment table may change |
| ChemModel.Molecule.FindBond | src/model/molecule.js:163-172 | the first bond in a1's set whose other atom is a2; null exactly when there is none |
| ChemModel.Molecule.GetConnectedBondsList | src/model/molecule.js:379-387 | exactly the bonds with the atom as an endpoint, in molecule order |
| ChemModel.Molecule.GetRings | src/model/molecule.js:290-297 | the finder's result is taken only while the flag is set; afterwards the cached list is returned and the flag stays clear |
| ChemModel.Molecule.ResetRingCenters | src/model/molecule.js:77-81 | every ring `getRings` returns loses its cached centre |
| ChemModel.Molecule.RemoveAtom | src/model/molecule.js:203-221 | the atom's bonds are removed from `bonds` one by one, its set is cleared, it leaves `atoms` and is detached; the fragment table is not touched. The frame names only these fields, so every other field of the molecule, the atoms and the bond (symbol, coordinates, charge, isotope, aromaticity, flags, order, stereo, name) stays as it was |
| ChemModel.Molecule.RemoveAtomAt | src/model/molecule.js:203-208 | an id past the end throws and changes nothing; otherwise the atom at that position is removed as `RemoveAtom` does, its bond set emptied and its molecule cleared. The frame names only these fields, so every other field of the molecule, the atoms and the bond (symbol, coordinates, charge, isotope, aromaticity, flags, order, stereo, name) stays as it was |
| ChemModel.Molecule.DropIfBareEnd | src/model/molecule.js:237-245 | an endpoint with no bonds left leaves `atoms` (first copy) and loses its molecule; one with bonds keeps both. Only `atoms` and the endpoint's `molecule` may change |
| ChemModel.Molecule.RemoveBond | src/model/molecule.js:228-250 | only `bonds`, `atoms`, the bond's endpoints and molecule, and the endpoints' bond sets and molecules may change, so every other field keeps its value. With both endpoints set: the first copy of the bond leaves `bonds` and the bond leaves both endpoints' sets; each endpoint whose set is now empty leaves `atoms` (first copy) and loses its molecule; the bond's molecule and endpoints are cleared. With no source the source throws and nothing changes; with a source but no target it throws after the bond has left the source's set, and nothing else changes |
| ChemModel.Molecule.RemoveBondAt | src/model/molecule.js:228-250 | the same fields as `RemoveBond` may change and no other. An id outside the list throws and changes nothing; otherwise the bond at that position is removed as `RemoveBond` does: out of `bonds` and both endpoints' sets, bare endpoints out of `atoms`, the bond detached; a cleared source throws with nothing changed, a cleared target after the bond has left the source's set |
| ChemModel.RemoveAtomDropsIncident | src/model/molecule.js:211-213 | on a bond list without repetitions, exactly the bonds not belonging to the atom remain |
| MolGraph.OtherAtom | src/model/bond.js:76-84 | on the index snapshot: the other end for either endpoint, nothing for an atom the bond does not touch |
| MolGraph.FindBond | src/model/molecule.js:163-172 | the first bond joining a1 and a2 in either direction; none exactly when no bond joins them |
| MolGraph.FindBondSymmetric | src/model/molecule.js:163-172 | whether a bond is found does not depend on the order of the two atoms |
| MolGraph.IncidentBonds | src/model/molecule.js:379-387 | exactly the bonds touching the atom, each once, in increasing (insertion) order |
| MolGraph.Neighbors | src/model/atom.js:127-134 | every neighbour is an atom of the molecule |
| MolGraph.NeighborAt | src/model/atom.js:127-134 | one neighbour per bond of the atom, neighbour k being the other end of bond k |
| MolGraph.BondedNeighbors | src/model/atom.js:127-134 | the two ends of a bond are each other's neighbours |
| Seqs.RemoveFirst | src/model/molecule.js:213 | `goog.array.remove`: an absent value leaves the list as it is; a present one shortens it by one and nothing new appears |
| Seqs.IndexOf | src/model/molecule.js:182 | `goog.array.indexOf`: -1 exactly when the value is absent; otherwise a position holding it with no earlier occurrence |
| Seqs.RemoveFirstWithout | src/model/molecule.js:216 | on a list without repetitions, removing one value is the same as adding it to the set of removed values |
| Seqs.RemoveEachWithout | src/model/molecule.js:211-213 | on a list without repetitions, removing values one at a time removes exactly those values and keeps the order of the rest |
| Seqs.Reverse | src/ring/path_edge.js:53 | `Array.prototype.reverse` keeps the length |
| Seqs.ReverseAt | src/ring/path_edge.js:53 | entry k of the reversed list is entry n-1-k of the original |
| Seqs.ReverseMembers | src/ring/path_edge.js:53 | reversing keeps the same members |
| Vec2.Minus | src/math/vector2d.js:99-101 | the difference added back to b gives a |
| Vec2.Perp | src/math/vector2d.js:162-164 | the quarter turn is orthogonal to its argument and as long |
| Vec2.Negated | src/math/vector2d.js:244-247 | the negation cancels the vector |
| Vec2.FromPoints | src/math/vector2d.js:200-202 | the displacement that carries p1 onto p2 |
| NumVec2.Plus | src/math/vector2d.js:78-80 | on finite vectors the real sum; finite exactly when both operands are |
| NumVec2.Minus | src/math/vector2d.js:99-101 | on finite vectors the real difference, finite |
| NumVec2.Scaled | src/math/vector2d.js:120-122 | a finite vector times a finite scalar is the real multiple, finite |
| NumVec2.Negated | src/math/vector2d.js:244-247 | on a finite vector the real negation; finite exactly when the argument is |
| NumVec2.FromPoints | src/math/vector2d.js:200-202 | for finite points the real displacement from p1 to p2 |
| NumVec2.DotFinite | src/math/vector2d.js:40-42 | the dot product of finite vectors is the finite real dot product |
| NumVec2.CrossFinite | src/math/vector2d.js:49-51 | the cross product of finite vectors is the finite real cross product |
| NumVec2.ProjectFinite | src/math/vector2d.js:180-184 | for finite v and w with w not zero the computed projection is finite and equals the real one |
| NumVec2.ProjectOntoZero | src/math/vector2d.js:180-184 | projecting a finite vector onto the zero vector gives NaN in both coordinates, through 0/0 |
| NumVec2.Quotient | src/math/vector2d.js:141-143 | by a non-zero finite scalar the real quotient; by zero no coordinate is finite: a non-zero coordinate becomes the infinity of its sign and a zero one NaN |
| NumVec2.Project | src/math/vector2d.js:180-184 | for finite vectors and w not zero the real projection onto w; onto the zero vector both coordinates are NaN |
| NumVec2.Perpendicular | src/math/vector2d.js:171-173 | for finite vectors and w not zero the real rejection v minus its projection; against the zero vector both coordinates are NaN |
| NumVec2.Perp | src/math/vector2d.js:162-164 | the quarter turn of a finite vector is the real one; finite exactly when the argument is |
| NumVec2.NegatedTwice | src/math/vector2d.js:244-247 | negating twice restores every vector, NaN and infinities included |
| Vec2.ClampCosine | src/math/vector2d.js:255-264 | the value handed to acos lies in [-1, 1] and is the input whenever the input already lies there |
| Vec2.DotSymmetric | src/math/vector2d.js:40-42 | the dot product does not depend on the operands' order |
| Vec2.CrossAntisymmetric | src/math/vector2d.js:49-51 | swapping the operands of the cross product negates it |
| Vec2.NegatedTwice | src/math/vector2d.js:244-247 | negating twice gives the vector back |
| MathVector2D.Vector2D.constructor | src/math/vector2d.js:19-24 | the new vector holds the given coordinates |
| MathVector2D.Vector2D.Add | src/math/vector2d.js:78-80 | a fresh vector holding the sum; both operands unchanged |
| MathVector2D.Vector2D.AddEquals | src/math/vector2d.js:87-92 | this vector becomes the sum and is returned |
| MathVector2D.Vector2D.Subtract | src/math/vector2d.js:99-101 | a fresh vector holding the difference |
| MathVector2D.Vector2D.SubtractEquals | src/math/vector2d.js:108-113 | this vector becomes the difference and is returned |
| MathVector2D.Vector2D.Multiply | src/math/vector2d.js:120-122 | a fresh vector holding the scaled value |
| MathVector2D.Vector2D.MultiplyEquals | src/math/vector2d.js:129-134 | this vector is scaled in place and returned |
| MathVector2D.Vector2D.Divide | src/math/vector2d.js:141-143 | a fresh vector holding `NumVec2.Quotient`: the real quotient for a non-zero scalar, infinities or NaN for zero |
| MathVector2D.Vector2D.DivideEquals | src/math/vector2d.js:150-155 | this vector becomes `NumVec2.Quotient` of its old value, whatever the scalar, and is returned |
| MathVector2D.Vector2D.Perp | src/math/vector2d.js:162-164 | a fresh vector holding the quarter turn (orthogonal, same length, by `Vec2.Perp`) |
| MathVector2D.Vector2D.Project | src/math/vector2d.js:180-184 | a fresh vector holding `NumVec2.Project`: the real projection onto a non-zero argument, NaN coordinates onto the zero vector |
| MathVector2D.Vector2D.Perpendicular | src/math/vector2d.js:171-173 | a fresh vector holding `NumVec2.Perpendicular`: the real rejection from a non-zero argument, NaN coordinates against the zero vector |
| MathVector2D.Vector2D.Scale | src/math/vector2d.js:209-212 | this vector is scaled in place |
| MathVector2D.Vector2D.Sub | src/math/vector2d.js:228-231 | this vector becomes itself minus t1 |
| MathVector2D.Vector2D.Negate | src/math/vector2d.js:244-247 | the zero-argument `negate`, which replaces the one at lines 237-240: this vector is negated in place |
| MathVector2D.NegateTwice | src/math/vector2d.js:244-247 | negating a vector twice in place restores its value |
| LayoutVector2D.Vector2D.constructor | src/layout/vector2d.js:19-24 | the new vector holds the given coordinates |
| LayoutVector2D.Vector2D.Add | src/layout/vector2d.js:78-80 | a fresh vector holding the sum; both operands unchanged |
| LayoutVector2D.Vector2D.AddEquals | src/layout/vector2d.js:87-92 | this vector becomes the sum and is returned |
| LayoutVector2D.Vector2D.Subtract | src/layout/vector2d.js:99-101 | a fresh vector holding the difference |
| LayoutVector2D.Vector2D.SubtractEquals | src/layout/vector2d.js:108-113 | this vector becomes the difference and is returned |
| LayoutVector2D.Vector2D.Multiply | src/layout/vector2d.js:120-122 | a fresh vector holding the scaled value |
| LayoutVector2D.Vector2D.MultiplyEquals | src/layout/vector2d.js:129-134 | this vector is scaled in place and returned |
| LayoutVector2D.Vector2D.Divide | src/layout/vector2d.js:141-143 | a fresh vector holding `NumVec2.Quotient`: the real quotient for a non-zero scalar, infinities or NaN for zero |
| LayoutVector2D.Vector2D.DivideEquals | src/layout/vector2d.js:150-155 | this vector becomes `NumVec2.Quotient` of its old value, whatever the scalar, and is returned |
| LayoutVector2D.Vector2D.Perp | src/layout/vector2d.js:162-164 | a fresh vector holding the quarter turn (orthogonal, same length, by `Vec2.Perp`) |
| LayoutVector2D.Vector2D.Project | src/layout/vector2d.js:180-184 | a fresh vector holding `NumVec2.Project`: the real projection onto a non-zero argument, NaN coordinates onto the zero vector |
| LayoutVector2D.Vector2D.Perpendicular | src/layout/vector2d.js:171-173 | a fresh vector holding `NumVec2.Perpendicular`: the real rejection from a non-zero argument, NaN coordinates against the zero vector |
| LayoutVector2D.Vector2D.Scale | src/layout/vector2d.js:209-212 | this vector is scaled in place |
| LayoutVector2D.Vector2D.Sub | src/layout/vector2d.js:228-231 | this vector becomes itself minus t1 |
| LayoutVector2D.Vector2D.Negate | src/layout/vector2d.js:244-247 | the zero-argument `negate`, which replaces the one at lines 237-240: this vector is negated in place |
| LayoutVector2D.NegateTwice | src/layout/vector2d.js:244-247 | negating a vector twice in place restores its value |
| MathVector2D.Vector2D.FromPoints | src/math/vector2d.js:200-202 | a fresh vector holding the displacement that carries p1 onto p2 |
| LayoutVector2D.Vector2D.FromPoints | src/layout/vector2d.js:200-202 | a fresh vector holding the displacement that carries p1 onto p2 |
| JsNumber.Inf | src/depict/svg.js:18-25 | a non-zero sign picks the infinity of that sign, never a finite value or NaN |
| JsNumber.Neg | src/depict/svg.js:18-25 | negation keeps NaN and flips the sign of every other value |
| JsNumber.FiniteArithmetic | src/depict/svg.js:18-25 | on finite operands the four operations are the exact real ones (a non-zero divisor for the quotient) |
| JsNumber.AddFinite | src/depict/svg.js:18-25 | a sum is finite exactly when both operands are |
| JsNumber.Commutative | src/depict/svg.js:18-25 | sum and product do not depend on the operands' order |
| JsNumber.DivFinite | src/depict/svg.js:18-25 | a quotient is finite exactly when the numerator is finite and the divisor is a non-zero finite value or an infinity |
| JsNumber.DivByZero | src/depict/svg.js:18-25 | dividing by zero never gives a finite value; a non-zero finite numerator gives the infinity of its sign |
| JsString.DigitChar | src/ring/hanser.js:68 | a digit below ten is a character '0'..'9' |
| JsString.DecimalString | src/ring/hanser.js:68 | the decimal form of a non-negative integer is a non-empty run of digits |
| JsString.StrLtIrreflexive | src/ring/hanser.js:68 | the string order of the default `sort` is irreflexive |
| JsString.StrLtTransitive | src/ring/hanser.js:68 | the string order of the default `sort` is transitive |
| JsString.StrLtTotal | src/ring/hanser.js:68 | any two different strings are ordered one way or the other |
| JsString.TrimStart | src/io/smiles_parser.js:122 | the white-space-free suffix `parseInt` starts from: everything dropped is white space, and what remains does not start with it |
| JsString.DigitRun | src/io/smiles_parser.js:122 | the longest run of digits at the start of a text: all digits, followed by a non-digit or the end |
| JsString.DigitValue | src/io/smiles_parser.js:122 | a digit character stands for a value below ten |
| JsString.ParseInt | src/io/smiles_parser.js:122 | `parseInt(s, 10)` gives a number only when the text holds some digit |
| JsString.ParseIntOfDigits | src/io/smiles_parser.js:122 | a text starting with a digit is read as the value of its leading digit run, whatever follows |
| JsString.ParseIntRejects | src/io/smiles_parser.js:122 | a text that starts with neither a digit, white space nor a sign (or is empty) is NaN |
| JsString.DigitsOfDecimal | src/io/smiles_parser.js:122 | the decimal form of n is all digits and its digits have the value n |
| JsString.DigitRunAll | src/io/smiles_parser.js:122 | a text of digits only is one digit run |
| JsString.ParseIntOfDecimal | src/io/smiles_parser.js:122 | `parseInt` reads back the decimal form of every non-negative integer |
| ArrayUtil.Empty | src/utils/array.js:11-14 | `new Array(n)`: a negative length throws; otherwise a fresh array of n holes |
| ArrayUtil.Full | src/utils/array.js:54-58 | a negative length throws; otherwise a fresh array of length n with every entry the fill value |
| StringUtil.LastIndexOf | src/utils/string.js:13 | `lastIndexOf(p, from)`: a position not after the clamped start where p occurs, with no occurrence between it and the start; -1 for none |
| StringUtil.LastIndexFrom | src/utils/string.js:13 | the backwards search from position k finds the last occurrence at or before k |
| StringUtil.StartsWith | src/utils/string.js:13 | holds exactly when `prefix` is a prefix of `str` |
| JsonParser.SourceText | src/io/json_parser.js:8 | the text parsed is the given one, or '{}' when it is missing or empty |
| JsonParser.SymbolOf | src/io/json_parser.js:17 | never empty; 'C' exactly when the label is missing, empty or 'C' |
| JsonParser.CoordOf | src/io/json_parser.js:18-19 | a given coordinate is kept, a missing one is 0 |
| JsonParser.ParseAtom | src/io/json_parser.js:16-21 | a fresh atom with the read symbol and coordinates and the other atom defaults; the charge entry is not read |
| JsonParser.ParseMolecule | src/io/json_parser.js:29-34 | fails (with the TypeError text) exactly when a bond entry names an atom index outside the list; otherwise a fresh valid molecule with one atom per entry in order and one single bond per entry joining the named atoms |
| JsonParser.ReadAtoms | src/io/json_parser.js:31 | a fresh valid molecule without bonds whose atoms are the entries read in order |
| JsonParser.ReadBonds | src/io/json_parser.js:32 | succeeds exactly when every bond entry names two listed atoms; then the atoms are kept and bond k is a single bond joining the atoms entry k names |
| JsonParser.ConnectEntry | src/io/json_parser.js:32 | one bond entry: the bond list grows by one bond joining s and t, earlier bonds and both atoms' data are kept |
| ChemJsonWriter.StereoName | src/io/write_chemdoodlejson.js:36-51 | one of the four names; a name other than 'none' exactly for codes 11-13 |
| ChemJsonWriter.StereoNamesDistinct | src/io/write_chemdoodlejson.js:36-51 | codes with the same name other than 'none' are equal |
| ChemJsonWriter.ProcessAtom | src/io/write_chemdoodlejson.js:16-24 | every atom entry carries a label, both coordinates and a charge |
| ChemJsonWriter.ProcessAtoms | src/io/write_chemdoodlejson.js:64 | one entry per atom, entry k written from atom k |
| ChemJsonWriter.ProcessBond | src/io/write_chemdoodlejson.js:29-53 | each endpoint index is -1 exactly when the atom is not in the molecule, otherwise a position holding it; the order is the bond's and a stereo name is written |
| ChemJsonWriter.ProcessMolecule | src/io/write_chemdoodlejson.js:58-74 | one molecule entry and no shapes; atom entries and bond entries one per atom and bond, in model order |
| ChemJsonWriter.AtomRoundTrip | src/io/json_parser.js:16-21 | reading a written atom back gives its symbol (an empty one becomes 'C') and its coordinates |
| ChemJsonWriter.WriteThenRead | src/io/write_chemdoodlejson.js:58-74 | writing then reading fails exactly when a bond has an endpoint outside the molecule; otherwise the same atoms (symbols, coordinates, charge 0) and one single bond per bond joining the atoms at the same positions |
| HydrogenPlacement.ConstructorAlwaysThrows | src/renderer/hydrogen_position.js:22-35 | the constructor as written throws for every atom |
| HydrogenPlacement.BondVectors | src/renderer/hydrogen_position.js:24-28 | fails exactly when some bond does not touch the atom; otherwise one vector per bond, each carrying the atom onto that bond's other end |
| HydrogenPlacement.NewHydrogenPosition | src/renderer/hydrogen_position.js:22-35 | as intended: keeps the atom and one vector per bond; fails exactly when a bond of the atom does not touch it |
| HydrogenPlacement.UsingDefaultPlacement | src/renderer/hydrogen_position.js:61-70 | left exactly for O, S, Se, Te, F, Cl, Br and I; right otherwise |
| HydrogenPlacement.GetHydrogenPosition | src/renderer/hydrogen_position.js:42-52 | only left or right; right for two or more bonds; for none, the default placement; for one, left exactly when the bond vector points more than 0.1 to the right; fails only with one bond and no vector |
| HydrogenPlacement.OneNeighbourSide | src/renderer/hydrogen_position.js:42-52 | for an atom with one bond, freshly constructed: hydrogens go left exactly when the neighbour lies more than 0.1 to its right |
| RingHanser.InsertAsString | src/ring/hanser.js:68 | one insertion step of the default `sort`: the result holds the list's rings plus the new one, and an ordered list stays ordered |
| RingHanser.SortAsStrings | src/ring/hanser.js:68 | `sort()` on the rings: ordered by their comma-joined string forms and a permutation of the input |
| RingHanser.PoppedAll | src/ring/hanser.js:57-60 | one ring per cycle edge, ring k being edge k without its repeated closing atom |
| RingHanser.PopEach | src/ring/hanser.js:54-65 | the inner loop lists each returned cycle edge, closing atom popped, in order |
| RingHanser.PoppedAllAppend | src/ring/hanser.js:51-65 | popping the edges of two batches one after the other gives the two batches' rings in sequence |
| RingHanser.HanserRings | src/ring/hanser.js:43-70 | the loop as a function: the cycle edges `remove` returns for each atom in index order, closing atom popped, sorted as strings; on a well-formed molecule every ring has 2 to maxLen atoms, all atoms of the molecule |
| RingHanser.FindRings | src/ring/hanser.js:43-70 | the loop the function evidently means to run: `removed` is exactly `HanserRemoved` and the rings exactly `HanserRings`; every edge collected is a cycle of at most maxLen + 1 atoms, the rings are those edges popped (as a multiset), ordered as strings, each of 2 to maxLen atoms of the molecule |
| RingHanser.FindRingsAsWritten | src/ring/hanser.js:49 | as written, every call throws before any atom is removed, because path_graph.js exports no constructor |
| RingHanser.CollectRings | src/ring/hanser.js:49-66 | a fresh path graph and the loop collect exactly `HanserRemoved` and the rings popped from it, in order |
| RingHanser.RemoveAtoms | src/ring/hanser.js:51-66 | removing atoms 0 to n - 1 in turn from a valid path graph collects exactly the `RemovedFrom` fold over those atoms and the rings popped from it, and leaves the graph valid |
| RingHanser.CollectAt | src/ring/hanser.js:52-65 | one round: atom i's cycle edges move from those still to come to those collected, and the popped rings follow them |
| RingHanser.RemovedFromOk | src/ring/hanser.js:51-66 | every edge collected from a well-formed edge list over atoms below n, whose cycles are short, is a cycle of at most maxLen + 1 atoms below n |
| RingHanser.RemovedFromOkStep | src/ring/hanser.js:52-65 | the same for the atoms from i on, when i is still to be removed |
| RingHanser.RemoveStepOk | src/ring/path_graph.js:48-91 | one `remove` keeps the edge list well formed, over atoms below n, with short cycles, and the cycles it returns are short |
| RingHanser.ShortCyclesStep | src/ring/hanser.js:52-65 | short cycles through atom i and short cycles collected after it make the cycles collected from i on short |
| RingHanser.RemovedFromStep | src/ring/hanser.js:52-65 | the edges collected from atom i on are atom i's cycles followed by those collected from i + 1 on |
| RingHanser.CollectStep | src/ring/hanser.js:52-65 | collecting atom i's cycles keeps collected plus still to come equal to the total |
| RingHanser.RemoveRound | src/ring/hanser.js:53-64 | one `remove`: the edges left stay over atoms below n with short cycles, and the collected edges gain only short cycles over atoms below n |
| RingHanser.HanserRemovedOk | src/ring/hanser.js:43-70 | the edges `findRings` collects are cycles of at most maxLen + 1 atoms of the molecule |
| RingHanser.PoppedRingsOk | src/ring/hanser.js:57-68 | rings popped from cycle edges of at most maxLen + 1 atoms have 2 to maxLen atoms, all below the atom count, in any listing order |
| RingHanser.StringOrderIsNotSizeOrder | src/ring/hanser.js:67-68 | the string order puts a six-ring on atoms 10..15 before a three-ring on atoms 2..4, so the list is not sorted by size as the comment says |
| RingHanser.PairBonds | src/ring/hanser.js:84-89 | at most one bond per consecutive pair of atoms, each a bond of the molecule |
| RingHanser.CreateRingAsWritten | src/ring/hanser.js:81-95 | as written, every call throws, because `removeAt` is not defined by src/utils/array.js; nothing in the code base calls this function |
| RingHanser.CreateRing | src/ring/hanser.js:81-95 | as intended: the atoms without the repeated closing atom, and the bonds of the consecutive pairs |
| RingHanser.CollectBonds | src/ring/hanser.js:84-89 | the loop collects exactly the bonds `findBond` finds for consecutive pairs, in order |
| RingHanser.PairBondsOfBondedWalk | src/ring/hanser.js:84-89 | for a closed walk along bonds of n + 1 atoms, one bond per ring edge: n bonds |
| RingPathEdge.GetIntersection | src/ring/path_edge.js:95-105 | succeeds exactly when this path's last or first atom is an end of the other; the result is an end of both, the last atom preferred; otherwise the "no intersection" error |
| RingPathEdge.IsRealPath | src/ring/path_edge.js:77-89 | true exactly when the interior positions hold distinct atoms; the two ends are not compared |
| RingPathEdge.Splice | src/ring/path_edge.js:40-71 | the error when the paths share no end, null when the joined list is not a real path, else a new edge holding this path (turned to end at the shared atom) followed by the other path read away from it; neither input changes |
| RingPathEdge.JoinedAtoms | src/ring/path_edge.js:40-71 | a spliced path holds only atoms of the two paths |
| RingPathEdge.JoinedShape | src/ring/path_edge.js:40-71 | a spliced path has |this| + |other| - 1 atoms, runs from this path's far end through the shared atom at position |this| - 1 to the other path's far end |
| RingPathGraph.InitialEdges | src/ring/path_graph.js:31-36 | one edge per bond, in bond order, with the bond's index as identity and its two atoms as path |
| RingPathGraph.InitialEdgesValid | src/ring/path_graph.js:31-36 | the constructor's edges are well formed: no repeats, identities below the bond count and unique, every path of two or more atoms |
| RingPathGraph.Incident | src/ring/path_graph.js:97-119 | exactly the edges that match the atom (a cycle containing it, or a path ending at it), in edge order |
| RingPathGraph.CyclesOf | src/ring/path_graph.js:53-58 | exactly the cycle edges of the list |
| RingPathGraph.ShortEnough | src/ring/path_graph.js:81-87 | exactly the edges of at most maxLen + 1 atoms |
| RingPathGraph.SplicedShape | src/ring/path_graph.js:126-138 | a splice of two paths of two or more atoms takes the identity it is given and has at least three atoms |
| RingPathGraph.SpliceFromFacts | src/ring/path_graph.js:126-138 | the edges `spliceEdges` returns take consecutive fresh identities and have at least three atoms |
| RingPathGraph.SpliceFromBelow | src/ring/path_graph.js:126-138 | splicing brings in no atom the spliced paths did not hold |
| RingPathGraph.SplicedBelow | src/ring/path_edge.js:40-71 | a splice of paths over atoms below n is over atoms below n |
| RingPathGraph.SpliceFromOk | src/ring/path_graph.js:126-138 | when every path ends at the same atom, no splice throws |
| RingPathGraph.PathGraph.constructor | src/ring/path_graph.js:23-41 | one edge [source, target] per bond in bond order, each with its own identity, and the atoms in molecule order |
| RingPathGraph.PathGraph.GetEdges | src/ring/path_graph.js:97-119 | the edges matching the atom, in edge order |
| RingPathGraph.PathGraph.Remove | src/ring/path_graph.js:48-91 | returns the cycle edges through the atom; the edges become those not through it plus the short enough splices of the open paths through it; identities advance by the number of splices; the atom leaves the atom list; the graph stays valid |
| RingPathGraph.RemoveKeepsValid | src/ring/path_graph.js:48-91 | after `remove` the edges keep distinct identities below the counter, no edge through the atom survives, and every new edge has at most maxLen + 1 atoms |
| RingPathGraph.RemoveKeepsBelow | src/ring/path_graph.js:48-91 | `remove` brings in no atom the edges did not hold |
| RingPathGraph.NewEdgesFacts | src/ring/path_graph.js:70 | the splices of the open paths through an atom never throw, and have consecutive fresh identities and at least three atoms |
| RingPathGraph.IncidentDistinct | src/ring/path_graph.js:97-119 | the matching edges of a list without repetitions have none |
| RingPathGraph.PathsEndAtAtom | src/ring/path_graph.js:60-67 | once the cycles are removed, every remaining matching edge has the atom as an end |
| RingPathGraph.RemovedInTwoSteps | src/ring/path_graph.js:60-75 | removing the cycles and then the open paths removes every edge through the atom |
| RingPathGraph.KeptEdges | src/ring/path_graph.js:72-76 | the kept edges are exactly the old edges not through the atom, without repetitions |
| RingPathGraph.NewEdgesFresh | src/ring/path_graph.js:81-87 | appending the short enough new edges keeps identities distinct and increasing past the kept ones, and brings back no removed edge |
| RingPathGraph.ShortEnoughFresh | src/ring/path_graph.js:81-87 | the kept new edges keep fresh identities and three or more atoms |
| RingPathGraph.ShortEnoughIncreasing | src/ring/path_graph.js:81-87 | the kept new edges have identities among the fresh ones, in increasing order, and at least three atoms |
| RingPathGraph.PathGraph.SpliceEdges | src/ring/path_graph.js:126-138 | each pair i < j is spliced as `edges[j].splice(edges[i])`, non-null results kept in order with identities from the counter on; a throw of any splice is the result |
| RingPathGraph.PathGraph.SpliceRow | src/ring/path_graph.js:129-136 | the inner loop for path i: a throw ends the whole splicing with that error; otherwise the accumulated edges continue with row i + 1 |
| RingPathGraph.PathGraph.SplicePair | src/ring/path_graph.js:130-135 | one pair: a throw is the result of the whole splicing; a spliced edge is appended with the next identity and null adds nothing, so the list only grows, by at most one edge |
| RingPathGraph.PathGraph.RemoveEach | src/ring/path_graph.js:59-66 | on a list without repetitions, removing each listed edge that is present leaves exactly the edges not listed, in order |
| RingPathGraph.PathGraph.CycleEdges | src/ring/path_graph.js:53-58 | the loop collects exactly the cycle edges, in order |
| RingPathGraph.PathGraph.AddShort | src/ring/path_graph.js:81-87 | appends exactly the new edges of at most maxLen + 1 atoms, in order; fresh identities mean none is already present |
| RingPathGraph.PathGraph.RemoveFrom | src/ring/path_graph.js:53-88 | the body of `remove`: the cycles through the atom, the edges left afterwards and the number of identities the splices took |
| Floyd.Rows | src/layout/atom_placer.js:84-92 | the matrix read row by row: one row per array row, entry [i][j] being the array's |
| Floyd.Min | src/layout/atom_placer.js:87-89 | the relaxed entry is the smaller of the old entry and the path through k |
| Floyd.RelaxRound | src/ring/sssr.js:192-205 | one round through k keeps the diagonal at 0 and the entries non-negative, and extends the triangle inequality to intermediates up to k |
| Floyd.RelaxRoundKeepsPivot | src/layout/atom_placer.js:84-92 | row k and column k do not change during the round through k, so relaxing in place reads the values of the round's start |
| ConnectionMatrix.BondedBeforeAll | src/layout/connection_matrix.js:17-24 | scanning the first k bonds marks exactly the pairs some of them join |
| ConnectionMatrix.GetMatrix | src/layout/connection_matrix.js:5-27 | a fresh n x n matrix whose entry [i][j] is 1 exactly when a bond joins i and j and 0 otherwise; it is symmetric |
| LayoutState.Layout.constructor | src/layout/coordinate_generator.js:42-47 | the layout starts from the atoms' coordinates with ISPLACED, VISITED, ISINRING and ISALIPHATIC unset on every atom and no ring placed |
| LayoutState.AtomLists | src/ring/partitioner.js:134 | one atom list per ring, the ring's own |
| RingPartitioner.DirectConnectedMembers | src/ring/partitioner.js:131-146 | the result holds exactly the rings of `search` other than the subject that share an atom with it, in `search` order |
| RingPartitioner.DirectConnectedExcludesSubject | src/ring/partitioner.js:135-136 | the subject ring is never connected to itself |
| RingPartitioner.SubsequenceIncreasing | src/ring/partitioner.js:131-146 | a subsequence of an increasing list is increasing and holds only its members |
| RingPartitioner.Range | src/ring/partitioner.js:105 | the ring positions lo..hi-1, in order |
| RingPartitioner.FlattenMembers | src/ring/partitioner.js:107 | `goog.array.flatten`: a ring is in the flattened list exactly when some partition holds it |
| RingPartitioner.FindContaining | src/ring/partitioner.js:108-109 | `goog.array.find`: a partition holding the ring, none exactly when no partition does |
| RingPartitioner.GetPartitionedRings | src/ring/partitioner.js:103-121 | the loop leaves the partitions of `Partitions`: ring 0 with the rings directly connected to it, then each other ring on its own |
| RingPartitioner.PartitionRing | src/ring/partitioner.js:106-119 | after ring i, `search` is empty (the filter at line 116 keeps nothing) and the partitions are the first plus a single for each later ring not in it |
| RingPartitioner.FlattenGrows | src/ring/partitioner.js:107 | after ring i the partitions hold exactly the first partition and the rings up to i |
| RingPartitioner.StartPartition | src/ring/partitioner.js:108-117 | a ring no partition holds starts one: with its direct connections for ring 0, alone for any later one, since `search` is then empty |
| RingPartitioner.SearchWithout | src/ring/partitioner.js:112 | the filter keeps `search` within the ring table, and on all the rings drops ring 0 to leave 1..n-1 |
| RingPartitioner.SinglesCover | src/ring/partitioner.js:106-119 | every ring from 1 on outside the first partition gets a partition of its own |
| RingPartitioner.FirstPartitionFacts | src/ring/partitioner.js:111-115 | the first partition is ring 0 followed by distinct rings of the table |
| RingPartitioner.PartitionsCover | src/ring/partitioner.js:103-121 | every ring lands in some partition |
| RingPartitioner.PartitionsDisjoint | src/ring/partitioner.js:103-121 | no ring lands in two partitions |
| RingPartitioner.PartitionsShape | src/ring/partitioner.js:103-121 | every partition is non-empty and lists distinct rings of the input; only the first can hold more than one; each starts with a ring no earlier partition holds |
| RingPartitioner.PartitionsEach | src/ring/partitioner.js:103-121 | each partition on its own: non-empty, distinct rings of the input, a single unless it is the first |
| RingPartitioner.PartitionsHeads | src/ring/partitioner.js:107-117 | each partition starts with a ring no earlier partition holds |
| RingFinder.CreateRing | src/ring/finder.js:34-58 | an empty atom list throws; otherwise a ring with the given atoms and the bonds `findBond` finds between consecutive atoms and then between the first and last |
| RingFinder.RingBondsLinkRingAtoms | src/ring/finder.js:44-55 | every bond of a created ring is a bond of the molecule touching one of the ring's atoms |
| RingFinder.PairBondsTouch | src/ring/finder.js:44-50 | every bond found for a consecutive pair touches an atom of the list |
| RingFinder.RingBondsOfBondedRing | src/ring/finder.js:44-55 | a ring whose consecutive atoms and whose ends are bonded gets exactly one bond per atom |
| RingFinder.VerifyMeaning | src/ring/finder.js:119-140 | the kept rings extend the accepted ones by a subsequence of the input; for nsssr >= 1 there are at most nsssr; no kept ring contains all atoms of an earlier one |
| RingFinder.VerifyStep | src/ring/finder.js:126-135 | the first ring's atoms and the remaining rings' atoms stay within the atom tables |
| RingFinder.VerifyExtends | src/ring/finder.js:126-135 | the result starts with the accepted rings and adds a subsequence of the input |
| RingFinder.VerifyBounded | src/ring/finder.js:126-135 | for nsssr >= 1 the loop stops once nsssr rings are kept |
| RingFinder.VerifyUncontained | src/ring/finder.js:126-135 | a ring is kept only when it contains no ring kept before it |
| RingFinder.VerifySSSR | src/ring/finder.js:119-140 | the loop keeps exactly the rings `Verify` keeps, starting from the molecule's valences and zero ring counts |
| RingFinder.VerifySSSRMeaning | src/ring/finder.js:119-140 | for nsssr >= 1 at most nsssr rings are kept, in input order, none containing an earlier kept one |
| RingFinder.FinishedGrows | src/ring/finder.js:341-345 | an atom whose bonds are all visited stays so as more bonds are visited |
| RingFinder.SystemBond | src/ring/finder.js:341-380 | one bond of a system atom: the system stays consistent, the bond is visited, every newly reached ring atom is added to the system and the queue, and the unvisited-atom count drops by their number |
| RingFinder.MarkBondKeeps | src/ring/finder.js:346-352 | marking an unvisited bond keeps the system consistent; a visited ring atom at its other end is already in the system |
| RingFinder.SystemClosure | src/ring/finder.js:358-365 | a ring closure adds one system bond between the two system atoms, standing for the molecule bond `findBond` finds; no atom is added |
| RingFinder.SystemJoin | src/ring/finder.js:366-380 | a new ring atom is visited, gets the next system index, joins the queue and is bonded to the system atom it was reached from |
| RingFinder.SystemAtom | src/ring/finder.js:337-381 | all bonds of a dequeued atom: afterwards every one is visited, the added atoms are appended to system and queue, and the unvisited-atom count drops by their number |
| RingFinder.SystemAtomStep | src/ring/finder.js:341-380 | the loop over the atom's bonds keeps its invariant from bond i to bond i + 1 |
| RingFinder.BuildSystem | src/ring/finder.js:320-382 | a ring system built from ring atom k: consistent, starting with k; atom 0 ends visited (line 326 marks atom 0, not k); no visited atom is unvisited |
| RingFinder.BuildSystemStep | src/ring/finder.js:330-381 | one dequeue keeps the walk's invariant and makes progress: fewer unvisited atoms or a shorter queue |
| RingFinder.SystemRings | src/ring/finder.js:392-411 | the loop computes exactly `SystemRingsOf`: the Hanser rings of up to six atoms that `verifySSSR` keeps when there are at least nsssr of them and it keeps nsssr, the SSSR search otherwise; every ring a non-empty list of the system's atoms, at most nsssr of them for a positive nsssr |
| RingFinder.SystemRingsOfCases | src/ring/finder.js:394-411 | the system's rings are the verified Hanser rings exactly when there are at least nsssr Hanser rings and at least nsssr survive `verifySSSR`, and the SSSR search's rings in every other case |
| RingFinder.SystemRingsOfOk | src/ring/finder.js:392-411 | whichever branch is taken, the rings are non-empty lists of the system's atoms, at most nsssr of them for a positive nsssr |
| RingFinder.SSSRRingsWithin | src/ring/finder.js:403-410 | the fallback SSSR search gives non-empty rings of the system's atoms, at most nsssr of them |
| RingFinder.VerifiedHanserOk | src/ring/finder.js:398-399 | the Hanser rings `verifySSSR` keeps are non-empty rings of the system's atoms, at most nsssr of them |
| RingFinder.MembersWithin | src/ring/finder.js:413-420 | rings whose members are all non-empty and below n satisfy the index-wise bound the translation loop needs |
| RingFinder.SubsequenceMembers | src/ring/finder.js:119-140 | kept rings are rings of the input |
| RingFinder.Translate | src/ring/finder.js:415-420 | a ring in system numbering maps back, position by position, to molecule atoms |
| RingFinder.CreateRingSystems | src/ring/finder.js:299-427 | returns exactly the concatenation, system by system in order of their first ring atom, of the records of the rings `SystemRingsOf` finds in each ring system, each ring translated back to molecule atoms with the bonds `createRing` gives it; every reported ring is non-empty and made of ring atoms |
| RingFinder.CreateRingSystemsAsWritten | src/ring/finder.js:299-321 | as written the function throws exactly when some atom is in a cycle, because `kemia.model` is undefined at line 321; a molecule without ring atoms gives no rings |
| RingFinder.SearchSystem | src/ring/finder.js:392-422 | one system's rings are what `SystemRingsOf` finds in it, they fit the system, and the records created are exactly their translations with their `createRing` bonds, each on ring atoms |
| RingFinder.CreateSystemRings | src/ring/finder.js:413-422 | the translate-and-create loops give exactly one record per ring, in order, each on ring atoms of the molecule |
| RingFinder.AppendRecord | src/ring/finder.js:421-422 | appending the next ring's record keeps the created prefix equal to the system's records, each on ring atoms |
| RingFinder.SystemRecordCycle | src/ring/finder.js:413-422 | a system ring translated back lies on ring atoms of the molecule |
| RingFinder.SearchedStep | src/ring/finder.js:308-422 | one more searched system, with the rings `SystemRingsOf` finds in it, extends the list of searched systems |
| RingFinder.RecordsStep | src/ring/finder.js:421-426 | the rings of one more system follow, in order, the rings reported for the systems before it |
| RingFinder.FindRings | src/ring/finder.js:434-458 | nsssr equal to 0 returns no rings and touches nothing; a success returns exactly the records `CreateRingSystems` gives for the ring atoms the detection marks (the systems searched in order, each system's rings as `SystemRingsOf` finds them), each non-empty and on marked atoms with its `createRing` bonds; a failure is a throw of the backtracking or its endless loop |
| RingDetect.FirstAtDepth | src/ring/finder.js:255-268 | the search for a neighbour one level up finds an atom of the list at that depth, or leaves the cursor as it was |
| RingDetect.FirstAtDepthFinds | src/ring/finder.js:255-268 | when the list holds an atom at that depth, the search finds one |
| RingDetect.AtDepthMembers | src/ring/finder.js:241-246 | the filter keeps atoms of the list, each at the given depth |
| RingDetect.StepDown | src/ring/finder.js:255-261 | one cursor moves to an atom at the requested depth or stays where it is |
| RingDetect.StepBoth | src/ring/finder.js:255-268 | both cursors move to atoms one level up when the tree gives every atom a parent |
| RingDetect.Backtrack | src/ring/finder.js:251-274 | both start atoms end marked, no mark is cleared, only reached atoms are marked; from two atoms at equal depth in a tree the loop ends |
| RingDetect.Climb | src/ring/finder.js:255-268 | one step from an atom at depth v lands on an atom at depth v - 1, or stays put at the root |
| RingDetect.LowerNeighbors | src/ring/finder.js:240-246 | the neighbours of nb one level above it, in neighbour order |
| RingDetect.FilterAtDepth | src/ring/finder.js:241-246 | the loop keeps exactly the atoms of the list at the given depth, in order |
| RingDetect.CloseRing | src/ring/finder.js:231-274 | a ring closure marks the far atom and keeps every mark; a throw is the TypeError or the endless loop; a closure between atoms of equal depth (an odd ring) never fails |
| RingDetect.EvenRingStart | src/ring/finder.js:237-247 | an even ring marks nb and starts from its (at least two) neighbours one level up; with fewer the TypeError is thrown |
| RingDetect.ReachedParents | src/ring/finder.js:207-279 | the search tree gives every atom at a positive depth a parent one level up and only atom 0 depth 0 |
| RingDetect.Enqueue | src/ring/finder.js:275-277 | reaching a new atom grows the tree by one atom one level below the current one |
| RingDetect.VisitBond | src/ring/finder.js:213-277 | one bond: a walked bond is skipped; otherwise it is marked and either reaches a new atom, appended to the queue, or closes a ring; a throw comes only from an even closure |
| RingDetect.WalkClosure | src/ring/finder.js:231-274 | a new bond to a reached atom is recorded as a closure; the order and the queue are kept; a throw only for an even closure |
| RingDetect.WalkTreeBond | src/ring/finder.js:275-277 | a new bond to an unreached atom appends it to the tree and to the queue |
| RingDetect.WalkedAdd | src/ring/finder.js:213-218 | walking one more bond whose ends are both reached keeps the walked bonds accounted for |
| RingDetect.VisitAtom | src/ring/finder.js:211-278 | the bonds of one dequeued atom: on success every one is walked; new atoms are appended to the order and the queue; a throw comes from an even closure |
| RingDetect.VisitAtomStep | src/ring/finder.js:213-277 | the loop over the atom's bonds keeps its invariant from bond i to bond i + 1 |
| RingDetect.DetectRingAtoms | src/ring/finder.js:190-281 | from atom 0 the search reaches exactly its connected part once each, depths growing by one from parent to child; on success every bond of that part is walked once, each either reaching a new atom or closing a ring whose far atom is marked; only reached atoms are marked; a throw comes from an even closure |
| RingDetect.RunSearch | src/ring/finder.js:207-279 | the main loop ends with every bond of every reached atom walked, or with a throw at an even closure |
| RingDetect.SearchStep | src/ring/finder.js:207-279 | one dequeue keeps the search invariant, keeps the order's prefix and walked bonds, and walks all bonds of the dequeued atom |
| RingDetect.StartSearch | src/ring/finder.js:195-205 | the search starts with atom 0 at depth 0, visited and queued |
| RingDetect.SearchFacts | src/ring/finder.js:190-281 | the search state gives a tree rooted at atom 0, reached atoms exactly those with a depth, marks only on reached atoms, and one more reached atom than walked tree bonds |
| RingDetect.SearchCovers | src/ring/finder.js:207-279 | once every reached atom's bonds are walked, the reached atoms are closed under bonds |
| RingSSSR.WeightSymmetric | src/ring/sssr.js:94-110 | the weight matrix is symmetric |
| RingSSSR.CreateWeightMatrix | src/ring/sssr.js:94-110 | a fresh n x n matrix: 0 on the diagonal, 1 for bonded pairs, 100000000 otherwise (the `Weight` entries) |
| RingSSSR.CreatePIDMatrix | src/ring/sssr.js:141-158 | a fresh n x n matrix whose entry lists the one-bond path of a bonded pair and is empty otherwise |
| RingSSSR.CreateEmptyPIDMatrix | src/ring/sssr.js:119-130 | a fresh n x n matrix of empty path lists |
| RingSSSR.AppendPath | src/ring/sssr.js:167-173 | the list grows by one path at the end and keeps its old paths |
| RingSSSR.RelaxMeaning | src/ring/sssr.js:195-226 | D becomes the smaller of itself and the sum; a shorter path replaces Pe by the new path and keeps the old Pe as Pe' only when it was one bond longer; an equal sum adds the path to Pe, a sum one longer adds it to Pe' |
| RingSSSR.AppendPathsOf | src/ring/sssr.js:167-173 | joined paths hold only bond indices of the molecule |
| RingSSSR.RelaxKeepsEntries | src/ring/sssr.js:195-226 | a step reads only paths that exist, never through an endpoint itself, and keeps the entry's invariant |
| RingSSSR.StepAt | src/ring/sssr.js:195-226 | the step for one pair as a function on the matrices of entries; it keeps them square |
| RingSSSR.PIDMatrices | src/ring/sssr.js:182-236 | the triple loop as a function: rounds k = 0 .. n-1 from the initial matrices; the result is n x n |
| RingSSSR.InitialEntries | src/ring/sssr.js:184-186 | the matrices the loop starts from are n x n |
| RingSSSR.HoldsMatOk | src/ring/sssr.js:182-236 | matrices whose entries all keep the entry invariant give a matrix of entries that keep it |
| RingSSSR.InitialMatrices | src/ring/sssr.js:184-186 | fresh arrays holding `InitialEntries`, each entry keeping its invariant, with D equal to the weights |
| RingSSSR.MakePIDMatrixes | src/ring/sssr.js:182-236 | the arrays end holding exactly `PIDMatrices(g)`, which is never an error; the entries keep their invariants, no distance rises above its weight, and D satisfies the triangle inequality through every atom |
| RingSSSR.Round | src/ring/sssr.js:192-228 | round k takes the arrays from M to the `RoundRows` result, keeps every distance at most its weight and extends the triangle inequality to paths through k |
| RingSSSR.RelaxThrough | src/ring/sssr.js:192-228 | round k leaves exactly the `RoundRows` result in the arrays, relaxing every pair through k against the round's start |
| RingSSSR.RelaxRow | src/ring/sssr.js:193-227 | row i of round k leaves exactly the `RowSteps` result: row i relaxed through k, every other row as it was |
| RingSSSR.RowProgress | src/ring/sssr.js:194-226 | relaxing (i, j) extends the relaxed part of row i by one column |
| RingSSSR.RelaxEntry | src/ring/sssr.js:195-226 | the step never throws and leaves the `StepAt` result: D[i][j] becomes the smaller of itself and D[i][k] + D[k][j], no other entry of D changes |
| RingSSSR.WriteEntry | src/ring/sssr.js:205-225 | the three matrices hold the new entry at (i, j) and every other entry as before |
| RingSSSR.InsertByCnum | src/ring/sssr.js:241-243 | one insertion step: the candidates plus the new one, an ordered list stays ordered by Cnum |
| RingSSSR.InsertAfterFirst | src/ring/sssr.js:241-243 | inserting behind a first candidate of no greater Cnum keeps order and contents |
| RingSSSR.SortByCnum | src/ring/sssr.js:275 | ordered by Cnum and a permutation of the candidates |
| RingSSSR.MakeCandidateSet | src/ring/sssr.js:254-278 | the candidates read off the matrices row by row, sorted by Cnum; when every entry keeps its invariant, every candidate has an odd Cnum exactly when Pe' has paths, a shortest path whenever Pe' has one, and only bond indices |
| RingSSSR.CandidateAt | src/ring/sssr.js:258-273 | the pair (i, j) gives no candidate when D is 0 or it has a single shortest path and no longer one; otherwise one candidate of Cnum 2D + 1 when Pe' has paths and 2D when not |
| RingSSSR.RowCandidatesStep | src/ring/sssr.js:257-274 | the candidates of row i up to column j + 1 are those up to j followed by the one of (i, j) |
| RingSSSR.SortKeepsOk | src/ring/sssr.js:275 | sorting keeps every candidate, so a property of each candidate survives it |
| RingSSSR.BumpPositions | src/ring/sssr.js:316-320 | the count at position j goes up when the candidate's atom at position j is in the ring (a position, not the atom's count); the length is kept |
| RingSSSR.BumpAtoms | src/ring/sssr.js:334-336 | the count of each atom of the candidate goes up; the length is kept |
| RingSSSR.ScanRings | src/ring/sssr.js:303-321 | the counts keep their length; the scan stops with true exactly when some accepted ring lies inside the candidate |
| RingSSSR.CandidateInSet | src/ring/sssr.js:302-340 | the ring counts keep their length |
| RingSSSR.CandidateInSetMeaning | src/ring/sssr.js:302-340 | in the set exactly when an accepted ring lies inside the candidate or none of its atoms is short of rings; otherwise every atom of the (non-empty) candidate has its count raised |
| RingSSSR.BumpAtomsGrows | src/ring/sssr.js:334-336 | no count falls, and the count of an atom of the candidate rises |
| RingSSSR.EmptyCandidateInSet | src/ring/sssr.js:302-340 | an empty candidate is always in the set |
| RingSSSR.IsCandidateInSet | src/ring/sssr.js:302-340 | the loops answer as `CandidateInSet` and leave the counts it gives |
| RingSSSR.RingInside | src/ring/sssr.js:306-313 | true exactly when every atom of the ring is in the candidate |
| RingSSSR.HasShortAtom | src/ring/sssr.js:326-331 | true exactly when some atom of the candidate has fewer rings than its valence allows |
| RingSSSR.BumpEach | src/ring/sssr.js:334-336 | the counts become those of `BumpAtoms` |
| RingSSSR.BumpByPosition | src/ring/sssr.js:316-320 | the counts become those of `BumpPositions` |
| RingSSSR.BondsOfPrefix | src/ring/sssr.js:348-362 | a prefix of a bond ring is a bond ring |
| RingSSSR.AtomsOfBondsMeaning | src/ring/sssr.js:348-362 | the atom list has no repeats and holds exactly the ends of the ring's bonds; a non-empty ring gives a non-empty list |
| RingSSSR.BondRingToAtomRing | src/ring/sssr.js:348-362 | the loop builds `AtomsOfBonds`: distinct atoms, exactly the ends of the bonds |
| RingSSSR.Process | src/ring/sssr.js:373-386 | an error exactly when a bond index is not a bond; otherwise the ring list is kept or grows by the candidate's atom ring, which then has no repeats, only atoms of the molecule and as many atoms as bonds |
| RingSSSR.ProcessCandidate | src/ring/sssr.js:373-386 | leaves the `Process` result; with as many atoms as bonds the atom ring is added exactly when `isCandidateInSet` says it is new and the list is kept exactly when it says it is in the set; a bond list with fewer atoms than bonds changes nothing |
| RingSSSR.Valences | src/ring/sssr.js:400-404 | one entry per atom, its bond count |
| RingSSSR.NoRingCounts | src/ring/sssr.js:406-409 | one count per atom, all 0 |
| RingSSSR.Joins | src/ring/sssr.js:415-432 | an odd Cnum joins Pe[0] with each path of Pe' (throwing when Pe' has paths and Pe has none); an even Cnum joins each path of Pe with the next |
| RingSSSR.JoinsOk | src/ring/sssr.js:415-432 | a candidate read off the matrices has joins, each made of bond indices |
| RingSSSR.SearchJoins | src/ring/sssr.js:415-432 | the rings found before stay in front, every ring added keeps the ring invariant, and it stops with `done` exactly on reaching nsssr rings |
| RingSSSR.Search | src/ring/sssr.js:397-435 | the rings found before stay in front and every added ring keeps the ring invariant; starting below nsssr, at most nsssr rings |
| RingSSSR.CandidateSearch | src/ring/sssr.js:397-435 | returns exactly the `Search` result over the candidates from no rings and zero counts; with nsssr >= 1 at most nsssr rings; every ring a non-empty list of distinct atoms of the molecule |
| RingSSSR.SearchAt | src/ring/sssr.js:410-433 | one step of the search: the candidate at position i is processed, then the search stops or goes on with the next |
| RingSSSR.SearchCandidate | src/ring/sssr.js:415-432 | the candidate's joins exist and the ring list, counts and stop flag are exactly those `SearchJoins` gives |
| RingSSSR.SearchOddJoins | src/ring/sssr.js:416-422 | for an odd candidate, exactly the `SearchJoins` result over Pe[0] joined with each path of Pe' |
| RingSSSR.SearchEvenJoins | src/ring/sssr.js:423-431 | for an even candidate, exactly the `SearchJoins` result over each path of Pe joined with the next |
| RingSSSR.SearchJoinsAt | src/ring/sssr.js:415-432 | one step of the join loop: join j is processed, then the loop stops on nsssr rings or goes on |
| RingSSSR.PassFrom | src/ring/sssr.js:451-461 | one pass never shortens the path and keeps it a repeat-free path along bonds starting from the ring's first atom, made of ring atoms |
| RingSSSR.PathAfter | src/ring/sssr.js:446-462 | the passes keep the path repeat-free, along bonds and made of ring atoms |
| RingSSSR.SortedPathMeaning | src/ring/sssr.js:443-464 | the reordered ring has no repeats and holds only atoms of the ring, among them its first atom; every atom before that one is bonded to it, and each atom after it is bonded to its predecessor; when as long as a repeat-free ring it holds every atom of it once |
| RingSSSR.SameLengthSameMembers | src/ring/sssr.js:447 | two repeat-free lists of the same length, one inside the other, have the same members |
| RingSSSR.SortByPath | src/ring/sssr.js:443-464 | the loop builds exactly `SortedPath`; it stops short of the ring's length only after 1000 passes |
| RingSSSR.SortedPaths | src/ring/sssr.js:490-492 | one reordered ring per ring, in order |
| RingSSSR.SortedPathsOk | src/ring/sssr.js:490-492 | reordering keeps every ring a non-empty list of distinct atoms of the molecule |
| RingSSSR.SSSRRings | src/ring/sssr.js:471-495 | nsssr equal to 0 gives no rings; otherwise a success gives non-empty lists of distinct atoms of the molecule, at most nsssr of them when nsssr >= 1; a negative nsssr (a molecule in several fragments) passes the `!nsssr` test at line 479 and bounds nothing |
| RingSSSR.FindRings | src/ring/sssr.js:471-495 | returns exactly `SSSRRings`, which is never an error: no error path of the search is reached |
| RingSSSR.SSSRRingsFrom | src/ring/sssr.js:471-495 | once the matrices and the search are known, `SSSRRings` is the search result sorted by path |
| RingSSSR.SortEachByPath | src/ring/sssr.js:490-492 | exactly `SortedPaths`: one reordered ring per ring |
| RingSSSR.AppendSortedPath | src/ring/sssr.js:490-492 | appending ring i's sorted path keeps the list equal to `SortedPaths` so far |
| SmilesAtom.Upper | src/io/smiles_parser.js:255-257 | `toUpperCase` turns a lower-case letter into an upper-case one and leaves other characters alone |
| SmilesAtom.ElementAt | src/io/smiles_parser.js:71 | the element group `([A-Z][a-z]?\|c\|n\|o\|se\|s\|as)` at a position: at most two characters, each match an element form |
| SmilesAtom.AtsAt | src/io/smiles_parser.js:71 | the stereo group `(@\|@@)?`: at most two '@' characters |
| SmilesAtom.HydrogenAt | src/io/smiles_parser.js:71 | the group `(H)?` takes one character exactly when an 'H' is there |
| SmilesAtom.DigitAt | src/io/smiles_parser.js:71 | the group `([0-9])?` takes one character exactly when a digit is there |
| SmilesAtom.ChargeAt | src/io/smiles_parser.js:71 | the group `([+-][\d]?)?`: at most two characters forming a charge |
| SmilesAtom.Scan | src/io/smiles_parser.js:71 | the greedy scan of the pattern's body gives group boundaries in order |
| SmilesAtom.ScanTail | src/io/smiles_parser.js:71 | the scan after the element keeps the element's boundaries and orders the rest |
| SmilesAtom.MatchInner | src/io/smiles_parser.js:71 | a match gives well-formed groups that spell the text between the brackets exactly |
| SmilesAtom.CutSpells | src/io/smiles_parser.js:71 | cutting a text at ordered boundaries and joining the pieces gives the text back |
| SmilesAtom.ScanWellFormed | src/io/smiles_parser.js:71 | the groups a successful scan cuts are well formed |
| SmilesAtom.ScanElement | src/io/smiles_parser.js:71 | the element group of a successful scan is an element form |
| SmilesAtom.ScanCharge | src/io/smiles_parser.js:71 | the charge group of a successful scan is empty or a charge |
| SmilesAtom.AtomPattern | src/io/smiles_parser.js:70-71 | `atomPattern.exec(item)`: a match gives well-formed groups that, printed in brackets, are the item |
| SmilesAtom.BracketSplit | src/io/smiles_parser.js:71 | a bracketed item is '[' + its inside + ']' |
| SmilesAtom.DigitRunOfPrefix | src/io/smiles_parser.js:71 | the isotope group `([0-9]*)` takes the whole leading digit run and no more |
| SmilesAtom.EndsOf | src/io/smiles_parser.js:71 | the boundaries of well-formed groups in the text they spell are ordered and end at its end |
| SmilesAtom.CutOfInner | src/io/smiles_parser.js:71 | cutting the spelled text at those boundaries gives the groups back |
| SmilesAtom.InnerAt | src/io/smiles_parser.js:71 | at each group's boundary the text holds that group's characters |
| SmilesAtom.DigitRunOfInner | src/io/smiles_parser.js:71 | the leading digit run of spelled groups is exactly the isotope |
| SmilesAtom.ScannersOfInner | src/io/smiles_parser.js:71 | on spelled groups each group scanner takes exactly that group |
| SmilesAtom.MatchInnerOfInner | src/io/smiles_parser.js:71 | matching the text well-formed groups spell gives the groups back |
| SmilesAtom.ScanAt | src/io/smiles_parser.js:71 | when each scanner takes exactly its part, the scan finds those boundaries |
| SmilesAtom.ScanTailAt | src/io/smiles_parser.js:71 | when the scanners after the element take exactly their parts, the tail scan finds those boundaries |
| SmilesAtom.AtomPatternOfBracket | src/io/smiles_parser.js:70-71 | printing well-formed groups as a bracket atom and matching it gives the groups back: printing and matching are inverse |
| SmilesAtom.RawSymbol | src/io/smiles_parser.js:219-250 | the symbol before capitalisation is a periodic-table key and an element form |
| SmilesAtom.SpecialAtomsAreElements | src/io/smiles_parser.js:72-73 | every organic-subset symbol is a periodic-table key and an element form |
| SmilesAtom.Capitalised | src/io/smiles_parser.js:254-258 | the capitalised symbol keeps its length and starts with a capital |
| SmilesAtom.ChargeOf | src/io/smiles_parser.js:236-242 | an absent charge group is NaN |
| SmilesAtom.ParseAtom | src/io/smiles_parser.js:205-261 | a symbol exactly when the tables give one, always a periodic-table key starting with a capital; aromatic exactly for the six lower-case symbols; otherwise the symbol as written; a plain token carries nothing but its symbol, which it has exactly when it is in the organic subset; the chiral-hydrogen note only on a chiral atom with hydrogens |
| SmilesAtom.CapitalisedInTable | src/io/smiles_parser.js:252-259 | the symbol `parseAtom` ends with is a periodic-table key starting with a capital, capitalised or not |
| SmilesParser.CreateBond | src/io/smiles_parser.js:272-296 | an implicit bond is aromatic between two aromatic atoms and single otherwise; '-', '=', '#' and ':' give single, double, triple and aromatic; every other type (including '$') is the 'invalid bond type' error; reading the source's aromatic flag fails when there is no source atom |
| SmilesParser.Connect | src/io/smiles_parser.js:126-129 | a bond from the previous atom to the target with the pending type; without a previous atom it fails |
| SmilesParser.BareClosure | src/io/smiles_parser.js:110-130 | a ring number's first occurrence records the previous atom, its second closes the ring; the parse state stays well formed |
| SmilesParser.OrderedClosure | src/io/smiles_parser.js:136-150 | a ring number written after '=', '#' or '$' also records the symbol, and the closure bonds with the recorded symbol; the state stays well formed |
| SmilesParser.AtomToken | src/io/smiles_parser.js:151-173 | any other token is an atom, bonded to the previous atom, which it replaces; the state stays well formed |
| SmilesParser.AddAtom | src/io/smiles_parser.js:156-170 | adding an atom keeps the state well formed |
| SmilesParser.Step | src/io/smiles_parser.js:91-178 | one token of the loop, dispatched in the source's branch order, keeps the state well formed |
| SmilesParser.Run | src/io/smiles_parser.js:88-179 | the state after all tokens, or the first error, is well formed |
| SmilesParser.SanityCheck | src/io/smiles_parser.js:190-203 | passes exactly when no branch is open, no ring number is open and no bond type is pending; an open branch is reported first as 'unbalanced parens' |
| SmilesParser.OtherAtom | src/io/smiles_parser.js:318 | the other end of a bond exists exactly when the atom is one of its ends |
| SmilesParser.FindBondFrom | src/io/smiles_parser.js:318 | `findBond` gives the first bond joining the two atoms, and none exactly when no bond joins them |
| SmilesParser.SurveyStep | src/io/smiles_parser.js:318-326 | visiting one atom keeps the bond count; it fails only when the ring search does, with its error |
| SmilesParser.SurveyUpTo | src/io/smiles_parser.js:317-327 | the walk over the first k atoms finds at most k neighbours, and only bonds that exist among the molecule's bonds |
| SmilesParser.SurveyStepFits | src/io/smiles_parser.js:318-326 | one visit adds at most one neighbour and keeps the collected bonds within the molecule |
| SmilesParser.StereoWrites | src/io/smiles_parser.js:329-351 | the rules mark bonds only when the atom has three or four neighbours and some bond outside a ring, and never the third such bond (the second `numOfAvBonds === 4` test is dead) |
| SmilesParser.ApplyWrites | src/io/smiles_parser.js:335-350 | marking changes only the stereo of the marked bonds and leaves every other bond as it was |
| SmilesParser.Center | src/io/smiles_parser.js:308-351 | one chiral atom changes only the direction and stereo of bonds, never their number; a failure is the ring search's |
| SmilesParser.Chirality | src/io/smiles_parser.js:307-353 | all chiral atoms together change only the direction and stereo of bonds; a failure is the ring search's |
| SmilesParser.ChiralityErrSticks | src/io/smiles_parser.js:307-353 | once a chiral atom fails, the later ones do not change the outcome |
| SmilesParser.SurveyErrSticks | src/io/smiles_parser.js:317-327 | once the walk fails, the later atoms do not change the outcome |
| SmilesParser.SurveyAtoms | src/io/smiles_parser.js:317-327 | the loop over the atoms computes the walk of the specification |
| SmilesParser.MarkBonds | src/io/smiles_parser.js:328-351 | the two rules as written mark exactly the bonds the rule table names, with UP/DOWN by direction |
| SmilesParser.SetChiralCenters | src/io/smiles_parser.js:306-354 | the method computes the specification of all chiral atoms |
| SmilesParser.WritesAsRules | src/io/smiles_parser.js:329-351 | the rule table agrees with the nested conditions of the source for every neighbour count and number of bonds outside rings |
| SmilesParser.RunErrSticks | src/io/smiles_parser.js:175-178 | the first error stops the token loop |
| SmilesParser.RunTokens | src/io/smiles_parser.js:88-179 | the loop computes the state of the token specification |
| SmilesParser.Parse | src/io/smiles_parser.js:76-188 | `parse` is the token loop, then the chirality pass, then the sanity check, the first failure winning, else the molecule named after the input |
| SmilesParser.ParseBondsInMolecule | src/io/smiles_parser.js:76-188 | a parsed molecule is named after its input and holds only bonds between its own atoms |
| SmilesParser.BranchRoundTrip | src/io/smiles_parser.js:91-99 | '(' followed by ')' gives the state back |
| SmilesParser.UnbalancedClose | src/io/smiles_parser.js:94-98 | ')' with no open branch is the 'Unbalanced parents' error |
| SmilesParser.NeutralTokens | src/io/smiles_parser.js:91-121 | '.', '/' and '\' change nothing, so the next atom still bonds to the previous one |
| SmilesParser.BondTokenPends | src/io/smiles_parser.js:100-109 | a bond symbol becomes the pending bond type and changes nothing else |
| SmilesParser.ParseIntOfDigit | src/io/smiles_parser.js:122 | `parseInt` of one digit is that digit's value |
| SmilesParser.RingOpens | src/io/smiles_parser.js:122-130 | the first occurrence of a digit records the previous atom under that number |
| SmilesParser.RingCloses | src/io/smiles_parser.js:122-130 | the second occurrence bonds the previous atom to the recorded one with the pending type, clears the pending type and frees the number |
| SmilesParser.BareClosureKeepsAtoms | src/io/smiles_parser.js:110-130 | a ring closure adds no atom and keeps the previous atom |
| SmilesParser.OrderedClosureKeepsAtoms | src/io/smiles_parser.js:136-150 | a ring closure with a symbol adds no atom and keeps the previous atom |
| SmilesParser.AddAtomAdds | src/io/smiles_parser.js:156-170 | an atom token appends one atom, which becomes the previous atom |
| SmilesParser.StepEffect | src/io/smiles_parser.js:91-178 | every token keeps the atoms, moves back to a branch point, or adds one atom chained to the previous one; bonds are only ever appended |
| SmilesParser.SymbolDigitToken | src/io/smiles_parser.js:136-150 | a bond symbol followed by one digit is a ring number with its own symbol |
| SmilesParser.ClosureSymbolUndefinedAsWritten | src/io/smiles_parser.js:136-150 | closing with '=n' a ring opened by a bare n fails |
| SmilesParser.ClosureSymbolIgnoredAsWritten | src/io/smiles_parser.js:122-130 | closing with a bare n a ring opened by '=n' between non-aromatic atoms gives a single bond |
| SmilesParser.IntendedClosureType | src/io/smiles_parser.js:132-135 | the closure type is the symbol on the closing number, else the one on the opening number, else the pending type |
| SmilesParser.IntendedClosureDouble | src/io/smiles_parser.js:132-150 | with that rule '=' on either occurrence gives a double ring bond |
| AtomPlacer.AddAtom | src/layout/atom_placer.js:184-185 | appending to a path or partner list gives exactly the old members plus the new atom |
| AtomPlacer.GetConnectedBondsCount | src/layout/atom_placer.js:154-160 | the count is the number of bonds with the atom at either end, which is its degree and at most the bond count |
| AtomPlacer.IncidentBound | src/layout/atom_placer.js:154-160 | an atom has no more bonds than the molecule |
| AtomPlacer.DegreeSumPositive | src/layout/atom_placer.js:141-149 | a path's degree sum is positive exactly when one of its atoms has a bond |
| AtomPlacer.GetDegreeSum | src/layout/atom_placer.js:141-149 | the loop computes the sum of the degrees of the path's atoms |
| AtomPlacer.InitialDistances | src/layout/atom_placer.js:66-83 | 999999 where there is no bond, 1 where there is one, 0 on the diagonal |
| AtomPlacer.ComputeFloydAPSP | src/layout/atom_placer.js:65-95 | the distances never exceed the initial ones, have a zero diagonal, are never negative and satisfy the triangle inequality through every atom |
| AtomPlacer.RelaxAllThrough | src/layout/atom_placer.js:85-91 | round k relaxes every entry through atom k |
| AtomPlacer.RelaxRowThrough | src/layout/atom_placer.js:86-90 | one row of round k relaxes through k, while row and column k keep their values |
| AtomPlacer.LongestChainStart | src/layout/atom_placer.js:25-43 | -1 exactly when no atom with one bond has a positive distance; otherwise (start, end) is the first strict maximum in row then column order over the rows of atoms with one bond: no such entry exceeds it and every earlier one is smaller |
| AtomPlacer.FirstLongestUnique | src/layout/atom_placer.js:31-43 | the first strict maximum is unique: two pairs that both satisfy it are the same pair |
| AtomPlacer.Has2DCoordinates | src/layout/atom_placer.js:235-255 | 0 for a null or empty chain or one all at the origin, 1 when some atoms are at the origin and some not, 2 when none is |
| AtomPlacer.AnyAtOrigin | src/layout/atom_placer.js:240-246 | true exactly when some atom sits at the origin |
| AtomPlacer.AnyOffOrigin | src/layout/atom_placer.js:240-246 | true exactly when some atom is away from the origin |
| AtomPlacer.AllPlaced | src/layout/atom_placer.js:328-332 | true exactly when each of the first atCount atoms is flagged ISPLACED |
| AtomPlacer.SetAll | src/layout/atom_placer.js:532-539 | the listed atoms take the value, every other flag keeps its own |
| AtomPlacer.MarkAll | src/layout/atom_placer.js:532-539 | the loop sets the flag of exactly the listed atoms |
| AtomPlacer.MarkNotPlaced | src/layout/atom_placer.js:532-534 | the listed atoms lose ISPLACED and no other flag changes |
| AtomPlacer.MarkPlaced | src/layout/atom_placer.js:537-539 | the listed atoms gain ISPLACED and no other flag changes |
| AtomPlacer.PartitionPartners | src/layout/atom_placer.js:518-530 | every neighbour ends up in the unplaced list if it lacks ISPLACED and in the placed list if it has it, and the count is the atom's number of bonds |
| AtomPlacer.GatheredStep | src/layout/atom_placer.js:522-528 | visiting one more bond keeps each partner list the set of neighbours seen so far with its flag value |
| AtomPlacer.CountHMonotone | src/layout/atom_placer.js:486-488 | the number of hydrogens met never decreases along the list |
| AtomPlacer.PowShrinks | src/layout/atom_placer.js:486-488 | repeated reduction by 0.6 shrinks the radius and keeps it positive |
| AtomPlacer.HydrogenShrinksLaterRadii | src/layout/atom_placer.js:486-488 | after an 'H', every later atom, hydrogen or not, gets at most 0.6 of the radius |
| AtomPlacer.NoHydrogenKeepsRadius | src/layout/atom_placer.js:486-488 | before the first 'H' the radius is unchanged |
| AtomPlacer.NoHydrogenCount | src/layout/atom_placer.js:486-488 | a list without 'H' counts no hydrogen |
| AtomPlacer.PopulatePolygonCorners | src/layout/atom_placer.js:477-504 | every listed atom gains ISPLACED and its corner point, with the radius reduced cumulatively after each 'H'; unlisted atoms keep their coordinates |
| AtomPlacer.CornerPoints | src/layout/atom_placer.js:480-498 | one point per atom, at the corner angle and the reduced radius |
| AtomPlacer.RadiusStep | src/layout/atom_placer.js:486-488 | the radius after an atom is the radius before it, times 0.6 for an 'H' |
| AtomPlacer.WriteCorners | src/layout/atom_placer.js:499-503 | each listed atom gets its point and ISPLACED, nothing else changes |
| AtomPlacer.DistinctAt | src/layout/atom_placer.js:499-503 | atoms of a list without repeats differ at different positions |
| AtomPlacer.PlaceLinearChain | src/layout/atom_placer.js:215-233 | every chain atom after the first gains ISPLACED and sits one bond vector past its predecessor; the first atom keeps its place |
| AtomPlacer.ChainExtend | src/layout/atom_placer.js:180-188 | appending an unplaced neighbour outside a ring to a chain from the start atom gives such a chain again |
| AtomPlacer.GrownStep | src/layout/atom_placer.js:180-188 | one bond of the expanded atom keeps the paths grown and queues the neighbour exactly when it is newly reached and has more than one bond |
| AtomPlacer.GrownSnoc | src/layout/atom_placer.js:180-188 | following one more bond keeps the paths grown |
| AtomPlacer.QueuedSnoc | src/layout/atom_placer.js:186-187 | the queue after one more bond is the old queue plus that neighbour when it qualifies |
| AtomPlacer.QueuedMembers | src/layout/atom_placer.js:186-187 | the queued atoms are exactly the newly reached ones with more than one bond |
| AtomPlacer.GrownPathsOk | src/layout/atom_placer.js:176-190 | growing the paths from a visited atom outside a ring keeps every path a chain from the start |
| AtomPlacer.VisitNeighbour | src/layout/atom_placer.js:180-188 | a neighbour neither VISITED nor ISPLACED gets a copy of the atom's path plus itself and, with more than one bond, joins the next sphere |
| AtomPlacer.ExpandAtom | src/layout/atom_placer.js:176-190 | all the atom's bonds are followed, giving the grown paths and the queued neighbours |
| AtomPlacer.PathAtomsVisited | src/layout/atom_placer.js:176-190 | every atom on a visited atom's path is visited |
| AtomPlacer.AfterExpand | src/layout/atom_placer.js:176-190 | after one expansion the paths remain chains and the queue holds only unvisited atoms |
| AtomPlacer.BreadthFirstSearch | src/layout/atom_placer.js:170-200 | atoms in rings are never expanded, a path changes only at a newly reached atom and then to a chain from the start, and VISITED flags are only ever set |
| AtomPlacer.MarkVisited | src/layout/atom_placer.js:194-197 | the queued atoms become VISITED, so fewer atoms remain unvisited |
| AtomPlacer.SelectLongest | src/layout/atom_placer.js:120-133 | index 0 unless some path has a positive degree sum; the chosen one is the best by the source's rule |
| AtomPlacer.GetLongestUnplacedChain | src/layout/atom_placer.js:103-136 | the result is a chain from the start atom through unplaced, non-ring atoms, chosen among the searched paths by the source's rule |
| AtomPlacer.GetInitialLongestChain | src/layout/atom_placer.js:21-58 | the distances have a zero diagonal, are non-negative and obey the triangle inequality; the result exists exactly when some atom with one bond has a positive distance, and is then a chain of distinct bonded atoms (unplaced after the first, outside rings before the last) from the start of the first longest distance in row-then-column order; otherwise the source's TypeError, which depends on whether the molecule has atoms |
| AtomPlacer.Distances | src/layout/atom_placer.js:457-458 | the key of each atom is its squared distance from the point |
| AtomPlacer.PassStep | src/layout/atom_placer.js:457-463 | one comparison keeps the pass invariant |
| AtomPlacer.PassSwap | src/layout/atom_placer.js:457-463 | a swap keeps the pass invariant and records the swap |
| AtomPlacer.PassKeep | src/layout/atom_placer.js:457-463 | a comparison in order keeps the pass invariant |
| AtomPlacer.PassDone | src/layout/atom_placer.js:455-464 | a finished pass settles one more place at the end, and a pass with no swap leaves the list sorted |
| AtomPlacer.CompareAndSwap | src/layout/atom_placer.js:457-463 | the two atoms change places when the second is nearer, and the list stays a permutation |
| AtomPlacer.BubblePass | src/layout/atom_placer.js:455-464 | one pass keeps a permutation, settles one more atom, and sorts when it swaps nothing |
| AtomPlacer.SortBy2DDistance | src/layout/atom_placer.js:450-467 | the atoms end as a permutation of their input ordered by distance from the point, nearest first |
| CoordinateGenerator.ResetAtomFlags | src/layout/coordinate_generator.js:40-47 | afterwards no atom is ISPLACED, VISITED, ISINRING or ISALIPHATIC |
| CoordinateGenerator.Generate | src/layout/coordinate_generator.js:35-70 | the flags are cleared and no coordinate changes; a one-atom molecule returns normally, a molecule in several fragments throws 'Molecule not connected', any other throws at the missing partitioner constructor or earlier in the ring finder |
| CoordinateGenerator.PlaceFirstBond | src/layout/coordinate_generator.js:151-159 | the vector is rescaled to the bond length in place, the source sits at the origin, the target at the vector, both gain ISPLACED, and the two ends are returned source first |
| CoordinateGenerator.AllRingsPlaced | src/layout/coordinate_generator.js:161-168 | true exactly when every ring of the list is flagged ISPLACED |
| CoordinateGenerator.PlacedEnd | src/layout/coordinate_generator.js:177-181 | of a bond with exactly one placed end, the result is that end and the other end is unplaced |
| CoordinateGenerator.GetNextAtomWithAliphaticUnplacedNeigbors | src/layout/coordinate_generator.js:173-185 | the placed end of the first bond with exactly one placed end, null exactly when no bond has one |
| CoordinateGenerator.GetAtoms | src/layout/coordinate_generator.js:187-198 | exactly the neighbours whose ISPLACED flag equals the argument, each once |
| CoordinateGenerator.CountRound | src/layout/coordinate_generator.js:256-268 | one round of the inner loop adds one to position i and to every later partner position |
| CoordinateGenerator.CountRow | src/layout/coordinate_generator.js:253-269 | row i adds the ring's size times the later positions to i, and the ring's size to each later position |
| CoordinateGenerator.Tallies | src/layout/coordinate_generator.js:246-270 | the nested loops leave each position its count |
| CoordinateGenerator.GetMostComplexRing | src/layout/coordinate_generator.js:245-278 | the ring at the first position with the largest count (the first ring when no count is positive), undefined exactly for an empty set |
| CoordinateGenerator.TallyIgnoresSharing | src/layout/coordinate_generator.js:253-269 | the counts depend only on ring sizes, not on which atoms the rings share |
| CoordinateGenerator.PartnersSameSizes | src/layout/coordinate_generator.js:256-268 | the partner sums depend only on ring sizes |
| CoordinateGenerator.SizesBeforeSameSizes | src/layout/coordinate_generator.js:253-269 | the size sums depend only on ring sizes |
| CoordinateGenerator.UnsharedRingCountsMost | src/layout/coordinate_generator.js:245-278 | a five-ring sharing nothing beats two three-rings that share an atom, so the method does not measure fusion |
| CoordinateGenerator.CursorCounts | src/layout/ring_set.js:36-46 | the cursor visits positions 0, 1, ... in turn |
| CoordinateGenerator.CursorPeriodic | src/layout/ring_set.js:43-45 | after as many passes as rings the cursor is back where it started |
| CoordinateGenerator.CursorInside | src/layout/coordinate_generator.js:315-322 | the cursor never leaves the set |
| CoordinateGenerator.PlaceFirstRing | src/layout/coordinate_generator.js:295-312 | only a ring not yet ISPLACED is drawn, from its first bond at the origin, and then gains the flag; a ring without bonds throws; flags are only set |
| CoordinateGenerator.RingSetPass | src/layout/coordinate_generator.js:315-319 | for a placed ring the fused, bridged and spiro neighbours are placed in that order; an unplaced ring changes nothing; flags are only set and only rings of the set gain one |
| CoordinateGenerator.RingSet | src/layout/coordinate_generator.js:288-325 | an empty set throws; otherwise flags are only set, only rings of the set gain one, and a normal end leaves every ring of the set placed |
| CoordinateGenerator.AliphaticRound | src/layout/coordinate_generator.js:210-241 | an idle round (no bond with one placed end, or a one-atom chain) changes no flag; any other round places at least one new atom or throws reading an undefined coordinate |
| CoordinateGenerator.UnplacedChain | src/layout/atom_placer.js:103-136 | the chain lies in the molecule and its second atom is an unplaced neighbour of the start |
| CoordinateGenerator.HandleAliphatics | src/layout/coordinate_generator.js:205-243 | no flag is cleared and the loop always ends at an idle round, within one more round than there were unplaced atoms |
| CoordinateGenerator.ResetUnplacedRingAtoms | src/layout/coordinate_generator.js:766-772 | throws exactly when some ring of the set is not placed and has atoms, since `modelFlags.ISPLACED` is a number and calling it fails |
| CoordinateGenerator.NoRingFlagNoNextRingBond | src/layout/coordinate_generator.js:774-781 | with no atom flagged ISINRING no bond into a ring is found |
| CoordinateGenerator.RingEnd | src/layout/coordinate_generator.js:790-792 | the ring end is an end of the bond that is in a ring and unplaced |
| CoordinateGenerator.FindRingSet | src/layout/coordinate_generator.js:797-800 | the first ring set with a ring holding the atom; undefined exactly when no set has one |
| CoordinateGenerator.PlacedAtoms | src/layout/coordinate_generator.js:786-787 | exactly the placed atoms |
| CoordinateGenerator.MarkRingsPlaced | src/layout/coordinate_generator.js:846 | every ring of the set gains `isPlaced` and no other ring changes |
| CoordinateGenerator.LayoutNextRingSystem | src/layout/coordinate_generator.js:783-848 | the reset throws when an unplaced ring of the SSSR has atoms; with no bond into an unplaced ring atom nothing changes; otherwise the first ring set holding the ring end is laid out and its rings gain `isPlaced`; no flag is cleared |
| CoordinateGenerator.PlaceRingSystem | src/layout/coordinate_generator.js:823-846 | laying out the found ring set and its substituents only sets ISPLACED and `isPlaced` flags; when the layout finishes every ring of the set carries both |
| CoordinateGenerator.InsertBySize | src/layout/coordinate_generator.js:78 | inserting a set adds one entry |
| CoordinateGenerator.SortBySize | src/layout/coordinate_generator.js:78 | the sort keeps the number of ring sets |
| CoordinateGenerator.InsertPermutes | src/layout/coordinate_generator.js:78 | inserting adds exactly the new set |
| CoordinateGenerator.InsertSorted | src/layout/coordinate_generator.js:78 | inserting into a size-ordered list keeps it size-ordered |
| CoordinateGenerator.SortPermutes | src/layout/coordinate_generator.js:78 | the sort only reorders the ring sets |
| CoordinateGenerator.SortSorted | src/layout/coordinate_generator.js:78 | the sorted sets are in increasing size |
| CoordinateGenerator.PeekIsLargest | src/layout/coordinate_generator.js:78-79 | the last sorted set is one of the input and none of the input is larger |
| CoordinateGenerator.SortedIn | src/layout/coordinate_generator.js:78 | sorting keeps every ring set within the ring table |
| CoordinateGenerator.PlaceInitialChain | src/layout/coordinate_generator.js:95-101 | the chain's atoms gain ISPLACED, the start sits at the origin, and with a second atom the vector is rescaled in place and the second atom sits at it |
| CoordinateGenerator.LayoutMolecule | src/layout/coordinate_generator.js:64-127 | no atom gains ISINRING; a normal end makes between 1 and atom count + 1 rounds, ends early only with every atom placed, and only the largest ring set's rings gain `isPlaced` |
| CoordinateGenerator.LayoutRounds | src/layout/coordinate_generator.js:103-127 | rounds alternate aliphatic growth and the next ring system until all atoms are placed or the counter runs out; placed atoms stay placed and no ring gains `isPlaced` |
| OverlapResolver.ScoreAdds | src/layout/overlap_resolver.js:57 | the score of two batches of pairs is the sum of their scores |
| OverlapResolver.PairsFromExact | src/layout/overlap_resolver.js:50-61 | the inner loop for atom f finds exactly the later atoms closer to it than the cutoff |
| OverlapResolver.PairsFromDistinct | src/layout/overlap_resolver.js:50-61 | the inner loop finds each pair once |
| OverlapResolver.OverlapPairsExact | src/layout/overlap_resolver.js:46-62 | the two loops find exactly the pairs f < g closer than the cutoff |
| OverlapResolver.OverlapPairsDistinct | src/layout/overlap_resolver.js:46-62 | no pair is found twice |
| OverlapResolver.NaNCutoffFindsNothing | src/layout/overlap_resolver.js:43-55 | with `BOND_LENGTH` undefined the cutoff is NaN and no pair is found |
| OverlapResolver.NaNPairsFromEmpty | src/layout/overlap_resolver.js:50-61 | with a NaN cutoff the inner loop finds nothing |
| OverlapResolver.ScoreRow | src/layout/overlap_resolver.js:50-61 | the inner loop appends atom f's overlapping pairs and adds the cutoff once per pair |
| OverlapResolver.ScorePair | src/layout/overlap_resolver.js:52-60 | a pair closer than the cutoff is appended and adds the cutoff, any other pair changes nothing |
| OverlapResolver.GetOverlapScore | src/layout/overlap_resolver.js:40-64 | every overlapping pair is appended in loop order, and the score is the cutoff times the number of pairs appended |
| OverlapResolver.DisplacePair | src/layout/overlap_resolver.js:87-108 | one atom of the pair moves by a third of the bond length, toward the other along their direction, and nothing else moves |
| OverlapResolver.Displace | src/layout/overlap_resolver.js:75-118 | with no pair the score is undefined and nothing moves; otherwise between 1 and 26 rounds run, 26 whenever the score stays positive, and the pair list only grows |
| OverlapResolver.ResolveOverlap | src/layout/overlap_resolver.js:26-33 | displacement runs only when the first score is positive; with `BOND_LENGTH` undefined the score is 0 and no atom moves |
| RingPlacer.FindDirection | src/layout/coordinate_generator.js:481-497 | the angle step is 1 or -1; for a vertical pair it is -1 exactly when the centre lies to the right; the same code as src/layout/ring_placer.js:197-214 |
| RingPlacer.FindDirectionByCross | src/layout/coordinate_generator.js:481-497 | for a pair that is not vertical, -1 exactly when the centre lies on the side given by the cross product, the slope test without division; the same code as src/layout/ring_placer.js:197-214 |
| RingPlacer.FindDirectionSymmetric | src/layout/coordinate_generator.js:481-497 | the direction depends on the line through the two atoms, not on their order; the same code as src/layout/ring_placer.js:197-214 |
| RingPlacer.FusedDirection | src/layout/coordinate_generator.js:579-613 | the direction the fused construction computes inline is 1 or -1; the same code as src/layout/ring_placer.js:297-333 |
| RingPlacer.FusedDirectionAgrees | src/layout/coordinate_generator.js:579-613 | it agrees with `findDirection` except for a centre on the line, where the two differ; the same code as src/layout/ring_placer.js:297-333 |
| RingPlacer.FindStartAtom | src/layout/coordinate_generator.js:499-515 | the atom with the larger x, or the larger y for a vertical pair, atom2 on a tie (the comments say lower and left); the same code as src/layout/ring_placer.js:216-232 |
| RingPlacer.FindStartAtomSymmetric | src/layout/coordinate_generator.js:499-515 | for two atoms at different places the choice does not depend on their order; the same code as src/layout/ring_placer.js:216-232 |
| RingPlacer.Intersecting | src/layout/coordinate_generator.js:690-708 | exactly the members of both lists, in the second list's order; the same code as src/layout/ring_placer.js:409-427 |
| RingPlacer.BridgeFromMembers | src/layout/coordinate_generator.js:526-536 | exactly the other ends of those bonds of the atom that are shared; the same code as src/layout/ring_placer.js:243-253 |
| RingPlacer.BridgeAtomsMembers | src/layout/coordinate_generator.js:526-536 | a bridge atom is exactly the other end of a shared bond seen from a shared atom; the same code as src/layout/ring_placer.js:243-253 |
| RingPlacer.BridgeStep | src/layout/coordinate_generator.js:526-536 | one more shared atom contributes the other ends of its shared bonds; the same code as src/layout/ring_placer.js:243-253 |
| RingPlacer.BridgeHeadEnd | src/layout/coordinate_generator.js:526-536 | the first shared atom's contributions are bridge atoms; the same code as src/layout/ring_placer.js:243-253 |
| RingPlacer.BridgeTailEnd | src/layout/coordinate_generator.js:526-536 | the later shared atoms' contributions are bridge atoms; the same code as src/layout/ring_placer.js:243-253 |
| RingPlacer.BridgeEndSplit | src/layout/coordinate_generator.js:526-536 | every bridge atom comes from the first shared atom or a later one; the same code as src/layout/ring_placer.js:243-253 |
| RingPlacer.BridgeAtomsOfOneBond | src/layout/coordinate_generator.js:526-536 | two shared atoms joined by their one shared bond give each atom once, the other end first; the same code as src/layout/ring_placer.js:243-253 |
| RingPlacer.BridgeFromOwn | src/layout/coordinate_generator.js:526-536 | against its one shared bond, an end gives that bond's other end; the same code as src/layout/ring_placer.js:243-253 |
| RingPlacer.BridgeAtomsCons | src/layout/coordinate_generator.js:526-536 | the bridge atoms are the first atom's contributions followed by the rest's; the same code as src/layout/ring_placer.js:243-253 |
| RingPlacer.BridgeFromOne | src/layout/coordinate_generator.js:526-536 | against one shared bond, an atom gives its other end once if the bond is its own, nothing otherwise; the same code as src/layout/ring_placer.js:243-253 |
| RingPlacer.StepIntro | src/layout/coordinate_generator.js:457-468 | a bond touching the atom is a step to its other end; the same code as src/layout/ring_placer.js:169-184 |
| RingPlacer.WalkSnoc | src/layout/coordinate_generator.js:457-468 | a walk extended by a step at its end is a walk; the same code as src/layout/ring_placer.js:169-184 |
| RingPlacer.WalkCons | src/layout/coordinate_generator.js:457-468 | a step followed by a walk is a walk; the same code as src/layout/ring_placer.js:169-184 |
| RingPlacer.WalkWiden | src/layout/coordinate_generator.js:457-468 | a walk along some bonds is a walk along any list holding them; the same code as src/layout/ring_placer.js:169-184 |
| RingPlacer.WalkTouches | src/layout/coordinate_generator.js:457-468 | every atom of a walk is an end of one of its bonds; the same code as src/layout/ring_placer.js:169-184 |
| RingPlacer.StepTouches | src/layout/coordinate_generator.js:457-468 | the far end of a step is an atom of the molecule on one of the bonds; the same code as src/layout/ring_placer.js:169-184 |
| RingPlacer.FirstTouching | src/layout/coordinate_generator.js:458 | the first bond touching the atom, none exactly when no bond touches it; the same code as src/layout/ring_placer.js:172 |
| RingPlacer.AtomsInPlacementOrder | src/layout/coordinate_generator.js:457-468 | the atoms form a walk from the start along the bonds, one fewer than the bonds when there are no repeats; a dead end throws on null; the same code as src/layout/ring_placer.js:169-184 |
| RingPlacer.DropRingBond | src/layout/coordinate_generator.js:460 | removing a bond leaves fewer bonds, all still of the molecule; the same code as src/layout/ring_placer.js:174-176 |
| RingPlacer.PlacementCons | src/layout/coordinate_generator.js:461-466 | the recursive call's walk, after the first step, is a walk along all the bonds; the same code as src/layout/ring_placer.js:177-182 |
| RingPlacer.DropBond | src/layout/coordinate_generator.js:460 | removing every copy of a bond keeps exactly the other bonds, one fewer without repeats; the same code as src/layout/ring_placer.js:174-176 |
| RingPlacer.GetNextBond | src/layout/coordinate_generator.js:630-638 | the first ring bond other than the given one that touches the atom, null exactly when there is none; the same code as src/layout/ring_placer.js:351-358 |
| RingPlacer.WalkFusedRing | src/layout/coordinate_generator.js:617-625 | |bonds| - 2 steps along the ring bonds from the start, or the null error; the same code as src/layout/ring_placer.js:336-345 |
| RingPlacer.PlaceSpiroRing | src/layout/coordinate_generator.js:655-673 | a walk from the shared atom; the walked atoms and only they gain ISPLACED and move; on a throw nothing changes; the same code as src/layout/ring_placer.js:376-392 |
| RingPlacer.PlaceFusedRing | src/layout/coordinate_generator.js:553-628 | a walk of |bonds| - 2 atoms from the start atom chosen by `findStartAtom`; the walked atoms and only they gain ISPLACED and move; on a throw nothing changes; the same code as src/layout/ring_placer.js:270-348 |
| RingPlacer.PlaceBridgedRing | src/layout/coordinate_generator.js:420-455 | fewer than two bridge atoms throws; otherwise a walk from the chosen bridge atom, whose atoms and only they gain ISPLACED and move; the same code as src/layout/ring_placer.js:127-167 |
| RingPlacer.PlaceRing | src/layout/coordinate_generator.js:367-380 | more than two shared atoms is bridged, two fused, one spiro, none does nothing; the drawn atoms lie on the ring and only they change; the same code as src/layout/ring_placer.js:63-76 |
| RingPlacer.SharedFragment | src/layout/coordinate_generator.js:730-733 | exactly the atoms and bonds the two rings have in common |
| RingPlacer.PlaceConnectedRings | src/layout/coordinate_generator.js:725-758 | every ring of the set connected to the ring whose shared-atom count matches the handle ends up ISPLACED; flags are only set, and only on rings of the set |
| RingPlacer.ConnectedInSet | src/layout/coordinate_generator.js:726 | the rings `directConnectedRings` returns are rings of the set |
| RingPlacer.HandledAll | src/layout/coordinate_generator.js:727-757 | once every connected ring is handled, every matching ring is flagged |
| RingPlacer.PlaceConnectedRing | src/layout/coordinate_generator.js:727-757 | a connected ring whose shared-atom count matches the handle ends up ISPLACED; flags are only set |
| RingPlacer.SharedFragmentIn | src/layout/coordinate_generator.js:730-733 | the shared part of two rings lies in the molecule |
| RingPlacer.ResetUnplacedRingAtoms | src/layout/ring_placer.js:482-490 | ISPLACED is cleared on exactly the atoms of rings whose `isPlaced` is unset, every other flag stays; this is the ring_placer.js copy, which the layout never calls; the layout's copy at src/layout/coordinate_generator.js:766-772 is `CoordinateGenerator.ResetUnplacedRingAtoms` |
| RingPlacer.FindNextRingBondWithUnplacedRingAtom | src/layout/coordinate_generator.js:774-781 | the first bond with an unplaced ring atom at one end and a placed atom at the other, none exactly when no bond has one; the same code as src/layout/ring_placer.js:492-498 |
| RingPlacer.TreatRingAtom | src/layout/coordinate_generator.js:387-399 | the atom's unplaced neighbours are added to the treated atoms without repeats and gain ISPLACED; the same code as src/layout/ring_placer.js:83-104 |
| RingPlacer.PlaceRingSubstituents | src/layout/coordinate_generator.js:382-403 | the returned atoms are exactly those that gain ISPLACED, without repeats; no flag is cleared; the same code as src/layout/ring_placer.js:78-108 |
| SvgDepiction.Buffer.constructor | src/depict/svg.js:6 | the shared text buffer starts empty |
| SvgDepiction.AverageBondLength | src/model/molecule.js:143-152 | 1.25 without bonds, else the mean of the bond lengths |
| SvgDepiction.RealSumBetween | src/model/molecule.js:146-148 | a sum of lengths between two bounds lies between the count times each bound |
| SvgDepiction.AverageBetween | src/model/molecule.js:143-152 | the mean lies between the shortest and the longest bond |
| SvgDepiction.SizeOfBondedMolecule | src/depict/svg.js:16-26 | with bonds of positive length the scale is the bond length over the mean and the width and height are the margins plus the scaled box |
| SvgDepiction.SizeOfCollapsedMolecule | src/depict/svg.js:16-26 | when every bond has length 0 the scale is infinite and the width is not finite |
| SvgDepiction.HydrogenLabelOf | src/depict/svg.js:44-49 | 'H' with the count as a subscript for two or more hydrogens, a bare 'H' for one, nothing otherwise |
| SvgDepiction.ViewsOf | src/depict/svg.js:39-41 | one reading of symbol, coordinates and hydrogen count per atom, in order |
| SvgDepiction.AtomElement | src/depict/svg.js:37-59 | a text element with the atom's symbol, its hydrogens and the configured font size |
| SvgDepiction.AtomElementPosition | src/depict/svg.js:50-55 | the label sits at the scaled and translated position, half the font size left and 3/8 of it down |
| SvgDepiction.AtomsText | src/depict/svg.js:64 | one element per atom, in order |
| SvgDepiction.Drawn | src/depict/svg.js:63 | the kept atoms are exactly the atoms whose symbol is not 'C', in molecule order |
| SvgDepiction.DrawnLabels | src/depict/svg.js:61-65 | every label belongs to an atom that is not carbon, and every such atom gets one |
| SvgDepiction.BondLines | src/depict/svg.js:76-88 | one line for a single bond, two for a double bond with the same x, none for any other order |
| SvgDepiction.DoubleBondOffsets | src/depict/svg.js:79-87 | the two lines of a double bond lie half the spacing below and half above the bond |
| SvgDepiction.LinesText | src/depict/svg.js:77-87 | one element per line, with the configured width |
| SvgDepiction.BondViewOf | src/depict/svg.js:71-74 | the ends can be read exactly when the bond has both a source and a target |
| SvgDepiction.BondViewsOf | src/depict/svg.js:91 | one reading per bond, in order |
| SvgDepiction.BondText | src/depict/svg.js:67-89 | the bond's lines, all of the configured width; nothing when an end cannot be read |
| SvgDepiction.BondsTextSnoc | src/depict/svg.js:91 | while every bond can be drawn, one more bond appends its own lines |
| SvgDepiction.BondsTextStops | src/depict/svg.js:91 | past a bond that cannot be drawn nothing more is appended |
| SvgDepiction.OnlySingleAndDoubleDrawn | src/depict/svg.js:76-88 | bonds of any order but 1 and 2 add nothing |
| SvgDepiction.SvgDepict.constructor | src/depict/svg.js:9-14 | the depiction holds the molecule and its configuration, sized by `sizeCalculator` |
| SvgDepiction.SvgDepict.SizeCalculator | src/depict/svg.js:16-26 | the scale, translation and size are those of the molecule's box and mean bond length |
| SvgDepiction.SvgDepict.WriteHeader | src/depict/svg.js:28-35 | appends the header with the width and height |
| SvgDepiction.SvgDepict.DrawAtomView | src/depict/svg.js:37-59 | appends the atom's element |
| SvgDepiction.SvgDepict.DrawAtom | src/depict/svg.js:37-59 | appends the element of the atom as read before drawing |
| SvgDepiction.SvgDepict.DrawAtomViews | src/depict/svg.js:64 | appends one element per atom, in order |
| SvgDepiction.SvgDepict.DrawAtoms | src/depict/svg.js:61-65 | appends one element per heteroatom, in molecule order |
| SvgDepiction.SvgDepict.DrawBondView | src/depict/svg.js:67-89 | appends the bond's lines; fails exactly when an end cannot be read |
| SvgDepiction.SvgDepict.DrawBond | src/depict/svg.js:67-89 | appends the lines of the bond as read before drawing; fails exactly when it cannot be drawn |
| SvgDepiction.SvgDepict.DrawBondViews | src/depict/svg.js:91 | appends the bonds' lines up to the first that cannot be drawn, and succeeds exactly when all can |
| SvgDepiction.SvgDepict.DrawBonds | src/depict/svg.js:91 | appends the lines of every bond in molecule order; succeeds exactly when every bond can be drawn |
| SvgDepiction.SvgDepict.ToSvg | src/depict/svg.js:93-99 | appends header, background, heteroatom labels and bond lines; returns the buffer plus the closing tag, or throws exactly when some bond cannot be drawn |
| SvgDepiction.ToSvgTwice | src/depict/svg.js:6 | since the buffer is never reset, a second drawing returns the first one without its closing tag, followed by a new drawing |
| SvgPlainDepiction.SpotsOf | src/depict/svg_depict.js:30-31 | one reading of symbol and coordinates per atom, in order |
| SvgPlainDepiction.SvgTxt | src/depict/svg_depict.js:29-36 | appends to `sb` exactly the one text element of the atom, nothing else |
| SvgPlainDepiction.PercentExact | src/depict/svg_depict.js:32-33 | with a non-zero size the position is the exact proportion of the box |
| SvgPlainDepiction.PercentOfWidthEdges | src/depict/svg_depict.js:32 | the box's left edge is at 0% and its right edge at 100% |
| SvgPlainDepiction.FlatBoxIsNaN | src/depict/svg_depict.js:26-32 | when all atoms share one x coordinate, every x is NaN |
| SvgPlainDepiction.SpotsText | src/depict/svg_depict.js:37 | one element per atom, in order |
| SvgPlainDepiction.EveryAtomWritten | src/depict/svg_depict.js:29-37 | every atom is written, carbons included, with its own symbol, in molecule order |
| SvgPlainDepiction.WriteHeader | src/depict/svg_depict.js:11-18 | appends the header with the given width and height |
| SvgPlainDepiction.WriteSpots | src/depict/svg_depict.js:37 | appends one element per atom, in order |
| SvgPlainDepiction.DrawAtoms | src/depict/svg_depict.js:20-38 | appends one element per atom of the molecule, in order |
| SvgPlainDepiction.DrawBonds | src/depict/svg_depict.js:40 | writes nothing |
| SvgPlainDepiction.ToSvg | src/depict/svg_depict.js:42-48 | appends header, background and every atom at font size 1, and returns the buffer plus the closing tag |
| SvgPlainDepiction.ToSvgTwice | src/depict/svg_depict.js:9 | since the buffer is never reset, the second output begins with the first, closing tag removed |

## Left out

- The SMILES regular expressions (src/io/smiles_parser.js:68-71): the token list and each bracket atom's captured groups are inputs.
- `JSON.parse` (src/io/json_parser.js:8) and `JSON.stringify` (src/io/write_chemdoodlejson.js:78): the reader takes the parsed object and the writer returns the document value.
- The trigonometry and floating-point geometry are parameters (the `Trig` and `Geometry` records). This covers `getAngle`, `getNextBondVector`, the angles of `distributePartners`, the coordinates computed by `placeLinearChain` and by the fused, bridged and spiro placements, `getRingCenterOfFirstRing`, `getNativeRingRadius`, and the translation and rotation in `layoutNextRingSystem` (src/layout/coordinate_generator.js:783-848). The model proves which atoms these steps place and which flags they set, not where the atoms end up.
- The angle values of `Atom.nextBondAngle`, `Bond.getLength`, and the vector `length`, `unit`, `normalize` and `angle` (with its clamp before `acos`) need square roots or inverse cosines. Only their case split or their use as a parameter is modelled.
- `copyPath` (src/layout/atom_placer.js:202-206): paths are sequence values, so the copy is the value itself.
- Scratch molecules of the layout: `getAtoms` (src/layout/coordinate_generator.js:193, 195), `placeRingSubstituents` (coordinate_generator.js:383-395), `partitionPartners` (src/layout/atom_placer.js:524, 526), `getLongestUnplacedChain` (atom_placer.js:116, 185-186) and `copyPath` (atom_placer.js:205) collect real atoms and bonds into new `Molecule` objects through `addAtom` and `addBond`. That sets each collected atom's and bond's `molecule` field to the scratch molecule (src/model/molecule.js:116, 281), so after a layout those fields name a scratch molecule, and `Bond.clone` and `deepClone` (src/model/bond.js:97, 103) copy that value. The model keeps these paths and partner lists as sequences, so it does not capture the re-pointed `molecule` fields, nor the scratch molecules' fragment tables.
- SmilesParser.SmiMolecule keeps only the name, the atoms and the bonds of the molecule `parse` builds. The fragment table and `fragmentCount` that `mol.addAtom` and `mol.addBond` fill in during parsing (src/io/smiles_parser.js:78-164), the atoms' bond sets and the `molecule` back-references are not kept. `generate` reads that count at src/layout/coordinate_generator.js:58 and the ring finder's nsssr reads it at src/ring/finder.js:437; the model takes them from `ChemModel.Molecule`, whose `AddAtom` and `AddBond` model that bookkeeping.
- `Math.random` in `displace` (src/layout/overlap_resolver.js:80, 100) is a nondeterministic choice: each round may pick any listed pair and either of its atoms.
- Values are exact reals: double rounding and the sign of zero are not modelled, and neither is JavaScript's number-to-string conversion, which the SVG writers take as a parameter.
- The bounding box (`goog.math.Box.boundingBox`), the bond lengths the SVG writer averages and the values of src/depict/config.js are parameters.
- src/resource/covalence.js and src/model/flags.js are not part of this model: the covalence table is a parameter and the flags are named fields.
- `Molecule.getRings` takes the ring finder's result as a parameter. The model keeps its cache behaviour, and the finder itself is modelled separately on numbered atoms.
- `merge`, `sproutFragment`, `sproutBond`, `translate` and `getCenter` (src/model/molecule.js:420-665), `getFragments`, `isAtomInRing` and `isBondInRing`: geometry, or calls to code that does not exist.
- `countAtoms` and `countBonds` of the molecule are the lengths of its atom and bond sequences.
- `console.log` (src/depict/svg_depict.js:28) and `alert` (src/layout/connection_matrix.js:29-42, src/layout/overlap_resolver.js:113) produce no state the model keeps.
- The `toString` and `matrixToHTML` helpers, src/graphics/affine_transform.js, index.js, src/index.js, the webpack configuration and the scripts under e2e/ are outside the core.
- src/layout/ring_set.js holds the same loop as `ringSet` in src/layout/coordinate_generator.js:288-325, but it reads its collaborators as free names it never imports. The loop is modelled once, as `CoordinateGenerator.RingSet`.
- The earlier definitions of `getPartitionedRings` and `directConnectedRings` (src/ring/partitioner.js:29-92) are replaced by the later ones and are not modelled.
- src/layout/coordinate_generator.js:327-848 declares its own `layoutRingPlacer` and defines a private copy of every ring-placer function. Its requires (lines 14-21) never load src/layout/ring_placer.js, so the layout runs only those copies, and the `RingPlacer` rows cite them together with the matching lines of ring_placer.js. The copies differ in three places. `resetUnplacedRingAtoms` at ring_placer.js:482-490 clears ISPLACED, while the layout's copy at coordinate_generator.js:766-772 throws; the two are `RingPlacer.ResetUnplacedRingAtoms` and `CoordinateGenerator.ResetUnplacedRingAtoms`. `getBridgeAtoms` reads an atom's bonds differently, as the next line says. The ring_placer.js copies of `placeConnectedRings` and `layoutNextRingSystem` (lines 446-474 and 500-570) call `kemia.ring.RingPartitioner` (line 447) and `kemia.layout.CoordinateGenerator` (lines 526 and 530), which no module defines; only the layout's copies at coordinate_generator.js:725-758 and 783-848 are modelled.
- AtomPlacer.PartitionPartners and RingPlacer.PlaceBridgedRing, with the `RingPlacer.Bridge…` lemmas: `Array.from(atom.bonds)` at src/layout/atom_placer.js:520 and src/layout/coordinate_generator.js:529 is read as the atom's bond set in insertion order, which is what `atom.bonds.getValues()` gives at src/layout/ring_placer.js:246. That holds only when the Closure Library's `goog.structs.Set` (src/model/atom.js:57) is iterable, and that library is not part of this model. With a set that is not iterable, `Array.from` gives [], `getBridgeAtoms` returns no atom and every bridged placement reached from the layout throws at coordinate_generator.js:434.
- The one-argument `negate` of both vector classes (line 237) is replaced by the zero-argument one at line 244. Only that one is modelled.
- CoordinateGenerator.RingSet: the source loop has no bound. The model makes at most fuel + 1 passes and reports `OutOfFuel` beyond them.
- CoordinateGenerator.LayoutNextRingSystem, CoordinateGenerator.LayoutMolecule, CoordinateGenerator.LayoutRounds and CoordinateGenerator.Generate: the same fuel bound, passed on to `RingSet`.
- SmilesAtom.ParseAtom: `hcount` is kept as the digit's value (or 1) rather than as the digit string the source stores. No caller reads it.
- ChemModel.Molecule.AddBond: requires both endpoints to be set. Without them the source throws after it has partly updated the molecule, and that partial state is not modelled.
- ChemModel.Bond.DeepClone: requires both endpoints to be set, because the source throws otherwise.
- ChemModel.Ring.GetCenter: requires at least one atom. The source divides by zero there and caches NaN.
- SvgDepiction.SvgDepict.ToSvg: the atom and bond values are read from the molecule before drawing starts. Drawing changes no atom or bond, so this changes nothing. When `_drawBond` throws, the elements written before the throw stay in `sb`, and the model keeps them.

## Findings

| source | as written | input that shows it | evidently intended | confidence | as-written member | corrected member |
|---|---|---|---|---|---|---|
| src/ring/hanser.js:91 | `createRing` calls `utilsArray.removeAt`, which src/utils/array.js does not define, so every call throws a TypeError. Nothing in the code base calls this function: `findRings` returns its paths as atom lists | any ring, e.g. the atoms of cyclopropane | the ring's atoms without the repeated last one, and the bond of each consecutive pair | not executed | RingHanser.CreateRingAsWritten | RingHanser.CreateRing |
| src/ring/hanser.js:49 | `findRings` runs `new RingPathGraph(molecule)`, but src/ring/path_graph.js never assigns `module.exports`, so the `require` at line 26 gives an empty object and the constructor call throws a TypeError | any molecule, e.g. cyclopropane | the path graph of the molecule, reduced atom by atom, giving the rings that removal closes | not executed | RingHanser.FindRingsAsWritten | RingHanser.FindRings |
| src/ring/finder.js:321 | `createRingSystems` builds each ring system with `new kemia.model.Molecule()`, but no module defines `kemia.model`, so the first ring atom throws a TypeError | any molecule with a ring atom, e.g. cyclopropane | the ring system reached from that atom, searched for its rings | not executed | RingFinder.CreateRingSystemsAsWritten | RingFinder.CreateRingSystems |
| src/io/smiles_parser.js:136-150 | a closure written `=1` that closes a ring opened by a bare `1` reads the closure's stored type, which is undefined, and `createBond` throws 'invalid bond type' | `C1CCCCC=1`, which the comment at lines 132-135 lists as valid | a double bond closing the ring | not executed | SmilesParser.ClosureSymbolUndefinedAsWritten | SmilesParser.IntendedClosureType |
| src/io/smiles_parser.js:122-130 | a bare `1` that closes a ring opened by `=1` uses the pending type, which is none, and makes a single bond | `C=1CCCCC1` | a double bond, as written at the opening | not executed | SmilesParser.ClosureSymbolIgnoredAsWritten | SmilesParser.IntendedClosureDouble |
| src/renderer/hydrogen_position.js:24 | the constructor calls `atom.getBonds()`, which atoms do not have, so every construction throws a TypeError | any atom | one vector per bond of the atom, from the atom to its neighbour | not executed | HydrogenPlacement.ConstructorAlwaysThrows | HydrogenPlacement.NewHydrogenPosition |
| src/layout/coordinate_generator.js:70 | `new ringPartitioner.GetPartitionedRings(sssr)` names a function the partitioner does not export (it exports `getPartitionedRings`), so it throws | any connected molecule with two or more atoms whose ring search succeeds, e.g. ethane | the ring sets of the partitioner, laid out largest first | not executed | CoordinateGenerator.Generate | CoordinateGenerator.LayoutMolecule |

`SmilesParser.Parse` keeps the ring-closure rule as written. The corrected rules are stated and proved on their own. `RingFinder.FindRings` and `RingFinder.SystemRings` use the corrected `RingFinder.CreateRingSystems` and `RingHanser.FindRings`.
