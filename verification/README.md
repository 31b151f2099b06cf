# Proofs about s2rst

s2rst is a Rust port of the S2 spherical geometry library, with Python bindings and a set of tools
that generate reference vectors from the original C++ library. This project models the parts of it
whose correctness rests on an argument rather than on a formula, and proves that argument.

**Polygons as loop lists.** An S2 polygon is a list of loops with nesting depths; a point is in the
polygon when it lies in an odd number of loops. The conversion to GeoJSON-style polygons with holes
(RFC 7946, sections 3.1.6 and 3.1.7) is a one-pass stack machine. `ShellStack` shows that on a
depth-first list it computes the recursive traversal of the nesting forest, `Regions` that the
region survives when the loops are well nested, and `Hosts` what the machine does on every depth
list whatsoever: which shell each hole is given to, in which order the polygons come out, and what is on
the stack at each moment. `LoopFamily` and `PolygonNesting` turn to the lists that
`Polygon::from_loops` builds. Here code and documentation disagree. The conversion's documentation says that loops are arranged depth first, and
a comment in `init_nesting` says that it sorts for a pre-order traversal; the code sorts by depth, so
that all shells come before all holes. (A comment in `from_loops` speaks of a sort by area, which the
code does not do either.) On such a list every hole goes to the last shell one level up.
`FromLoopsConvertsIff` says exactly when the region survives all the same, `FirstShellLosesItsHole`
gives the smallest polygon for which it does not, and `DepthFirstConverts` shows that with a
depth-first list, as documented, it always would.

Inversion is treated for both kinds of list. `PolygonInvert` covers depth-first lists: `invert` keeps
them depth first and well nested, and their conversion becomes the complement. `PolygonComplement`
covers the lists that `from_loops` builds, which are the ones `complement` and `from_oriented_loops`
invert; `clone` does not change them. There `ComplementConvertsIff` says exactly when the inverse
converts to the complement, which is another condition than the one for the polygon itself:
`ComplementKeepsIsland` is a polygon that converts to its own region and whose complement does not.
The point test is turned around on every list. The documented depths, one up for the descendants of
the turned loop and one down for its siblings, hold only under the condition of
`DocumentedDepthsIff`; `DescendantGoesDown` is an input where they do not.

**Cell unions.** `Cells` models the cell hierarchy as quadtree nodes and `CellBits` ties it to the
64-bit arithmetic of the library. `CellUnion` proves that a normalised union is determined by the
region it covers; `Normalize` proves the one-pass normalisation against that, and merging of siblings
confluent; `Denormalize` covers expansion. `CellFixtures` proves what the vector generator claims of
its inputs: valid but not normalised, collapsing twice, level gaps of at most two; and which random
lists can come out, for every stream of random numbers.

**E5, E6 and E7 angles.** `EForm` works over any arithmetic that rounds the way IEEE 754 demands: the
rounding built from `floor` is right on every double, the E-form is that rounding clamped and is
monotone, and every integer below 2^49 in size survives the trip to radians and back. `EFormScale`
bounds how far product, angle and E-form are from the exact ones in degrees, so that each form has its
own power of ten. `Binary64` defines binary64 rounding to nearest on the reals, proves that it picks
the nearest double and has all the properties assumed, and so turns the theorems into statements about
the library's own arithmetic; `RoundingEdges` adds the ties and the threshold of overflow.
The reference description says that the subtraction `v - floor(v)` is exact and below one; it is
neither for some values just below zero, -2^-60 for one; `FractionExactIff` and
`FractionRoundsToOneIff` say for which. The rounding is right regardless.

**Text formats.** `FixtureText` proves that the C++ parser of the boolean-operation fixtures undoes
the Python writer, whatever the labels that it ignores, and `FixtureFormat` that the writer keeps to
its format to the letter, labels included. (The format's description in the writer leaves out the
third word after CASE, which the code writes and the parser reads.) `VecLiteral` proves that the
bracket matcher finds the shortest balanced text and every inner vector, and `Rows` that the
string-vector rows determine their values.

**Shared shapes.** `Shapes` models the Python handles on edge-vector shapes as classes and as a state
machine over runs of calls; `ShapeSession` proves that the objects refine the machine.

**Intervals.** `Intervals` covers the two interval formulas that the vector generator restates, in
binary64: the distance is the correctly rounded directed Hausdorff distance, and the centre never
overflows and is the correctly rounded midpoint. `Halving` has the facts on halves and sums for it.

`Decimals` and `Division` hold what several modules need. Every induction is written out: automatic
induction is switched off on each lemma to which Dafny would apply it.

## Model

| member | source | states |
|---|---|---|
| `Rings.LoopToRing` | core/src/geo_types_interop.rs:77-84 | the ring is the loop's coordinates, and for a loop with vertices is one longer and ends where it starts |
| `Rings.RingToLoop` | core/src/geo_types_interop.rs:86-97 | the loop is the ring's points without the closing vertex, if the ring has more than one coordinate and closes |
| `Rings.LoopSurvives` | core/src/geo_types_interop.rs:77-97 | a loop, even one whose first and last vertices are equal, taken to a ring and back is itself exactly when each vertex survives conversion to a coordinate and back; the ring closes in any case |
| `Rings.RingSurvivesIffClosed` | core/src/geo_types_interop.rs:77-97 | a ring taken to a loop and back is itself exactly when it is empty, or is closed, at least two long, and each coordinate survives conversion |
| `ShellStack.FlushUntil` | core/src/geo_types_interop.rs:457-469 | the loop that finishes shells computes `Flush`: what stays is a prefix of the stack whose top is shallower than the bound |
| `ShellStack.ToMultiPolygon` | core/src/geo_types_interop.rs:454-499 | the imperative conversion computes `Converted`, about which the other theorems speak, for every list of depths and rings |
| `ShellStack.ShellPass` | core/src/geo_types_interop.rs:471-492 | reading the depth-first list of any sibling shells leaves the stack below them alone and adds exactly their traversal to the result |
| `ShellStack.HolePass` | core/src/geo_types_interop.rs:471-492 | reading the depth-first list of sibling holes gives all of them, in order, to the shell on top and adds their islands to the result |
| `ShellStack.MachineIsTraversal` | core/src/geo_types_interop.rs:417-427 | for every forest, converting its depth-first list gives the recursive traversal: one polygon per even-depth loop, its children as holes, islands before their shell |
| `ShellStack.ValidIffForest` | core/src/s2/polygon.rs:499-509 | a depth list passes the validity test exactly when it is the depth-first list of some forest |
| `ShellStack.ForestOfFlatten` | core/src/s2/polygon.rs:377-386 | reading the forest off its own depth-first list gives the forest back, so the list determines it |
| `ShellStack.ConvertedIsTraversal` | core/src/geo_types_interop.rs:445-501 | for every list with valid depths the conversion is the traversal of the forest that the list encodes |
| `Regions.BruteForceContains` | core/src/s2/polygon.rs:1590-1597 | the brute-force point test is the exclusive or over the loops |
| `Regions.HitsMeaning` | core/src/geo_types_interop.rs:417-427 | counting the polygons that hold a point tells whether some polygon does and whether no two do |
| `Regions.AgreesMeaning` | core/src/geo_types_interop.rs:417-427 | agreeing at a point means: some polygon holds it iff an odd number of loops do, and no two polygons hold it |
| `Regions.ShellsAgree` | core/src/geo_types_interop.rs:419-424 | for a well-nested list of shells exactly one polygon holds a point that lies in an odd number of loops, and none holds any other |
| `Regions.HolesAgree` | core/src/geo_types_interop.rs:422-424 | for well-nested holes the islands hold exactly the points that lie in a hole and in an even number of its loops |
| `Regions.ConversionPreservesRegion` | core/src/geo_types_interop.rs:445-501 | for every depth-first, well-nested loop list a point is in an odd number of loops iff it is in some output polygon, and never in two |
| `Hosts.Conservation` | core/src/geo_types_interop.rs:471-499 | for every depth list, nested or not, the output is, as a multiset, one polygon for each even-depth loop with the odd-depth loops it hosts, in order |
| `Hosts.HoleMembership` | core/src/geo_types_interop.rs:484-491 | an odd-depth loop is among a shell's holes exactly when the shell is its host: the nearest enclosing shell |
| `Hosts.HostIsUnique` | core/src/geo_types_interop.rs:484-491 | a loop has at most one host, so no hole is given out twice |
| `Hosts.KeptIffEnclosed` | core/src/geo_types_interop.rs:484-491 | an odd-depth loop is kept exactly when some earlier shell encloses it; otherwise it is dropped |
| `Hosts.OutputOrder` | core/src/geo_types_interop.rs:457-499 | for every depth list, of two polygons the one that comes out first lies inside the other's shell, or its shell stands first and is not around the other |
| `Hosts.RunState` | core/src/geo_types_interop.rs:471-492 | the machine's invariant in every reachable state: result and stack together hold one polygon per shell read, and the stack holds the open shells in order |
| `Hosts.StackIsEvenAncestors` | core/src/geo_types_interop.rs:471-492 | after every loop the stack holds exactly the even-depth loops among that loop and those enclosing it, with strictly increasing depths |
| `Hosts.TopIsHost` | core/src/geo_types_interop.rs:484-490 | after the flush the top of the stack is the host of the hole about to be read, and the stack is empty exactly when it has none |
| `Hosts.ParentIsHost` | core/src/s2/polygon.rs:366-375 | in a list with valid depths a hole's parent, as `Polygon::parent` finds it, is the shell that the conversion gives it to |
| `LoopFamily.Innermost` | core/src/s2/polygon.rs:1223-1244 | among nested-or-apart loops the deepest one around a point lies in all the others, and its depth is one less than their number |
| `LoopFamily.ParentExists` | core/src/s2/polygon.rs:1223-1244 | with depths counted by containment every loop not outermost has a container exactly one level up |
| `LoopFamily.HitIsInnermost` | core/src/geo_types_interop.rs:471-499 | when every hole is hosted by its parent, the polygons that hold a point are the one of the innermost loop around it, if that is a shell |
| `LoopFamily.HostIsLast` | core/src/s2/polygon.rs:1211-1220 | in a list sorted by depth a hole's host is the last loop one level up, whichever loop contains it |
| `LoopFamily.AgreesWhenHostsAreParents` | core/src/geo_types_interop.rs:471-499 | if every hole is given to its own parent, the output holds every point the way the loops do |
| `LoopFamily.DisagreesAt` | core/src/geo_types_interop.rs:484-491 | a shell that has a hole but is not the last of its level makes the output wrong at every point of that hole |
| `LoopFamily.LevelOrderIff` | core/src/s2/polygon.rs:1211-1220 | a list sorted by depth converts faithfully at all points exactly when only the last loop of each shell level has holes |
| `LoopFamily.ConvertedByPosition` | core/src/geo_types_interop.rs:471-499 | the conversion treats rings as opaque: converting rings is converting their positions and reading the rings off |
| `LoopFamily.HitsAreCounted` | core/src/geo_types_interop.rs:445-501 | the output polygons that hold a point are as many as the shells that contain it and have no hole around it |
| `LoopFamily.AgreesByCounting` | core/src/geo_types_interop.rs:445-501 | output and loops agree at a point exactly when the number of shells that keep it is the parity of the number of loops around it |
| `LoopFamily.OddIsChain` | core/src/s2/polygon.rs:1590-1597 | the point test holds exactly when the set of loops around the point has odd size |
| `PolygonNesting.ComputeNestingDepths` | core/src/s2/polygon.rs:1223-1244 | each loop's depth is the size of the set of other loops that the containment test says contain it; loops without vertices get zero |
| `PolygonNesting.DepthIsSize` | core/src/s2/polygon.rs:1230-1243 | counting one loop after the other gives the size of the set of loops that pass the test |
| `PolygonNesting.DepthsAreCounts` | core/src/s2/polygon.rs:1223-1244 | where the containment test is right, computed depths are the numbers of containing loops |
| `PolygonNesting.DepthOrderIsStable` | core/src/s2/polygon.rs:1211-1213 | the sort puts every position in, by depth and then in the original order |
| `PolygonNesting.InitNesting` | core/src/s2/polygon.rs:1201-1221 | the loops come out in that order, each with its depth |
| `PolygonNesting.NestedPlaces` | core/src/s2/polygon.rs:1211-1220 | place by place: the positions are each used once, by depth and then in the original order, and each loop carries its own depth |
| `PolygonNesting.LastReordered` | core/src/s2/polygon.rs:1211-1220 | the sort keeps which loop is the last of its depth |
| `PolygonNesting.RetainNonEmpty` | core/src/s2/polygon.rs:150-151 | there is a strictly increasing list of exactly the positions of the loops that are neither empty nor without vertices, and the loops kept are those at these positions |
| `PolygonNesting.KeptPlaces` | core/src/s2/polygon.rs:150-151 | the same of the function that the theorems on `from_loops` speak of |
| `PolygonNesting.FromLoops` | core/src/s2/polygon.rs:149-178 | every branch (no loop, one loop, several) gives the kept loops with counted depths, sorted by depth |
| `PolygonNesting.MultiPolygonFrom` | core/src/geo_types_interop.rs:445-501 | the conversion of a polygon is the stack machine on its rings and depths |
| `PolygonNesting.FromLoopsConvertsIff` | core/src/geo_types_interop.rs:417-427 | for every list of nested-or-apart loops, the polygon built by `from_loops` converts to its own region exactly when, at each shell level, only the last loop contains loops one level down |
| `PolygonNesting.DepthFirstConverts` | core/src/geo_types_interop.rs:417-427 | a polygon whose loops are depth first, as documented, and well nested always converts to its own region, through the coordinate conversion |
| `PolygonRoundTrip.FromGeoPolygon` | core/src/geo_types_interop.rs:381-391 | taking a polygon with holes in gives the loops of its rings, exterior first, through `from_loops` |
| `PolygonRoundTrip.LoopsInOrder` | core/src/geo_types_interop.rs:381-391 | one loop for each ring, the exterior's first and then the holes' in order |
| `PolygonRoundTrip.GeoPolygonSurvives` | core/src/geo_types_interop.rs:381-501 | a polygon with proper rings and disjoint holes inside its exterior, taken in and given back, is the same single polygon with the same rings in order exactly when its coordinates survive conversion |
| `PolygonRoundTrip.TwoShellsAreNestable` | core/src/s2/polygon.rs:1203-1221 | two disjoint intervals with one hole each are a family that meets the hypotheses of `FromLoopsConvertsIff` |
| `PolygonRoundTrip.FirstShellLosesItsHole` | core/src/geo_types_interop.rs:417-427 | on that family the documented claim fails: a point in the first shell's hole is outside the polygon but inside its conversion |
| `PolygonInvert.FindLastDescendant` | core/src/s2/polygon.rs:377-386 | the index returned is the last of the run of deeper loops after the given one |
| `PolygonInvert.FormerSiblings` | core/src/s2/polygon.rs:584-592 | the loops outside the chosen loop's run, in order, one level down |
| `PolygonInvert.FormerChildren` | core/src/s2/polygon.rs:593-602 | the chosen loop's descendants, in order, one level up |
| `PolygonInvert.Invert` | core/src/s2/polygon.rs:540-606 | the empty polygon becomes the full loop, the full one becomes empty, any other the inverted loop followed by its former siblings and children |
| `PolygonInvert.InvertedIsComplement` | core/src/s2/polygon.rs:571-603 | on depth-first lists inversion is an operation on forests: the chosen root is turned over, takes its siblings as children and its children as siblings |
| `PolygonInvert.ComplementIsNested` | core/src/s2/polygon.rs:533-539 | the inverted forest of a well-nested forest is well nested |
| `PolygonInvert.InvertedFlipsPointTest` | core/src/s2/polygon.rs:533-539 | for every list of loops, well nested or not, inversion turns the point test around at every point |
| `PolygonInvert.EmptyAndFull` | core/src/s2/polygon.rs:541-544 | the point test is turned around in the empty and full cases too |
| `PolygonInvert.InversionConvertsToComplement` | core/src/s2/polygon.rs:533-606 | inverting a depth-first, well-nested polygon at any outermost loop gives a depth-first, well-nested one whose conversion is the complement of the original's conversion, without overlaps |
| `PolygonInvert.ArcsComplement` | core/src/s2/polygon.rs:567-568 | intervals of integers and their complements are loops that inversion turns over as the theorems on inversion assume |
| `PolygonComplement.TurnedHost` | core/src/geo_types_interop.rs:484-491 | after inversion of a list sorted by depth, former siblings are hosted by the turned loop and every other new hole by the last loop one level up |
| `PolygonComplement.InvertedOrdered` | core/src/s2/polygon.rs:571-603 | the inverse of a list sorted by depth is the list with the chosen loop moved to the front and turned over, its siblings one down and all deeper loops shifted alike, up or down as the chosen loop is the last outermost one or not |
| `PolygonComplement.InvertedOrderIff` | core/src/s2/polygon.rs:533-606 | for every nested-or-apart family sorted by depth and every outermost loop, the inverse converts faithfully at all points exactly when only the last loop of each hole level contains loops one level down |
| `PolygonComplement.DocumentedDepthsIff` | core/src/s2/polygon.rs:533-537 | on such a list every loop gets its documented depth exactly when all deeper loops lie inside the chosen loop, if it is the last outermost one, and none does, if it is not |
| `PolygonComplement.DescendantGoesDown` | core/src/s2/polygon.rs:533-537 | with two shells, each with a hole, turning over the first sends its own hole one level down, not up |
| `PolygonComplement.Complement` | core/src/s2/polygon.rs:608-615 | the complement is the inverse of the clone, at the first loop or any outermost one |
| `PolygonComplement.CloneIsSame` | core/src/s2/polygon.rs:1608-1612 | cloning a polygon that `from_loops` has built gives the same loops, depths and order |
| `PolygonComplement.ComplementConvertsIff` | core/src/s2/polygon.rs:608-615 | for every list of nested-or-apart loops and every loop `invert` may choose, the complement of the polygon built converts to the complement of its region, without overlaps, exactly when at each hole level only the last loop contains loops one level down |
| `PolygonComplement.ComplementOfBuilt` | core/src/s2/polygon.rs:244-262 | building a polygon and inverting it, one method after the other, has that same property |
| `PolygonComplement.ComplementKeepsIsland` | core/src/geo_types_interop.rs:417-427 | a shell with two holes and an island in the first converts to its own region, but the island is also in the conversion of its complement |
| `PolygonComplement.IntervalsComplement` | core/src/s2/polygon.rs:567-568 | the loops of that input meet the hypotheses on inversion |
| `Cells.RangeOfId` | core/src/s2/cell_id.rs:452-462 | ids and id ranges in terms of the leaves below a cell |
| `Cells.ChildRange` | core/src/s2/cell_id.rs:381-400 | the four children split their parent's leaves in order |
| `Cells.ParentChild` | core/src/s2/cell_id.rs:375-379 | a cell is the child of its parent at its own position, and lies inside it |
| `Cells.NestedOrApart` | core/src/s2/cell_id.rs:464-474 | of two cells the deeper lies inside the other or they share no leaf; distinct cells of one level share none |
| `Cells.InsideLevel` | core/src/s2/cell_id.rs:464-468 | a cell inside another is at least as deep, and equal if of the same level |
| `Cells.ContainsIsInside` | core/src/s2/cell_id.rs:464-468 | the comparison of ids in `contains` decides exactly whether one cell's leaves include the other's |
| `CellBits.IdFits` | core/src/s2/cell_id.rs:294-299 | every cell's id is positive and below six times 2^61, so it fits 64 bits with a face below six |
| `CellBits.FaceAndLeafIds` | core/src/s2/cell_id.rs:289-299 | a face's id is its number times 2^61 and 2^60; an id is odd exactly at level 30, where it is one more than twice the leaf's number |
| `CellBits.IdIsInjective` | core/src/s2/cell_id.rs:289-292 | cells are equal exactly when their ids are |
| `CellBits.ChildId` | core/src/s2/cell_id.rs:387-400 | the arithmetic of `children` gives the ids of the four child cells |
| `CellBits.ParentId` | core/src/s2/cell_id.rs:375-379 | clearing the low bits and setting the parent's marker gives the parent's id |
| `CellBits.NextId` | core/src/s2/cell_id.rs:480-484 | adding twice the marker gives the id of the next cell of the level |
| `CellBits.DescendantIds` | core/src/s2/cell_id.rs:428-438 | the two sums are the ids of the first descendant at the level and of the cell one past the last descendant |
| `CellBits.SiblingTestOnIds` | core/src/s2/cell_union.rs:618-633 | the exclusive-or and mask test on four ids holds exactly when the cells agree in level and parent and their positions cancel |
| `CellUnion.ValidIsAscending` | core/src/s2/cell_union.rs:130-147 | comparing neighbours' ids is enough: a union is valid exactly when all leaf ranges follow one another |
| `CellUnion.SiblingsAreChildren` | core/src/s2/cell_union.rs:618-633 | on ascending cells the sibling test accepts exactly the four children of one cell, in order |
| `CellUnion.ChildrenCover` | core/src/s2/cell_id.rs:381-400 | the children tile their parent end to end |
| `CellUnion.Holder` | core/src/s2/cell_union.rs:149-162 | a cell covered by a normalised union lies inside a single member of it |
| `CellUnion.MemberIffMaximal` | core/src/s2/cell_union.rs:149-162 | the members of a normalised union are exactly the maximal cells of its region |
| `CellUnion.NormalFormUnique` | core/src/s2/cell_union.rs:149-162 | two normalised unions are equal exactly when they cover the same leaves |
| `Normalize.NormalizeCells` | core/src/s2/cell_union.rs:164-212 | for every list of cells, with duplicates, nesting and in any order, the result is normalised and covers the same leaves |
| `Normalize.ReadCell` | core/src/s2/cell_union.rs:176-208 | one turn of the loop keeps the output normalised and covering exactly the cells read so far |
| `Normalize.DropContained` | core/src/s2/cell_union.rs:186-193 | popping contained cells changes nothing once the new cell is counted in, and leaves the rest before it |
| `Normalize.MergeAndPush` | core/src/s2/cell_union.rs:195-207 | the cascade of merges and the push leave a normalised output with the same coverage |
| `Normalize.MergeKeeps` | core/src/s2/cell_union.rs:202-204 | replacing four siblings anywhere in a valid union by their parent keeps it valid with the same coverage |
| `Normalize.MergingIsConfluent` | core/src/s2/cell_union.rs:195-205 | merging in any order can stop only at one list, the normal form, and always after the same number of merges |
| `Normalize.MergingTerminates` | core/src/s2/cell_union.rs:195-205 | merging reaches the normal form from every valid union |
| `Denormalize.NewLevelIsFirstAllowed` | core/src/s2/cell_union.rs:534-548 | the level a cell is expanded to is the first one, from its own down, that is on the grid or is the last level |
| `Denormalize.DescendantsTile` | core/src/s2/cell_union.rs:553-558 | the descendants at a level tile the cell's leaves in order |
| `Denormalize.DescendantsAreConsecutive` | core/src/s2/cell_union.rs:553-558 | they are the consecutive cells of their level from the first child on, 4^k of them |
| `Denormalize.Descendants` | core/src/s2/cell_union.rs:553-558 | the loop from the first child to past the last lists exactly the descendants |
| `Denormalize.DenormalizeCells` | core/src/s2/cell_union.rs:530-562 | the result is the expansion of every cell, in order |
| `Denormalize.ExpandedNext` | core/src/s2/cell_union.rs:530-562 | for any list, valid or not, one more cell adds its descendants at its own new level and changes nothing else |
| `Denormalize.ExpandedKeepsRegion` | core/src/s2/cell_union.rs:530-562 | expanding a valid union keeps it valid, with the same coverage, and puts every cell on an allowed level |
| `Denormalize.ExpansionIsSmall` | tools/refgen-cpp/generate_cellunion.cc:177-179 | with level gaps of at most two the output has between one and sixteen cells per input cell |
| `CellFixtures.SplitOne` | tools/refgen-cpp/generate_cellunion.cc:119-133 | the first non-leaf cell is replaced by its four children and every other cell is copied; a list of leaves is unchanged |
| `CellFixtures.SplitAtFirst` | tools/refgen-cpp/generate_cellunion.cc:119-133 | spelled out: the cell split is the first above level 30, and its children 0 to 3 stand in its place |
| `CellFixtures.SplitAtIsUnmerge` | tools/refgen-cpp/generate_cellunion.cc:119-133 | splitting any cell of a valid union keeps validity and coverage, leaves four siblings, and merging them undoes it |
| `CellFixtures.SplitOneIsValidNotNormalized` | tools/refgen-cpp/generate_cellunion.cc:119-120 | from a normalised union the result is valid with the same coverage, is normalised only if all cells are leaves, and has the input as its only normal form |
| `CellFixtures.SplitThenNormalize` | tools/refgen-cpp/generate_cellunion.cc:119-133 | splitting and then normalising gives the input back |
| `CellFixtures.PushChildren` | tools/refgen-cpp/generate_cellunion.cc:126-126 | pushing `c.child(0)` to `c.child(3)` appends the four children in order |
| `CellFixtures.CascadeOfSeven` | tools/refgen-cpp/generate_cellunion.cc:137-141 | the three first children and the four children of the last |
| `CellFixtures.CascadeCollapsesTwice` | tools/refgen-cpp/generate_cellunion.cc:135-136 | the cascade is valid and covers its cell; merging stops exactly at that cell alone, after exactly two merges |
| `CellFixtures.CascadeMergesLast` | tools/refgen-cpp/generate_cellunion.cc:135-141 | nothing merges before the last cell is there: every shorter prefix is normalised, so it is the last child that is split |
| `CellFixtures.RandDescendant` | tools/refgen-cpp/generate_cellunion.cc:40-48 | for every stream of random numbers the loop computes `Descendant`, of which `WalkFollowsDraws` tells the level, the path and the numbers used |
| `CellFixtures.WalkFollowsDraws` | tools/refgen-cpp/generate_cellunion.cc:43-46 | from any cell the walk stops after the number of levels asked for or at a leaf, uses one number for each level, and goes to the child that number says |
| `CellFixtures.DrawnIsFourDown` | tools/refgen-cpp/generate_cellunion.cc:40-48 | a drawn descendant lies inside its anchor, at most four levels down |
| `CellFixtures.DescendantPlayed` | tools/refgen-cpp/generate_cellunion.cc:40-48 | and every cell that does is drawn, with the numbers that spell its path, and uses up exactly these |
| `CellFixtures.RandCellsAround` | tools/refgen-cpp/generate_cellunion.cc:50-63 | for every stream of random numbers the method computes `CellsAround`, of which the next two rows tell what can come out; the second group is drawn for only if there was a cell |
| `CellFixtures.CellsAroundAreDrawable` | tools/refgen-cpp/generate_cellunion.cc:50-63 | whatever is drawn: as many cells as the count says, at most `max_cells`, each at most four levels below the anchor, then nothing or the four children of one such cell |
| `CellFixtures.EveryDrawableIsDrawn` | tools/refgen-cpp/generate_cellunion.cc:50-63 | and every list of that form comes out for some stream of random numbers |
| `CellFixtures.RandAnchor` | tools/refgen-cpp/generate_cellunion.cc:65-68 | the level is the minimum and the number drawn modulo the size of the range, and the anchor holds the random point's leaf, which fixes it |
| `CellFixtures.AncestorAt` | core/src/s2/cell_id.rs:375-379 | `parent(level)` is the cell of that level that the cell lies inside |
| `CellFixtures.NoCellOutgrowsAnchor` | tools/refgen-cpp/generate_cellunion.cc:177-179 | any union with the coverage of cells inside an anchor has only cells inside it, no coarser than it |
| `CellFixtures.RandomDenormalizeRow` | tools/refgen-cpp/generate_cellunion.cc:194-203 | in every random row the union is the normal form of the cells drawn and the output its expansion; each cell is at most two levels above the minimum, the output is valid, on the grid, has the same coverage and at most sixteen cells per input cell |
| `EForm.FractionIsExact` | verify/src/angle_spec.rs:66-68 | the fraction of a double is a double, except strictly between minus one half and zero |
| `EForm.FractionExactIff` | verify/src/angle_spec.rs:66-68 | the exact condition: the subtraction is exact outside that range, and inside it only on multiples of 2^-53 |
| `EForm.RoundJustBelowZero` | verify/src/angle_spec.rs:70-79 | in that range the result is zero all the same, as the nearest integer must be |
| `EForm.RoundHalfEvenIsNearest` | verify/src/angle_spec.rs:66-79 | for every finite double and every arithmetic that is monotone and exact on doubles, the result is the nearest integer, ties to even |
| `EForm.ToEIsClampedRounding` | verify/src/angle_spec.rs:81-110 | the E-form is the nearest integer to the product, ties to even, clamped to 32 bits |
| `EForm.OutOfRangeIff` | tools/refgen-cpp/generate_values.cc:1078-1082 | the generator's range test holds exactly on NaN, infinities and values whose rounding leaves the 32-bit range |
| `EForm.InRangeIsRounding` | tools/refgen-cpp/generate_values.cc:1078-1082 | where the range test does not hold, the E-form is the rounding itself |
| `EForm.ToEIsMonotone` | verify/src/angle_spec.rs:86-110 | a larger angle never has a smaller E-form, infinities included |
| `EForm.ProductIsNear` | verify/src/angle_spec.rs:62-64 | the product that comes back from an integer below 2^49 in size is within 0.45 of it, after seven roundings |
| `EForm.EFormRoundTrip` | verify/src/angle_spec.rs:59-110 | for all three forms and every such integer the rounding of that product is the integer, so every 32-bit integer survives the trip |
| `EFormScale.EProductIsNear` | verify/src/angle_spec.rs:34-57 | for every angle of ordinary size, in radians, the product is finite and within 3.003 times 2^-53, relatively, of r (180 / pi) 10^k, for k of 5, 6 and 7 |
| `EFormScale.FromEIsNear` | verify/src/angle_spec.rs:59-64 | for every n below 2^49 in size the angle is within 4.004 times 2^-53, relatively, of n 10^-k (pi / 180) |
| `EFormScale.ToEIsNear` | verify/src/angle_spec.rs:81-110 | for every finite angle the E-form is within half a unit and a millionth of r (180 / pi) 10^k, or is the end of the 32-bit range that this lies beyond |
| `EFormScale.ToEOfSpecials` | verify/src/angle_spec.rs:86-110 | NaN gives zero and the infinities the ends of the 32-bit range |
| `EFormScale.OtherFormsAreSeventh` | verify/src/angle_spec.rs:41-57 | a form other than 5 and 6 is taken for 7, both ways |
| `EFormScale.PiIsNearest` | verify/src/angle_spec.rs:25-39 | the stored pi is the double nearest to 3.14159265358979323846 |
| `EFormScale.EFormMeasuresDegrees` | verify/src/angle_spec.rs:81-110 | in binary64 the E-forms of every finite angle are as near to the exact ones |
| `EForm.ExactArithmeticQualifies` | verify/src/angle_spec.rs:59-110 | exact arithmetic meets the hypotheses of the round trip |
| `Binary64.Round64IsNearest` | verify/src/angle_spec.rs:27-39 | the rounding function gives a double, and no double is closer to the exact result |
| `RoundingEdges.FineMidpoint` | verify/src/angle_spec.rs:27-39 | a number halfway between two neighbouring doubles rounds to the even one, among the smallest doubles too |
| `RoundingEdges.CoarseMidpoint` | verify/src/angle_spec.rs:27-39 | the same among doubles beyond 2^53 |
| `RoundingEdges.OverflowIff` | verify/src/angle_spec.rs:27-39 | rounding overflows exactly from half a unit beyond the largest double on, in size |
| `Binary64.Round64IsMonotone` | verify/src/angle_spec.rs:27-39 | rounding keeps order, overflow to infinity included |
| `Binary64.Round64IsExactOnDoubles` | verify/src/angle_spec.rs:27-39 | a double, subnormal ones included, rounds to itself |
| `Binary64.Round64IsAccurate` | verify/src/angle_spec.rs:27-39 | the relative error is at most 2^-53 on numbers of ordinary size |
| `Binary64.Binary64IsSound` | verify/src/angle_spec.rs:25-39 | binary64 with the stored value of pi meets every hypothesis of the E-form theorems |
| `Binary64.EveryEFormSurvives` | verify/src/angle_spec.rs:59-110 | in binary64 `upstream_e(k, upstream_from_e(k, n))` is `n` for every 32-bit `n` |
| `Binary64.EFormsInBinary64` | verify/src/angle_spec.rs:81-110 | in binary64 the E-form is monotone and is the clamped nearest integer of the product |
| `Binary64.FractionRoundsToOneIff` | verify/src/angle_spec.rs:66-68 | the computed fraction of a double is one, not below one, exactly from -2^-54 up to zero |
| `Binary64.FractionAtMinusTwoToMinus60` | verify/src/angle_spec.rs:66-68 | at -2^-60, a double, the fraction is no double and its rounding is one |
| `Intervals.Nearest` | python/src/interval.rs:110-113 | the point of an interval that no other point of it beats in distance to a given one |
| `Intervals.ExactIsDirectedDistance` | tools/refgen-cpp/generate_values.cc:456-461 | without rounding, a distance at least zero lets every point of the first interval reach the second exactly when it is at least the formula's value; an infinite value means that none does |
| `Intervals.LibHausdorffIsDirectedDistance` | tools/refgen-cpp/generate_values.cc:456-461 | for finite bounds the double computed is the directed Hausdorff distance, correctly rounded, or infinity when no distance suffices |
| `Intervals.CentreNeverOverflows` | tools/refgen-cpp/generate_values.cc:445-454 | for all finite double bounds no step overflows and the result is the midpoint, correctly rounded, in each of the four branches |
| `Intervals.CentreOfSpecials` | tools/refgen-cpp/generate_values.cc:445-454 | an infinite bound gives that infinity, two different ones or a NaN give NaN, and no finite bound spoils this |
| `Halving.HalfRounds` | tools/refgen-cpp/generate_values.cc:445-454 | away from the smallest numbers half of a rounding is the rounding of the half |
| `Halving.SmallSumIsDouble` | tools/refgen-cpp/generate_values.cc:450-450 | a sum of doubles below twice the smallest normal one is exact |
| `Halving.LargeAbsorbs` | tools/refgen-cpp/generate_values.cc:451-452 | a double beyond 2^54 absorbs what is less than a quarter |
| `FixtureText.ParseVertices` | tools/refgen-cpp/generate_boolean_op.cc:66-70 | the vertex loop reads the given number of coordinate triples |
| `FixtureText.ParsePoly` | tools/refgen-cpp/generate_boolean_op.cc:57-73 | a label, a count and that many loops |
| `FixtureText.ParseInputs` | tools/refgen-cpp/generate_boolean_op.cc:40-79 | on every text, well formed or not, the parser computes `ParseCases`, about which the round trip speaks |
| `FixtureText.WriteVertices` | tools/refgen-cpp/extract_boolean_op_inputs.py:130-131 | one line of three words for each vertex |
| `FixtureText.WritePoly` | tools/refgen-cpp/extract_boolean_op_inputs.py:127-131 | a label line and the lines of each loop |
| `FixtureText.WriteCase` | tools/refgen-cpp/extract_boolean_op_inputs.py:125-132 | the words of a case, from CASE to END, with A before the first operand and B before the second |
| `FixtureText.WriteFile` | tools/refgen-cpp/extract_boolean_op_inputs.py:114-138 | the text is the header lines and then the words of the cases |
| `FixtureFormat.WrittenInFormat` | tools/refgen-cpp/extract_boolean_op_inputs.py:114-138 | a reader that checks CASE, A, LOOP, B, LOOP and END, every blank and line end at its place and every count accepts each written file, and gives the header lines and the cases |
| `FixtureFormat.CaseAt` | tools/refgen-cpp/extract_boolean_op_inputs.py:125-132 | that reader takes a written case for the case and stops at its end |
| `FixtureFormat.LinesAt` | tools/refgen-cpp/extract_boolean_op_inputs.py:114-138 | a text read line by line gives the lines it was made of |
| `FixtureText.JoinedText` | tools/refgen-cpp/extract_boolean_op_inputs.py:138-138 | joining lines with newlines and adding one ends every line with its newline |
| `FixtureText.ReadWordAt` | tools/refgen-cpp/generate_boolean_op.cc:43-43 | extraction of a printed word gives the word and leaves the stream at the next |
| `FixtureText.ReadIntAt` | tools/refgen-cpp/generate_boolean_op.cc:56-64 | extraction of a printed 32-bit integer, negative ones included, gives the integer |
| `FixtureText.ReadIntMeans` | tools/refgen-cpp/generate_boolean_op.cc:56-64 | from any stream: white space, a sign or none, digits; no digits give zero, a value beyond 32 bits the nearer bound, and both fail the stream |
| `FixtureText.SpaceIsSix` | tools/refgen-cpp/generate_boolean_op.cc:43-43 | white space is the six characters that the standard extraction skips |
| `FixtureText.NegativeCountIsNone` | tools/refgen-cpp/generate_boolean_op.cc:59-66 | a count of zero or below stands for no loops and no vertices |
| `FixtureText.CutShort` | tools/refgen-cpp/generate_boolean_op.cc:55-77 | a text that ends right after a case's operation still yields that case, with zero and empty operands |
| `FixtureText.ReadCaseAt` | tools/refgen-cpp/generate_boolean_op.cc:55-76 | after CASE, a printed case is read back whole, whatever words label its parts |
| `FixtureText.ParseCasesAt` | tools/refgen-cpp/generate_boolean_op.cc:40-79 | every list of printed cases is read back, whatever words label the parts |
| `FixtureText.SkippedLineIsSkipped` | tools/refgen-cpp/generate_boolean_op.cc:44-54 | a line that starts with a word other than CASE has no effect |
| `FixtureText.HeaderIsSkipped` | tools/refgen-cpp/generate_boolean_op.cc:44-48 | nor have any number of such lines |
| `FixtureText.BlankIsSkipped` | tools/refgen-cpp/generate_boolean_op.cc:43-43 | white space in front, blank lines included, makes no difference to the cases read |
| `FixtureText.ParserUndoesWriter` | tools/refgen-cpp/generate_boolean_op.cc:40-79 | for every header of skipped lines, every list of cases, with any number of loops and vertices, none included, and any labels, parsing the text gives the cases |
| `FixtureText.WriteThenParse` | tools/refgen-cpp/extract_boolean_op_inputs.py:114-138 | the two programs composed are the identity on lists of cases |
| `Decimals.DecimalValue` | tools/refgen-cpp/extract_boolean_op_inputs.py:125-129 | a printed number, read digit by digit, is the number |
| `Decimals.DecimalIsOnly` | tools/refgen-cpp/extract_boolean_op_inputs.py:125-129 | the printed number is the only text of digits with its value and no needless zero in front |
| `VecLiteral.MatchDelim` | tools/refgen-cpp/extract_boolean_op_inputs.py:45-59 | the scanning loop computes `MatchEnd`, with none for the assertion and the error |
| `VecLiteral.MatchLengthIsFirst` | tools/refgen-cpp/extract_boolean_op_inputs.py:45-59 | from any depth the match is the first place where the depth is back at zero, and there is none only if the depth never is |
| `VecLiteral.MatchEndIsShortestBalanced` | tools/refgen-cpp/extract_boolean_op_inputs.py:45-59 | the match starts at an opening bracket, is balanced, and no shorter text from there is; it fails exactly when no bracket opens there, the two brackets are one character, or no text from there is balanced |
| `VecLiteral.BalanceCounts` | tools/refgen-cpp/extract_boolean_op_inputs.py:45-59 | the depth reached is the number of opening brackets less the number of closing ones |
| `VecLiteral.FindIsFirst` | tools/refgen-cpp/extract_boolean_op_inputs.py:78-81 | the place found is the first where the pattern stands, and none is found only if it stands nowhere |
| `VecLiteral.LoopsInVec` | tools/refgen-cpp/extract_boolean_op_inputs.py:71-88 | the loop computes `LoopsOf`, on every text, always moving on |
| `VecLiteral.InnerVecsOfPrinted` | tools/refgen-cpp/extract_boolean_op_inputs.py:79-88 | all vectors of a printed list come back, in order, each whole with the vectors inside it |
| `VecLiteral.LoopsOfPrinted` | tools/refgen-cpp/extract_boolean_op_inputs.py:71-88 | the same for a whole nested literal, whatever text without brackets stands before it and whatever stands after |
| `VecLiteral.NoLoops` | tools/refgen-cpp/extract_boolean_op_inputs.py:76-78 | there is no result when no bracket opens or the first that does is never closed |
| `VecLiteral.UnclosedVec` | tools/refgen-cpp/extract_boolean_op_inputs.py:79-87 | one inner vector that is never closed leaves the whole list without result, wherever it stands |
| `Rows.HexBytes` | tools/refgen-cpp/generate_coding.cc:70-78 | two digits for each byte, in order |
| `Rows.HexAt` | tools/refgen-cpp/generate_coding.cc:70-78 | each byte's upper half comes first, as a digit from 0 to 9 or a small letter from a to f |
| `Rows.HexReads` | tools/refgen-cpp/generate_coding.cc:70-78 | the digits determine the bytes and contain no separator |
| `Rows.Join` | tools/refgen-cpp/generate_coding.cc:108-116 | the items' digits with semicolons between them |
| `Rows.SplitJoined` | tools/refgen-cpp/generate_coding.cc:108-116 | splitting a non-empty join at semicolons gives the items' digits |
| `Rows.JoinConfusesOnlyEmpty` | tools/refgen-cpp/generate_coding.cc:342-342 | two lists have the same join exactly when they are equal or are no strings and one empty string |
| `Rows.StringVectorField` | tools/refgen-cpp/generate_coding.cc:343-343 | the field is the count, a bar and the join; `CountBeforeBar` says what the count is |
| `Rows.CountBeforeBar` | tools/refgen-cpp/generate_coding.cc:343-343 | what stands before the bar is all digits, and their value is the number of strings |
| `Rows.FieldReads` | tools/refgen-cpp/generate_coding.cc:342-343 | a reader that wants a decimal count, a bar and as many strings as the count says accepts every field and gives the list back |
| `Rows.PutLe64` | tools/refgen-cpp/generate_cellunion.cc:95-97 | eight bytes, least significant first, are appended |
| `Rows.LeReads` | tools/refgen-cpp/generate_cellunion.cc:95-97 | the bytes of a number below 256 to their number determine it |
| `Rows.LeReads64` | tools/refgen-cpp/generate_cellunion.cc:95-97 | for eight bytes: they determine every number below 2^64 |
| `Rows.BuildRawEncoding` | tools/refgen-cpp/generate_cellunion.cc:99-105 | a version byte, the count and the ids, whether or not the count is right |
| `Rows.WordsOfEncoding` | tools/refgen-cpp/generate_cellunion.cc:99-105 | an encoding determines its version, 64-bit count and 64-bit ids |
| `Shapes.PyShape.Copy` | python/src/shapes.rs:210-212 | a shallow copy holds the same shape object |
| `Shapes.PyShape.DeepCopy` | python/src/shapes.rs:214-225 | a deep copy shows the same contents and, for an edge vector, holds a new object |
| `Shapes.PyEdgeVectorShape.FromEdges` | python/src/shapes.rs:675-691 | a new handle owns a new shape with the given edges and dimension one |
| `Shapes.PyEdgeVectorShape.Add` | python/src/shapes.rs:693-696 | the edge is appended to the shared shape |
| `Shapes.PyEdgeVectorShape.SetDimension` | python/src/shapes.rs:698-704 | dimensions above two are refused and change nothing; others are set on the shared shape |
| `Shapes.PyEdgeVectorShape.AsShape` | python/src/shapes.rs:706-711 | the new shape shares the handle's object |
| `Shapes.PyEdgeVectorShape.Copy` | python/src/shapes.rs:666-672 | both copies of an edge-vector handle own a new object with the present contents |
| `Shapes.PyEdgeVectorShape.GetItem` | python/src/shapes.rs:717-728 | indexing from either end, refused exactly outside the range |
| `Shapes.PyEdgeVectorShape.Iter` | python/src/shapes.rs:730-734 | an iterator starts with a snapshot of the edges |
| `Shapes.PyEdgeIter.Next` | python/src/shapes.rs:754-762 | the next edge of the snapshot, or none at its end, with no further change |
| `Shapes.MadeShowsItsSource` | python/src/shapes.rs:661-763 | after every run, what a call makes is a handle of the call's own type; a new shape shows the given edges and dimension 1, and a copy, a deep copy, `as_shape` and an iterator show what their source shows |
| `Shapes.OthersShowTheSame` | python/src/shapes.rs:661-763 | after every run no call but `add` and `set_dimension` changes what a handle at hand shows, and these change no shape that is not an edge vector |
| `Shapes.RefusedChangesNothing` | python/src/shapes.rs:661-763 | after every run a call on a handle that is missing or of another type changes nothing |
| `Shapes.SharedIffFamily` | python/src/shapes.rs:661-711 | over every run two handles hold the same object exactly when they are linked by `as_shape` and shallow shape copies, told from the calls alone |
| `Shapes.AddShowsIffFamily` | python/src/shapes.rs:693-711 | after every run an edge added through one handle shows through another, as the last edge, exactly when they are so linked, and otherwise changes nothing there |
| `Shapes.DimensionShowsIffFamily` | python/src/shapes.rs:698-711 | after every run a dimension set through one handle shows through another exactly when they are so linked and the dimension is at most two |
| `Shapes.RunKeepsUnowned` | python/src/shapes.rs:214-225 | a shape that no edge-vector handle owns is never owned or changed again |
| `Shapes.DeepCopyNeverChanges` | python/src/shapes.rs:214-225 | a deep copy shows for ever what its source showed when it was made |
| `Shapes.IteratorState` | python/src/shapes.rs:741-763 | after any calls an iterator has yielded, and stands after, as many edges of its snapshot as it was asked for |
| `Shapes.IteratorYieldsSnapshot` | python/src/shapes.rs:730-763 | an iterator yields exactly the edges present when it was made, in order, whatever is added meanwhile |
| `ShapeSession.Session.Perform` | python/src/shapes.rs:661-763 | every call, on objects, changes the state as the machine's step does and keeps objects and machine in correspondence |
| `ShapeSession.Session.Show` | python/src/shapes.rs:182-196 | what a handle shows is what the machine says it shows |
| `ShapeSession.Replay` | python/src/shapes.rs:661-763 | a whole run on objects ends as the machine's run does and yields the same edges |

## Left out

- Geometry in floating point: whether a loop's interior holds a point, and whether a loop contains another, are parameters; the hypotheses say when the latter is right. The bound check and the index query in `contains_point` are not modelled.
- Coordinates: the conversion between points and degrees is a parameter, assumed to lose nothing where a theorem needs that. A ring with a NaN coordinate does not compare equal to itself and so would not be recognised as closed; signed zeros are not distinguished.
- PolygonInvert.InversionConvertsToComplement: speaks of depth-first lists; the lists that `from_loops` builds are the subject of `PolygonComplement.ComplementConvertsIff`, and lists of neither kind, such as an inverse inverted again without a clone, have only `PolygonInvert.InvertedFlipsPointTest`.
- PolygonComplement.ComplementOfBuilt: how `from_oriented_loops` orients its loops and decides whether to invert rests on areas and on the position of the origin, and is left out.
- Which outermost loop `invert` turns over (a comparison of turning angles): any choice is allowed.
- `GeoPoly::new` closes open rings; the rings given to it here are closed already. `multi_polygon_to_polygons`, the element-wise conversions and `LineString` to `Polyline` are left out as easy.
- Normalize.NormalizeCells: the sort is a function on sequences, and the vectors are values rather than buffers changed in place; the same holds for the loop list in `from_loops` and `init_nesting`.
- CellBits.ParentId: bit masks are written as the division and multiplication they amount to; the exclusive or is taken bit by bit. Ids that are no cell's, and the assertions of debug builds on them, are left out.
- Set operations on cell unions, queries, codecs, the builder and the boolean operations.
- EForm.EFormRoundTrip: scale factors other than those of the three forms are not distinguished from the third, as in the code; NaN payloads and signed zeros are left out.
- Intervals.LibHausdorffIsDirectedDistance: for finite bounds; infinite and NaN bounds, and so the NaN that the maximum drops, are left out.
- CellFixtures.RandCellsAround: random numbers and random points come from two given streams; that the points use up numbers of the one generator, and which numbers it gives, is left out. Files, streams and printing are texts.
- FixtureText.ParseVertices: coordinates are words; what a numeric extraction would do with a word that is no number is left out.
- FixtureText.ParseInputs: likewise, and so it agrees with the original on texts whose coordinates are numbers.
- FixtureText.ParserUndoesWriter: headers are lines that start with a word other than CASE.
- VecLiteral.LoopsInVec: the pattern search inside each vector is left out, and the assertion and the two errors are one absent result.
- The de-duplication of printed rows, and decimal and hexadecimal printing elsewhere.
- Shapes.PyShape.DeepCopy: the four shape kinds that cannot change are one case; the lock, its poisoning and the interpreter lock are left out, as are exception types.
