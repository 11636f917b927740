# Verified models of the host point-cloud filters

A Dafny model of the point-cloud filters whose algorithms run on the host, and proofs of what these filters
promise. `dafny verify dfyconfig.toml` checks all of it.

| file | models |
|---|---|
| `Chipper.dfy`, `ChipperSpec.dfy`, `ChipLayout.dfy` | `filters.chipper`: two cross-linked sorted arrays and a scratch array whose roles rotate through an in-place recursion, against a recursive definition of the chips on plain lists, and how the chips lie in the plane |
| `Dbscan.dfy` | `filters.dbscan`: worklist expansion in any order, against connected components of core points |
| `FrontStates.dfy`, `GreedyFront.dfy` | `filters.greedyprojection`: the vertex states, the fringe queue and the triangles, with every geometric decision left open |
| `Visibility.dfy`, `SightOverlap.dfy` | the planar visibility test of `filters.greedyprojection`, over the reals and with division by zero, and when its answer is right |
| `ZOrder.dfy`, `ReverseZOrder.dfy`, `MortonOrder.dfy`, `UnsignedOrder.dfy` | `filters.mortonorder`: the bit tricks against interleaving and bit reversal, and the order of the output |
| `NearestList.dfy` | `filters.info` in query mode: the bounded list of nearest points |
| `NeighborVote.dfy`, `RowChunks.dfy`, `NeighborClassifier.dfy` | neighbour voting: map and array tallies, the row ranges of the workers, and the filter with any number of workers |
| `GpsTime.dfy` | `filters.gpstimeconvert`: unwrapping, wrapping and the conversions |
| `LiTree.dfy` | `filters.litree`: tree after tree is cut out of the remaining points |
| `Decimation.dfy` | `filters.decimation`: streaming mode and batch mode |
| `Moments.dfy`, `Dispersion.dfy`, `OptimalNeighborhood.dfy`, `Outlier.dfy` | the running means and co-moments of `filters.optimalneighborhood` and `filters.outlier`, against their batch definitions |
| `StableInsertion.dfy`, `Arithmetic.dfy`, `Points.dfy`, `Options.dfy` | shared: stable insertion into sorted lists, lemmas on quotients, the 2D point, an optional value |

Code that changes arrays, fields or lists step by step is modelled by methods and classes that do the same, and
each is proved against a function or predicate on values; what the filter promises is then proved about that.
The main results are stated a second time without those functions and predicates, in terms of
the coordinates, distances, classes and times that go in and the lists and labels that come out.
Coordinates, distances and times are exact reals. Neighbour searches are inputs: a list of rows for every row.
Every class stands for a freshly made filter that runs on one view.

Two promises that the code keeps only in part have their exact conditions here.

* The visibility test answers whether two open segments cross on every input with a determinant. Without one
  the quotients are infinite or undefined: the test then answers "not visible" exactly if the line of sight is
  not a point and the obstacle is one or lies on the line of sight (`Visibility.Characterization`). That is right
  exactly on these inputs (`SightOverlap.RightIff`): the line of sight is a point that is not on the open
  obstacle; or the obstacle is a point on the open line of sight; or both are segments, on different lines or
  with overlapping extents. It is wrong, for instance, for an obstacle behind the point looked
  at (`Visibility.BehindOnTheSameLine`) and for a point of sight on the obstacle
  (`SightOverlap.PointOnTheObstacle`).
* Unwrapping recovers the true times, up to one shift by whole periods, exactly when no time falls back by more
  than the tolerance or below the first period, and every time past the first period follows its predecessor by
  less than a period minus the tolerance (`GpsTime.RecoversIff`). Times that do not decrease and have such gaps
  are always recovered (`GpsTime.AscendingRecovered`); times that fall back too far or come too late are not
  (`GpsTime.LostWeeks`).

A pass of the greedy front takes a free vertex exactly when the vertex it starts from is still free
(`GreedyFront.GreedyProjection.Pass`): the first free vertex is looked up before the front has grown, which may
take it (`GreedyFront.StaleStart`).
The documentation of `filters.outlier` calls a point an outlier above the threshold in its text, and from the
threshold on in its formula; the code does the latter, so a view whose rows all have the same mean distance has
no inlier and is left unchanged (`Outlier.SomeInlierIff`). A comment in `filters.litree` wants a dummy point far
away from the tree top; the code takes a farthest point within a radius, and drops the top alone if that is the
top itself, which it can be exactly if no other position is within the radius (`LiTree.IsolatedTop`).

## Model

| member | source | states |
|---|---|---|
| Chipper.ChipperFilter.Run | filters/ChipperFilter.cpp:88-105 | the in-place filter emits the chips, in order, that the recursive definition gives for every view and capacity: every point stands in exactly one chip at exactly one place, the first k chips hold k * n / chips points, rounded, and every block of chips is halved across its wider extent |
| Chipper.ChipperFilter.Load | filters/ChipperFilter.cpp:108-140 | both arrays hold all points in stable order of their coordinate, and the links of the two arrays are mutually inverse bijections |
| Chipper.ChipperFilter.LinkForth | filters/ChipperFilter.cpp:126-132 | the Y reference of every point knows the place of the point in the sorted X array, and nothing else in it changes |
| Chipper.ChipperFilter.LinkBack | filters/ChipperFilter.cpp:137-139 | the X references are linked back to the places of their points in the sorted Y array, and only links change |
| Chipper.StableSort | filters/ChipperFilter.cpp:126-135 | a sorted permutation in which equal coordinates keep their input order |
| Chipper.SortedRefs | filters/ChipperFilter.cpp:126-135 | sorted references list the points exactly as the stable sort of the ids does, each once, at its own coordinate |
| Chipper.LoadActive | filters/ChipperFilter.cpp:126-140 | links set by the two linking passes make the arrays a valid cross-linked pair on the whole range |
| Chipper.ChipperFilter.Partition | filters/ChipperFilter.cpp:159-179 | cumulating and rounding appends exactly the boundaries round(k * n / chips), k = 0 to chips |
| Chipper.ChipperFilter.DecideSplit | filters/ChipperFilter.cpp:182-198 | for a valid cross-linked block, the emitted chips are those of the recursive definition, and no array changes outside the block; that the definition cuts along the wider axis is stated by the coordinates in ChipLayout.ChipsLaidOut |
| Chipper.ChipperFilter.Split | filters/ChipperFilter.cpp:200-256 | for a valid cross-linked block, the emitted chips are those of the cut of its two id lists, whichever arrays play wide, narrow and spare; nothing outside the block changes |
| Chipper.ChipperFilter.SplitHalves | filters/ChipperFilter.cpp:227-255 | the left recursive call leaves the right half of the wide and the spare array a valid block, so both halves are chipped as the recursive definition says |
| Chipper.ChipperFilter.Distribute | filters/ChipperFilter.cpp:235-251 | copying the narrow array fills each half of the spare array exactly and sorted, relinks the wide array, and leaves two valid cross-linked halves |
| Chipper.DistributeNext | filters/ChipperFilter.cpp:237-251 | one turn of the copying loop keeps the loop invariant on whichever side the element falls, and neither side overflows |
| Chipper.DistributeDone | filters/ChipperFilter.cpp:235-254 | when the loop is over both halves are cross-linked, sorted and hold the same points in both arrays |
| Chipper.HalfRoom | filters/ChipperFilter.cpp:235-251 | a half cannot be full while one of its elements is still to be copied |
| Chipper.ActiveElsewhere | filters/ChipperFilter.cpp:253-254 | a block stays valid while the recursion works on a disjoint block |
| Chipper.ChipperFilter.Emit | filters/ChipperFilter.cpp:258-265 | one chip with the ids of the range, in the order of the array |
| ChipperSpec.ChipViewCorrect | filters/ChipperFilter.cpp:88-105 | for every view and capacity: every point in exactly one chip, ceil(n / capacity) chips, balanced sizes within the capacity, any two chips separated along X or Y |
| ChipLayout.ChipViewMeaning | filters/ChipperFilter.cpp:88-105 | for every view and capacity: every point once, the first k chips hold the rounded share of k chips, and the layout of ChipViewLaidOut |
| ChipLayout.ChipViewLaidOut | filters/ChipperFilter.cpp:182-256 | with widths given by a pair of points that attains them: if the points of a block differ more in X than in Y, no point of its first half of chips is to the right of a point of the second half, otherwise none is above one; at equal widths the axis changes; one or two chips list their points along that axis |
| ChipLayout.ChipsLaidOut | filters/ChipperFilter.cpp:182-198 | the same for every block sorted along both axes, from the test of the wider range |
| ChipLayout.ChipViewShared | filters/ChipperFilter.cpp:159-179 | there are ceil(n / capacity) chips and the first k of them hold k * n / chips points, rounded to the nearest number, halves up |
| ChipLayout.ChipViewOnce | filters/ChipperFilter.cpp:200-265 | every point of the view stands in exactly one chip at exactly one place, and nothing else does |
| ChipperSpec.ChipViewCovers | filters/ChipperFilter.cpp:200-265 | the chips together hold every point of the view exactly once |
| ChipperSpec.ChipViewSeparated | filters/ChipperFilter.cpp:182-256 | of any two chips the earlier lies below the later along X or along Y |
| ChipperSpec.ChipBalanced | filters/ChipperFilter.cpp:159-179 | every chip has floor(n / chips) to ceil(n / chips) points, so none is empty or over capacity |
| ChipperSpec.ChipsSeparated | filters/ChipperFilter.cpp:182-198 | separation holds for every block sorted along both axes, whichever axis is cut first |
| ChipperSpec.CutSeparated | filters/ChipperFilter.cpp:200-256 | separation survives a cut: halves are ordered along the cut axis, chips of one half are separated by recursion |
| ChipperSpec.ChipsCover | filters/ChipperFilter.cpp:200-256 | the chips of a block are a partition of its points |
| ChipperSpec.ChipSizes | filters/ChipperFilter.cpp:217-230 | the k-th chip has exactly the size of the k-th part, at every depth of the recursion |
| ChipperSpec.BoundaryStep | filters/ChipperFilter.cpp:163-178 | consecutive boundaries differ by floor(n / chips) or ceil(n / chips), at least 1 and at most the capacity |
| ChipperSpec.BoundariesIncreasing | filters/ChipperFilter.cpp:170-178 | the boundaries increase strictly |
| ChipperSpec.BoundariesEnds | filters/ChipperFilter.cpp:170-178 | the boundaries start at 0 and end at n |
| ChipperSpec.HalfBlocks | filters/ChipperFilter.cpp:227-254 | the middle boundary lies strictly inside the block, and filtering the narrow list by each half gives blocks of the right sizes |
| ChipperSpec.KeepAscending | filters/ChipperFilter.cpp:231-234 | keeping the points of one half needs no sorting: a sorted list stays sorted |
| ChipperSpec.SortedIdsCorrect | filters/ChipperFilter.cpp:126-135 | sorting lists every id once, ascending, ties in input order |
| Dbscan.Filter | filters/DBSCANFilter.cpp:97-172 | whatever order the work set yields: points with at least min_points neighbours have the same label exactly if a path of such points joins them, labels are numbered from 0 in the order of their least such points, any other point has the least label of such a neighbour or is noise if it has none |
| Dbscan.ClusteringMeaning | filters/DBSCANFilter.cpp:97-172 | the specification by components and leaders says this, with numbers of neighbours and paths written out |
| Dbscan.NumberedFirst | filters/DBSCANFilter.cpp:113-170 | every smaller label is met at a smaller core point |
| Dbscan.Expand | filters/DBSCANFilter.cpp:128-170 | expanding one cluster terminates and labels exactly the component of its first core point and the border points it is the first to reach |
| Dbscan.SameLabelIffConnected | filters/DBSCANFilter.cpp:112-171 | two core points have the same label if and only if a chain of neighbouring core points joins them |
| Dbscan.LeaderLabels | filters/DBSCANFilter.cpp:113-170 | labels are consecutive from 0, and label k belongs to the k-th component in the order of least core points |
| Dbscan.ClusteringUnique | filters/DBSCANFilter.cpp:130-168 | only one labelling satisfies the specification, so the result does not depend on the order of the work set |
| Dbscan.PopFresh | filters/DBSCANFilter.cpp:141-167 | labelling a point taken from the work set keeps the invariant of the expansion, with the neighbours of a core point added |
| Dbscan.LabelAlong | filters/DBSCANFilter.cpp:139-168 | when the work set is empty, the label has spread along every chain of core points |
| Dbscan.NewLeader | filters/DBSCANFilter.cpp:114-136 | an unlabelled core point met by the scan is the least core point of its component |
| Dbscan.ConnectedBack | filters/DBSCANFilter.cpp:105-110 | with a symmetric neighbour relation chains of core points can be reversed |
| GreedyFront.GreedyProjection.Filter | filters/GreedyProjection.cpp:127-1194 | whatever the geometry answers: the filter terminates, every vertex is given up or ends as a corner of a triangle, none is free, every vertex is handled as a fringe vertex at most once and ends settled |
| GreedyFront.GreedyProjection.Pass | filters/GreedyProjection.cpp:206-1194 | a pass takes a free vertex if and only if the vertex it starts from is free; any other pass changes no state, link, triangle or queue entry; the queue is exhausted after every pass, every vertex that joined the front is a corner, and a free start vertex ends given up or settled |
| GreedyFront.StaleStart | filters/GreedyProjection.cpp:357-390 | a run on four vertices comes to a pass whose start vertex is no longer free |
| GreedyFront.GreedyProjection.GrowFront | filters/GreedyProjection.cpp:368-1193 | the fringe loop terminates, handles distinct vertices, leaves no entry of the queue unconsidered, and settles every fringe vertex that waits in the queue |
| GreedyFront.GreedyProjection.ProcessFringe | filters/GreedyProjection.cpp:383-1192 | a fringe vertex with equal neighbours, or one that the geometry gives up, changes its own state and nothing else; with two visible neighbours exactly the triangle of the vertex and its two fringe neighbours is added and both close or are linked to each other; otherwise the triangles around it are formed: without a gap they lead from one fringe neighbour to the other without a break; a vertex that ends completed got a triangle in this iteration unless its neighbours were equal; in all cases it is settled, no rank rises and the queue only grows |
| GreedyFront.GreedyProjection.Finish | filters/GreedyProjection.cpp:919-1191 | the triangles added around the handled vertex form a fan: neighbours that follow each other without a gap form a new triangle with it, and exactly the connected neighbours are queued; without a gap the vertex is completed, and completed it got a new triangle |
| GreedyFront.GreedyProjection.SeedTriangle | filters/GreedyProjection.cpp:209-355 | a free start vertex is given up and nothing else changes, or it forms the first triangle with two other free vertices of its neighbours; all three are on the fringe, linked in a ring, queued, and get the number of the new part |
| GreedyFront.GreedyProjection.FormTriangle | filters/GreedyProjection.cpp:333-344 | three distinct vertices join the fringe as a ring of first and second neighbours, are queued with the start vertex last, and belong to its part |
| GreedyFront.GreedyProjection.CloseTriangle | filters/GreedyProjection.cpp:1220-1249 | the vertex is completed, its triangle is added, each neighbour closes or takes the other as its fringe neighbour, and no other state or link changes |
| GreedyFront.GreedyProjection.ConnectPoint | filters/GreedyProjection.cpp:1251-1873 | a free vertex is linked to both sides, a vertex between its own neighbours is completed, one with a single known neighbour gets the other side in its place; in all cases ranks only fall and every vertex that joins the front is a corner |
| GreedyFront.GreedyProjection.PrevToFfn | filters/GreedyProjection.cpp:1483-1525 | the triangle with the first fringe neighbour and the vertex before: these two are linked to each other in place of the current vertex, or of R, which gets the vertex after instead; no other links change |
| GreedyFront.GreedyProjection.PrevToSfn | filters/GreedyProjection.cpp:1526-1568 | the same with the second fringe neighbour |
| GreedyFront.GreedyProjection.NextToFfn | filters/GreedyProjection.cpp:1569-1718 | the triangle with the first fringe neighbour and the vertex after: a free vertex after joins the fringe between the current vertex and that neighbour, which closes or is linked to it; the current vertex is linked to the one before |
| GreedyFront.GreedyProjection.NextToSfn | filters/GreedyProjection.cpp:1719-1873 | the same with the second fringe neighbour |
| GreedyFront.GreedyProjection.UpdateNext | filters/GreedyProjection.cpp:1583-1608 | exactly when R or the vertex after next is a fringe neighbour of next, or next is R itself, the given vertex takes that place, and the flag that the next vertex is connected is raised in the cases of the code |
| GreedyFront.GreedyProjection.AssignSfnOfNext | filters/GreedyProjection.cpp:1669-1693 | the test that assigns: the neighbour gets the new link whatever the test finds, and closes unless that link is vertex 0 and its second one is another vertex |
| GreedyFront.GreedyProjection.FindWithPrev | filters/GreedyProjection.cpp:1277-1296 | a triangle with the shared fringe neighbour is added exactly if the vertex before is not R and shares one; then that neighbour and the vertex before are completed and the vertex after takes the place of the neighbour, otherwise nothing changes |
| GreedyFront.GreedyProjection.FindWithNext | filters/GreedyProjection.cpp:1297-1333 | a triangle with the shared fringe neighbour is added exactly if the vertex after shares one; then that neighbour is completed and both its other vertices are linked past it, otherwise nothing changes |
| GreedyFront.GreedyProjection.MakeCurrent | filters/GreedyProjection.cpp:1037-1059 | a vertex not yet on the front joins it, any other keeps its state, and no other state changes |
| GreedyFront.GreedyProjection.ConnectNeighbor | filters/GreedyProjection.cpp:1037-1125 | between two gaps a free neighbour is given up again and no state, link or triangle changes besides; any other neighbour is queued, and forms a new triangle with the one before unless a gap lies between them; a free one is linked to those beside it, with R in place of one behind a gap, where it also becomes a fringe neighbour of R |
| GreedyFront.GreedyProjection.ConnectAll | filters/GreedyProjection.cpp:1034-1126 | neighbours that follow each other without a gap form new triangles with the handled vertex; exactly those that are not between two gaps are queued, in their order; if there are only gaps no link or triangle changes |
| GreedyFront.GreedyProjection.FinishR | filters/GreedyProjection.cpp:1128-1191 | the last triangle completes the fan around the handled vertex; the last inner neighbour is queued unless a gap follows it; either end of the way without a gap beside it closes or is linked past the vertex, and no other state or link changes |
| GreedyFront.GreedyProjection.Detach | filters/GreedyProjection.cpp:1138-1164 | a vertex that loses R closes or gets the given vertex in its place; all other links stay |
| GreedyFront.GreedyProjection.AddFringePoint | filters/GreedyProjection.hpp:419-424 | the vertex is queued last, with its source and the part of the source; nothing else changes |
| GreedyFront.GreedyProjection.FindFree | filters/GreedyProjection.cpp:357-366 | the first free vertex, or that there is none |
| FrontStates.UnlinkMeaning | filters/GreedyProjection.cpp:1224-1248 | a vertex between two different neighbours closes if and only if these are the leaving vertex and its replacement; otherwise exactly the leaving one is exchanged |
| FrontStates.AdvancesLowers | filters/GreedyProjection.cpp:368-390 | development by rank lowers the total rank, strictly if any vertex drops |
| FrontStates.AdvancesFree | filters/GreedyProjection.cpp:208-362 | development frees no vertex, and taking one shrinks the set of free vertices |
| FrontStates.MeshedStays | filters/GreedyProjection.cpp:206-1194 | if every vertex on or behind the front is a corner of a triangle, it stays so under every development |
| FrontStates.DevelopsTrans | filters/GreedyProjection.cpp:206-1194 | developments compose, with a vertex that waits for its first triangle in between |
| Visibility.VisibleIffNotBlocked | filters/GreedyProjection.hpp:61-124 | with a non-zero determinant: not visible if and only if the open segments share a point |
| Visibility.Characterization | filters/GreedyProjection.hpp:61-124 | the exact answer on every input, including parallel and degenerate segments |
| Visibility.ZeroDeterminant | filters/GreedyProjection.hpp:76-78 | with a zero determinant: not visible if and only if the sight has an extent and the obstacle is a point or lies on its line |
| Visibility.SignOfZero | filters/GreedyProjection.hpp:76-123 | infinite quotients of either sign pass the same tests, so the sign of a zero divisor changes no answer |
| Visibility.BehindOnTheSameLine | filters/GreedyProjection.hpp:76-123 | a family of inputs where the code answers "not visible" although nothing is in the way |
| SightOverlap.RightIff | filters/GreedyProjection.hpp:61-124 | the answer is whether the open segments share a point if and only if there is a determinant or comparing points and extents on a common line gives the same answer |
| SightOverlap.BlockedWithoutDeterminant | filters/GreedyProjection.hpp:61-124 | without a determinant the open segments share a point exactly if one is a point of the other, or both lie on one line and their extents overlap |
| SightOverlap.BesideTheLine | filters/GreedyProjection.hpp:76-123 | parallel segments on different lines are answered right |
| SightOverlap.PointOnTheObstacle | filters/GreedyProjection.hpp:67-105 | a family of inputs where the code answers "visible" although the point of sight lies on the obstacle |
| Visibility.PathsAgree | filters/GreedyProjection.hpp:67-105 | the special path for R at the origin answers as the general one |
| Visibility.VisibleSymmetric | filters/GreedyProjection.hpp:61-124 | swapping the ends of the obstacle or of the line of sight changes no answer, on any input |
| Visibility.MeetPoint | filters/GreedyProjection.hpp:65-78 | the computed (x, y) is the intersection of the two lines, at the Cramer parameters along either segment |
| Visibility.TestsMeaning | filters/GreedyProjection.hpp:80-123 | the two chains of comparisons ask exactly whether the parameters lie outside (0, 1) |
| Visibility.BlockedParams | filters/GreedyProjection.hpp:80-123 | the open segments meet if and only if both parameters lie inside (0, 1) |
| ZOrder.Compare | filters/MortonOrderFilter.cpp:70-92 | the comparison loop holds exactly when the comparator does, and when the interleaved code of the first pair is the smaller one |
| ZOrder.CmpZOrderMeaning | filters/MortonOrderFilter.cpp:70-92 | the comparator with its bit tricks orders pairs exactly as their interleaved codes are ordered |
| ZOrder.CmpZOrderTotal | filters/MortonOrderFilter.cpp:70-92 | it is a strict total order on pairs |
| ZOrder.LessMsbMeaning | filters/MortonOrderFilter.cpp:65-68 | the bit trick holds if and only if the highest set bit of x is below that of y |
| ZOrder.CodeOrder | filters/MortonOrderFilter.cpp:78-90 | interleaved codes compare as the coordinate does that differs in the highest bit, the first one on a tie |
| ZOrder.HighBitDecides | filters/MortonOrderFilter.cpp:70-92 | a first coordinate below a power of two and another from it on decide, if no coordinate reaches twice that power |
| ZOrder.InterleaveInjective | filters/MortonOrderFilter.cpp:70-92 | distinct pairs have distinct codes |
| ReverseZOrder.ReverseInvolution | filters/MortonOrderFilter.cpp:103-111 | reversing twice is the identity on all 32-bit codes |
| ReverseZOrder.ReverseReverses | filters/MortonOrderFilter.cpp:103-111 | bit i of the reversed code is bit 31 - i of the code |
| ReverseZOrder.EncodeInterleaves | filters/MortonOrderFilter.cpp:98-122 | even bits of the code are the low 16 bits of x and odd bits those of y |
| ReverseZOrder.EncodeRoundTrip | filters/MortonOrderFilter.cpp:98-122 | the low 16 bits of both coordinates can be read back from the code |
| ReverseZOrder.CodesDistinct | filters/MortonOrderFilter.cpp:98-122 | cells with 16-bit coordinates have distinct reversed codes |
| ReverseZOrder.CoarseCells | filters/MortonOrderFilter.cpp:98-122 | both coordinates are divisible by 2^l if and only if the reversed code is below 2^(32 - 2l) |
| MortonOrder.Morton | filters/MortonOrderFilter.cpp:183-215 | the output lists every point once; with both shares of the extent scaled to integers below 2^31 in terms of the coordinates, a point stands before another exactly if its interleaved code, X in the higher bits, is smaller, or equal and it came first; an empty input gives no view |
| MortonOrder.ZSortedOutput | filters/MortonOrderFilter.cpp:183-215 | order by the key of the map is order by k = floor((x - minx) / (maxx - minx) * INT_MAX), and the same for y, interleaved |
| MortonOrder.WestFirst | filters/MortonOrderFilter.cpp:70-92 | a scaled X below 2^30 puts a point before every point from 2^30 on, whatever their Y |
| MortonOrder.ZLessMeaning | filters/MortonOrderFilter.cpp:73-90 | the comparator of the map, applied to shares that it scales and truncates itself, orders entries by their codes |
| MortonOrder.ReverseMortonOrder | filters/MortonOrderFilter.cpp:135-181 | the output lists every point once, for an empty input as well; with both cells given by the coordinates and the root of the number of points, a point stands before another exactly if its reversed code is smaller, or equal and it came first; for every l up to 16 the points on level l are a prefix of it |
| MortonOrder.ReverseSortedOutput | filters/MortonOrderFilter.cpp:135-181 | order by the key of the map is order by the reversed code of the cell c with low + c * width <= value < low + (c + 1) * width on both axes |
| MortonOrder.MapOrder | filters/MortonOrderFilter.cpp:168-174 | reading a multimap front to back gives all points in key order, equal keys in insertion order |
| MortonOrder.LevelsArePrefixes | filters/MortonOrderFilter.cpp:168-174 | in any list of points sorted by reversed code, those whose cell coordinates are both divisible by 2^l are a prefix |
| MortonOrder.LevelDescends | filters/MortonOrderFilter.cpp:162-169 | a point that is not behind another in the reversed order is on every level that the other is on |
| MortonOrder.CellMeaning | filters/MortonOrderFilter.cpp:145-160 | a value lies in cell c exactly if low + c * width <= value < low + (c + 1) * width; only the upper bound gets the number past the last cell |
| MortonOrder.ScaledMeaning | filters/MortonOrderFilter.cpp:75-76 | a share is scaled to k exactly if k <= share * INT_MAX < k + 1; the result fits an int, and only the whole range gets INT_MAX |
| MortonOrder.ScaledMonotone | filters/MortonOrderFilter.cpp:75-76 | a position farther along an axis never gets a smaller number |
| MortonOrder.FloorSqrtMeaning | filters/MortonOrderFilter.cpp:137 | the number of cells is the integer square root |
| MortonOrder.CodeLessOrder | filters/MortonOrderFilter.cpp:149 | the unsigned order of the map keys is a strict weak order |
| StableInsertion.InsertAllStable | filters/InfoFilter.cpp:206-208 | inserting one by one at the upper bound sorts, and keeps equal elements in order of arrival |
| StableInsertion.StablySortedUnique | filters/InfoFilter.cpp:206-208 | there is only one such list of the same elements |
| NearestList.InfoFilter.Filter | filters/InfoFilter.cpp:164-172 | after the whole view the list holds min(k, n) points with their squared distances from the query, in 2D unless a Z was given, nearest first and ties in order of arrival, and every point not in it comes after every point in it |
| NearestList.InfoFilter.ResultsMeaning | filters/InfoFilter.cpp:196-213 | the k nearest of the points seen are such a list, with the distances written out in the coordinates |
| NearestList.InfoFilter.ProcessOne | filters/InfoFilter.cpp:175-215 | after every point the list of a query is that of the k nearest so far; a point of an id list is reported with distance 0 when its turn comes |
| NearestList.NearestMeaning | filters/InfoFilter.cpp:196-213 | the list is sorted by distance and arrival, has min(k, n) entries, and every point left out comes after every point kept |
| NearestList.NearestStep | filters/InfoFilter.cpp:201-211 | skipping a point that is not nearer than the last, or inserting and dropping the last, gives the k nearest of one point more |
| NearestList.InsertNearer | filters/InfoFilter.cpp:206-210 | inserting into the bounded list and dropping the last loses nothing against the unbounded list |
| NearestList.SkipFarther | filters/InfoFilter.cpp:201 | a point as far as the last entry of a full list does not belong in it |
| NeighborVote.MapVote | bench/r11_neighborhood_attribution.cpp:186-200 | the first class with the most votes wins, and the class changes exactly if the winner has more than half of the votes and differs |
| NeighborVote.ArrayVote | bench/r11_neighborhood_attribution.cpp:203-240 | up to 64 neighbours the shifted arrays give the same winner and decision; more are refused |
| NeighborVote.VotesAgree | bench/r11_neighborhood_attribution.cpp:404-442 | map and array tally cannot disagree, and a decision names the only class with a strict majority |
| NeighborVote.MajorityWins | bench/r11_neighborhood_attribution.cpp:197-199 | a class with a strict majority is the winner |
| NeighborVote.WinnerMeaning | bench/r11_neighborhood_attribution.cpp:194-196 | the winner is the least of the classes that the most positions among the neighbours hold |
| NeighborVote.CountPositions | bench/r11_neighborhood_attribution.cpp:189-193 | the votes of a class are the positions among the neighbours that hold it |
| NeighborVote.WinnerUnique | bench/r11_neighborhood_attribution.cpp:194-196 | there is one winner |
| NeighborVote.TallyMap | bench/r11_neighborhood_attribution.cpp:189-193 | the map counts each class among the neighbours, and no other |
| NeighborVote.MaxElement | bench/r11_neighborhood_attribution.cpp:194-196 | the least key among those with the most votes |
| NeighborVote.TallyOne | bench/r11_neighborhood_attribution.cpp:212-232 | one more neighbour keeps the keys ascending and the votes correct |
| NeighborVote.TallyNew | bench/r11_neighborhood_attribution.cpp:224-231 | shifting both arrays makes room for a new class without losing a count |
| NeighborVote.Shift | bench/r11_neighborhood_attribution.cpp:224-228 | entries from the position on move up by one, the others stay |
| NeighborVote.FirstMost | bench/r11_neighborhood_attribution.cpp:233-236 | the first position with the most votes |
| RowChunks.ExactlyOneOwner | pdal/private/HostNeighborhoodWorkers.hpp:149-163 | every row lies in the range of exactly one worker |
| RowChunks.NextBegin | pdal/private/HostNeighborhoodWorkers.hpp:160-163 | each range ends where the next one begins |
| RowChunks.BeginEnds | pdal/private/HostNeighborhoodWorkers.hpp:154-163 | the ranges start at 0 and end at the number of rows |
| RowChunks.ClampedOwner | bench/r11_neighborhood_attribution.cpp:310-321 | chunks of equal length, clamped to the number of rows, give every row to exactly one worker |
| NeighborClassifier.NeighborClassifierFilter.Filter | filters/NeighborClassifierFilter.cpp:203-220 | a simultaneous update with any number of workers: a row ends with a class other than its old one exactly if it is in the domain and more than half of the positions in its neighbour list hold that class, in the classes before the run or in those of the candidate file |
| NeighborClassifier.UpdatedByMajority | filters/NeighborClassifierFilter.cpp:115-142 | the update by votes is the update by majorities of positions |
| NeighborClassifier.NeighborClassifierFilter.ClassifyAll | filters/NeighborClassifierFilter.cpp:167-188 | the merged lists hold exactly the changes of all rows, for any number of workers |
| NeighborClassifier.NeighborClassifierFilter.RunWorkers | pdal/private/HostNeighborhoodWorkers.hpp:156-184 | in whatever order workers finish, each list holds exactly the changes of its range |
| NeighborClassifier.NeighborClassifierFilter.ClassifyChunk | filters/NeighborClassifierFilter.cpp:176-183 | the changes of a range of rows, no more and no fewer |
| NeighborClassifier.NeighborClassifierFilter.DoOne | filters/NeighborClassifierFilter.cpp:145-160 | a row votes once, if there is no domain or it passes one of its ranges |
| NeighborClassifier.NeighborClassifierFilter.DoOneNoDomain | filters/NeighborClassifierFilter.cpp:117-142 | one entry is appended exactly if the vote changes the class |
| NeighborClassifier.CollectedUnique | filters/NeighborClassifierFilter.cpp:162-188 | the collected map does not depend on the number of workers |
| NeighborClassifier.UpdateUnique | filters/NeighborClassifierFilter.cpp:203-220 | there is one simultaneous update |
| NeighborClassifier.JoinLists | filters/NeighborClassifierFilter.cpp:185-187 | lists of adjacent ranges join to the list of both |
| NeighborClassifier.WholeList | filters/NeighborClassifierFilter.cpp:185-187 | assigning pair by pair collects exactly the listed changes |
| GpsTime.RecoversIff | filters/GpsTimeConvert.cpp:221-245 | a run is recovered up to one shift by whole periods if and only if every value follows its predecessor within the tolerance or lies in the first period |
| GpsTime.AscendingRecovered | filters/GpsTimeConvert.cpp:221-245 | true times that do not decrease and have gaps below a period less the tolerance are recovered |
| GpsTime.FallingBackFails | filters/GpsTimeConvert.cpp:221-232 | recovery fails for every pair of times of one period that falls back by more than the tolerance |
| GpsTime.LongGapFails | filters/GpsTimeConvert.cpp:221-232 | recovery fails for every pair of times whose gap reaches a period less the tolerance, if they lie in different periods |
| GpsTime.LostWeeks | filters/GpsTimeConvert.cpp:221-232 | two inputs where week seconds are not recovered |
| GpsTime.RoundTrip | filters/GpsTimeConvert.cpp:221-310 | unwrap, add an offset, subtract it and wrap gives back every value of any run |
| GpsTime.ThereAndBack | filters/GpsTimeConvert.cpp:383-387 | a whole view of wrapped seconds, converted to GPS time by one filter and back by another with the same period start, is unchanged |
| GpsTime.UnwrapAdds | filters/GpsTimeConvert.cpp:221-232 | the loop adds k periods if and only if k is the least number that brings the time up to the last one less the tolerance |
| GpsTime.RunMeaning | filters/GpsTimeConvert.cpp:221-245 | every time of an unwrapped run gains the least number of periods that keeps it from falling back by more than the tolerance |
| GpsTime.WrapRemoves | filters/GpsTimeConvert.cpp:247-255 | wrapping takes any number of whole periods off a time of the first period |
| GpsTime.WrapMeaning | filters/GpsTimeConvert.cpp:247-265 | wrapping takes whole periods off until less than one is left, and never goes below zero by it |
| GpsTime.GpsTimeConvert.UnwrapSeconds | filters/GpsTimeConvert.cpp:221-245 | the loop ends with the unwrapped time in place and remembered as the last one; no other time changes |
| GpsTime.GpsTimeConvert.WrapSeconds | filters/GpsTimeConvert.cpp:247-265 | the loop ends with the wrapped time in place; no other time changes |
| GpsTime.GpsTimeConvert.ProcessOne | filters/GpsTimeConvert.cpp:322-373 | for all sixteen pairs of time types, the new time and the state carried to the next point |
| GpsTime.GpsTimeConvert.FilterUnwrapping | filters/GpsTimeConvert.cpp:383-387 | a whole view of wrapped seconds becomes the unwrapped run plus the offset: the first time gains nothing, every other the least number of weeks of 604800 or days of 86400 seconds with which it does not fall back by more than the tolerance |
| GpsTime.GpsTimeConvert.FilterWrapping | filters/GpsTimeConvert.cpp:383-387 | a whole view of GPS times loses one offset, taken at the first point, and whole weeks or days until less than one is left |
| LiTree.LiTreeFilter.Filter | filters/LiTreeFilter.cpp:272-298 | the run terminates and is a chain of steps from all points, each from the first highest point left; trees are numbered from 1, no point is in two, every tree has the minimum size, no point higher than its top and none 10 units away from it or more; points outside the trees keep the id they came with; what is left is too few or too low |
| LiTree.IdsNameTrees | filters/LiTreeFilter.cpp:259-263 | a point that came without a positive id has id k exactly if it belongs to the k-th tree |
| LiTree.LiTreeFilter.SegmentTree | filters/LiTreeFilter.cpp:200-270 | with a farthest point within the radius as the dummy: a top that is this point itself is dropped alone, otherwise the points are divided by the rule of DivisionRule, the tree is labelled exactly if large enough and the rest is left in order; either way the points left are fewer and the top is gone |
| LiTree.LiTreeFilter.Classify | filters/LiTreeFilter.cpp:219-253 | the loop leaves target tree and rest as the recursive division of the points does, so every point joins the tree by the rule of DivisionRule |
| LiTree.LiTreeFilter.Label | filters/LiTreeFilter.cpp:259-263 | exactly the points of the tree get its number |
| LiTree.ClassifyPoint | filters/LiTreeFilter.cpp:153-198 | a point joins the tree exactly if it is no farther from it than from the rest and, as a local maximum, within the reach for its height |
| LiTree.DivisionRule | filters/LiTreeFilter.cpp:153-253 | a point other than top and dummy is in the tree exactly if it is less than 10 from the top, some tree point before it is at least as near as every such point of the rest and, for a local maximum, some such tree point is within 1.5, or 2 above a height of 15; all distances written out |
| LiTree.DivisionOrder | filters/LiTreeFilter.cpp:219-253 | tree and rest list their points in the order they came in, behind the top and the dummy |
| LiTree.DivisionOutcome | filters/LiTreeFilter.cpp:200-270 | so the division meets what SegmentTree promises of one step |
| LiTree.DivisionSplits | filters/LiTreeFilter.cpp:219-253 | tree and rest share the remaining points: none is lost or in both, the top is in one and the dummy point in the other |
| LiTree.DivisionNear | filters/LiTreeFilter.cpp:243-252 | no point of a tree is 10 units away from its top or more |
| LiTree.LocateDummyPoint | filters/LiTreeFilter.cpp:107-120 | a remaining point within the radius of the top, and none within it is farther |
| LiTree.IsolatedTop | filters/LiTreeFilter.cpp:226-231 | a top can be dropped if and only if every remaining point within the radius has its position |
| LiTree.TopsDescend | filters/LiTreeFilter.cpp:284-297 | later trees have no higher tops |
| LiTree.AddTree | filters/LiTreeFilter.cpp:259-264 | labelling a tree of remaining points with the next number keeps all that holds of the trees before |
| LiTree.RestAfterTree | filters/LiTreeFilter.cpp:259-269 | the rest after a tree is still unlabelled, and no higher than the tops so far |
| LiTree.LocateHighestPoint | filters/LiTreeFilter.cpp:84-105 | the first of the highest remaining points: none is higher, and none before it is as high |
| LiTree.ComputeLocalMax | filters/LiTreeFilter.cpp:122-151 | a point is marked exactly if none of its neighbours is higher |
| Decimation.DecimationFilter.Stream | filters/DecimationFilter.cpp:79-91 | a streamed view keeps exactly the points below its end and the limit that are the offset and k steps, rounded to the nearest index with halves up, for some k |
| Decimation.DecimationFilter.ProcessOne | filters/DecimationFilter.cpp:79-91 | a point is kept exactly if it is the next target and below the limit, for every offset and step |
| Decimation.DecimationFilter.Decimate | filters/DecimationFilter.cpp:94-102 | the kept indices increase strictly, lie between offset and end, and are the offset and k steps, rounded to the nearest index, for the first k; their number is the quotient of the range by the step, rounded likewise |
| Decimation.StreamCount | filters/DecimationFilter.cpp:79-102 | streaming keeps what batch mode keeps, and exactly one point more if the next target lies below the end |
| Decimation.BatchIsPrefix | filters/DecimationFilter.cpp:79-102 | the points that batch mode keeps are a prefix of those that streaming keeps, which is at most one longer |
| Decimation.BatchAgainstStream | filters/DecimationFilter.cpp:94-102 | batch mode stays in range, and at most one target below the end is missing |
| Decimation.BatchInRange | filters/DecimationFilter.cpp:94-102 | the first targets, as many as batch mode counts, increase strictly and lie between offset and end |
| Decimation.TargetsIncrease | filters/DecimationFilter.cpp:84-101 | rounded targets increase by at least one per point for every step of at least 1 |
| Decimation.CountBelowUnique | filters/DecimationFilter.cpp:79-91 | how many targets lie below an end is determined |
| Decimation.TargetNearest | filters/DecimationFilter.cpp:84-101 | the k-th target is the one index nearest to the offset and k steps, the greater one for halves |
| Moments.MeanNext | filters/OutlierFilter.cpp:152-154 | the recurrence for the mean agrees with the mean of all values |
| Moments.CoMomentNext | filters/OptimalNeighborhoodFilter.cpp:98-111 | adding s * dx * dy, with deviations from the old means, gives the sum of products of deviations from the new means |
| Moments.Flatten | filters/OptimalNeighborhoodFilter.cpp:105-111 | the co-moment is the sum of products less n times the product of the means |
| OptimalNeighborhood.AddNeighbor | filters/OptimalNeighborhoodFilter.cpp:96-111 | after one neighbour more the running means and all nine matrix entries equal the batch means and co-moments of the neighbours so far |
| OptimalNeighborhood.Optimize | filters/OptimalNeighborhoodFilter.cpp:85-159 | across both loops the entropy at every size is that of the sample covariance of the nearest neighbours, written as sums of products of deviations from the means by one less than their number, and the size found is the first with the least entropy; a failing decomposition stops the search |
| OptimalNeighborhood.SampleCovarianceMeaning | filters/OptimalNeighborhoodFilter.cpp:96-125 | all nine entries of the matrix are such sums |
| OptimalNeighborhood.Filter | filters/OptimalNeighborhoodFilter.cpp:73-164 | every row before the first failure holds the first size of the least entropy of its neighbours, taken from the view, and the root of that neighbour's squared distance; later rows are untouched |
| OptimalNeighborhood.OptimalNext | filters/OptimalNeighborhoodFilter.cpp:153-158 | comparing with the least entropy so far keeps the first optimum |
| OptimalNeighborhood.OptimalUnique | filters/OptimalNeighborhoodFilter.cpp:153-158 | there is one optimal size |
| OptimalNeighborhood.ScatterNext | filters/OptimalNeighborhoodFilter.cpp:105-111 | the six updates, with deviations from the old means, give the co-moments of one point more, and the matrix is symmetric |
| Outlier.RowMean | filters/OutlierFilter.cpp:133-139 | the running mean of a row is the mean of its neighbour distances, without the row itself |
| Outlier.MeanRows | filters/OutlierFilter.cpp:125-143 | with any number of workers in any order, every row ends with its mean neighbour distance |
| Outlier.OnlineMoments | filters/OutlierFilter.cpp:145-156 | the single pass gives the mean and the sum of squared deviations from it |
| Outlier.ProcessStatistical | filters/OutlierFilter.cpp:99-172 | inliers and outliers are in row order and partition the rows; a row is an inlier exactly if its mean distance is below mean plus multiplier times sample deviation |
| Outlier.Run | filters/OutlierFilter.cpp:174-229 | for two rows or more: with the means of the root distances, their mean and the root of the sum of squared deviations by n - 1, a row is marked exactly if its mean reaches mean plus multiplier times deviation and another row is below; a single row is not marked; for a multiplier that is not negative at most (n - 1) / multiplier^2 of the n rows are marked, whatever they are |
| Outlier.MarkedMeaning | filters/OutlierFilter.cpp:125-169 | the marked rows of the specification are these, with all statistics written as sums |
| Outlier.SomeInlierIff | filters/OutlierFilter.cpp:157-205 | for a multiplier that is not negative, there is an inlier if and only if the rows do not all have the same mean distance |
| Outlier.FewOutliers | filters/OutlierFilter.cpp:157-205 | for a multiplier that is not negative: if there is an inlier, at most (n - 1) / multiplier^2 rows are outliers, however the points lie |
| Outlier.FewMarked | filters/OutlierFilter.cpp:157-214 | for a multiplier that is not negative the bound holds for the marked rows of every view that is not empty |
| Dispersion.FarRows | filters/OutlierFilter.cpp:145-169 | squared deviations are at least those of any set of positions a given reach above the centre |

## Left out

* Rounding, overflow and NaN of doubles, except what division by zero does in `Visibility` and which quotients
  are no number in `Outlier` and `OptimalNeighborhood`.
* KD-trees, square roots of distances, eigen decompositions and calendar functions: their results are inputs.
  Radius searches are any symmetric relation for `Dbscan` and any lists of rows elsewhere.
* Views, layouts and metadata: a view is the sequence of the coordinates or classes that a filter reads, an
  output view is the list of the rows appended to it, and packed point data is not part of this model.
* Options, logging and the reuse of a filter object for several views, where `m_kept`, `m_lastTime` or
  `newClass` keep values of the view before.
* Integer widths other than the 32-bit codes of the Morton filter: identifiers, counters and labels are
  unbounded.
* The radius method of `filters.outlier`, which compares one count with a bound for every row.
* Thread scheduling beyond the order in which workers finish: a worker runs at one time, which shows as long as
  each writes only its own rows or list. Exceptions of workers are not part of this model.
* Other filters, the command line, the readers and writers, and the accelerated engine that the benchmarks call.
- Chipper.ChipperFilter.Run: asks for a view that is not empty and a positive capacity, because the code indexes and divides by zero without them.
- GreedyFront.GreedyProjection.Filter: does not state that every fringe vertex is queued or that neighbour links are consistent, because a flag that outlives its fringe vertex can leave links unset; one test of the source assigns where it should compare (line 1676), and its effect is kept. The neighbours that a search returns are distinct.
- GreedyFront.GreedyProjection.ProcessFringe: visibility, sorting by angle, gaps and skinny triangles are geometry and come in as one of four sights of the vertex; the way around it is any list of distinct vertices between its two fringe neighbours.
- MortonOrder.Morton: asks for bounds with a positive extent in X and in Y, because the scaling divides by both.
- MortonOrder.ReverseMortonOrder: asks the same, and a number of points whose root fits a 32-bit integer.
- NearestList.InfoFilter.Filter: does not model how a query is parsed or reported.
- NeighborClassifier.NeighborClassifierFilter.Filter: the candidate file is a list of classes, and whether a point passes a range of the domain is an input.
- GpsTime.GpsTimeConvert.ProcessOne: the start of the week and of the day come in as numbers, and the lowest double as "no time yet".
- LiTree.LiTreeFilter.SegmentTree: a radius search returns nearest points first, and which of several farthest points comes last is left open; the radius must not be zero, because the search would then return nothing.
- Decimation.DecimationFilter.Decimate: asks for an offset within the limit and the view, because the unsigned difference wraps around without it; a step below 1 is refused when the filter is set up.
- OptimalNeighborhood.Optimize: asks for a positive minimum that exceeds the maximum by at most one, because the loops run past the neighbour lists without it.
