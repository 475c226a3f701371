# Verified models of openGauss contrib modules

This project models the logic of seven contrib components of openGauss in Dafny and proves what they are
for: the two compilations of the Levenshtein distance, the GiST support functions of btree_gist (bytea and
int4 keys) and of cube, the hstore binary formats and their checksum, the analysis that decides which
expressions a foreign scan may send to a remote server, and the session buffer of gms_output.

Check everything with `dafny verify dfyconfig.toml`.

| files | what they hold |
|---|---|
| `EditDistance`, `BandedRun`, `Multibyte`, `Levenshtein` | the matrix and its scripts, the banded run as a function and when it is right, characters in bytes, the loops over two rows |
| `ByteOrder`, `VarKeys`, `VarIndex`, `VarLayout` | byte order and cuts, bytea keys, trees of them, their memory image |
| `NumIndex` | int4 keys, trees of them, distance |
| `Cube`, `CubeOrder`, `CubeIndex` | boxes with zero padding, the comparison order, trees and Guttman's split |
| `Gist` | trees and searches shared by the three index families |
| `Hstore`, `HstoreBuild`, `HstoreUpgrade` | layout and accessors, the build macros, the old format and its rewrite |
| `Crc32` | the table-driven checksum and bit-by-bit division |
| `Collation` | the expression walk and its join |
| `LineQueue`, `OutputBuffer` | the queue of lines that callers see, and the byte buffer that refines it |
| `Bytes`, `Words`, `Options` | bytes, little-endian words, optional values |

## What the proofs found

- The bounded Levenshtein run reads no entry before it is written, whatever the charges and the bound, and
  equals the unbounded run up to its bound, for strings of every length in any encoding, exactly for these
  charges: none is negative, or neither insertion nor deletion costs anything, or the lesser of a
  substitution and of one insertion plus one deletion is free (`BandedExactIff`). For all other charges two
  strings of at most two characters get a wrong answer: the shortcut on lengths claims too much
  (`LengthsMislead`), or a placeholder next to the band is taken for a distance
  (`NegativeInsertionMisleads`, `NegativeDeletionMisleads`).
- Splitting an inner page of bytea keys can lose leaves: both sides are cut at the longer of two common
  prefixes, which may undo the room that an earlier, shorter cut had left (`InnerSplitLosesLeaf` has four
  pages). `SplitSearchIff` says exactly when searches still find everything; leaf pages always qualify.
- cube's comparison is a total order at one dimension, but three boxes go round in a circle whenever two
  different positive dimensions meet (`TransitiveIff`).
- cube's contained-by can turn away a stored box exactly when the query excludes zero in a dimension the
  box lacks (`ContainedByIff`); `ContainedByExample` has a page on which it does.
- A valid old-format hstore passes through unconverted exactly when it is shorter than 32768 bytes and its
  first value length has its top bit set; its first value is then null, and the new format reads a value
  that is not, of one byte less than the length it gives the key, even if that is negative
  (`OldPassesThroughIff`; `StaleLengthMisread` has 17 bytes that are misread).
- The waste by which cube picks the seeds of a split is nothing for any two points, since crossed corners
  are taken at their absolute size; a page of points always has its first two entries as seeds
  (`PointsWasteNothing`, `PointSeeds`).
- A new-format hstore that passes its checks reads as a list of pairs, but its first key may be marked as
  null (`NewOkIff`, `NullKeyPasses`).
- cube's intersection is the greatest common box exactly if the boxes overlap; otherwise it is not inside
  both (`InterIsMeetIff`).

## Model

| member | source | states |
|---|---|---|
| `EditDistance.DistanceIsLeastCost` | contrib/fuzzystrmatch/levenshtein.cpp:37-41 | the last matrix cell is the least cost over all left-to-right edit scripts turning s into t, and the only such number, for charges of any sign |
| `EditDistance.NoCheaperScript` | contrib/fuzzystrmatch/levenshtein.cpp:37-41 | no script turning a prefix of s into a prefix of t costs less than the cell for those prefixes |
| `EditDistance.CheapestScript` | contrib/fuzzystrmatch/levenshtein.cpp:37-41 | every cell is the cost of some script |
| `EditDistance.EdgeCell` | contrib/fuzzystrmatch/levenshtein.cpp:108-115 | the edges of the matrix are multiples of one insertion or one deletion |
| `EditDistance.ShorterSource` | contrib/fuzzystrmatch/levenshtein.cpp:215-220 | dropping a character of s saves at most one insertion |
| `EditDistance.ShorterTarget` | contrib/fuzzystrmatch/levenshtein.cpp:215-220 | dropping a character of t saves at most one deletion |
| `EditDistance.DiagonalGrows` | contrib/fuzzystrmatch/levenshtein.cpp:215-220 | at best values percolate down a diagonal unchanged; they never fall |
| `EditDistance.ResidualConsistent` | contrib/fuzzystrmatch/levenshtein.cpp:49-61 | no step of the matrix lowers the residual distance by more than it charges |
| `EditDistance.TheoreticalBounds` | contrib/fuzzystrmatch/levenshtein.cpp:142-149 | the distance lies between the theoretical minimum and the theoretical maximum, whenever neither a substitution nor one insertion plus one deletion is rewarded |
| `EditDistance.CheaperSubstitution` | contrib/fuzzystrmatch/levenshtein.cpp:145-146 | lowering the substitution charge to one insertion plus one deletion changes no cell, for charges of any sign |
| `EditDistance.FirstRowBeyond` | contrib/fuzzystrmatch/levenshtein.cpp:150-169 | from the column where the lengths agree on, a column of the first row lies on no path within the bound exactly if it is beyond the initial stop column |
| `EditDistance.LiveFromAbove` | contrib/fuzzystrmatch/levenshtein.cpp:215-225 | a column that matters in one row mattered one column to the left, or at the left edge, in the row above |
| `EditDistance.LastRow` | contrib/fuzzystrmatch/levenshtein.cpp:318-360 | if any cell of the last row is within the bound, the last one is |
| `EditDistance.StandsStep` | contrib/fuzzystrmatch/levenshtein.cpp:264-276 | the recurrence keeps stored values exact where a cell matters and harmless elsewhere |
| `EditDistance.StandsTest` | contrib/fuzzystrmatch/levenshtein.cpp:329-345 | a stored value passes the pruning test exactly when its cell can still lie on a path within the bound |
| `BandedRun.FillEntries` | contrib/fuzzystrmatch/levenshtein.cpp:243-299 | every column in range obeys the recurrence over written entries, and no other changes |
| `BandedRun.Narrowed` | contrib/fuzzystrmatch/levenshtein.cpp:318-361 | sliding never closes the band left of the column where the rests of the strings are equally long, unless its ends cross |
| `BandedRun.Turn` | contrib/fuzzystrmatch/levenshtein.cpp:209-361 | for charges of any sign, all that later rows read is written, and the band reaches far enough right |
| `BandedRun.RestDone` | contrib/fuzzystrmatch/levenshtein.cpp:365-369 | so the answer is read from an entry that has been written |
| `BandedRun.BandMoves` | contrib/fuzzystrmatch/levenshtein.cpp:215-225 | live columns of the next row stay within the band widened by one |
| `BandedRun.OpenedHolds` | contrib/fuzzystrmatch/levenshtein.cpp:214-241 | the column added on the right and the left edge are harmless, and the live columns inside |
| `BandedRun.FillHolds` | contrib/fuzzystrmatch/levenshtein.cpp:243-299 | the columns filled all stand for their cells |
| `BandedRun.PassesIffLive` | contrib/fuzzystrmatch/levenshtein.cpp:329-345 | the ends of the band pass dead columns only |
| `BandedRun.NarrowedHolds` | contrib/fuzzystrmatch/levenshtein.cpp:318-361 | after sliding, all live columns lie in the band, or none exists and the ends have met |
| `BandedRun.TurnKeeps` | contrib/fuzzystrmatch/levenshtein.cpp:209-361 | every row keeps the band invariant: live columns inside and exact, all other readable entries harmless |
| `BandedRun.NothingLeft` | contrib/fuzzystrmatch/levenshtein.cpp:358-360 | a row without live cells means the bound is exceeded |
| `BandedRun.AnswerInLastColumn` | contrib/fuzzystrmatch/levenshtein.cpp:365-369 | a band still open after the last row holds the distance in its last entry |
| `BandedRun.RestExact` | contrib/fuzzystrmatch/levenshtein.cpp:208-369 | from any row on, the loop ends with the distance within the bound and bound + 1 beyond it |
| `BandedRun.FirstStopSound` | contrib/fuzzystrmatch/levenshtein.cpp:150-169 | the initial stop column drops exactly those columns |
| `BandedRun.SetUpSound` | contrib/fuzzystrmatch/levenshtein.cpp:126-170 | the set-up shortcuts are sound for all safe charges: a decided answer is over the bound, the distance is kept, a dropped bound could not be exceeded |
| `BandedRun.LengthShortcutIff` | contrib/fuzzystrmatch/levenshtein.cpp:142-144 | the shortcut on lengths is right on all strings exactly if nothing has to be paid or neither a substitution nor one insertion plus one deletion is rewarded |
| `BandedRun.LengthsMislead` | contrib/fuzzystrmatch/levenshtein.cpp:142-144 | for all other charges, two strings and a bound for which it claims too much |
| `BandedRun.BandedExact` | contrib/fuzzystrmatch/levenshtein.cpp:63-369 | for safe charges the bounded run gives the distance up to the bound and bound + 1 beyond it |
| `BandedRun.NegativeInsertionMisleads` | contrib/fuzzystrmatch/levenshtein.cpp:221-225 | with a rewarded insertion, the entry written ahead of the band can come down as a distance |
| `BandedRun.NegativeDeletionMisleads` | contrib/fuzzystrmatch/levenshtein.cpp:347-352 | with a rewarded deletion, the entry spoilt behind the band can come along as a distance |
| `BandedRun.BandedExactIff` | contrib/fuzzystrmatch/levenshtein.cpp:63-369 | the bounded run agrees with the unbounded one on all strings and bounds exactly for safe charges |
| `Multibyte.CharAt` | contrib/fuzzystrmatch/levenshtein.cpp:184-190 | walking by pg_mblen reaches every character at its bytes |
| `Multibyte.SingleBytes` | contrib/fuzzystrmatch/levenshtein.cpp:173-181 | as many characters as bytes means every character is the byte at its own index |
| `Multibyte.RestOfCharSame` | contrib/fuzzystrmatch/fuzzystrmatch.cpp:163-171 | true exactly for equal bytes |
| `Multibyte.CacheLengths` | contrib/fuzzystrmatch/levenshtein.cpp:181-191 | the cache holds every character's length and a closing zero |
| `Levenshtein.Strings.SameChar` | contrib/fuzzystrmatch/levenshtein.cpp:257-272 | the fast path and the multibyte path both decide equality of characters |
| `Levenshtein.Strings.TargetLength` | contrib/fuzzystrmatch/levenshtein.cpp:209-212 | the length of the current character of t, on either path |
| `Levenshtein.Strings.Advance` | contrib/fuzzystrmatch/levenshtein.cpp:353-354 | how far the pointer into s moves past a character |
| `Levenshtein.FillRow` | contrib/fuzzystrmatch/levenshtein.cpp:243-299 | the inner loop, on either path, fills a row by the recurrence over characters |
| `Levenshtein.FirstRow` | contrib/fuzzystrmatch/levenshtein.cpp:193-206 | the first row holds deletions up to the stop column and nothing beyond |
| `Levenshtein.RunFull` | contrib/fuzzystrmatch/levenshtein.cpp:193-307 | two swapped rows end at the distance |
| `Levenshtein.FullDistance` | contrib/fuzzystrmatch/levenshtein.cpp:63-115 | the unbounded run returns the least script cost for strings of every length |
| `Levenshtein.OpenRow` | contrib/fuzzystrmatch/levenshtein.cpp:214-241 | one more column on the right, and the left edge |
| `Levenshtein.SlideStop` | contrib/fuzzystrmatch/levenshtein.cpp:329-337 | the stop column halts behind the last entry that passes the test |
| `Levenshtein.SlideStart` | contrib/fuzzystrmatch/levenshtein.cpp:339-356 | the start column halts at the first entry that passes, having spoilt the others in both rows, with the pointer into s in step |
| `Levenshtein.NextRow` | contrib/fuzzystrmatch/levenshtein.cpp:209-361 | one turn of the outer loop, for charges of any sign |
| `Levenshtein.Shortcuts` | contrib/fuzzystrmatch/levenshtein.cpp:126-170 | the set-up shortcuts, for charges of any sign |
| `Levenshtein.InitialStop` | contrib/fuzzystrmatch/levenshtein.cpp:150-169 | the initial stop column |
| `Levenshtein.RunBand` | contrib/fuzzystrmatch/levenshtein.cpp:193-369 | the outer loop; never reads an entry before it is written |
| `Levenshtein.BandedDistance` | contrib/fuzzystrmatch/levenshtein.cpp:63-369 | the banded run for charges of any sign; for safe ones exact up to the bound and bound + 1 beyond; exact for all without a bound or for an empty string |
| `Levenshtein.LevenshteinInternal` | contrib/fuzzystrmatch/levenshtein.cpp:63-124 | least script cost, or an error exactly for two non-empty strings of which one exceeds 255 characters |
| `Levenshtein.LevenshteinLessEqualInternal` | contrib/fuzzystrmatch/levenshtein.cpp:63-370 | as above for safe charges, with an answer over the bound only when every script costs more than the bound; for all charges without a bound or for an empty string |
| `Gist.SplitConserves` | contrib/btree_gist/btree_utils_var.cpp:410-442 | any partition of the offsets of a page keeps the values below it, each as often as before |
| `ByteOrder.LtIff` | contrib/btree_gist/btree_bytea.cpp:55-58 | a proper prefix comes first, otherwise the smaller byte at the first difference |
| `VarLayout.CopyReadsBack` | contrib/btree_gist/btree_utils_var.cpp:50-79 | a copied key reads back as itself, forced nodes as nodes with equal bounds |
| `VarLayout.ReadsOneKey` | contrib/btree_gist/btree_utils_var.cpp:50-62 | no image reads as two keys; leaf and node images are never confused |
| `VarKeys.NodeCpLen` | contrib/btree_gist/btree_utils_var.cpp:94-128 | the common prefix length of a node key |
| `VarKeys.LeafAdmits` | contrib/btree_gist/btree_utils_var.cpp:228-247 | a leaf key stands for its value and nothing else |
| `VarKeys.BinUnionBounds` | contrib/btree_gist/btree_utils_var.cpp:188-226 | the union of two keys encloses both and takes each bound from one of them |
| `VarKeys.HullBounds` | contrib/btree_gist/btree_utils_var.cpp:249-266 | the accumulated key is the tightest interval around all entries |
| `VarKeys.CutAdmits` | contrib/btree_gist/btree_utils_var.cpp:158-186 | a cut key that undoes no earlier cut still stands for every leaf of every entry |
| `VarKeys.CutLosesNothingIff` | contrib/btree_gist/btree_utils_var.cpp:158-186 | cutting a hull past its common prefix loses no leaf exactly when the cut is safe |
| `VarKeys.CutSearchIff` | contrib/btree_gist/btree_utils_var.cpp:450-500 | searches find everything through a cut key exactly when the cut is safe or its lower bound is a prefix of its upper |
| `VarKeys.UnionIsSafe` | contrib/btree_gist/btree_utils_var.cpp:268-277 | two bytes past the common prefix is a safe cut however often the entries were cut before |
| `VarKeys.CutHull` | contrib/btree_gist/btree_utils_var.cpp:162-186 | a safe cut keeps bounds ordered, and equal only if they were |
| `VarKeys.CutKeyIff` | contrib/btree_gist/btree_utils_var.cpp:162-186 | a cut key is exactly the two bounds shortened to the width, none longer than it and none shorter without need; it keeps the common prefix |
| `VarKeys.Union` | contrib/btree_gist/btree_utils_var.cpp:249-280 | the union key stands for every leaf that any entry stands for; its bounds are those of the entries cut exactly two bytes past its own common prefix |
| `VarKeys.LeafTestExact` | contrib/btree_gist/btree_utils_var.cpp:450-500 | at a leaf the test is the operator itself, for all strategies |
| `VarKeys.NodeTestSound` | contrib/btree_gist/btree_utils_var.cpp:450-500 | at a node no leaf that satisfies the query is turned away, for all six strategies |
| `VarKeys.NodeTestIff` | contrib/btree_gist/btree_utils_var.cpp:450-500 | exactly which nodes are entered, in terms of order and prefixes |
| `VarIndex.IndexAgreesWithScan` | contrib/btree_gist/btree_utils_var.cpp:447-500 | an index scan returns exactly what a full scan would, in any tree whose keys stand for what is below |
| `VarIndex.BuiltByUnionIsSound` | contrib/btree_gist/btree_utils_var.cpp:249-280 | trees whose page keys are unions of leaf keys or of already cut keys are such trees |
| `VarIndex.UnionPageSound` | contrib/btree_gist/btree_utils_var.cpp:249-280 | keying a page by the union of its entries keeps a tree searchable |
| `VarIndex.AdjustedPageSound` | contrib/btree_gist/btree_utils_var.cpp:249-280 | widening a page key by a new or changed entry keeps a tree searchable |
| `VarIndex.PickSplit` | contrib/btree_gist/btree_utils_var.cpp:370-445 | every offset on exactly one side, halves by lower and then by upper bound, both keys cut exactly two bytes past the longer of their common prefixes |
| `VarIndex.LeafSplitSound` | contrib/btree_gist/btree_utils_var.cpp:414-442 | splitting a leaf page keeps both sides searchable; cut bounds are equal only if the whole ones were |
| `VarIndex.SplitSideSound` | contrib/btree_gist/btree_utils_var.cpp:414-442 | the same for any page whose common width is a safe cut |
| `VarIndex.SplitPage` | contrib/btree_gist/btree_utils_var.cpp:370-445 | a split neither loses nor repeats a value; for a leaf page, or safe cuts, both new pages are sound |
| `VarIndex.SplitSearchesAgree` | contrib/btree_gist/btree_utils_var.cpp:447-500 | searching both of them finds exactly what a scan of the old page would |
| `VarIndex.SplitSearchIff` | contrib/btree_gist/btree_utils_var.cpp:428-442 | exactly when searches still find everything on each side of a split |
| `VarIndex.ExamplePages` | contrib/btree_gist/btree_utils_var.cpp:268-277 | the four example pages carry union keys |
| `VarIndex.ExampleSorted` | contrib/btree_gist/btree_utils_var.cpp:410-412 | they are in key order as they stand |
| `VarIndex.ExampleSplit` | contrib/btree_gist/btree_utils_var.cpp:435-439 | the key that splitting above them gives the left page |
| `VarIndex.InnerSplitLosesLeaf` | contrib/btree_gist/btree_utils_var.cpp:435-439 | that key turns away an equality search for a value stored below it |
| `NumIndex.Union` | contrib/btree_gist/btree_utils_num.cpp:90-115 | exactly the least lower and the greatest upper bound of the entries |
| `NumIndex.HullOfMore` | contrib/btree_gist/btree_utils_num.cpp:136-158 | adding an entry keeps that |
| `NumIndex.UnionPageSound` | contrib/btree_gist/btree_utils_num.cpp:90-115 | keying a page by the union of sound entries keeps a tree searchable |
| `NumIndex.BuiltByUnionIsSound` | contrib/btree_gist/btree_utils_num.cpp:90-115 | in a tree of unions every key contains all values below it |
| `NumIndex.AdjustedPageSound` | contrib/btree_gist/btree_utils_num.cpp:136-158 | widening a page key by a new or changed entry keeps that |
| `NumIndex.IndexAgreesWithScan` | contrib/btree_gist/btree_utils_num.cpp:166-204 | descending by the consistent test returns exactly the leaves a full scan would, for all six strategies |
| `NumIndex.NodeTestIff` | contrib/btree_gist/btree_utils_num.cpp:166-204 | exactly which pages are entered: those with a satisfying value in their interval, and for the strict comparisons those that touch the query |
| `NumIndex.DistanceBounds` | contrib/btree_gist/btree_utils_num.cpp:210-224 | a page's distance never exceeds that of a value below it, and is exact at a leaf |
| `NumIndex.DistanceTight` | contrib/btree_gist/btree_utils_num.cpp:210-224 | some value of the interval is exactly that far away |
| `NumIndex.PickSplit` | contrib/btree_gist/btree_utils_num.cpp:226-264 | floor and ceiling halves by lower and then by upper bound, each key exactly the bounds of its side |
| `NumIndex.SplitPage` | contrib/btree_gist/btree_utils_num.cpp:226-264 | splitting any page leaves two sound pages that together hold exactly its values |
| `Cube.Union` | contrib/cube/cube.cpp:653-696 | the least box within which both arguments lie, absent dimensions being zero |
| `Cube.UnionLattice` | contrib/cube/cube.cpp:653-696 | commutative and associative at any mix of dimensions |
| `Cube.UnionAll` | contrib/cube/cube.cpp:359-383 | the least box around two or more entries; nothing for a single one |
| `Cube.InterIsMeetIff` | contrib/cube/cube.cpp:712-770 | the greatest box inside both, absent dimensions being zero, exactly if the boxes overlap; otherwise not inside both |
| `Cube.Intersection` | contrib/cube/cube.cpp:712-770 | the loop computes that box |
| `Cube.Size` | contrib/cube/cube.cpp:787-799 | the product of all side lengths |
| `Cube.VolumeUnit` | contrib/cube/cube.cpp:787-799 | one for a unit box |
| `Cube.VolumeAdds` | contrib/cube/cube.cpp:787-799 | adds up where a box is cut across a dimension |
| `Cube.Contains` | contrib/cube/cube.cpp:956-986 | containment in every dimension of the second box, whatever else the first has |
| `Cube.Overlap` | contrib/cube/cube.cpp:1016-1052 | the intervals meet in every dimension of either box |
| `Cube.ContainsIff` | contrib/cube/cube.cpp:956-986 | containment means that some box inside the first agrees with the second in its dimensions; being inside it, if the first has no more of them |
| `Cube.OverlapIff` | contrib/cube/cube.cpp:1016-1052 | overlap means that some box lies inside both |
| `CubeOrder.CubeCmp` | contrib/cube/cube.cpp:803-868 | -1 and 1 exactly for the lexicographic order of lower, then upper ends, common dimensions before the others and the number of dimensions last; zero exactly for the same dimension and the same intervals |
| `CubeOrder.BeforeIff` | contrib/cube/cube.cpp:803-868 | the first difference in that order decides, and the smaller end comes first |
| `CubeOrder.CompareAntisymmetric` | contrib/cube/cube.cpp:803-868 | swapping the boxes swaps the sign at any dimensions |
| `CubeOrder.CompareZeroNormal` | contrib/cube/cube.cpp:803-868 | on corner-normalised boxes zero means equality |
| `CubeOrder.CompareTransitive` | contrib/cube/cube.cpp:803-868 | transitive among boxes of one dimension, points of dimension zero included |
| `CubeOrder.CompareCycle` | contrib/cube/cube.cpp:803-868 | for any two different positive dimensions, three boxes each below the next |
| `CubeOrder.TransitiveIff` | contrib/cube/cube.cpp:803-868 | transitive on a set of dimensions exactly if at most one of them is positive |
| `CubeIndex.LeafConsistent` | contrib/cube/cube.cpp:588-614 | the leaf test is the operator itself |
| `CubeIndex.InternalConsistent` | contrib/cube/cube.cpp:616-640 | overlap or containment of the page box, by strategy |
| `CubeIndex.InnerTestSound` | contrib/cube/cube.cpp:324-329 | no page over a matching box is turned away, for contained-by under its condition |
| `CubeIndex.InnerTestIff` | contrib/cube/cube.cpp:616-640 | exactly which pages are entered: those that may stand for a matching box, for contained-by under its condition |
| `CubeIndex.SameTestIff` | contrib/cube/cube.cpp:616-640 | for sameness, at equal dimension, those that may stand for an equal box |
| `CubeIndex.ContainedByIff` | contrib/cube/cube.cpp:632-635 | for contained-by, exactly when every page over a matching box is entered |
| `CubeIndex.ContainedByMisses` | contrib/cube/cube.cpp:632-635 | otherwise a page of union keys under which a search finds nothing and a scan finds the box |
| `CubeIndex.ContainedByExample` | contrib/cube/cube.cpp:632-635 | a box and a query for which this happens |
| `CubeIndex.UnionPageCovered` | contrib/cube/cube.cpp:359-383 | keying a page by the union of covered entries keeps it covered |
| `CubeIndex.BuiltByUnionIsCovered` | contrib/cube/cube.cpp:359-383 | in a tree of unions every page box encloses all boxes below it |
| `CubeIndex.IndexAgreesWithScan` | contrib/cube/cube.cpp:324-353 | an index scan returns exactly what a full scan would; for contained-by if the query contains zero wherever a matching box lacks a dimension |
| `CubeIndex.WasteOfOverlapping` | contrib/cube/cube.cpp:470-482 | for overlapping boxes, the size of the least box around both without that of the greatest inside both |
| `CubeIndex.PointsWasteNothing` | contrib/cube/cube.cpp:470-482 | two points waste nothing, however far apart |
| `CubeIndex.PickSeeds` | contrib/cube/cube.cpp:470-493 | the first pair of greatest waste among all entries but the last |
| `CubeIndex.PointSeeds` | contrib/cube/cube.cpp:470-493 | so on a page of points the seeds are always its first two entries |
| `CubeIndex.EnlargementIs` | contrib/cube/cube.cpp:536-547 | by how much the least box around the boxes dealt so far must grow to take one more |
| `CubeIndex.Distribute` | contrib/cube/cube.cpp:507-556 | every other box goes to the side that has to grow less, ties to the right |
| `CubeIndex.PickSplit` | contrib/cube/cube.cpp:436-563 | a partition into two non-empty increasing lists, each key the union of exactly its side |
| `CubeIndex.SplitPage` | contrib/cube/cube.cpp:436-563 | splitting any page leaves two covered pages that together hold exactly its boxes |
| `Hstore.PutU32` | contrib/hstore/hstore.h:18-20 | a word reads back, and no other byte changes |
| `Hstore.PackParts` | contrib/hstore/hstore.h:22-31 | flags and end position share an entry without disturbing each other |
| `Hstore.EncodedReadsBack` | contrib/hstore/hstore.h:73-78 | the accessors deliver every key, value and null of an encoded list |
| `Hstore.SampleEncoded` | contrib/hstore/hstore.h:18-31 | 27 bytes that are the image of a list of two pairs, one with null |
| `Hstore.EncodedWellFormed` | contrib/hstore/hstore_compat.cpp:128-153 | an encoded list with ascending keys passes all structural checks with exact length |
| `HstoreBuild.AddItem` | contrib/hstore/hstore.h:109-126 | extends a value under construction by one pair |
| `HstoreBuild.CopyItem` | contrib/hstore/hstore.h:94-103 | the same for a pair that lies in one piece elsewhere |
| `HstoreBuild.HStore.SetCount` | contrib/hstore/hstore.h:57-58 | the count reads back with the version flag set |
| `HstoreBuild.HStore.FixSize` | contrib/hstore/hstore.h:144-148 | the length follows from the last end position |
| `HstoreBuild.HStore.Finalize` | contrib/hstore/hstore.h:129-141 | a finished value with exact length, the text moved down if fewer pairs were added than reserved |
| `HstoreBuild.Build` | contrib/hstore/hstore_io.cpp:282-308 | any list of pairs within the position limit reads back as the same list |
| `HstoreUpgrade.ValidOldFormat` | contrib/hstore/hstore_compat.cpp:162-216 | non-zero exactly for a contiguous layout with ascending key lengths that fits; 2 means exact |
| `HstoreUpgrade.OldOkIff` | contrib/hstore/hstore_compat.cpp:162-216 | those values are exactly the images of lists of pairs in the old format |
| `HstoreUpgrade.ValidNewFormat` | contrib/hstore/hstore_compat.cpp:114-154 | non-zero exactly for flagged or empty values and for well-formed ones that fit; reads beyond the value exactly if its header announces more entries than lie in memory |
| `HstoreUpgrade.NewOkIff` | contrib/hstore/hstore_compat.cpp:114-154 | passing means exactly that no string has a negative length or ends beyond the value, no key is shorter than the one before, and none but the first can be marked null |
| `HstoreUpgrade.NewOkDecodes` | contrib/hstore/hstore_compat.cpp:134-148 | such a value reads as a list of pairs |
| `HstoreUpgrade.NullKeyPasses` | contrib/hstore/hstore_compat.cpp:143-148 | 17 bytes that pass with their only key marked as null |
| `HstoreUpgrade.OldPairsText` | contrib/hstore/hstore_compat.cpp:99-103 | the pairs of a valid old value lie end to end in its text |
| `HstoreUpgrade.RewriteSlot` | contrib/hstore/hstore_compat.cpp:310-322 | a slot becomes the two new entries of what it held |
| `HstoreUpgrade.Rewrite` | contrib/hstore/hstore_compat.cpp:304-322 | each slot is read before it is overwritten; the text is untouched |
| `HstoreUpgrade.Finish` | contrib/hstore/hstore_compat.cpp:324-327 | first flag, version flag and exact length complete the value |
| `HstoreUpgrade.Convert` | contrib/hstore/hstore_compat.cpp:296-328 | a valid old value becomes a finished new one of the same pairs over unchanged text |
| `HstoreUpgrade.Upgrade` | contrib/hstore/hstore_compat.cpp:221-331 | passes through, converts, flags or refuses, and leaves a shared value alone; or reads beyond the value |
| `HstoreUpgrade.OldStaysInside` | contrib/hstore/hstore_compat.cpp:228-234 | no valid old value makes it read beyond its memory |
| `HstoreUpgrade.ConvertedReadsBack` | contrib/hstore/hstore_compat.cpp:304-330 | a converted value reads back as the old pairs and is well-formed in the new format |
| `HstoreUpgrade.FinishedPassesThrough` | contrib/hstore/hstore_compat.cpp:228-230 | a converted value is never converted again |
| `HstoreUpgrade.OldPassesThroughIff` | contrib/hstore/hstore_compat.cpp:228-230 | exactly when a valid old value escapes conversion, and what lengths it is then misread with |
| `HstoreUpgrade.StaleLengthMisread` | contrib/hstore/hstore_compat.cpp:228-230 | 17 bytes of which this is true: a null becomes an empty string |
| `Crc32.TableAgrees` | contrib/hstore/crc32.cpp:26-283 | every table entry is its index after eight division steps |
| `Crc32.ShiftXor` | contrib/hstore/crc32.cpp:21-24 | a division step is linear over xor |
| `Crc32.Shift8Xor` | contrib/hstore/crc32.cpp:19-24 | so are eight |
| `Crc32.StepByTable` | contrib/hstore/crc32.cpp:19-19 | eight steps are one shift and one look-up |
| `Crc32.FeedByte` | contrib/hstore/crc32.cpp:19-19 | feeding a byte bit by bit is one look-up |
| `Crc32.Crc32Sz` | contrib/hstore/crc32.cpp:285-296 | the checksum of every buffer is its bit-by-bit CRC-32 |
| `Crc32.CheckValue` | contrib/hstore/crc32.cpp:285-296 | CBF43926 for the digits 1 to 9 |
| `Crc32.BurstDetected` | contrib/hstore/crc32.cpp:285-296 | buffers that differ only within four successive bytes never have the same checksum |
| `Collation.SafeFromColumn` | contrib/gauss_connector/deparse.cpp:64-71 | a safe collation reported for an expression is that of a foreign column inside it |
| `Collation.OwnFromColumn` | contrib/gauss_connector/deparse.cpp:266-658 | the same for the state of a single node |
| `Collation.AcceptedIsTraced` | contrib/gauss_connector/deparse.cpp:239-243 | every node that compares its inputs has a foreign column with that very collation among them |
| `Collation.SentIsTraced` | contrib/gauss_connector/deparse.cpp:195-232 | no expression is sent that compares inputs under a collation that no foreign column among them has, and a result marked safe has the collation of a foreign column |
| `Collation.WalkIff` | contrib/gauss_connector/deparse.cpp:245-707 | the walk accepts exactly the expressions of shippable parts in which every comparing node is brought its collation, and adds what they bring |
| `Collation.BringAllIff` | contrib/gauss_connector/deparse.cpp:555-576 | what a list brings, stated without an order |
| `Collation.SentIff` | contrib/gauss_connector/deparse.cpp:195-232 | an expression is sent exactly if the walk accepts it, it brings no conflict and has no mutable functions |
| `Collation.MergeIsJoin` | contrib/gauss_connector/deparse.cpp:668-703 | merging is the join of a lattice with the default collation below all others |
| `Collation.JoinLaws` | contrib/gauss_connector/deparse.cpp:668-703 | idempotent, commutative, associative |
| `Collation.WalkAllIsJoin` | contrib/gauss_connector/deparse.cpp:555-576 | a list is accepted exactly if all items are, and ends at the join of their levels |
| `Collation.ListOrderIrrelevant` | contrib/gauss_connector/deparse.cpp:555-576 | verdict, state and safe collation do not depend on the order of list items |
| `Collation.ArgumentOrderIrrelevant` | contrib/gauss_connector/deparse.cpp:374-554 | nor does anything a function, operator or array node reports on the order of its arguments |
| `LineQueue.RunValid` | contrib/gms_output/gms_output.cpp:85-106 | over every run the used bytes never exceed the capacity and account for all lines |
| `LineQueue.ReadPhase` | contrib/gms_output/gms_output.cpp:312-323 | any mix of reads returns the pending lines in order, each once and unchanged |
| `LineQueue.WritePhase` | contrib/gms_output/gms_output.cpp:85-92 | writes after a read first drop what is left, then leave exactly what they spell out |
| `LineQueue.OverflowIff` | contrib/gms_output/gms_output.cpp:94-105 | a write overflows exactly if it does not fit, and then empties the buffer |
| `LineQueue.ReadMarks` | contrib/gms_output/gms_output.cpp:312-323 | a read that delivers a line, and no other, makes the next write start afresh; reads give no space back |
| `LineQueue.WriteAfterRead` | contrib/gms_output/gms_output.cpp:85-92 | after a read that delivered a line, only what is written later comes out |
| `LineQueue.EnableKeeps` | contrib/gms_output/gms_output.cpp:195-253 | enabling keeps all contents; the capacity becomes the size asked for exactly if that exceeds what is used |
| `LineQueue.EnableBetween` | contrib/gms_output/gms_output.cpp:208-213 | so enabling before any reads changes nothing of what they deliver |
| `LineQueue.OffStaysOff` | contrib/gms_output/gms_output.cpp:255-310 | disabling drops everything, and then only enabling has any effect |
| `LineQueue.FirstInFirstOut` | contrib/gms_output/gms_output.cpp:285-323 | what a batch of writes puts in comes out first in, first out |
| `OutputBuffer.SplitText` | contrib/gms_output/gms_output.cpp:128-132 | appended text extends the unfinished line |
| `OutputBuffer.SplitNul` | contrib/gms_output/gms_output.cpp:134-137 | an appended terminator completes it |
| `OutputBuffer.NextOfSplit` | contrib/gms_output/gms_output.cpp:312-323 | reading to the next terminator takes the first line, or the unfinished one |
| `OutputBuffer.OutputContext.AddStr` | contrib/gms_output/gms_output.cpp:67-126 | discards after a read, refuses and empties on overflow, otherwise appends and terminates |
| `OutputBuffer.OutputContext.Put` | contrib/gms_output/gms_output.cpp:285-291 | refines the queue's put |
| `OutputBuffer.OutputContext.PutLine` | contrib/gms_output/gms_output.cpp:293-302 | refines the queue's put_line |
| `OutputBuffer.OutputContext.NewLine` | contrib/gms_output/gms_output.cpp:304-310 | refines the queue's new_line |
| `OutputBuffer.OutputContext.NextLine` | contrib/gms_output/gms_output.cpp:312-323 | refines reading one line; the cursor never leaves the terminated text |
| `OutputBuffer.OutputContext.GetLine` | contrib/gms_output/gms_output.cpp:325-360 | refines the queue's get_line |
| `OutputBuffer.OutputContext.GetLines` | contrib/gms_output/gms_output.cpp:362-416 | refines the queue's get_lines |
| `OutputBuffer.OutputContext.EnableInternal` | contrib/gms_output/gms_output.cpp:195-219 | starts a buffer or resizes it without touching its contents |
| `OutputBuffer.OutputContext.Enable` | contrib/gms_output/gms_output.cpp:228-253 | refines enabling with the size clamped |
| `OutputBuffer.OutputContext.Disable` | contrib/gms_output/gms_output.cpp:255-269 | drops everything |
| `OutputBuffer.Session` | contrib/gms_output/gms_output.cpp:44-416 | every run of commands refines the queue of lines, reply for reply |

## Left out

- BandedDistance: promises exactness up to a bound only for safe charges, because for all others some strings break it (`BandedExactIff`).
- AddStr: encoding conversion before the copy and NOTICE output with server output on are not modelled, because both lie in the server.
- Machine integers: arithmetic is unbounded; overflow of int in levenshtein.cpp and of the running position in hstoreValidOldFormat is not modelled.
- Floating point: doubles in cube.cpp are ideal reals; NaN and rounding are not modelled.
- Sorting: qsort and qsort_arg are not part of this model; the splits take any sorted arrangement as an argument.
- pg_mblen is a parameter, and strings are well encoded under it and free of NUL bytes.
- Varlena headers hold plain sizes; TOAST and the flag bits of headers are not modelled, and alignment padding is zero.
- memcpy_s and memmove_s bounds: destinations are required to be large enough instead.
- Upgrade: says nothing of what follows once memory beyond the value has been read (`ReadsBeyond`), because that memory is not the value's.
- gbt_var_penalty, penalty_num and g_cube_penalty: floating-point heuristics that affect cost, not answers.
- Text, bit, numeric and other btree_gist types: collations, multibyte cutting and conversions lie outside the modelled files.
- The GiST access method itself: page layout, concurrency and the order of insertions are not part of this model.
- exprType, is_shippable and contain_mutable_functions are parameters; SQL text output and aggregate pushdown are not modelled.
- Server output, NOTICE messages and client encoding conversion of gms_output.cpp.
- metaphone, dmetaphone and soundex, the hstore GiST and GIN classes, and the other contrib modules would add mostly easy members.
