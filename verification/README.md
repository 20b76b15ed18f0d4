# RAGnTeX figure geometry, in Dafny

RAGnTeX pulls text and figures out of a PDF (`src/ragntex_processing.py`).
Vector figures are found in four steps:

1. The bounding boxes of a page's drawings are grouped into connected
   clusters. Two boxes are linked when their boxes, grown by a threshold,
   meet. Each cluster is then merged into one rectangle.
2. When a page has many drawings, the grouping runs slice by slice and then
   once more over the slice results.
3. Each cluster rectangle is widened by the text blocks near it.
4. A rectangle is kept only if its area lies strictly between 5% and 30% of
   the page area. Kept figures are saved under the name
   `page{N}_fig{group}_hash{md5[:8]}.png`.

The document text is built page by page as `" ".join([text, page_text.strip()])`.

This project models that pure core over exact rectangles (`real`
coordinates) and proves properties of it. The modules follow the program:

| module | models |
|---|---|
| `Geometry` | `fitz.Rect` with expansion `r + (-t,-t,t,t)`, `\|` as PyMuPDF computes it, union, intersection, the R-tree's closed intersection test and PyMuPDF's strict `intersects` |
| `Merge` | `merge_bounding_boxes` |
| `Proximity` | the adjacency lists built from the R-tree in `group_bounding_boxes` |
| `Grouping` | the depth-first search and `group_bounding_boxes`, with the components as a second result |
| `GroupingFacts` | consequences of the grouping specification: partition, coverage, uniqueness, and a worked example |
| `Chunking` | `process_large_drawing`: the drawing filter, Python slicing, the slices and the single regroup pass |
| `ChunkingExample` | three boxes for which the chunked path and direct grouping differ |
| `TextAssociation` | `find_surrounding_text` and the figure rectangle (group merged with its nearby text) |
| `Naming` | the figure file name, together with a parser for it |
| `Figures` | the page loop of `extract_vector`: size filter, numbering and naming |
| `PageText` | the text accumulator of `extract_pdf_ragntex`, including Python's `str.strip()` |
| `Options`, `Seqs` | `None`/value, and sequence helpers (flattening, distinctness) |

### Assumptions about the libraries
The model relies on these assumptions about PyMuPDF and the R-tree:

- **R-tree intersection query:** uses closed intervals, so boxes that only share an edge or a corner are neighbours (`Geometry.Touches`).
- **PyMuPDF `Rect.intersects`:** both rectangles must be non-empty and must overlap with positive area (`Geometry.Intersects`).
- **PyMuPDF `|` (`Rect.include_rect`):** an empty operand is ignored. A rectangle is empty when its width or height is not positive, as for a horizontal or vertical line segment. So `a | b` is `a` when `b` is empty, `b` when only `a` is empty, and the union otherwise (`Geometry.Include`).
- **PyMuPDF `Rect.width` and `Rect.height`:** a negative extent is reported as zero, so the page area is never negative (`Figures.PageArea`).
- **Truthiness of a drawing's `"rect"`:** a rectangle is false exactly when all four coordinates are zero (`Chunking.Truthy`).

### Consequences of the code worth knowing
- **Adjacency:** both boxes are grown by the threshold and compared with a closed test. Two boxes are therefore neighbours when their gap on each axis is at most twice the threshold (`Proximity.AdjacentIffGap`). Raising the threshold never splits a component (`GroupingFacts.GroupsMonotone`).
- **When chunking starts:** chunking starts at `len(bboxes) == max_drawings`, because the test is `<`. The boxes then form one full slice and one empty slice, followed by a regroup (`Chunking.ChunksAtLimit`). The regroup can join groups that direct grouping keeps apart: for the three boxes of `ChunkingExample`, the chunked path returns one rectangle and direct grouping two (`ChunkingExample.AtLimitDiffers`).
- **Line segments:** `|` ignores empty rectangles. A drawing that is a horizontal or vertical line therefore adds nothing to its group's rectangle. A group made only of lines is replaced by its surrounding text, if there is any (`TextAssociation.FigureBoxOfLine`). The coverage statements below are about non-empty boxes for this reason.

## Model

| member | source | states |
|---|---|---|
| Geometry.Expand | src/ragntex_processing.py:84 | expansion moves each side out by the threshold: width and height grow by twice the threshold, the centre stays put, and a non-negative expansion contains the original box |
| Geometry.Include | src/ragntex_processing.py:76 | `a \| b` ignores an empty operand; it contains each non-empty operand, is empty only when both are, and lies inside every rectangle containing the non-empty operands |
| Geometry.IncludeIsUnion | src/ragntex_processing.py:76 | on two non-empty operands `\|` is the least enclosing rectangle; the line `(20,5,30,5)` on the right leaves `(0,0,10,10)` unchanged, where the union would reach `x = 30` |
| Geometry.Intersection | src/ragntex_processing.py:146 | the intersection contains every rectangle lying in both operands, and lies in both whenever it is upright |
| Geometry.TouchesIffIntersection | src/ragntex_processing.py:91 | for upright boxes the R-tree match holds exactly when the intersection is upright, and the match is symmetric |
| Geometry.IntersectsIffOverlap | src/ragntex_processing.py:146 | `intersects` holds exactly when both boxes have positive width and height and they overlap strictly on both axes; the test is symmetric |
| Geometry.IntersectsImpliesTouches | src/ragntex_processing.py:91 | a strict intersection is also an R-tree match, and two squares sharing only an edge show that the converse fails |
| Geometry.ExpandCompose | src/ragntex_processing.py:84 | expanding by `s` and then by `t` is expanding by `s + t`, and a larger threshold gives a containing box |
| Merge.MergeFrom | src/ragntex_processing.py:74-76 | the fold contains the start box if that is non-empty, and every non-empty later box |
| Merge.MergeFromLeast | src/ragntex_processing.py:74-76 | the fold passes over empty boxes: it stays the start box when every later box is empty; it is empty only when every box is; otherwise it lies inside any rectangle containing all the non-empty boxes |
| Merge.MergeBoundingBoxes | src/ragntex_processing.py:70-77 | `None` exactly for the empty list; the box itself for a one-element list; otherwise a rectangle containing every non-empty box |
| Merge.MergeLeast | src/ragntex_processing.py:70-77 | the merge is the first box when every box is empty; otherwise a non-empty rectangle, the least one enclosing every non-empty box; always inside any rectangle enclosing all the boxes |
| Merge.MergeIsHull | src/ragntex_processing.py:70-77 | once some box is non-empty, the merge equals the componentwise min/max hull of the non-empty boxes, so empty boxes leave no trace |
| Merge.MergeOrderIrrelevant | src/ragntex_processing.py:70-77 | two lists holding the same boxes merge to the same result when one box is non-empty or both lists start with the same box, whatever the order of the rest and the repetitions |
| Merge.MergeOrderOfLines | src/ragntex_processing.py:70-77 | with only line segments the order matters: the merge is the first one |
| Merge.MergeUpright | src/ragntex_processing.py:70-77 | merging boxes whose minimum is at most their maximum on both axes gives such a box again |
| Merge.MergeEdgesAttained | src/ragntex_processing.py:70-77 | each edge of the merged rectangle is the matching edge of some input box |
| Proximity.AdjacentSymmetric | src/ragntex_processing.py:83-93 | adjacency is symmetric, because insertion and query use the same expansion, and irreflexive, because of the `i != j` test |
| Proximity.AdjacentIffGap | src/ragntex_processing.py:84-93 | two distinct boxes are adjacent exactly when their gap on each axis is at most twice the threshold |
| Proximity.AdjacentMonotone | src/ragntex_processing.py:84-93 | raising the threshold keeps every edge of the proximity graph |
| Proximity.Neighbours | src/ragntex_processing.py:89-93 | the neighbour list of `i` holds exactly the indices adjacent to `i`, each once, in increasing order |
| Grouping.PushNeighbours | src/ragntex_processing.py:102-104 | afterwards every neighbour of the visited node is visited; new nodes are appended to both the component and the stack; nothing becomes unvisited |
| Grouping.ExploreComponent | src/ragntex_processing.py:99-104 | from an unvisited seed, the search visits exactly one new component: non-empty, starting at the seed, without repeats, connected through edges, and closed under adjacency |
| Grouping.GroupBoundingBoxes | src/ragntex_processing.py:80-114 | the components partition the indices, are closed under adjacency and internally connected, come in increasing seed order with the seed as their least member, and each group is the merge of its component |
| GroupingFacts.GroupSizes | src/ragntex_processing.py:107-114 | component sizes add up to the number of boxes; there are no more groups than boxes; the result is empty exactly for an empty input |
| GroupingFacts.PartitionSize | src/ragntex_processing.py:96-111 | a partition of `0..n-1` into components has `n` members in all |
| GroupingFacts.FlattenIsRange | src/ragntex_processing.py:96-111 | the indices visited over all components are exactly `0..n-1` |
| GroupingFacts.GroupCovers | src/ragntex_processing.py:107-114 | each non-empty box lies inside the group of its component, so inside some group |
| GroupingFacts.GroupWithin | src/ragntex_processing.py:114 | any rectangle enclosing all the boxes encloses all the groups |
| GroupingFacts.GroupedFacts | src/ragntex_processing.py:107-114 | a grouping result has no more rectangles than the input, is empty exactly for empty input, covers every non-empty box, and stays inside any rectangle that encloses the input |
| GroupingFacts.GroupsMonotone | src/ragntex_processing.py:84-111 | raising the threshold never splits a component: each component at the lower threshold lies inside one component at the higher threshold, and its group, unless empty, inside that component's group |
| GroupingFacts.GroupedUnique | src/ragntex_processing.py:80-114 | the result of grouping is determined by the boxes and the threshold alone, whatever the neighbour order |
| GroupingFacts.GroupSpecUnique | src/ragntex_processing.py:96-114 | any two valid results have the same components, member for member, and the same groups |
| GroupingFacts.FourSquaresAdjacency | src/ragntex_processing.py:83-93 | with threshold 1, three unit squares sharing edges are pairwise adjacent, and a far square is adjacent to none of them |
| GroupingFacts.FourSquaresExample | src/ragntex_processing.py:80-114 | grouping those four squares yields exactly `[(0,0,2,2), (10,10,11,11)]` |
| Chunking.KeptBoxes | src/ragntex_processing.py:118 | the kept boxes are exactly the present, true `"rect"` entries; none of them is false, and there are no more of them than drawings |
| Chunking.KeptBoxesAppend | src/ragntex_processing.py:118 | filtering distributes over concatenation, so drawing order is kept |
| Chunking.KeptBoxesSingle | src/ragntex_processing.py:118 | a single drawing is kept exactly when its rectangle is present and true |
| Chunking.PySlice | src/ragntex_processing.py:128 | a Python slice is the ordinary subsequence when its bounds are in range, runs to the end when only the end bound is past the length (the last slice), and is empty when it starts past the end or at or after its end bound |
| Chunking.ChunkLength | src/ragntex_processing.py:128 | every slice before the last has exactly `M` boxes, and the last has `len % M` |
| Chunking.ChunkSizes | src/ragntex_processing.py:124-128 | there are `len // M + 1` slices; all but the last hold exactly `M` boxes; the last holds `len % M`, so it is empty exactly when `M` divides the count |
| Chunking.ChunkSlice | src/ragntex_processing.py:128 | slice `k` runs from `min(k*M, len)` to `min((k+1)*M, len)` |
| Chunking.ChunksPrefix | src/ragntex_processing.py:124-130 | the first `j` slices concatenate to the first `min(j*M, len)` boxes |
| Chunking.ChunksConcat | src/ragntex_processing.py:124-130 | the slices concatenate to the kept boxes: nothing is lost, duplicated or reordered |
| Chunking.GroupChunks | src/ragntex_processing.py:127-130 | the accumulated results are the per-slice groupings, concatenated in slice order |
| Chunking.ProcessLargeDrawing | src/ragntex_processing.py:117-133 | with fewer than `M` kept boxes the result is their direct grouping; otherwise it is one regroup of the concatenated slice groupings |
| Chunking.GroupedCovers | src/ragntex_processing.py:121 | a direct grouping covers every non-empty box, is no longer than its input, is empty exactly for empty input, and stays inside any enclosing rectangle |
| Chunking.PartsCovered | src/ragntex_processing.py:127-130 | grouping slice by slice keeps those facts for the concatenated input and the concatenated results |
| Chunking.FlattenCovered | src/ragntex_processing.py:130 | covering, size and enclosure facts that hold slice by slice also hold once the slices and their results are concatenated |
| Chunking.ChunkedCovers | src/ragntex_processing.py:124-133 | on the chunked path every non-empty kept box lies inside some returned rectangle; there are no more results than boxes; the result is empty exactly when no box was kept; nothing leaves an enclosing rectangle |
| Chunking.ProcessedByCovers | src/ragntex_processing.py:117-133 | the facts of `Chunking.ChunkedCovers` hold on both paths of `process_large_drawing` |
| Chunking.ChunksAtLimit | src/ragntex_processing.py:120-128 | with exactly `M` boxes the chunked path runs on one full slice followed by one empty slice |
| ChunkingExample.DirectResult | src/ragntex_processing.py:80-114 | with threshold 0, `group_bounding_boxes` on the bars `(0,0,1,10)`, `(1,0,10,1)` and the square `(5,5,6,6)` returns `(0,0,10,10)` and the square |
| ChunkingExample.SlicesResult | src/ragntex_processing.py:124-130 | at `max_drawings = 3` the slice loop collects `(0,0,10,10)` and the square from the full slice and nothing from the empty one |
| ChunkingExample.ChunkedResult | src/ragntex_processing.py:117-133 | `process_large_drawing` with `max_drawings = 3` on the same boxes returns the single rectangle `(0,0,10,10)`, because the square touches the merged bars in the regroup |
| ChunkingExample.AtLimitDiffers | src/ragntex_processing.py:117-133 | at exactly `max_drawings` boxes the chunked path and direct grouping can return different numbers of rectangles: one against two here |
| TextAssociation.SurroundingFrom | src/ragntex_processing.py:141-147 | the loop keeps exactly the rectangles of type-0 blocks that strictly intersect the expanded group |
| TextAssociation.FindSurroundingText | src/ragntex_processing.py:136-149 | the result holds exactly the rectangles of text blocks that intersect the group grown by the threshold, and has no more entries than there are blocks |
| TextAssociation.NearIndices | src/ragntex_processing.py:141-147 | the selected block positions are exactly those of near text blocks, in increasing order |
| TextAssociation.SurroundingInOrder | src/ragntex_processing.py:141-149 | the returned rectangles are the near blocks' rectangles, one per selected position, in block order |
| TextAssociation.FigureBox | src/ragntex_processing.py:173-176 | the figure rectangle contains the group unless it is empty, and every non-empty surrounding block; a non-empty result lies inside any rectangle containing those; it is the group itself when no text is near, and whenever it is empty |
| TextAssociation.FigureBoxOfLine | src/ragntex_processing.py:172-176 | a group that is the line `(20,5,30,5)`, with the text block `(0,0,10,10)` beside it, becomes the block's rectangle |
| TextAssociation.FigureBoxEdges | src/ragntex_processing.py:173-176 | each edge of the figure rectangle is the group's edge or the edge of some surrounding block |
| Naming.Decimal | src/ragntex_processing.py:187 | `str(n)` is a non-empty string of digits, with no leading zero unless the number is 0 |
| Naming.DecimalRoundTrip | src/ragntex_processing.py:187 | reading the decimal rendering back gives the number |
| Naming.DecimalInjective | src/ragntex_processing.py:187 | different numbers render differently |
| Naming.Prefix8 | src/ragntex_processing.py:187 | `h[:8]` is a prefix of `h`, of length `min(8, len(h))` |
| Naming.FigureNameRoundTrip | src/ragntex_processing.py:187 | every figure name parses back to its page number, its group number and the first eight hash characters |
| Naming.FigureNameInjective | src/ragntex_processing.py:187 | two names are equal exactly when page, group number and hash prefix are all equal |
| Naming.FigureNameExample | src/ragntex_processing.py:187 | page 3, group 12 and a 32-character digest give `page3_fig12_hash01234567.png` |
| Figures.PageArea | src/ragntex_processing.py:159 | the page area is never negative, and it is width times height for an upright page |
| Figures.AcceptedRange | src/ragntex_processing.py:160-161 | only areas strictly between the two bounds pass, so both bounds are rejected; nothing passes on a zero-area page; 10% of a positive page passes |
| Figures.AcceptedExample | src/ragntex_processing.py:179-182 | on a page of area 1000, areas 51 and 299 pass, while 49, 50, 300 and 301 do not |
| Figures.FigureOf | src/ragntex_processing.py:172-176 | the rectangle of a group contains the group unless it is empty, and every near text block |
| Figures.PageFiguresSaved | src/ragntex_processing.py:170-182 | each saved figure is the figure rectangle of its group and passed the filter; group numbers increase along the list; there are no more figures than groups |
| Figures.PageFiguresNamed | src/ragntex_processing.py:187 | each saved figure is named after its page, its pre-filter group number and the digest of its rectangle |
| Figures.PageFiguresBelow | src/ragntex_processing.py:170 | no figure carries a group number beyond the groups processed so far |
| Figures.PageFiguresEmitted | src/ragntex_processing.py:178-182 | a group number appears among the saved figures exactly when its area passes the filter |
| Figures.PageFigureNamesDistinct | src/ragntex_processing.py:187 | the file names saved on one page are pairwise different |
| Figures.FigureNamesAcrossPages | src/ragntex_processing.py:187 | figures from different pages never share a file name |
| Figures.PageFiguresGap | src/ragntex_processing.py:170-187 | with three groups where only the middle one fails, the figures are numbered 0 and 2: the numbering has a gap |
| Figures.SaveFigures | src/ragntex_processing.py:170-187 | the loop over the groups produces the filtered, named figure list of the page |
| Figures.PageFiguresFacts | src/ragntex_processing.py:170-187 | the saved figures relate to the groups as a whole: each is saved from its group's rectangle, contains its group unless that is empty, and is properly named; group `i` has a figure exactly when it passes; names are distinct |
| Figures.ExtractVector | src/ragntex_processing.py:152-187 | the groups are those of `process_large_drawing`; each figure contains its group unless that is empty, is filtered and named by its pre-filter number; a group has a figure exactly when its area passes; the names on the page are distinct |
| PageText.SkipSpaces | src/ragntex_processing.py:19 | the scan stops at the first non-whitespace character, and everything it skipped is whitespace |
| PageText.SkipSpacesBack | src/ragntex_processing.py:19 | the backward scan stops after the last non-whitespace character, and everything it skipped is whitespace |
| PageText.Strip | src/ragntex_processing.py:19 | `s.strip()` neither starts nor ends with whitespace, and `s` is that string with whitespace on each side |
| PageText.StripUnique | src/ragntex_processing.py:19 | any split of a string into whitespace, a trimmed middle and whitespace has `strip()` as its middle |
| PageText.StripIdempotent | src/ragntex_processing.py:19 | stripping twice is the same as stripping once |
| PageText.Join | src/ragntex_processing.py:16-19 | the accumulated text is at least one character per part and starts with a space once there is a part |
| PageText.JoinAppend | src/ragntex_processing.py:16-19 | the texts of two runs of pages concatenate: pages contribute independently and in order |
| PageText.JoinFlat | src/ragntex_processing.py:16-19 | the text is the concatenation of one segment per page, each a space followed by the page's text |
| PageText.AccumulateText | src/ragntex_processing.py:16-19 | the loop builds the joined stripped page texts, which begin with a space whenever there is a page |

## Left out

- **PDF and file I/O:** opening documents, `get_text`, `get_drawings`, `get_pixmap`, `tobytes`, directories and file writes, and the written text file. Drawings, text blocks and page texts are inputs instead.
- **MD5:** the digest of a figure's rendered clip is a parameter `digest: Rect -> string`. Only its first eight characters enter the name.
- **Visiting order of the search:** the recursive `dfs` of `group_bounding_boxes` (src/ragntex_processing.py:99-104) is modelled with an explicit stack, so a component's members are listed in a different order than the recursive pre-order. The set of members is the same and the seed stays first, so the merged rectangle is the same (`Merge.MergeOrderIrrelevant`). The order of the members inside a component is not modelled.
- **Rendering:** the zoom factor (`ZOOM = 4`) is left out because it only affects the pixels.
- **`extract_images`:** it copies embedded images and names them `page{N}_img{i}_hash{h[:8]}.png`; this is I/O plus a naming scheme of the same shape.
- **`are_bounding_boxes_close`:** it is never called.
- **`run_test.py`:** it is a directory walk that drives the pipeline.
- **`max_drawings` of `group_bounding_boxes`:** the parameter is unused by its body.
- **Floating-point coordinates and the fractions 0.05 and 0.30:** coordinates are exact reals, so rounding near the filter bounds is not modelled.
- **The R-tree:** its internals and its result order are replaced by the intersection predicate it computes. Neighbour lists are in increasing index order. `GroupingFacts.GroupedUnique` shows the result does not depend on that order.
- **Infinite rectangles:** PyMuPDF's `|` returns the infinite rectangle when an operand is infinite. Drawing rectangles are finite, so `Geometry.Include` leaves this case out.
- Grouping.GroupBoundingBoxes: the R-tree raises `RTreeError` when a box grown by the threshold has a minimum above its maximum, that is, a box inverted by more than twice the threshold on some axis (lines 84-85 and 90-91). The model groups such boxes without complaint. Drawing rectangles are assumed upright, and merging upright boxes gives upright boxes (`Merge.MergeUpright`), so the program's own inputs do not reach this error.
- **Recursion depth:** the recursive Python DFS can exceed the interpreter's limit on large components. The model's explicit stack has no such limit.
- Chunking.ProcessLargeDrawing: requires `max_drawings > 0`. With 0 the source divides by zero, and with a negative value its slices are empty. The only caller passes 1000.
- Naming.DecimalRoundTrip: `ParseDecimal` reads the empty string as 0 where `int("")` raises. Only digit strings that a figure name can contain are parsed here.
