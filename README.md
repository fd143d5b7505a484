# Extrema points of a mesh, modelled in Dafny

This project models `find_all_extrema_points` from `Max_Min.py`, the
Grasshopper component that classifies the vertices of a mesh by their Z
coordinate. In a single pass over the vertices it keeps four lists:

- the global minima: every vertex at the lowest Z of the mesh. A strictly
  lower Z restarts the list and an equal Z is appended to it;
- the global maxima: the same rule for the highest Z;
- the local minima: vertices strictly below every connected vertex;
- the local maxima: vertices strictly above every connected vertex.

It returns the four lists concatenated in that order.

The mesh is abstracted to two sequences indexed by vertex. `zs[i]` is the Z of
vertex `i` and `nbrs[i]` lists the vertices connected to it. `WellFormed`
requires one adjacency entry per vertex and every neighbour index to name a
vertex. A vertex is represented by its index, so the result is a `seq<nat>`
whose order and multiplicity can be stated. Only comparisons are applied to Z,
so heights are `int`.

- `extrema_spec.dfy` (module `ExtremaSpec`) holds the declarative lists:
  `GlobalMinima`, `GlobalMaxima`, `LocalMinima`, `LocalMaxima` and their
  concatenation `Extrema`. It also holds the lemmas that say what each list
  contains. `ScanFlags` is the neighbour scan without its early exit.
- `max_min.dfy` (module `MaxMin`) holds the scan as the source writes it. The
  outer `for` loop keeps the running extrema, starting from the sentinels
  `+inf` and `-inf` (datatype `ExtZ`), and resets or appends the lists. The
  inner `while` loop in `NeighbourFlags` clears the two flags and stops early
  with `break`. Loop invariants prove that the result equals `Extrema`.

## Model

| member | source | states |
|---|---|---|
| `MaxMin.FindAllExtremaPoints` | Max_Min.py:3-76 | for every well-formed mesh, the scan returns exactly the global minima, then the global maxima, then the local minima, then the local maxima, as `Extrema` defines them |
| `MaxMin.NeighbourFlags` | Max_Min.py:49-65 | the local-minimum flag is true iff `z` is strictly below every neighbour, and the local-maximum flag iff it is strictly above every neighbour; the loop that exits early yields the same pair as `ScanFlags`, which visits every neighbour |
| `MaxMin.GlobalMinimaStep` | Max_Min.py:22-39 | after one more vertex, the running minimum and its list are: that vertex alone when it lies strictly below the running minimum (always, against `+inf`), the old list plus the vertex on a tie, and unchanged otherwise |
| `MaxMin.GlobalMaximaStep` | Max_Min.py:23-46 | the same step for the running maximum, starting from `-inf` |
| `ExtremaSpec.MinUpTo` | Max_Min.py:35-36 | the running minimum of the first `n` heights is one of those heights and is at most each of them |
| `ExtremaSpec.MaxUpTo` | Max_Min.py:42-43 | the running maximum of the first `n` heights is one of those heights and is at least each of them |
| `ExtremaSpec.IndicesAtExact` | Max_Min.py:35-46 | the vertices collected at a height `v` are exactly the vertices among the first `n` whose Z equals `v`, each once, in index order |
| `ExtremaSpec.GlobalMinimaExact` | Max_Min.py:35-39 | vertex `j` is in the global-minimum list iff no vertex lies below it; the list is in index order without repeats, and it is non-empty for a non-empty mesh |
| `ExtremaSpec.GlobalMaximaExact` | Max_Min.py:42-46 | vertex `j` is in the global-maximum list iff no vertex lies above it; the list is in index order without repeats, and it is non-empty for a non-empty mesh |
| `ExtremaSpec.LocalMinimaUpToExact` | Max_Min.py:68-69 | after `n` vertices, the local-minimum list holds exactly the local minima among them, in index order |
| `ExtremaSpec.LocalMaximaUpToExact` | Max_Min.py:70-71 | after `n` vertices, the local-maximum list holds exactly the local maxima among them, in index order |
| `ExtremaSpec.LocalMinimaExact` | Max_Min.py:50-69 | vertex `i` is in the local-minimum list iff its Z is strictly below the Z of every vertex in `nbrs[i]`; the list is in index order |
| `ExtremaSpec.LocalMaximaExact` | Max_Min.py:50-71 | vertex `i` is in the local-maximum list iff its Z is strictly above the Z of every vertex in `nbrs[i]`; the list is in index order |
| `ExtremaSpec.BothLocalIffIsolated` | Max_Min.py:50-61 | a vertex is both a local minimum and a local maximum iff it has no neighbours |
| `ExtremaSpec.ScanFlagsMeaning` | Max_Min.py:53-61 | clearing the flags against every neighbour leaves the minimum flag set iff `z` is strictly below all of them, and the maximum flag set iff it is strictly above all of them |
| `ExtremaSpec.ExtremaLayout` | Max_Min.py:22-74 | the result's length is the sum of the four lists' lengths; the result is empty iff the mesh has no vertices; a non-empty mesh has non-empty global-minimum and global-maximum lists |
| `ExtremaSpec.LoneVertexListedFourTimes` | Max_Min.py:74 | the result may repeat a vertex: a single vertex with no neighbours is listed four times |

## Left out

- The input checks `isinstance(mesh, rg.Mesh)` and `mesh.IsValid`, with their `ValueError`s (Max_Min.py:11-15), and the same check at module level (Max_Min.py:82-83). They are queries to the host geometry kernel; the model takes a mesh that passes them.
- The Grasshopper glue (Max_Min.py:78-89): the input binding `Mesh` and the output `ExtremaPoints`. This is host I/O.
- `Point3d`, `mesh.Vertices`, `mesh.TopologyVertices` and `ConnectedTopologyVertices`. These are geometry-kernel objects and calls. They are replaced by `zs` and `nbrs`, and the lists hold vertex indices instead of `Point3d` values.
- The kernel's two index spaces. The source passes a mesh-vertex index to a topology-vertex query and reads the returned topology indices as mesh-vertex indices (Max_Min.py:49, 54). The model uses one shared index space.
- IEEE floating point. Heights are unbounded integers; NaN, signed zero and rounding are not modelled. The `float('inf')` and `float('-inf')` sentinels (Max_Min.py:22-23) are the `PosInf` and `NegInf` cases of `ExtZ`.
