# ParOpt core: vectors, limited-memory quasi-Newton windows, CSC assembly, Rosenbrock

This project models three pieces of the ParOpt optimizer and proves their properties in Dafny.

- **`src/ParOptVec.c`**
  - `ParOptVec` becomes the class `ParOptVec.Vec` (module `ParOptVec`). It is a fixed-length buffer of scalars with in-place `set`, `zeroEntries`, `copyValues`, `scale` and `axpy`. It has the reductions `dot` and `maxabs` and the accessor `getArray`.
  - `LBFGS` and `LSR1` become the classes `LimitedMemoryBFGS.LBFGS` and `LimitedMemorySR1.LSR1`. Each keeps the following state:
    - a window of at most `msub_max` correction pairs (s, y), held in the pointer arrays `S` and `Y`;
    - the cached tables `D = diag(S^T Y)`, `B = S^T S` and `L` (the strict lower triangle of `S^T Y`);
    - the compact representation `M`, `Z` and `d0`;
    - the scale `b0`.
  - Module `QuasiNewton` holds the bookkeeping both classes share:
    - copying the new pair into a slot;
    - rotating the pointers of a full window;
    - shifting the tables diagonally;
    - filling the new last rows.
  - The ghost function `QuasiNewton.Window` reads the pairs out of the slot vectors. The predicate `QuasiNewton.History` states that the tables agree with those pairs.
  - `update` is proved to do two things:
    - it slides the window, as `QuasiNewton.Slide` states: append while there is room, otherwise drop the oldest pair;
    - it keeps the tables equal to the Gram entries of the new window.
- **`examples/cholesky/cholesky.cpp`**
  - `build_matrix` assembles the stiffness matrix of an nx-by-nx mesh of bilinear elements, with two degrees of freedom per node, in compressed sparse column (CSC) form.
  - Module `CscStream` defines the matrix as the stream of (column, row, value) entries that the fill loops visit.
  - Module `CscLayout` proves, on values, that placing each entry at the moving head of its column leaves every column holding exactly its entries, in stream order.
  - Module `Cholesky` holds the imperative loops over arrays: counting, prefix sum, fill and shift-back. Each is proved against those definitions.
  - From `main`, it models the inversion of the fill-reducing permutation and the right-hand side `b = A e` (the row sums).
- **`examples/python/rosenbrock.py`**
  - The class `Rosenbrock.Problem` has two variables, one constraint, and the design history `x_hist`. `x_hist` is a `seq` that `EvalObjCon` appends to.
  - The objective, constraint, gradient and Jacobian are exact polynomial functions over `real`.
  - The driver `plot_it_all` is modelled without its plotting:
    - it evaluates the 150-by-150 contour grid;
    - it then runs ten trials, each starting from an emptied history.
  - A constraint is satisfied when its value is non-negative, `c(x) >= 0` (`src/ParOpt.h:25`).

Scalars are exact reals throughout. One process is assumed, so every MPI reduction is the identity.

## Model

| member | source | states |
|---|---|---|
| ParOptVec.MaxNorm | src/ParOptVec.c:71-83 | the l-infinity norm is at least every \|x[i]\| and equals one of them, or is 0 for an empty vector |
| ParOptVec.DotSymmetric | src/ParOptVec.c:88-96 | dot(a, b) == dot(b, a) for all vectors of one length |
| ParOptVec.DotSelfNonNegative | src/ParOptVec.c:88-96 | x^T x >= 0 |
| ParOptVec.DotZero | src/ParOptVec.c:43-45 | a zeroed vector has dot product 0 with every vector |
| ParOptVec.DotScaled | src/ParOptVec.c:114-117 | dot(alpha x, b) == alpha dot(x, b): scale is linear in the reduction |
| ParOptVec.DotAxpy | src/ParOptVec.c:122-125 | dot(y + alpha x, b) == dot(y, b) + alpha dot(x, b) |
| ParOptVec.Vec.constructor | src/ParOptVec.c:17-22 | a fresh buffer of n entries, every entry 0 |
| ParOptVec.Vec.Set | src/ParOptVec.c:34-38 | every entry becomes alpha; length unchanged |
| ParOptVec.Vec.ZeroEntries | src/ParOptVec.c:43-45 | every entry becomes 0; length unchanged |
| ParOptVec.Vec.CopyValues | src/ParOptVec.c:50-52 | x[i] == vec.x[i] for all i; vec unchanged unless it is the same buffer |
| ParOptVec.Vec.Scale | src/ParOptVec.c:114-117 | x[i] == alpha * old x[i] for all i |
| ParOptVec.Vec.Axpy | src/ParOptVec.c:122-125 | x[i] == old x[i] + alpha * vec.x[i] for all i; vec unchanged unless it is the same buffer |
| ParOptVec.Vec.DotWith | src/ParOptVec.c:88-96 | the loop sum equals the dot product of the two buffers |
| ParOptVec.Vec.MaxAbs | src/ParOptVec.c:71-83 | the result bounds every \|x[i]\| and is attained by some entry, or is 0 for an empty vector |
| ParOptVec.Vec.GetArray | src/ParOptVec.c:130-133 | returns the object's own buffer and its length |
| QuasiNewton.Quotient | src/ParOptVec.c:328 | q * b == a whenever b != 0 |
| QuasiNewton.NewSlots | src/ParOptVec.c:207-214 | msub_max fresh S and Y vectors of nvars entries, no two sharing a buffer |
| QuasiNewton.NewTables | src/ParOptVec.c:234-247 | D, B and L are fresh, of sizes msub_max and msub_max^2, and all zero |
| QuasiNewton.CopyBlock | src/ParOptVec.c:449 | the leading n-by-n block of M is copied into M_factor; the rest of M_factor is unchanged |
| QuasiNewton.ClearArrays | src/ParOptVec.c:292-300 | d0, rz, M, M_factor, D, L and B are all zero afterwards |
| QuasiNewton.RotatePairs | src/ParOptVec.c:370-378 | S[i], Y[i] become old S[i+1], Y[i+1] for i < n-1, and the old slot 0 moves to n-1 |
| QuasiNewton.ShiftDiagonal | src/ParOptVec.c:381-383 | D[i] == old D[i+1] for i < n-1; a D that agreed with window w agrees with w less its oldest pair |
| QuasiNewton.ShiftBlock | src/ParOptVec.c:385-389 | B[i, j] == old B[i+1, j+1] on the leading (n-1)-square block, nothing else changes; S^T S of w becomes S^T S of w less its oldest pair |
| QuasiNewton.ShiftLower | src/ParOptVec.c:391-395 | L[i, j] == old L[i+1, j+1] for j < i < n-1, nothing else changes; the strict lower S^T Y follows the window |
| QuasiNewton.ShiftTables | src/ParOptVec.c:380-395 | tables that agreed with a full window agree with it once its oldest pair is dropped |
| QuasiNewton.Slide | src/ParOptVec.c:359-378 | the new window: length min(m + 1, msub_max), newest pair last, the older pairs in order with the oldest dropped when full |
| QuasiNewton.StoreSlotsEmptyCapacity | src/ParOptVec.c:359-378 | as written, a capacity of 0 sends the first update to slots 0 and -1, neither of which exists |
| QuasiNewton.StoreSlotsInRange | src/ParOptVec.c:359-378 | with a positive capacity and at most that many pairs held, every slot update stores into lies in [0, capacity) |
| QuasiNewton.GramSymmetric | src/ParOptVec.c:400-403 | B = S^T S is symmetric over the window |
| QuasiNewton.GrowWindow | src/ParOptVec.c:359-363 | with room left, the window becomes the old window plus the new pair (s, y) |
| QuasiNewton.CopyPair | src/ParOptVec.c:367-368 | slot k's buffers take the values of s and y; the other slots are unchanged |
| QuasiNewton.RotateSlots | src/ParOptVec.c:370-378 | the pointer rotation turns the window w into w[1..] + [w[0]], keeping every slot's vectors |
| QuasiNewton.ReplaceOldest | src/ParOptVec.c:364-378 | with the window full, the new pair overwrites slot 0 and rotates to the end: the oldest pair drops out |
| QuasiNewton.PushPair | src/ParOptVec.c:359-378 | msub becomes min(msub + 1, msub_max) and the window becomes Slide(old window, (s, y)) |
| QuasiNewton.MakeRoom | src/ParOptVec.c:380-395 | the tables shift only when the window is full, and then agree with the pairs that stay |
| QuasiNewton.FillRowB | src/ParOptVec.c:400-403 | B[m-1, k] == s_{m-1}^T s_k and B[k, m-1] == B[m-1, k]; the rest of B is unchanged |
| QuasiNewton.FillDiagonal | src/ParOptVec.c:406 | D[m-1] == s_{m-1}^T y_{m-1}; the rest of D is unchanged |
| QuasiNewton.FillRowL | src/ParOptVec.c:410-412 | L[m-1, k] == s_{m-1}^T y_k for k < m-1; the other rows are unchanged |
| QuasiNewton.FillGram | src/ParOptVec.c:398-412 | tables that agreed with the first m-1 pairs agree with all m |
| QuasiNewton.UpdateTables | src/ParOptVec.c:380-412 | tables that agreed with the old window agree with the new one |
| QuasiNewton.StorePair | src/ParOptVec.c:359-412 | the window slides and History (tables agree with the pairs) is preserved |
| QuasiNewton.ProductEmpty | src/ParOptVec.c:467-471 | with an empty window, mult is b0 x, so s^T B s == b0 s^T s, positive when b0 > 0 and s^T s > 0 |
| QuasiNewton.AddProduct | src/ParOptVec.c:506-535 | multAdd's two axpy steps give y + alpha (B x), with B x exactly as mult computes it |
| QuasiNewton.Product | src/ParOptVec.c:466-496 | what mult computes from a window of m pairs: b0 x when m == 0, else b0 x less the correction term c, of the length of x; ApplyProduct and LBFGS.Mult are proved to return it, ProductEmpty states its curvature |
| QuasiNewton.ApplyProduct | src/ParOptVec.c:466-496 | y = b0 x, less the correction term when the window is not empty |
| QuasiNewton.NewCompactArrays | src/ParOptVec.c:219-230 | fresh zeroed M and M_factor of side n, and fresh zeroed d0 and rz of length n |
| LimitedMemoryBFGS.InitialScale | src/ParOptVec.c:327-332 | the first b0 is gamma/alpha when that is positive and 1 otherwise; always positive |
| LimitedMemoryBFGS.StartScale | src/ParOptVec.c:327-332 | the b0 that mult uses inside update: the first-update scaling gamma / alpha (1 when that is not positive) while msub == 0, and the current b0 otherwise |
| LimitedMemoryBFGS.Damps | src/ParOptVec.c:341 | the curvature test of update: alpha = y^T s is at most 0.2 beta, beta = (B s)^T s; LBFGS.Update returns 1 exactly when it holds |
| LimitedMemoryBFGS.Theta | src/ParOptVec.c:346 | the blend weight 0.8 beta / (beta - alpha) of a damped update; DampedCurvature proves the blend it weights has curvature 0.2 beta |
| LimitedMemoryBFGS.Stored | src/ParOptVec.c:338-353 | the vector stored with s, as long as s: y, or theta y + (1 - theta) B s when the test damps; StoredCurvature proves its curvature along s is positive |
| LimitedMemoryBFGS.StoredCurvature | src/ParOptVec.c:341-353 | when s^T B s > 0, the stored pair satisfies s^T v >= 0.2 s^T B s > 0, with equality for a damped update |
| LimitedMemoryBFGS.DampedCurvature | src/ParOptVec.c:345-349 | the damped blend theta y + (1 - theta) B s has curvature exactly 0.2 s^T B s along s |
| LimitedMemoryBFGS.CompactSymmetric | src/ParOptVec.c:414-435 | the compact M = [[b0 B, L], [L^T, -D]] is symmetric |
| LimitedMemoryBFGS.FillCompactM | src/ParOptVec.c:414-435 | the leading 2m-square block of M holds b0 B, L, L^T and -D; M outside it is unchanged |
| LimitedMemoryBFGS.ScaleInto | src/ParOptVec.c:415-422 | the leading m-square block of M is b0 B and the rest of the 2m block is zero |
| LimitedMemoryBFGS.FillCoupling | src/ParOptVec.c:424-435 | the off-diagonal blocks hold L and L^T, and the trailing diagonal holds -D |
| LimitedMemoryBFGS.LayoutZ | src/ParOptVec.c:437-446 | Z[i] == S[i], Z[i+m] == Y[i], d0[i] == b0 and d0[i+m] == 1 for i < m |
| LimitedMemoryBFGS.Damp | src/ParOptVec.c:345-348 | r becomes theta y + (1 - theta) r |
| LimitedMemoryBFGS.Blend | src/ParOptVec.c:334-353 | r is mult(s), blended exactly when y^T s <= 0.2 s^T B s; returns whether it blended |
| LimitedMemoryBFGS.Curvature | src/ParOptVec.c:322-356 | the first-update scaling, the damping decision and the new b0 = v^T v / v^T s of the vector stored |
| LimitedMemoryBFGS.AssembleCompact | src/ParOptVec.c:414-449 | M, Z and d0 hold the compact representation of the window, and M_factor is M's copy |
| LimitedMemoryBFGS.LBFGS.constructor | src/ParOptVec.c:197-248 | an empty window of msub_max slots, b0 = 1, and every table zero |
| LimitedMemoryBFGS.LBFGS.GetMaxLimitedMemorySize | src/ParOptVec.c:280-282 | returns msub_max, the window's capacity |
| LimitedMemoryBFGS.LBFGS.Reset | src/ParOptVec.c:287-301 | msub = 0, b0 = 1, no pairs, and d0, rz, M, M_factor, D, L and B all zero |
| LimitedMemoryBFGS.LBFGS.Mult | src/ParOptVec.c:466-496 | y = b0 x, less the correction term when msub > 0 |
| LimitedMemoryBFGS.LBFGS.MultAdd | src/ParOptVec.c:506-535 | y = old y + alpha (B x), with B x as mult computes it |
| LimitedMemoryBFGS.LBFGS.Assemble | src/ParOptVec.c:414-449 | builds the compact representation over the current window; the pairs, msub and b0 are unchanged |
| LimitedMemoryBFGS.LBFGS.Predicted | src/ParOptVec.c:327-335 | B s as update computes it with mult before storing the pair: Product with StartScale as b0 and the current window size |
| LimitedMemoryBFGS.LBFGS.Update | src/ParOptVec.c:319-456 | returns 1 exactly when the curvature test damps; msub becomes min(msub + 1, msub_max); the pairs slide with (s, stored vector); b0 becomes y^T y / y^T s of the newest pair; the class invariant is kept |
| LimitedMemoryBFGS.LBFGS.Rescale | src/ParOptVec.c:322-356 | the update type, the vector to store (y or the blend in r), and b0 from that vector |
| LimitedMemoryBFGS.LBFGS.Commit | src/ParOptVec.c:358-449 | the pair enters the window, and the tables and compact representation follow it; b0 is unchanged |
| LimitedMemoryBFGS.LBFGS.Store | src/ParOptVec.c:358-412 | msub becomes min(msub + 1, msub_max), the pairs slide, and the tables keep agreeing with them |
| LimitedMemoryBFGS.LBFGS.GetCompactMat | src/ParOptVec.c:541-551 | returns b0, d0, M and Z and the size 2*msub, with Z = [S, Y], d0 = [b0.., 1..] and M symmetric |
| LimitedMemorySR1.NewVectors | src/ParOptVec.c:576-582 | msub_max fresh Z vectors of nvars entries, each with its own buffer |
| LimitedMemorySR1.MiddleSymmetric | src/ParOptVec.c:755-774 | M = b0 B - L - L^T - D is symmetric |
| LimitedMemorySR1.FillMiddleM | src/ParOptVec.c:755-774 | the leading m-square block of M holds b0 B - L - L^T - D; the rest of M is unchanged |
| LimitedMemorySR1.SetDifference | src/ParOptVec.c:778-779 | z = y - b0 s |
| LimitedMemorySR1.LayoutDifferences | src/ParOptVec.c:776-782 | Z[i] = Y[i] - b0 S[i] and d0[i] = 1 for every pair i of the window; the window is unchanged |
| LimitedMemorySR1.AssembleMiddle | src/ParOptVec.c:755-785 | M, Z and d0 hold the SR1 compact representation, and M_factor is M's copy |
| LimitedMemorySR1.LSR1.constructor | src/ParOptVec.c:565-616 | an empty window of msub_max slots, b0 = 1, and every table zero |
| LimitedMemorySR1.LSR1.GetMaxLimitedMemorySize | src/ParOptVec.c:649-651 | returns msub_max |
| LimitedMemorySR1.LSR1.Reset | src/ParOptVec.c:656-670 | msub = 0, b0 = 1, no pairs, and every table zero |
| LimitedMemorySR1.LSR1.Mult | src/ParOptVec.c:802-822 | y = b0 x, less the correction term when msub > 0 |
| LimitedMemorySR1.LSR1.MultAdd | src/ParOptVec.c:832-851 | y = old y + alpha (B x) |
| LimitedMemorySR1.LSR1.Update | src/ParOptVec.c:687-792 | returns 0; msub becomes min(msub + 1, msub_max); (s, y) enters unmodified; b0 becomes y^T y / y^T s on the first update only |
| LimitedMemorySR1.LSR1.Rescale | src/ParOptVec.c:694-697 | on the first update b0 = gamma/alpha, otherwise b0 is unchanged |
| LimitedMemorySR1.LSR1.Commit | src/ParOptVec.c:699-785 | the pair enters the window, and the tables and compact representation follow it |
| LimitedMemorySR1.LSR1.Store | src/ParOptVec.c:699-753 | msub becomes min(msub + 1, msub_max), the pairs slide, and the tables keep agreeing with them |
| LimitedMemorySR1.LSR1.Assemble | src/ParOptVec.c:755-785 | builds the compact representation over the current window; the pairs are unchanged |
| LimitedMemorySR1.LSR1.GetCompactMat | src/ParOptVec.c:857-867 | returns the size msub, with d0 = 1, Z[i] = y_i - b0 s_i and M symmetric |
| CscStream.Ke | examples/cholesky/cholesky.cpp:14-24 | the element matrix entry for local row 2 ii + ki and column 2 jj + kj: kmat[ii][jj] / 9 when ki == kj, and 0 between the two components; KeSymmetric proves the matrix symmetric |
| CscStream.KeSymmetric | examples/cholesky/cholesky.cpp:14-24 | the 8-by-8 element matrix is symmetric |
| CscStream.Nodes | examples/cholesky/cholesky.cpp:34-35 | the four grid nodes of element (i, j), lower-left, lower-right, upper-left, upper-right; NodesInGrid proves they lie in the grid |
| CscStream.NodesInGrid | examples/cholesky/cholesky.cpp:34-35 | every node of an element has both its variables inside [0, size) |
| CscStream.Var | examples/cholesky/cholesky.cpp:39-42 | a variable, renumbered by iperm when given, lies in [0, size) |
| CscStream.ElementVars | examples/cholesky/cholesky.cpp:37-45 | the eight variables 2 nodes[ii] + k of an element (after iperm when given), component 0 first, in the order the counting loop visits them |
| CscStream.RowVars | examples/cholesky/cholesky.cpp:33-46 | the variables of elements (i, j) .. (i, nx - 1) in visiting order, 8 per element |
| CscStream.MeshVars | examples/cholesky/cholesky.cpp:32-47 | the variables of the elements of rows i .. nx - 1 in visiting order; MeshVarsLength, MeshVarsInRange and Counts state what the counting pass makes of it |
| CscStream.SlotEntry | examples/cholesky/cholesky.cpp:65-76 | fill entry k of an element, decoded into (ki, kj, ii, jj) in loop order: column v[4 ki + ii], row v[4 kj + jj], value ke; ElementIndex states it by position |
| CscStream.ElementEntries | examples/cholesky/cholesky.cpp:65-81 | the 64 fill entries of an element in the order of the fill loops; ElementRuns and ElementCols state their layout |
| CscStream.EntriesOf | examples/cholesky/cholesky.cpp:60-83 | the fill stream of a sequence of elements, 64 entries each, in visiting order; EntriesCols and EntriesInRange state what it puts into each column |
| CscStream.ElementIndex | examples/cholesky/cholesky.cpp:65-76 | the fill entry for local row 2 ii + ki and column 2 jj + kj has column v[4 ki + ii], row v[4 kj + jj] and value ke |
| CscStream.ElementRuns | examples/cholesky/cholesky.cpp:65-78 | an element's 64 entries come in 16 runs of four, each run within one column |
| CscStream.ElementCols | examples/cholesky/cholesky.cpp:60-83 | an element puts 8 entries into the column of each of its variables |
| CscStream.EntriesCols | examples/cholesky/cholesky.cpp:32-83 | the fill pass puts into every column exactly the count the counting pass gave it |
| CscStream.MeshVarsLength | examples/cholesky/cholesky.cpp:32-47 | the counting pass visits 8 variables for each of the nx * nx elements |
| CscStream.Starts | examples/cholesky/cholesky.cpp:49-55 | offset c is the sum of the counts of the columns before c, with the total last |
| CscStream.Counts | examples/cholesky/cholesky.cpp:32-47 | column c's count is 8 times the number of times an element has c as a variable |
| CscStream.StartsOrdered | examples/cholesky/cholesky.cpp:49-55 | the offsets start at 0, never decrease, and column c spans its count |
| CscStream.CountsTotal | examples/cholesky/cholesky.cpp:49-55 | the counts add up to 8 per variable visited |
| CscStream.MeshVarsInRange | examples/cholesky/cholesky.cpp:32-47 | every variable the counting pass visits lies in [0, size) |
| CscStream.EntriesInRange | examples/cholesky/cholesky.cpp:69-75 | every fill entry has its column and its row in [0, size) |
| CscLayout.Put | examples/cholesky/cholesky.cpp:75-77 | placing an entry keeps the sizes of the head, row and value arrays |
| CscLayout.PutAt | examples/cholesky/cholesky.cpp:75-77 | an entry is written at the head of its column, and that head moves on by one |
| CscLayout.HeadBound | examples/cholesky/cholesky.cpp:75-77 | the next entry's head lies inside the rows array |
| CscLayout.ScatterInv | examples/cholesky/cholesky.cpp:60-83 | part way through the fill, each head is past the entries its column received, and the remaining entries exactly fill what is left |
| CscLayout.ScatterDone | examples/cholesky/cholesky.cpp:60-83 | at the end every head reaches the next column's start, and each column holds its entries' rows and values in stream order |
| Cholesky.ElementMatrix | examples/cholesky/cholesky.cpp:14-24 | ke[8 (2 ii + ki) + 2 jj + kj] is kmat[ii][jj]/9 when ki == kj, and 0 across components |
| Cholesky.LocalIndex | examples/cholesky/cholesky.cpp:21 | distinct (ii, ki, jj, kj) address distinct entries of ke |
| Cholesky.ElementLocated | examples/cholesky/cholesky.cpp:34-42 | the element's variables are 2 nodes[ii] + k, renumbered by iperm when given |
| Cholesky.CountElement | examples/cholesky/cholesky.cpp:37-45 | colp[c] grows by 8 for every time c is a variable of the element |
| Cholesky.CountRow | examples/cholesky/cholesky.cpp:33-46 | colp[c] grows by 8 times c's occurrences in the row's elements |
| Cholesky.CountColumns | examples/cholesky/cholesky.cpp:28-47 | starting from a zeroed colp, colp[c] becomes 8 times c's occurrences over the mesh |
| Cholesky.PrefixSum | examples/cholesky/cholesky.cpp:49-55 | the counts become exclusive prefix sums, and nnz == colp[size] is their total |
| Cholesky.Place | examples/cholesky/cholesky.cpp:75-77 | rows, kvals and colp are the value-level state after one more entry |
| Cholesky.FillRun | examples/cholesky/cholesky.cpp:68-78 | the jj loop places its four stream entries |
| Cholesky.FillBlock | examples/cholesky/cholesky.cpp:67-79 | the ii loop places its 16 stream entries |
| Cholesky.FillCols | examples/cholesky/cholesky.cpp:66-80 | the kj loop places its 32 stream entries |
| Cholesky.FillElement | examples/cholesky/cholesky.cpp:65-81 | an element's loops place its 64 entries in stream order |
| Cholesky.FillRow | examples/cholesky/cholesky.cpp:61-82 | a mesh row's loops place that row's entries |
| Cholesky.FillMesh | examples/cholesky/cholesky.cpp:60-83 | the fill pass places the whole stream in order |
| Cholesky.CountsLayout | examples/cholesky/cholesky.cpp:32-55 | the prefix-summed counts are a column layout for the fill stream, ending at 8 per variable |
| Cholesky.MeshLayout | examples/cholesky/cholesky.cpp:26-55 | the layout fits the mesh's fill stream, and colp[size] == nnz == 64 nx^2 |
| Cholesky.ShiftBack | examples/cholesky/cholesky.cpp:85-88 | colp[0] == 0 and colp[c] == old colp[c-1] for c > 0 |
| Cholesky.ColumnStarts | examples/cholesky/cholesky.cpp:26-55 | colp holds the column start offsets of the mesh's counts, and nnz == colp[size] |
| Cholesky.StoredRows | examples/cholesky/cholesky.cpp:69-75 | every stored row index lies in [0, size) |
| Cholesky.FillDone | examples/cholesky/cholesky.cpp:60-88 | after the fill each head sits at the next column's start, so the shift-back restores the offsets |
| Cholesky.FillColumns | examples/cholesky/cholesky.cpp:57-88 | rows and kvals are in CSC form for the stream, and colp ends as it began |
| Cholesky.BuildMatrix | examples/cholesky/cholesky.cpp:5-94 | size == 2 (nx+1)^2, colp is the prefix sum of the counts with colp[0] == 0 and colp[size] == 64 nx^2, column c holds its entries in stream order, and every row index is in [0, size) |
| Cholesky.InverseIsPerm | examples/cholesky/cholesky.cpp:115-118 | an array q with q[p[i]] == i is a permutation, and p[q[k]] == k |
| Cholesky.InversePerm | examples/cholesky/cholesky.cpp:115-118 | iperm[perm[i]] == i, perm[iperm[k]] == k, and iperm is a permutation |
| Cholesky.RowTotalStep | examples/cholesky/cholesky.cpp:127-131 | one more stored entry adds its value to its own row's total only |
| Cholesky.RowSums | examples/cholesky/cholesky.cpp:123-131 | b[r] is the sum of kvals[p] over the stored entries with rows[p] == r |
| Cholesky.PermutedSystem | examples/cholesky/cholesky.cpp:115-131 | the matrix is rebuilt under the inverse permutation, and b holds its row sums |
| Rosenbrock.Sq | examples/python/rosenbrock.py:40 | t ** 2 is positive unless t is 0 |
| Rosenbrock.Objective | examples/python/rosenbrock.py:40 | fobj = 100 (x1 - x0 ** 2) ** 2 + (1 - x0) ** 2; ObjectiveZero, SlopeX0, SlopeX1 and Optimum state what it is |
| Rosenbrock.Constraint | examples/python/rosenbrock.py:41 | the constraint x0 + x1 + 5, feasible when non-negative; ConstraintLinear ties it to the Jacobian |
| Rosenbrock.ObjectiveZero | examples/python/rosenbrock.py:40 | the objective is never negative, and is 0 exactly at (1, 1) |
| Rosenbrock.Gradient | examples/python/rosenbrock.py:49-50 | the two entries 200 (x1 - x0 ** 2) (-2 x0) - 2 (1 - x0) and 200 (x1 - x0 ** 2); SlopeX0 and SlopeX1 prove them the slopes of the objective |
| Rosenbrock.Jacobian | examples/python/rosenbrock.py:53-54 | the constraint Jacobian row [1, 1], the same at every point; ConstraintLinear proves it exact |
| Rosenbrock.Stationary | examples/python/rosenbrock.py:49-50 | the gradient is [0, 0] exactly at (1, 1) |
| Rosenbrock.SlopeX0 | examples/python/rosenbrock.py:49 | g[0] is the slope of the objective along x0, the change differing from h g[0] by terms in h^2 and higher |
| Rosenbrock.SlopeX1 | examples/python/rosenbrock.py:50 | the change along x1 is h g[1] + 100 h^2, so g[1] is the slope along x1 |
| Rosenbrock.ConstraintLinear | examples/python/rosenbrock.py:41-54 | the constraint changes by exactly the Jacobian row [1, 1] times the step |
| Rosenbrock.Optimum | examples/python/rosenbrock.py:27-41 | (1, 1) is inside the bounds and feasible, and it has the least objective, strictly |
| Rosenbrock.Linspace | examples/python/rosenbrock.py:71 | n evenly spaced values from lo to hi; LinspaceEnds states its ends and order |
| Rosenbrock.LinspaceEnds | examples/python/rosenbrock.py:71 | the grid starts at lo, ends at hi, and strictly increases when lo < hi |
| Rosenbrock.GridRow | examples/python/rosenbrock.py:75-76 | row j holds the points (xs[i], xs[j]) in the order of i |
| Rosenbrock.GridSize | examples/python/rosenbrock.py:74-77 | m grid rows hold m * n points |
| Rosenbrock.Problem.constructor | examples/python/rosenbrock.py:11-21 | nvars == 2, ncon == 1, and the history is empty |
| Rosenbrock.Problem.GetVarsAndBounds | examples/python/rosenbrock.py:25-30 | lb = -2, ub = 2 and x = -2 + u, so lb <= x <= ub |
| Rosenbrock.Problem.EvalObjCon | examples/python/rosenbrock.py:32-42 | x is appended to the history, fail == 0, fobj is the objective at x, and con == [x0 + x1 + 5] |
| Rosenbrock.Problem.EvalObjConGradient | examples/python/rosenbrock.py:44-55 | fail == 0, g[0..2) is the gradient, A[0] is [1, 1], nothing else is written, and the history is untouched |
| Rosenbrock.Problem.ContourRow | examples/python/rosenbrock.py:75-77 | r[j, i] is the objective at (xs[i], xs[j]), and the row's points are appended to the history |
| Rosenbrock.Problem.ContourGrid | examples/python/rosenbrock.py:68-77 | r is the objective over the whole grid, and the history grows by the grid, row after row |
| Rosenbrock.Problem.Trial | examples/python/rosenbrock.py:89-101 | after x_hist is reset, the path read back is exactly the trial's points |
| Rosenbrock.Problem.PlotItAll | examples/python/rosenbrock.py:57-109 | the contour data over linspace(-4, 4, 150), and each trial's path is that trial's points only |

## Left out

- MPI: every reduction (`MPI_Allreduce` in `dot`, `maxabs`, `mdot` and `norm`) is taken over one process.
- `ParOptVec::norm`: BLAS `dnrm2` and `sqrt` have no exact model over reals.
- `ParOptVec::mdot`: used only inside the correction term of `mult` and `multAdd`, which is a parameter (see below).
- `ParOptVec::writeToFile`: MPI-IO file output.
- The destructors only free memory.
- LAPACK `dgetrf` and `dgetrs`: the LU factorisation of `M_factor`, the pivots `mfpiv`, and the solve in `mult` and `multAdd`.
  - `LimitedMemoryBFGS.LBFGS.Mult`, `MultAdd` and `Update` (and the LSR1 ones) take the correction term `Z*diag(d0)*M^{-1}*diag(d0)*Z^T*x` as a vector argument `c`, applied when `msub > 0`.
  - The model proves that M, Z and d0 are set up as the factorisation expects, and that `M_factor` is a copy of M. It does not model the factored values.
- QuasiNewton.Quotient: the IEEE quotient by zero (an infinity or NaN) cannot be a real. The model yields 0 for it, so `gamma/alpha` and `theta` with a zero denominator are not faithful.
- LimitedMemoryBFGS.LBFGS.constructor and LimitedMemorySR1.LSR1.constructor require `msub_max > 0`, where the source accepts 0. With `msub_max == 0`, the first `update` would store into slots 0 and -1 of empty arrays (see Findings).
- The layout of `M` and `M_factor`:
  - the model keeps them as 2-D tables of side `2*msub_max` (LSR1: `msub_max`) and fills the leading `2*msub`-by-`2*msub` (LSR1: `msub`-by-`msub`) block;
  - the source uses flat column-major buffers whose leading dimension is `2*msub` (LSR1: `msub`), and rebuilds them in that layout on every update;
  - `getCompactMat` returns that flat buffer, while the model's GetCompactMat returns the table and its block size. Entry (i, j) of the table is the source's `M[i + 2*msub*j]` (LSR1: `M[i + msub*j]`).
- Floating point: all scalars are exact reals, so rounding is not modelled. The complex-step `ParOptScalar` and `RealPart` become plain reals.
- Rosenbrock.Sq: `x ** 2` is written through `Mul(t, t)`, the product with its sign rule. The value is the same real product.
- `ParOptAMD`, `ParOptSortAndRemoveDuplicates`, `ParOptSparseCholesky` and the `printf`/`sqrt` error report in `main`: external code not part of this model.
  - Cholesky.PermutedSystem takes the AMD ordering `perm` as an argument and requires it to be a permutation.
- Cholesky.BuildMatrix: the element loops use `int` without overflow. The model's integers are unbounded, which matches the source for any mesh whose `64*nx*nx` fits in `int`.
- Rosenbrock.Problem.GetVarsAndBounds takes the uniform draws `u` in [0, 1) as a parameter, in place of `np.random.uniform`. It requires x, lb and ub to be distinct arrays.
- Rosenbrock.Problem.EvalObjCon and Rosenbrock.Problem.EvalObjConGradient require at least two entries in `x`. Python would raise `IndexError` for a shorter `x`, after the append in `evalObjCon`.
- Rosenbrock.Problem.PlotItAll and Rosenbrock.Problem.Trial:
  - the points each `opt.optimize()` run evaluates are passed in as `trials`;
  - the optimizer, `resetQuasiNewtonHessian`, the barrier and line-search settings, the contour levels and all matplotlib plotting are external or UI.

## Findings

| source | as written | input that shows it | evidently intended | confidence | as-written member | corrected member |
|---|---|---|---|---|---|---|
| src/ParOptVec.c:197-209, 359-378 (LSR1: 568-576, 700-718) | the constructors accept `msub_max == 0` and allocate `S` and `Y` of length 0; `update` then takes the full-window branch and stores into `S[0]`, `Y[0]`, `S[msub-1]` and `Y[msub-1]` | `msub_max = 0`, then any `update(s, y)` | a window holds at least one pair, `msub_max > 0` | not executed | QuasiNewton.StoreSlotsEmptyCapacity | QuasiNewton.StoreSlotsInRange, with `0 < msubMax` required by LimitedMemoryBFGS.LBFGS.constructor and LimitedMemorySR1.LSR1.constructor |
