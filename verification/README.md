# Multilinear grid interpolant (CasADi `LinearInterpolant`)

This project is a Dafny model of CasADi's `linear` interpolant plugin:
`LinearInterpolant` and its first-derivative companion
`LinearInterpolantJac`, declared in
`casadi/solvers/interpolant/linear_interpolant.hpp`.

## What the interpolant does

An interpolant is built from three arrays:
- `grid`: the knots of all dimensions, concatenated;
- `offset`: splits `grid` into the knots of each dimension. Dimension `k`
  owns `grid[offset[k] .. offset[k+1])`, and there are `|offset| - 1`
  dimensions;
- `values`: a flat table with one entry per grid node, so its length is the
  product of the knot counts.

Each dimension also has a lookup mode that says how the cell of a coordinate
is found: linear scan, bisection, or exact lookup on equally spaced knots.

`eval` computes the value at a query point `x` in three steps:
1. For each coordinate it finds the cell `[g[i], g[i+1]]` of that
   dimension's knots. The cell index is clamped to the first and last cells,
   so points outside the grid extrapolate linearly from a boundary cell.
2. It computes the fraction `alpha = (x - g[i]) / (g[i+1] - g[i])` of the
   coordinate within its cell.
3. It sums the table values at the `2^d` corners of the cell, each times the
   product of its per-axis knot weights (`1 - alpha` or `alpha`).

The corners are enumerated with a binary counter held in the integer scratch
buffer `iw[d..2d)`. The cell indices are kept in `iw[0..d)` and the fractions
in `w[0..d)`.

The Jacobian's entry `k` is the same corner sum with the weights of axis `k`
replaced by `-1` and `+1`, divided by the width of the cell on axis `k`.

### Structure

The model is split into modules:
- `Layout`: offsets, knot blocks, node counts and flat table positions.
- `Lookup`: the three lookup modes. Each is proved to find `CellIndex`, the
  number of interior knots at or below the coordinate.
- `Corners`: corners as 0/1 vectors, their numbering, and the in-place
  counter `Flip`.
- `Multilinear`: the blend. `Blend` is the successive reduction one axis at a
  time. `Prefix` and `Term` are the corner sum in counting order. They are
  proved equal.
- `Interpolant`: grid validation, the specification functions `ValueAt` and
  `Gradient`, the evaluation methods over the scratch arrays, and the two
  classes.
- `Properties`: what the interpolant promises at the level of query points.
  It reproduces the table at the nodes and is the textbook linear
  interpolation in one dimension. Within a cell it is linear in each
  coordinate, with the slope the Jacobian reports. Neighbouring cells agree
  on their shared face.

### Modelling choices

Values and knots are mathematical `real`s, not IEEE doubles, and knots must
be strictly increasing.

The table order follows CasADi's evaluation kernel: dimension 0 varies
fastest, and the stride of dimension `k` is the product of the knot counts
of the dimensions before it. The header does not fix the order, and
`casadi/core/runtime/casadi_interpn.hpp` (the kernel) is not part of this
model. The order is built into the strides (`Layout.Stride`,
`Interpolant.Strides`), into the running stride of the corner loop
(`Interpolant.CornerProduct`, `Interpolant.AxisStep`) and into the bounds on
flat positions (`Layout.FlatInRange`). A row-major table (last dimension
fastest) would change all of them.

`Multilinear.Mul(a, b)` is `a * b`. It exists only so that products of
reals reach the solver's nonlinear arithmetic in the few lemmas that
multiply them out; read it as multiplication in every contract.

Exact lookup truncates the scaled position toward zero and then clamps.
After clamping, truncation selects the same cell as rounding down.

At an interior knot, the lookup returns the cell above the knot. The
Jacobian there is therefore the one-sided derivative from the upper cell.
`Properties.FaceContinuous` shows that the value itself does not depend on
that choice.

`eval` receives the cell indices and fractions as sequence values read from
`iw[0..d)` and `w[0..d)`. Only the corner counter `iw[d..2d)` is written
while the corners are summed.

## Model

| member | source | states |
|---|---|---|
| Layout.KnotsPartitionGrid | casadi/solvers/interpolant/linear_interpolant.hpp:52-54 | the knot blocks of the dimensions, concatenated in dimension order, are exactly the `grid` buffer |
| Layout.FlatInRange | casadi/solvers/interpolant/linear_interpolant.hpp:53-55 | the flat position of a node multi-index lies in `[0, number of nodes)` of the dimensions it covers |
| Layout.FlatInjective | casadi/solvers/interpolant/linear_interpolant.hpp:53-55 | distinct nodes have distinct flat positions, so the table holds one entry per node |
| Layout.TableNonEmpty | casadi/solvers/interpolant/linear_interpolant.hpp:53-55 | a well-formed grid has at least one table entry, so every cell has corners to read; a standalone fact that no other contract relies on |
| Lookup.CellIndex | casadi/solvers/interpolant/linear_interpolant.hpp:101 | the cell of a coordinate is an index in `[0, n-2]` |
| Lookup.CellIndexIsBracket | casadi/solvers/interpolant/linear_interpolant.hpp:101 | the cell index brackets the coordinate: `g[i] <= x` unless `i` is the first cell, and `x < g[i+1]` unless `i` is the last |
| Lookup.BracketUnique | casadi/solvers/interpolant/linear_interpolant.hpp:101 | on strictly increasing knots a coordinate has at most one bracketing cell; with `CellIndexIsBracket`, exactly one |
| Lookup.BracketIsCellIndex | casadi/solvers/interpolant/linear_interpolant.hpp:101 | any bracketing cell is the cell index, so every lookup that brackets finds the same cell |
| Lookup.CellEnclosesPoint | casadi/solvers/interpolant/linear_interpolant.hpp:101 | inside the knot range the cell found satisfies `g[i] <= x <= g[i+1]` |
| Lookup.LinearScan | casadi/solvers/interpolant/linear_interpolant.hpp:101 | the linear scan returns the cell index |
| Lookup.BinarySearch | casadi/solvers/interpolant/linear_interpolant.hpp:101 | bisection returns the cell index |
| Lookup.Trunc | casadi/solvers/interpolant/linear_interpolant.hpp:101 | truncation toward zero: for non-negative input the result is the largest integer at or below it (`t <= r < t + 1`), for negative input the smallest integer at or above it (`t - 1 < r <= t`), so never above 0 |
| Lookup.UniformIncreasing | casadi/solvers/interpolant/linear_interpolant.hpp:101 | equally spaced knots have a positive step and are strictly increasing |
| Lookup.ExactIndex | casadi/solvers/interpolant/linear_interpolant.hpp:101 | exact lookup, the truncated position in units of the knot step clamped to the cells, always names a cell in `[0, n-2]`; `ExactIndexIsCellIndex` shows it is the cell index |
| Lookup.ExactIndexIsBracket | casadi/solvers/interpolant/linear_interpolant.hpp:101 | on equally spaced knots the truncated, clamped position brackets the coordinate |
| Lookup.ExactIndexIsCellIndex | casadi/solvers/interpolant/linear_interpolant.hpp:101 | on equally spaced knots exact lookup finds the same cell as the searches |
| Lookup.Low | casadi/solvers/interpolant/linear_interpolant.hpp:101 | every lookup mode returns the cell index of the coordinate |
| Corners.CornerOf | casadi/solvers/interpolant/linear_interpolant.hpp:41-42 | the corner with a given number below `2^d` is a 0/1 vector of the cell's dimension, and numbering it gives that number back |
| Corners.NumBound | casadi/solvers/interpolant/linear_interpolant.hpp:41-42 | a corner of a d-dimensional cell has a number below `2^d` |
| Corners.CornerOfNum | casadi/solvers/interpolant/linear_interpolant.hpp:41-42 | every corner is the corner of its own number; with `CornerOf`'s contract, numbering and reading back are inverse both ways |
| Corners.NumUpdate | casadi/solvers/interpolant/linear_interpolant.hpp:75 | setting one digit of a corner changes its number by the difference of that digit's values |
| Corners.Flip | casadi/solvers/interpolant/linear_interpolant.hpp:75 | advances the corner counter in place to the next corner, touching only its own slice; after the last corner it reports false and wraps to the first |
| Multilinear.TermIsWeighted | casadi/solvers/interpolant/linear_interpolant.hpp:41-42 | a corner's contribution is the product of its knot weights times its table value |
| Multilinear.PrefixNone | casadi/solvers/interpolant/linear_interpolant.hpp:41-42 | the sum over no corners is 0 |
| Multilinear.PrefixStep | casadi/solvers/interpolant/linear_interpolant.hpp:41-42 | adding the contribution of corner number `m` to the sum over corners `0..m-1` gives the sum over `0..m` |
| Multilinear.PrefixAll | casadi/solvers/interpolant/linear_interpolant.hpp:41-42 | the sum over all `2^d` corners equals the successive reduction of the cell axis by axis |
| Multilinear.BlendFrame | casadi/solvers/interpolant/linear_interpolant.hpp:41-42 | the blend over axes `0..k-1` depends only on those axes' offsets and weights |
| Multilinear.BlendAtCorner | casadi/solvers/interpolant/linear_interpolant.hpp:41-42 | with all weight on the knots of one corner, the blend is that corner's table entry |
| Multilinear.BlendAffine | casadi/solvers/interpolant/linear_interpolant.hpp:41-42 | the blend is affine in the weights of any one axis |
| Multilinear.FaceContinuity | casadi/solvers/interpolant/linear_interpolant.hpp:41-42 | two cells adjacent along one axis blend the same value on their shared face |
| Interpolant.CheckGrid | casadi/solvers/interpolant/linear_interpolant.hpp:52-55 | the constructor's arguments are accepted exactly when they are well formed: valid offsets, strictly increasing knots, one value per node; every refusal names a fault the arguments have (offsets out of frame, a dimension with fewer than two knots, a dimension not increasing, a table of the wrong size) |
| Interpolant.CheckOffsets | casadi/solvers/interpolant/linear_interpolant.hpp:54 | offsets are accepted exactly when they start at 0, end at the buffer length and give every dimension two knots; a refusal as out of frame means they do not start at 0, end at the length and stay inside the buffer, and a short dimension is named |
| Interpolant.CheckKnots | casadi/solvers/interpolant/linear_interpolant.hpp:53-54 | knots are accepted exactly when every dimension's block is strictly increasing; a rejected dimension's block is not |
| Interpolant.Increasing | casadi/solvers/interpolant/linear_interpolant.hpp:53 | returns true exactly when the knots are strictly increasing |
| Interpolant.NodeCount | casadi/solvers/interpolant/linear_interpolant.hpp:53-55 | the number of nodes is the product of the knot counts |
| Interpolant.CheckModes | casadi/solvers/interpolant/linear_interpolant.hpp:101 | lookup modes are accepted exactly when there is one per dimension and exact lookup is used only on equally spaced knots; a refusal says either that the count is wrong or which dimension asks for exact lookup on knots that are not equally spaced |
| Interpolant.EquallySpaced | casadi/solvers/interpolant/linear_interpolant.hpp:101 | returns true exactly when the knots are equally spaced |
| Interpolant.CellWidth | casadi/solvers/interpolant/linear_interpolant.hpp:53 | every cell of strictly increasing knots has a positive width |
| Interpolant.CornerOffsetIsFlat | casadi/solvers/interpolant/linear_interpolant.hpp:53-55 | the position of a corner accumulated stride by stride is the flat position of the corner's node |
| Interpolant.CornerInTable | casadi/solvers/interpolant/linear_interpolant.hpp:53-55 | every corner of a valid cell lies inside the value table |
| Interpolant.Weights | casadi/solvers/interpolant/linear_interpolant.hpp:75 | fills `iw[0..d)` with the cell index of each coordinate and `w[0..d)` with its fraction, leaving the rest of both buffers |
| Interpolant.Locate | casadi/solvers/interpolant/linear_interpolant.hpp:75 | one coordinate's lookup, by its dimension's mode, gives the cell index and the fraction within that cell |
| Interpolant.CornerProduct | casadi/solvers/interpolant/linear_interpolant.hpp:75 | the axis loop computes the corner's weight product and its table position |
| Interpolant.AxisStep | casadi/solvers/interpolant/linear_interpolant.hpp:75 | one axis adds its knot weight to the product, its knot to the position and its knot count to the stride |
| Interpolant.CornerTerm | casadi/solvers/interpolant/linear_interpolant.hpp:75 | the corner's position is inside the table, and weight times value is the corner's contribution |
| Interpolant.CornerValue | casadi/solvers/interpolant/linear_interpolant.hpp:75 | computes the contribution of the corner in the counter |
| Interpolant.FirstCorner | casadi/solvers/interpolant/linear_interpolant.hpp:75 | resets the counter to corner 0 and touches nothing else |
| Interpolant.AddTerm | casadi/solvers/interpolant/linear_interpolant.hpp:75 | adding the contribution of the corner in the counter to the sum over the corners before it gives the sum over one corner more |
| Interpolant.Advance | casadi/solvers/interpolant/linear_interpolant.hpp:75 | the counter moves to the next corner, touching only `iw[d..2d)`; it reports false exactly when all `2^d` corners have been visited |
| Interpolant.AddCorner | casadi/solvers/interpolant/linear_interpolant.hpp:75 | one round of the corner loop extends the running sum by one corner and advances the counter; it reports false after the last corner |
| Interpolant.SumCorners | casadi/solvers/interpolant/linear_interpolant.hpp:75 | the corner loop's sum is the multilinear blend of the cell, and only the counter is written |
| Interpolant.Interpolate | casadi/solvers/interpolant/linear_interpolant.hpp:75 | the blend of the cells at the fractions, for the value or one axis's derivative, writing only the counter |
| Interpolant.LinearInterpolant.constructor | casadi/solvers/interpolant/linear_interpolant.hpp:52-55 | keeps the grid, offsets, table and lookup modes of a well-formed grid |
| Interpolant.LinearInterpolant.Create | casadi/solvers/interpolant/linear_interpolant.hpp:64-69 | builds an interpolant exactly when the arguments are well formed and the modes fit; a refusal names a fault of the grid, or, for a well-formed grid, a fault of the modes |
| Interpolant.LinearInterpolant.Eval | casadi/solvers/interpolant/linear_interpolant.hpp:75 | writes `ValueAt(x)` to `res[0]` and no other entry of `res`; the grid and table are immutable |
| Interpolant.AxisDerivative | casadi/solvers/interpolant/linear_interpolant.hpp:126 | computes the slope of one axis, writing only the counter |
| Interpolant.StoreSlope | casadi/solvers/interpolant/linear_interpolant.hpp:126 | stores the slope of axis `k` in `res[k]`, leaving the other entries |
| Interpolant.JacobianRow | casadi/solvers/interpolant/linear_interpolant.hpp:126 | fills `res[0..d)` with the slope of every axis, leaving the rest of `res` |
| Interpolant.LinearInterpolant.GetJacobian | casadi/solvers/interpolant/linear_interpolant.hpp:80-83 | returns a new Jacobian function of this interpolant |
| Interpolant.LinearInterpolantJac.constructor | casadi/solvers/interpolant/linear_interpolant.hpp:108 | keeps the interpolant it differentiates; the header's constructor takes only a name and the link to the interpolant is made elsewhere, so here that link is a constructor argument |
| Interpolant.LinearInterpolantJac.Eval | casadi/solvers/interpolant/linear_interpolant.hpp:126 | writes the gradient at `x` to `res[0..d)` and leaves the rest of `res` |
| Properties.KnotCell | casadi/solvers/interpolant/linear_interpolant.hpp:101 | at knot `i` the lookup finds cell `i` (cell `n-2` at the last knot), and the fraction is 0 (1 at the last knot) |
| Properties.NodeCorner | casadi/solvers/interpolant/linear_interpolant.hpp:41-42 | a grid node is a corner of the cells its coordinates fall in |
| Properties.BlendAtNode | casadi/solvers/interpolant/linear_interpolant.hpp:41-42 | at fractions 0 or 1 on every axis, the blend is the table entry of the corner node |
| Properties.NodeRecovery | casadi/solvers/interpolant/linear_interpolant.hpp:41-42 | the interpolant interpolates: at every grid node it returns that node's table value |
| Properties.OneDimensional | casadi/solvers/interpolant/linear_interpolant.hpp:41 | in 1-D the value is `(1-t) v[i] + t v[i+1]`, with `t` the fraction in cell `i`, and the derivative is `(v[i+1]-v[i]) / (x[i+1]-x[i])` |
| Properties.AxisShift | casadi/solvers/interpolant/linear_interpolant.hpp:41-42 | moving one axis's fraction alone moves the blend by the distance times the derivative blend, which does not move |
| Properties.SameCells | casadi/solvers/interpolant/linear_interpolant.hpp:41-42 | two points that differ along one axis within one cell have the same cells, and their fractions differ there by distance over width |
| Properties.LinearAlongAxis | casadi/solvers/interpolant/linear_interpolant.hpp:41-42 | within a cell the value is linear in each coordinate separately, and Jacobian entry `k` is constant along axis `k` and is the slope; outside the knot range this is the linear extension of the boundary cell |
| Properties.FaceContinuous | casadi/solvers/interpolant/linear_interpolant.hpp:41-42 | on a knot shared by two cells, the polynomials of both cells give the same value, so the interpolant is continuous |

## Left out

- `generateBody` (both classes) and `has_codegen`: they emit C source through a code generator that is not part of this model.
- `creator`, `plugin_name`, `options_`, `get_options`, `meta_doc`, `type_name` and the destructors: plugin plumbing with no behaviour of its own. `Interpolant.LinearInterpolant.Create` stands for `creator` plus construction.
- `init` (both classes): how the options choose each dimension's lookup mode is not visible. The model takes the modes as a constructor argument and checks only that they fit the knots.
- `hasFullJacobian`: returns a constant `true`.
- The `void* mem` memory block and null `arg`/`res` pointers: every query point and result buffer is a real array.
- IEEE floating point: rounding at knots, NaN and infinity, and cells of zero width are not modelled. Values are reals and knots strictly increasing.
- Exact lookup requires knots that are exactly equally spaced, not equally spaced up to a tolerance.
- Interpolant.LinearInterpolantJac.Eval: computes each axis's entry by a separate pass over the corners, rather than with prefix and suffix products of the weights shared between axes. Only the result is the same.
- Lookup.LinearScan: always scans from the first cell. It does not model a search that resumes from a cell hint kept between calls.
- Interpolant.LinearInterpolant.Eval: the cell indices and fractions are passed to the corner loop as sequence values copied from `iw[0..d)` and `w[0..d)`, so aliasing between those buffers and the counter is not modelled.
- Interpolant.LinearInterpolant.Eval and Interpolant.LinearInterpolantJac.Eval: both require a query point with one coordinate per dimension (`x.Length == |offset| - 1`). A query of the wrong length is a precondition here, not an error the evaluation reports.
- 32-bit `int`: offsets, knot counts, the node count, table positions and the corner counter are unbounded integers. Overflow of a large grid is not modelled.
- Lookup.Trunc: truncates every real toward zero. A double outside the range of `int`, whose conversion is undefined in C, is not modelled.
- `casadi/interfaces/qpoases/qpoases_interface.hpp` and `casadi/convex_programming/qcqp_qp_solver.hpp`: adapters around external solvers, unrelated to the interpolant.
