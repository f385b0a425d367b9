# Grid-search optimizer and linear decision stub, modelled in Dafny

This project models two Python components.

- **The brute-force grid-search optimizer** (`src/greedy_optimizer.py`), module
  `GreedyOptimizer` in `greedy_optimizer.dfy`.
  - `split_interval` splits an interval `[a, b]` into `n = int((b-a)/p)` points `a + i*(b-a)/n`.
  - `discretize_space` splits every interval of the search space in order and combines the splits with `get_all_points`.
  - `search_optimal_point` scans the grid once. It keeps a point only when its score is strictly greater than a running maximum that starts at `0`.
- **The linear decision stub** (`src/svm.py`), module `SupportVectorMachine` in `svm.dfy`.
  - The class `Svm` holds the two datasets, the feature dimension, a weight vector and a bias. Weights and bias start at zero.
  - `Predict` returns whether `w.x + b >= 0`.

Coordinates are Dafny `real`s, so `a + i*(b-a)/n` is exact. Python's `int()` becomes `Trunc`, which truncates toward zero.

Each imperative function of the source becomes a `method` that keeps the source's loop:
- `SplitInterval` fills a zero-initialised array by index.
- `DiscretizeSpace` appends the splits one by one.
- `GetAllPoints` recurses, and builds its points with nested appending loops.
- `SearchOptimalPoint` updates the best point and the running maximum.

Each method's contract ties its result to a specification function: `Split`, `AllPoints(Splits(...))`, or, for the search, the point `Scan` keeps, together with exactly when the search succeeds. The properties are lemmas about those functions.

Where the source raises an `IndexError`, the model returns `Err(...)`. There are three such places:
- `NoDimensions`: the search space is empty (line 69).
- `EmptySubGrid`: the sub-grid has no first point (line 78).
- `EmptyGrid`: the grid has no first point (line 19).

Behaviour kept as the code has it, where the source's own docstrings promise more. The docstring of `get_all_points` (src/greedy_optimizer.py:58-67) promises every point formed by combining the coordinates of the vectors:
- `get_all_points` is an ordered Cartesian product only for two vectors (`AllPointsTwo`).
  - One vector is returned unchanged, so a one-dimensional space gives a single "point": the whole split (`DiscretizeOne`).
  - With three or more vectors, line 78 keeps only the first sub-point. Every point is then a pair made of a coordinate of the first vector and one of the first coordinates of the second and third vectors. When the first vector is non-empty, the combination also fails if any later vector is empty. When the first vector is empty, it gives no points and does not fail (`AllPointsThreeOrMore`).
- A single interval shorter than the partition size (the docstring at src/greedy_optimizer.py:89-90 assumes at least one piece) raises no error. The space becomes one point with no coordinates (`ShortIntervalYieldsEmptyPoint`).
- The running maximum starts at `0`, although the docstring (src/greedy_optimizer.py:4-6) promises the point of maximum score. When no score is positive, the result is the first grid point (`SearchOptimalPoint`, `SearchResultOnGrid`).

## Model

| member | source | states |
|---|---|---|
| `GreedyOptimizer.SplitInterval` | src/greedy_optimizer.py:88-107 | Filling a zero-initialised buffer of `n = int((b-a)/p)` slots by index gives exactly the split `Split`: `n` points, point `i` being `a + i*(b-a)/n` |
| `GreedyOptimizer.SplitCount` | src/greedy_optimizer.py:101-102 | For `p > 0` and `a <= b` the point count is `floor((b-a)/p)`, the number of whole partitions that fit: `n*p <= b-a < (n+1)*p` |
| `GreedyOptimizer.SplitGeometry` | src/greedy_optimizer.py:104-105 | A non-empty split starts at `a`, consecutive points differ by the re-derived step `(b-a)/n`, and for `a < b` every point lies in `[a, b)` |
| `GreedyOptimizer.SplitShort` | src/greedy_optimizer.py:101-104 | An interval shorter than the partition size is split into no points |
| `GreedyOptimizer.SplitWhole` | src/greedy_optimizer.py:101-105 | A partition size equal to the interval length gives exactly the point `a` |
| `GreedyOptimizer.PairsLength` | src/greedy_optimizer.py:77-83 | The nested loops produce `|xs|*|ys|` pairs |
| `GreedyOptimizer.PairsIndex` | src/greedy_optimizer.py:77-83 | The pair at `i*|ys| + j` is `[xs[i], ys[j]]`: the outer coordinate varies slowest |
| `GreedyOptimizer.PairsMembers` | src/greedy_optimizer.py:82-83 | Every generated point has two coordinates, the first from `xs` and the second from `ys` |
| `GreedyOptimizer.PairsFirst` | src/greedy_optimizer.py:77-83 | The pairs are empty exactly when one side is; otherwise the first pair is `[xs[0], ys[0]]` |
| `GreedyOptimizer.GetAllPoints` | src/greedy_optimizer.py:57-85 | The recursive nested-loop combination equals `AllPoints`: an empty list fails, a single vector list is returned unchanged, an empty first vector gives no points, and an empty sub-grid fails at the `[0]` |
| `GreedyOptimizer.AllPointsTwo` | src/greedy_optimizer.py:69-85 | Two vectors combine into their ordered product, `|v0|*|v1|` points, whatever the lengths |
| `GreedyOptimizer.AllPointsThreeOrMore` | src/greedy_optimizer.py:69-85 | With three or more vectors: no points if the first is empty; otherwise failure if any later vector is empty, else the pairs of the first vector with `[v1[0], v2[0]]`, so not a product |
| `GreedyOptimizer.DiscretizeSpace` | src/greedy_optimizer.py:34-54 | Splitting the intervals one by one, appending in the order of the space, and combining gives `AllPoints(Splits(space, p))`, where split `k` is the split of interval `k` |
| `GreedyOptimizer.DiscretizeOne` | src/greedy_optimizer.py:46-52 | A one-dimensional space gives a single point, which is the whole split of its interval |
| `GreedyOptimizer.DiscretizeTwo` | src/greedy_optimizer.py:46-52 | A two-dimensional space gives the ordered product of its two splits, `n0*n1` points |
| `GreedyOptimizer.UnitGrid` | src/greedy_optimizer.py:34-54 | The space `[0,2] x [0,2]` at partition size 1 discretizes to `(0,0), (0,1), (1,0), (1,1)` in that order |
| `GreedyOptimizer.ShortIntervalYieldsEmptyPoint` | src/greedy_optimizer.py:73-74 | The space `[0, 0.05]` at partition size 0.1 does not fail: it discretizes to one point with no coordinates |
| `GreedyOptimizer.Scan` | src/greedy_optimizer.py:19-29 | The index of the point kept by the scan is always a valid index of the grid |
| `GreedyOptimizer.ScanKeepsFirstMaximum` | src/greedy_optimizer.py:19-29 | After scanning `k` points: if none scored above 0, the kept point is the first point and the maximum is 0; otherwise the kept point is the first of them with the greatest score, and that score is the maximum |
| `GreedyOptimizer.SearchOptimalPoint` | src/greedy_optimizer.py:3-31 | Succeeds exactly when the discretized space is non-empty. A discretization failure is passed on, and an empty grid fails. On success the result is a grid point: the one the scan keeps, and the first grid point when no score is positive |
| `GreedyOptimizer.SearchResultOnGrid` | src/greedy_optimizer.py:19-31 | On a non-empty grid the kept point is the first point when no score is positive; otherwise it is the first point in scan order with a strictly positive, greatest score. Ties keep the earlier point |
| `SupportVectorMachine.DotZero` | src/svm.py:29 | The dot product of any input with a zero weight vector is 0 |
| `SupportVectorMachine.Svm.constructor` | src/svm.py:5-16 | Keeps both datasets and sets the feature dimension to the training column count minus one. Weights are that many zeros and the bias is 0, so every input of that dimension has discriminant 0 |
| `SupportVectorMachine.Svm.Predict` | src/svm.py:19-36 | True exactly when `w.x + b >= 0`, so a discriminant of 0 is positive; a model with zero weights and zero bias predicts true for every input; it changes no field |

## Left out

- The `test` function and its call at import time (src/greedy_optimizer.py:110-122) are a printing demo, not part of the optimizer.
- IEEE floating-point rounding is not modelled. Coordinates and scores are exact reals, and `int()` is exact truncation toward zero.
- Division by a zero partition size, and `np.zeros` with a negative length, are precondition violations rather than modelled errors. `Splittable` asks for exactly what `split_interval` needs: `p != 0` and `int((b-a)/p) >= 0`. So `a > b` is admitted when the count truncates to 0.
- numpy array shapes and conversions (`np.array(points)`) are not modelled; points and grids are plain sequences.
- The score function is an arbitrary total, deterministic function from a point to a real. Its contents, and any exception it raises, are not modelled.
- The pandas datasets of `svm.py` are represented only by their column count (`Dataset`). A training set with no columns is a precondition violation, because `np.zeros` would receive a negative length.
- `Svm.Predict` requires the input length to equal the weight count. numpy's error for a length mismatch is not modelled.
- Re-running the search gives the same result every time. Every member here is a deterministic function of its inputs, so no separate statement is made.
