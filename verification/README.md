# dcpcr point-cloud utilities in Dafny

A model of the array-shaping toolkit of the dcpcr registration code
(`dcpcr/utils/utils.py`): the functions that bring point clouds to the fixed
shape the registration network expects and that apply the network's pose.

- `pad` fixes the point axis of an array to `n_points` rows. It copies a prefix
  and fills the rest with zero rows, or first draws rows at random without
  replacement. It returns the resized array and a `[n_points x 1]` validity mask.
  Both the two-dimensional branch and the batched branch are modelled.
- `makeHomogeneous` keeps the first three coordinates of every row and appends 1.
- `extractPc` (with `normalize=False`) packs xyz and rgb rows into one
  `[1 x length x 6]` array.
- `transform` lifts points to homogeneous form, multiplies each by the pose `T`
  as a column vector, and returns the xyz of the first batch element.

Arrays are exact: a row is `seq<real>`, a two-dimensional array is
`Arrays.Matrix(width, rows)` and a three-dimensional one is
`Arrays.Batch(points, width, items)`. The trailing dimensions are stored
explicitly, because numpy keeps them for arrays with no rows. Exceptions raised
by numpy and torch become `Results.Err` values. The random draw of `pad`'s
shuffle branch is a parameter. `np.random.choice(n, k, replace=False)` returns the
first `k` entries of a random permutation of `0..n-1`. `Padding.Shuffle(perm)`
passes that permutation in, and the model only requires it to be `n`
distinct positions below `n`.

Modules: `Results` (errors), `Arrays` (shapes), `Padding` (`pad`),
`Homogeneous` (`makeHomogeneous`), `Extraction` (`extractPc`), `Transforms`
(`transform`, plus the matrix algebra its lemmas need), and `Pipeline` (how
`extractPc` and `transform` fit together once the packed array is converted to
a tensor).

`extractPc` does not need as many colour rows as points. It assigns
`clr[:length]` under numpy broadcasting, so a single colour row is repeated for
every point, and any other shortfall raises. `Extraction.ExtractPc` models
that.

## Model

| member | source | states |
|---|---|---|
| `Padding.Pad` | dcpcr/utils/utils.py:65-96 | `pad` on a 2D array fails exactly when the shuffle asks for more rows than exist, or when a negative `n_points` reaches the sampler or `np.zeros`. With `pad=True` the output has `n_points` rows of the input's width. Without shuffle, row `i` is input row `i` when `i < n` and zeros otherwise, and `mask[i] == [i < n]`. With `pad=False` the mask is all true and, without shuffle, the array comes back unchanged. With shuffle the mask is all true and the rows are the input rows at `perm[..n_points]`, a sub-multiset of the input rows |
| `Padding.Sample` | dcpcr/utils/utils.py:71-73 | The shuffle step raises exactly when `n_points` exceeds the row count or is negative, and names which. Otherwise it succeeds and returns the `n_points` rows at `perm[..n_points]` taken at pairwise distinct positions, so they form a sub-multiset of the input, and exactly a reordering of it when `n_points == n` |
| `Padding.GatherDistinct` | dcpcr/utils/utils.py:72-73 | Rows drawn at distinct positions are never more than the input has. They form a sub-multiset of the input, and a permutation of it when as many rows are drawn as exist |
| `Padding.PadRows` | dcpcr/utils/utils.py:76-86 | The 2D `pad=True` result has `n_points` rows and a mask of `n_points` rows. The first `min(n_points, n)` rows are the input's, the rest are zero rows, and the mask is `[true]` exactly on the copied rows |
| `Padding.PadInPlace` | dcpcr/utils/utils.py:79-85 | Starting from all zeros and an all-false mask, then overwriting the first `l` rows and mask entries, yields exactly the padded array and mask |
| `Padding.PadBatch` | dcpcr/utils/utils.py:87-96 | `pad` on a batch fails exactly under the same conditions as the 2D case, using the shared point count, with the same error kinds. With shuffle, every element is drawn at the same positions `perm[..n_points]`. It keeps the batch size and width, gives every element `n_points` rows when padding or shuffling, and returns the batch unchanged for `pad=False` without shuffle |
| `Padding.PadBatchRows` | dcpcr/utils/utils.py:88-96 | The batched `pad=True` step gives every element `n_points` rows of the input width. In element `j`, row `i` is input row `i` when `i < n` and a zero row otherwise, and every mask is `[i < n]` |
| `Padding.PadBatchIsPadPerItem` | dcpcr/utils/utils.py:87-96 | Every batch element of the batched result, with its mask, is what the 2D branch produces for that element under the same random draw |
| `Padding.PadTruncates` | dcpcr/utils/utils.py:80-85 | When `n_points <= n`, padding silently truncates to the first `n_points` rows, with an all-true mask |
| `Padding.PadExtends` | dcpcr/utils/utils.py:79-85 | When `n_points >= n`, the output is all input rows in order followed by `n_points - n` zero rows, and the mask is `n` trues followed by falses |
| `Padding.MaskedRowsAreZero` | dcpcr/utils/utils.py:79-85 | Every row whose mask entry is false is all zeros |
| `Padding.PadIdempotent` | dcpcr/utils/utils.py:76-86 | Padding an already padded array to the same `n_points` leaves it unchanged |
| `Homogeneous.MakeHomogeneous` | dcpcr/utils/utils.py:47-52 | The row count is kept and the width becomes `min(width, 3) + 1`. Each row holds the input row's leading coordinates followed by 1 |
| `Homogeneous.MakeHomogeneousBatch` | dcpcr/utils/utils.py:47-52 | On a batch, the batch and point axes are kept. Every point becomes its leading coordinates followed by 1 |
| `Homogeneous.HomogeneousRoundTrip` | dcpcr/utils/utils.py:47-52 | Dropping the homogeneous coordinate gives back the first three coordinates, and the whole point when the width is 3 |
| `Homogeneous.HomogeneousIdempotent` | dcpcr/utils/utils.py:47-52 | Lifting an already homogeneous array (width at least 3) changes nothing |
| `Transforms.Transform` | dcpcr/utils/utils.py:135-141 | `transform` fails with a shape mismatch exactly when `T`'s column count differs from `min(width, 3) + 1`. Otherwise it fails only on an empty batch, and returns one row per point of width `min(rows of T, 3)` |
| `Transforms.TransformPoint` | dcpcr/utils/utils.py:138-140 | For a 4x4 pose, output coordinate `c` of point `i` is `T[c][0] x + T[c][1] y + T[c][2] z + T[c][3]`, computed from batch element 0 |
| `Transforms.TransformIdentity` | dcpcr/utils/utils.py:135-141 | The identity pose returns the xyz of the first batch element, and the element itself when its width is 3 |
| `Transforms.TransformTranslation` | dcpcr/utils/utils.py:135-141 | A translation pose moves every point of the first batch element by the translation vector |
| `Transforms.TransformCompose` | dcpcr/utils/utils.py:138-140 | Transforming by an affine `B`, wrapping the `[n x 3]` result as a one-element batch, and transforming that by `A` equals transforming once by `A @ B`. Calling `transform` directly on its own rank-2 result would raise at utils.py:140, so the re-wrap stands in for the caller adding the batch axis |
| `Extraction.ExtractPc` | dcpcr/utils/utils.py:121-133 | Packing fails exactly when there are fewer colour rows than points and not exactly one. Otherwise it returns a `[1 x n x 6]` array whose row `i` splits back into point `i` (channels 0-2) and colour `i` (channels 3-5), or the single colour when broadcast. The xyz and rgb arrays pass through unchanged |
| `Pipeline.IdentityPoseReturnsPoints` | dcpcr/utils/utils.py:130-140 | Transforming a packed cloud by the identity pose returns exactly the cloud's points, once the packed array has been converted to a tensor |

`Padding.SampleBatch` (the shared draw at utils.py:72-73) and `Padding.PadBatchRows`
are the two steps of `Padding.PadBatch`; the `PadBatch` row states what the draw
keeps.

## Left out

- `normalizePc` (utils.py:113-119): floating-point mean, square root and division, with no exact contract. `extractPc` is modelled with `normalize=False` only.
- `nanstd` (utils.py:55-62): NaN-aware floating-point statistics on tensors.
- `insideRandBB` (utils.py:26-44): a random rotation and floating-point half-plane tests.
- `dict2object` (utils.py:16-23): `eval` and constructor introspection.
- `torch2o3d` (utils.py:99-111): a wrapper around torch and open3d objects.
- `scaledLas` (utils.py:143-160): in-place rescaling of a LAS file object.
- `storeCsv` (utils.py:162-191): spreadsheet output.
- The default arguments of `pad` (`n_points=2000, pad=True, shuffle=False`): every argument is passed explicitly.
- The `float32` result type of `pad` (utils.py:79, 90) and all floating-point rounding: values are exact reals.
- `Transforms.Transform`: the `device` argument is taken to be the device that holds `points` and `T`. Otherwise `torch.cat` at utils.py:138 or the product at utils.py:139 raises, and that error is not modelled. `makeHomogeneous` puts its ones on `p.device` (utils.py:51), so it cannot meet this case.
- `pad` and `makeHomogeneous` on arrays of rank 4 or more: each extra leading axis nests the same per-element map, so only ranks 2 and 3 are modelled. `pad` on a rank-1 array is not modelled either. With `pad=False` and `shuffle=False` utils.py:74-75 returns the array with a mask of shape `(1,)`. With `shuffle=True` the tuple index `array.shape[-2]` at utils.py:72 raises `IndexError`, and with `pad=True` so does the list index `size[-2]` at utils.py:89.
- `Transforms.Transform`: takes rank-3 points and a single `[k x w]` matrix `T`. Rank-2 points raise an `IndexError` at `ps_t[0, :, :3]` (utils.py:140), and that case is not modelled. A batched `T` is not modelled either; only batch element 0 reaches the result. For rank-4 points the slice at utils.py:140 picks a different axis, and that case is not modelled.
- `Padding.Sample`: the error kind distinguishes only "too many" from "negative". numpy words the `n == 0` case differently, but it raises `ValueError` all the same.
- `Pipeline.IdentityPoseReturnsPoints`: the model treats numpy arrays and torch tensors as one array type. `extractPc` returns a numpy array (utils.py:130), and `torch.cat` at utils.py:138 raises `TypeError` on one, so the lemma assumes the caller first converts the packed array to a tensor, as `torch.tensor(data).float()` does at inference.py:51-52. The product at utils.py:139 also raises when `T` and the lifted points have different dtypes; that error is not modelled either.
- `dcpcr/inference.py`: file I/O, GPU model invocation and visualisation. Its call `extractPc(downpcd_source, length, normalize=True)` (inference.py:35-36) passes one argument more than the signature at utils.py:121 accepts, and would raise a `TypeError`. Its `np.matmul(result, est_pose)` (inference.py:62) multiplies row vectors, which is the transpose of `transform`'s column-vector convention (utils.py:139). Neither behaviour is modelled.
