# AnimationExport: baking pipeline model

A Dafny model of the animation baker in `Assets/CSharp/AnimationExporter.cs`.
The Unity component bakes an `AnimationClip` played on a transform hierarchy
into a text file. It does so in these steps:

1. It lists every transform below the exporting object (`Descendants`).
2. It works out `frameCount = (int)(length * frameRate)`.
3. For each frame `f` it samples the clip at `t = f / frameCount` and records
   one `Bone` (matrix, name, time) per transform.
4. It groups the samples into one `Line` per bone name (`AnimationLines`).
5. It drops repeated matrices from each line (`CompressLine`, LINQ `Distinct`
   under `PointComparer`).
6. It writes an EDN-like text `{ :name … :length … :frames … :bones [ … ] }`
   (`WriteAnimation`, `WriteLine`, `MatrixToArray`).

Modules, one per file:

- `Matrix4` (`matrix4.dfy`): `Matrix4x4` as a 4×4 value; the column-major 16-entry indexer.
- `Hierarchy` (`hierarchy.dfy`): transforms and the pre-order `Descendants`.
- `Schedule` (`schedule.dfy`): frame count (truncation toward zero) and frame times.
- `Timeline` (`timeline.dfy`): `Bone`, `Point`, `Line`, frame sampling, and `AnimationLines`. `AnimationLines` is a loop over a name-keyed dictionary.
- `Compression` (`compression.dfy`): `Distinct` as LINQ runs it, a one-pass filter with a set of seen matrices. It is proved equal to an independent "first occurrences" definition.
- `Text` (`text.dfy`): `string.Join`, its inverse split, and `int.ToString()` of the frame count.
- `Serializer` (`serializer.dfy`): the writer calls of `WriteLine` and `WriteAnimation`.
- `Exporter` (`exporter.dfy`): the whole `CreateAnimation` bake.

Host behaviour is passed in as parameters:

- `pose(t, bone)`: the matrix `w2l * bone.localToWorldMatrix` after
  `SampleAnimation(gameObject, t)` and `WaitForEndOfFrame`.
- `fmt`: `float.ToString()`.

Floats are modelled as reals. The `Writer` delegate is modelled by the
sequence of strings it receives.

The model follows the code:

- Compression is LINQ `Distinct` over the whole line. A line `A, B, A` becomes
  `A, B` (`Compression.ReturningMatrixIsDropped`). It is not an all-or-nothing
  collapse.
- The frame count is not clamped to 1. A zero-length clip has no frames, and its
  file has no bones (`Schedule.ZeroLengthClipHasNoFrames`).
- No resources are interned and no rest pose is restored. The rows embed all
  16 matrix values inline.
- `SampleAnimation` receives the normalised time `t = f / frameCount` in
  [0, 1), exactly as the code passes it (lines 122-123). Unity reads that
  argument in seconds, so a clip longer than one second is sampled only over
  its first second. `pose(t, bone)` is read at that `t`; the model does not
  rescale it.

## Model

| member | source | states |
|---|---|---|
| Matrix4.MatrixToArray | Assets/CSharp/AnimationExporter.cs:142-145 | always 16 values; entry (row r, column c) is written at position 4c + r (Unity's column-major indexer) |
| Matrix4.ArrayRoundTrip | Assets/CSharp/AnimationExporter.cs:142-145 | reading the 16 written values back as a matrix gives the original matrix |
| Matrix4.MatrixRoundTrip | Assets/CSharp/AnimationExporter.cs:142-145 | every 16-value array is the flattening of the matrix rebuilt from it |
| Matrix4.ArrayInjective | Assets/CSharp/AnimationExporter.cs:142-145 | two matrices have equal flattenings exactly when they are equal |
| Hierarchy.Descendants | Assets/CSharp/AnimationExporter.cs:15-18 | the list has one entry for every transform of the subtree except the root (subtree size minus one) |
| Hierarchy.ChildBlock | Assets/CSharp/AnimationExporter.cs:17 | in the list for a child sequence, child i sits at the summed size of the children before it and is followed immediately by exactly its own descendants |
| Hierarchy.DescendantsLayout | Assets/CSharp/AnimationExporter.cs:15-18 | the same pre-order layout for a transform: children in index order, each directly before its own descendant block |
| Hierarchy.DescendantsAreBelow | Assets/CSharp/AnimationExporter.cs:15-18 | a transform is in the list if and only if it lies strictly below the root |
| Schedule.Truncate | Assets/CSharp/AnimationExporter.cs:117 | the `(int)` cast truncates toward zero: the result is the whole number closest to x on the zero side, within distance 1 |
| Schedule.FrameCount | Assets/CSharp/AnimationExporter.cs:117 | for a non-negative length × rate, the frame count is the number of whole frames in it; for a negative product it truncates toward zero, within 1 above it |
| Schedule.ZeroLengthClipHasNoFrames | Assets/CSharp/AnimationExporter.cs:117-122 | a zero-length clip gets frame count 0 and an empty schedule (no clamp to one frame) |
| Schedule.FrameTimes | Assets/CSharp/AnimationExporter.cs:120-122 | a negative count fails (as `Enumerable.Range` throws); otherwise one time per frame with `t * frameCount == f` |
| Schedule.FrameTimesIncreasing | Assets/CSharp/AnimationExporter.cs:120-122 | a later frame is sampled at a strictly later time |
| Schedule.FrameTimesInUnitInterval | Assets/CSharp/AnimationExporter.cs:120-122 | the first frame is sampled at time 0 and every frame at a time in [0, 1) |
| Timeline.AnimationFrame | Assets/CSharp/AnimationExporter.cs:81-84 | a frame has one sample per bone, carries exactly the bones' names, and every sample is tagged with the frame time |
| Timeline.SampleCount | Assets/CSharp/AnimationExporter.cs:120-126 | the frame loop yields (number of frames) × (number of bones) samples |
| Timeline.SampleLayout | Assets/CSharp/AnimationExporter.cs:77-84 | flattened frame by frame and bone by bone, sample f × bones + i is bone i's name and sampled matrix at the time of frame f |
| Timeline.AnimationLines | Assets/CSharp/AnimationExporter.cs:85-100 | no frames give no lines; one line per distinct bone name seen, names pairwise distinct; each line holds exactly that name's (time, matrix) samples in frame-then-bone order, never empty; the point total equals the sample total; no order of lines is promised |
| Timeline.GroupSamples | Assets/CSharp/AnimationExporter.cs:88-98 | after the `foreach`, the dictionary's keys are exactly the names seen, each key once, and each key maps to exactly the points of the samples with that name, in visiting order |
| Timeline.Collect | Assets/CSharp/AnimationExporter.cs:99 | reading the filled dictionary out gives one line per name seen, names distinct, each line exactly that name's non-empty points, and as many points in all as samples |
| Timeline.LinesByName | Assets/CSharp/AnimationExporter.cs:88-99 | the same properties for the dictionary pass as a whole, for any sample sequence |
| Timeline.PointsOfEmpty | Assets/CSharp/AnimationExporter.cs:89-98 | a name collects no points if and only if no sample carries it |
| Timeline.CountedCoversAll | Assets/CSharp/AnimationExporter.cs:89-98 | grouping by distinct names that cover all samples counts every sample exactly once |
| Timeline.SampledNames | Assets/CSharp/AnimationExporter.cs:81-84 | once at least one frame is sampled, the names seen are exactly the names of the bone list |
| Timeline.OnlyBoneTimeline | Assets/CSharp/AnimationExporter.cs:77-84 | a bone whose name no other bone shares gets one point per frame, in frame order, carrying that frame's time and sampled matrix |
| Compression.DistinctFromYields | Assets/CSharp/AnimationExporter.cs:73 | the pass from position k yields no more points than remain, only points of the rest, none whose matrix was already seen, no two with one matrix, and misses no matrix of the rest |
| Compression.Distinct | Assets/CSharp/AnimationExporter.cs:73 | the one-pass LINQ `Distinct` with a set of seen matrices equals the subsequence of first occurrences |
| Compression.FirstOccurrencesMatrixSet | Assets/CSharp/AnimationExporter.cs:73 | the first occurrences carry exactly the set of matrices of the input |
| Compression.FirstOccurrencesDistinct | Assets/CSharp/AnimationExporter.cs:58-69 | no two kept points are equal under `PointComparer` |
| Compression.KeptAreFirsts | Assets/CSharp/AnimationExporter.cs:73 | every kept point is the earliest point with its matrix, so it carries that point's time |
| Compression.FirstsAreKept | Assets/CSharp/AnimationExporter.cs:73 | every point that is the earliest with its matrix is kept |
| Compression.CompressLine | Assets/CSharp/AnimationExporter.cs:71-75 | same name; matrices pairwise distinct; same set of matrices as the input; never longer; each kept point is a first occurrence and each first occurrence is kept; the points are exactly the first occurrences, in input order |
| Compression.CompressIdempotent | Assets/CSharp/AnimationExporter.cs:71-75 | compressing a compressed line changes nothing |
| Compression.StaticLineCollapses | Assets/CSharp/AnimationExporter.cs:71-75 | a non-empty line whose points all share one matrix becomes its first point alone |
| Compression.ReturningMatrixIsDropped | Assets/CSharp/AnimationExporter.cs:73 | a line A, B, A (A ≠ B) compresses to A, B: repeats are removed even when the line moves |
| Text.JoinShape | Assets/CSharp/AnimationExporter.cs:159 | `string.Join` gives the parts' total length plus one separator between each pair of neighbours, starts with the first part, and the separator follows it |
| Text.SplitJoin | Assets/CSharp/AnimationExporter.cs:159 | `string.Join` of words without the separator character is undone by splitting at that character |
| Text.NatToString | Assets/CSharp/AnimationExporter.cs:167 | `int.ToString()` of a non-negative count is a non-empty run of decimal digits, starting with 0 only for the count 0 |
| Text.ParseNatToString | Assets/CSharp/AnimationExporter.cs:167 | the decimal digits written for the frame count in the header read back as the same number |
| Serializer.FormatAllInjective | Assets/CSharp/AnimationExporter.cs:146-149 | with a float format that tells the values apart, two value arrays are written as the same texts exactly when they are equal |
| Serializer.WriteLine | Assets/CSharp/AnimationExporter.cs:151-164 | point count + 5 writer calls: three opening calls with the name, then the rows of the points in point order, each point's `[time [v0 … v15]]`, then two closing calls; exactly one call per point is a row |
| Serializer.WriteLines | Assets/CSharp/AnimationExporter.cs:168 | the block `WriteLine` writes for line k starts right after the blocks of lines 0 … k-1 (their points plus 5 calls each), so the blocks follow in array order; as many rows as points |
| Serializer.HeaderFields | Assets/CSharp/AnimationExporter.cs:167 | the header is `{ :name "`, the clip name, `" :length `, the formatted length, ` :frames `, the digits of the frame count (which read back as that count) and ` :bones [ `, at those offsets |
| Serializer.WriteAnimation | Assets/CSharp/AnimationExporter.cs:165-170 | the first call is the header for the clip's name, length and frame count and is no row; line k's block sits at 1 plus its offset among the lines; the last call is the `"\n] }"` footer; the file has exactly as many rows as the lines have points |
| Serializer.MatrixTextDeterminesMatrix | Assets/CSharp/AnimationExporter.cs:142-159 | if the float format tells the entries of the two matrices apart and writes none of them with a space, their value texts are equal exactly when the matrices are equal |
| Serializer.ZeroAndIdentityWritten | Assets/CSharp/AnimationExporter.cs:142-159 | any format that writes 0 and 1 differently and without spaces meets that condition for the zero and identity matrices, and writes the two matrices differently |
| Serializer.CompressedRowsDiffer | Assets/CSharp/AnimationExporter.cs:71-75 | with a format faithful on the entries of the line's matrices, no two rows written for a compressed line carry the same 16 values |
| Exporter.CompressAll | Assets/CSharp/AnimationExporter.cs:128 | one compressed line per grouped line, in the same order; names are kept, so distinct names stay distinct |
| Exporter.CreateAnimation | Assets/CSharp/AnimationExporter.cs:113-137 | fails exactly when the frame count is negative; otherwise no frames give no lines; line names are distinct and, when frames exist, are exactly the bone names; each line is the compression of that name's sampled samples, non-empty with distinct matrices; the text is the serialisation of those lines |
| Exporter.StaticBoneBakesToOnePoint | Assets/CSharp/AnimationExporter.cs:117-128 | a uniquely named bone that has the same matrix at every sampled frame time is written as the single point (0, that matrix) |
| Exporter.MovingBoneKeepsEveryFrame | Assets/CSharp/AnimationExporter.cs:117-128 | a uniquely named bone whose matrix differs at every frame keeps every frame's point, at the frame times |

## Left out

- The play-mode guard and its `Debug.Log` (lines 105-109) are host state and logging, so they are not modelled.
- `StartCoroutine` and `WaitForEndOfFrame` (lines 111, 124, 130) are host scheduling. Their effect is folded into the `pose` parameter.
- `SampleAnimation` and the product `w2l * localToWorldMatrix` (lines 79, 115, 123) are Unity floating-point math on the scene, so they are the `pose` parameter. Transform identity is the `id` field.
- Compression.CompressLine: compares matrices by exact value equality. Unity's `Matrix4x4 ==` compares approximately, while `GetHashCode` is bit-exact. How LINQ `Distinct` combines those two, and hash collisions, are not modelled. A matrix with a NaN entry is equal to nothing under `==`, not even itself, so `Distinct` keeps every such point; the model's reals have no NaN.
- Float rounding is not modelled: the product `length * frameRate`, `f / (float)frameCount`, and an out-of-range `(int)` cast. The model uses exact reals.
- `float.ToString()` is culture- and runtime-dependent, so it is the `fmt` parameter.
- The header writes the frame count as a natural number. A negative count already fails at `Enumerable.Range` (line 120), so the minus sign of `int.ToString()` is never reached.
- `Directory.CreateDirectory`, `Path.Combine`, `ToLower`, `File.WriteAllText` and the final log (lines 134-137) are file I/O. The model stops at the text.
- Timeline.AnimationLines: states no order of the lines, because .NET does not promise the enumeration order of `Dictionary` (line 99). The model yields lines in key-insertion order.
- Names are written between quotes without escaping (line 154), exactly as the code does. No reading of the full file back is modelled.
- `Clone.cs`, `RandomColor.cs`, `RandomWalker.cs` and `Attachment.cs` are not part of this model. They hold scene instantiation, randomness, physics and a transform copy, with no baking logic.
