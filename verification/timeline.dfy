/** Per-frame bone samples and their assembly into one timeline ("line")
    per bone name. */
module Timeline {
  import opened Matrix4
  import opened Hierarchy

  /** One bone sampled at one frame. */
  datatype Bone = Bone(matrix: Matrix, name: string, time: real)

  /** One entry of a timeline. */
  datatype Point = Point(time: real, matrix: Matrix)

  /** The timeline of one bone name. */
  datatype Line = Line(name: string, points: seq<Point>)

  /** What the host supplies for one sample: the matrix
      `w2l * transform.localToWorldMatrix` read from a bone after the clip was
      sampled at normalised time `t` and the end of the frame was awaited. */
  type Pose = (real, Transform) -> Matrix

  function TransformFrame(pose: Pose, bone: Transform, t: real): Bone
  {
    Bone(pose(t, bone), bone.name, t)
  }

  /** One frame: every bone of the fixed bone list, tagged with the frame
      time, so a frame has exactly the bones' names. */
  function AnimationFrame(pose: Pose, t: real, bones: seq<Transform>): (frame: seq<Bone>)
    ensures |frame| == |bones|
    ensures NameSet(frame) == BoneNames(bones)
    ensures forall b | b in frame :: b.time == t
  {
    var frame := seq(|bones|, i requires 0 <= i < |bones| => TransformFrame(pose, bones[i], t));
    assert forall i | 0 <= i < |bones| :: frame[i].name == bones[i].name;
    assert BoneNames(bones) <= NameSet(frame) by {
      forall n | n in BoneNames(bones)
        ensures n in NameSet(frame)
      {
        var i :| 0 <= i < |bones| && bones[i].name == n;
        assert frame[i] in frame;
      }
    }
    frame
  }

  /** The frame loop of `CreateAnimation`: one frame per scheduled time. */
  function SampleFrames(pose: Pose, times: seq<real>, bones: seq<Transform>): seq<seq<Bone>>
  {
    seq(|times|, f requires 0 <= f < |times| => AnimationFrame(pose, times[f], bones))
  }

  /** `frames.SelectMany(f => f)`: every sample, frame by frame, bone by bone. */
  function Flatten(frames: seq<seq<Bone>>): seq<Bone>
  {
    if |frames| == 0 then [] else Flatten(frames[..|frames| - 1]) + frames[|frames| - 1]
  }

  lemma MultiplyMonotone(x: int, y: int, b: int)
    requires 0 <= x <= y && 0 <= b
    ensures x * b <= y * b
  {
    assert y * b - x * b == (y - x) * b;
  }

  /** The frame loop yields `|bones|` samples per scheduled time. */
  lemma {:induction false} SampleCount(pose: Pose, times: seq<real>, bones: seq<Transform>)
    ensures |Flatten(SampleFrames(pose, times, bones))| == |times| * |bones|
    decreases |times|
  {
    var n, b := |times|, |bones|;
    if n > 0 {
      var frames := SampleFrames(pose, times, bones);
      var prefix := SampleFrames(pose, times[..n - 1], bones);
      assert frames[..n - 1] == prefix;
      assert Flatten(frames) == Flatten(prefix) + frames[n - 1];
      SampleCount(pose, times[..n - 1], bones);
      assert n * b == (n - 1) * b + b;
    }
  }

  /** The samples of the frame loop, flattened, are frame after frame and,
      within a frame, bone after bone: sample `f * |bones| + i` is bone `i`
      read at the time of frame `f`. */
  lemma {:induction false} SampleLayout(pose: Pose, times: seq<real>, bones: seq<Transform>, f: int, i: int)
    requires 0 <= f < |times| && 0 <= i < |bones|
    ensures |Flatten(SampleFrames(pose, times, bones))| == |times| * |bones|
    ensures f * |bones| + i < |times| * |bones|
    ensures Flatten(SampleFrames(pose, times, bones))[f * |bones| + i] == Bone(pose(times[f], bones[i]), bones[i].name, times[f])
    decreases |times|
  {
    var n, b := |times|, |bones|;
    var frames := SampleFrames(pose, times, bones);
    var prefix := SampleFrames(pose, times[..n - 1], bones);
    assert frames[..n - 1] == prefix;
    assert Flatten(frames) == Flatten(prefix) + frames[n - 1];
    SampleCount(pose, times, bones);
    SampleCount(pose, times[..n - 1], bones);
    assert n * b == (n - 1) * b + b;
    if f < n - 1 {
      SampleLayout(pose, times[..n - 1], bones, f, i);
      assert f * b + b == (f + 1) * b;
      MultiplyMonotone(f + 1, n - 1, b);
    } else {
      assert f * b == (n - 1) * b;
    }
  }

  function ToPoint(b: Bone): Point
  {
    Point(b.time, b.matrix)
  }

  /** The `(time, matrix)` pairs of the samples called `name`, in visit order. */
  function PointsOf(bs: seq<Bone>, name: string): seq<Point>
  {
    if |bs| == 0 then []
    else PointsOf(bs[..|bs| - 1], name) + (if bs[|bs| - 1].name == name then [ToPoint(bs[|bs| - 1])] else [])
  }

  function NameSet(bs: seq<Bone>): set<string>
  {
    set b | b in bs :: b.name
  }

  function BoneNames(bones: seq<Transform>): set<string>
  {
    set b | b in bones :: b.name
  }

  function LineNames(lines: seq<Line>): set<string>
  {
    set l | l in lines :: l.name
  }

  predicate DistinctNames(lines: seq<Line>)
  {
    forall k, l | 0 <= k < l < |lines| :: lines[k].name != lines[l].name
  }

  predicate DistinctKeys(ks: seq<string>)
  {
    forall a, b | 0 <= a < b < |ks| :: ks[a] != ks[b]
  }

  function TotalPoints(lines: seq<Line>): nat
  {
    if |lines| == 0 then 0 else TotalPoints(lines[..|lines| - 1]) + |lines[|lines| - 1].points|
  }

  /** Sum over the names `ns` of the number of samples carrying that name. */
  function Counted(ns: seq<string>, bs: seq<Bone>): nat
  {
    if |ns| == 0 then 0 else Counted(ns[..|ns| - 1], bs) + |PointsOf(bs, ns[|ns| - 1])|
  }

  function Occurrences(ns: seq<string>, n: string): nat
  {
    if |ns| == 0 then 0 else Occurrences(ns[..|ns| - 1], n) + (if ns[|ns| - 1] == n then 1 else 0)
  }

  lemma {:induction false} PointsOfSnoc(xs: seq<Bone>, b: Bone, name: string)
    ensures PointsOf(xs + [b], name) == PointsOf(xs, name) + (if b.name == name then [ToPoint(b)] else [])
  {
    assert (xs + [b])[..|xs|] == xs;
  }

  lemma {:induction false} PointsOfAppend(xs: seq<Bone>, ys: seq<Bone>, name: string)
    ensures PointsOf(xs + ys, name) == PointsOf(xs, name) + PointsOf(ys, name)
    decreases |ys|
  {
    if |ys| > 0 {
      var y := ys[|ys| - 1];
      var ys' := ys[..|ys| - 1];
      assert xs + ys == (xs + ys') + [y];
      assert ys == ys' + [y];
      PointsOfSnoc(xs + ys', y, name);
      PointsOfSnoc(ys', y, name);
      PointsOfAppend(xs, ys', name);
    } else {
      assert xs + ys == xs;
    }
  }

  /** A name has samples exactly when some sample carries it. */
  lemma {:induction false} PointsOfEmpty(bs: seq<Bone>, name: string)
    ensures PointsOf(bs, name) == [] <==> name !in NameSet(bs)
    decreases |bs|
  {
    if |bs| > 0 {
      var xs := bs[..|bs| - 1];
      assert bs == xs + [bs[|bs| - 1]];
      assert NameSet(bs) == NameSet(xs) + {bs[|bs| - 1].name};
      PointsOfEmpty(xs, name);
    }
  }

  lemma {:induction false} CountedSnoc(ns: seq<string>, xs: seq<Bone>, b: Bone)
    ensures Counted(ns, xs + [b]) == Counted(ns, xs) + Occurrences(ns, b.name)
    decreases |ns|
  {
    if |ns| > 0 {
      CountedSnoc(ns[..|ns| - 1], xs, b);
      PointsOfSnoc(xs, b, ns[|ns| - 1]);
    }
  }

  lemma {:induction false} OccursOnce(ns: seq<string>, n: string)
    requires DistinctKeys(ns) && n in ns
    ensures Occurrences(ns, n) == 1
    decreases |ns|
  {
    var ns' := ns[..|ns| - 1];
    if ns[|ns| - 1] == n {
      assert n !in ns';
      OccursNever(ns', n);
    } else {
      OccursOnce(ns', n);
    }
  }

  lemma {:induction false} OccursNever(ns: seq<string>, n: string)
    requires n !in ns
    ensures Occurrences(ns, n) == 0
    decreases |ns|
  {
    if |ns| > 0 {
      OccursNever(ns[..|ns| - 1], n);
    }
  }

  /** Grouping by distinct names that cover every sample counts each sample once. */
  lemma {:induction false} CountedCoversAll(ns: seq<string>, bs: seq<Bone>)
    requires DistinctKeys(ns)
    requires NameSet(bs) <= (set n | n in ns)
    ensures Counted(ns, bs) == |bs|
    decreases |bs|
  {
    if |bs| == 0 {
      CountedNone(ns);
    } else {
      var xs := bs[..|bs| - 1];
      var b := bs[|bs| - 1];
      assert bs == xs + [b];
      NameSetSnoc(xs, b);
      assert b.name in set n | n in ns;
      CountedCoversAll(ns, xs);
      CountedSnoc(ns, xs, b);
      OccursOnce(ns, b.name);
    }
  }

  lemma {:induction false} CountedNone(ns: seq<string>)
    ensures Counted(ns, []) == 0
    decreases |ns|
  {
    if |ns| > 0 {
      CountedNone(ns[..|ns| - 1]);
    }
  }

  lemma {:induction false} TotalIsCounted(lines: seq<Line>, keys: seq<string>, bs: seq<Bone>)
    requires |lines| == |keys|
    requires forall k | 0 <= k < |keys| :: lines[k].points == PointsOf(bs, keys[k])
    ensures TotalPoints(lines) == Counted(keys, bs)
    decreases |lines|
  {
    if |lines| > 0 {
      TotalIsCounted(lines[..|lines| - 1], keys[..|keys| - 1], bs);
    }
  }

  lemma {:induction false} DistinctCard(ks: seq<string>)
    requires DistinctKeys(ks)
    ensures |set k | k in ks| == |ks|
    decreases |ks|
  {
    if |ks| > 0 {
      var ks' := ks[..|ks| - 1];
      DistinctCard(ks');
      assert (set k | k in ks) == (set k | k in ks') + {ks[|ks| - 1]};
      assert ks[|ks| - 1] !in ks';
    }
  }

  /** The dictionary of `AnimationLines` after visiting the samples `xs`:
      `keys` lists its keys once each (in insertion order), the keys are the
      names seen so far, and each key maps to the points of that name. */
  predicate Grouped(groups: map<string, seq<Point>>, keys: seq<string>, xs: seq<Bone>)
  {
    && DistinctKeys(keys)
    && groups.Keys == (set k | k in keys) == NameSet(xs)
    && forall n | n in groups :: groups[n] == PointsOf(xs, n)
  }

  /** One iteration of the `foreach`: `TryGetValue`, insert an empty list for
      a new name, then append the point. */
  function AddBone(groups: map<string, seq<Point>>, keys: seq<string>, b: Bone): (map<string, seq<Point>>, seq<string>)
  {
    if b.name in groups then (groups[b.name := groups[b.name] + [ToPoint(b)]], keys)
    else (groups[b.name := [ToPoint(b)]], keys + [b.name])
  }

  lemma NameSetSnoc(xs: seq<Bone>, b: Bone)
    ensures NameSet(xs + [b]) == NameSet(xs) + {b.name}
  {
    assert forall c | c in xs + [b] :: c in xs || c == b;
  }

  lemma AddBoneGroups(groups: map<string, seq<Point>>, keys: seq<string>, xs: seq<Bone>, b: Bone)
    requires Grouped(groups, keys, xs)
    ensures Grouped(AddBone(groups, keys, b).0, AddBone(groups, keys, b).1, xs + [b])
  {
    NameSetSnoc(xs, b);
    if b.name in groups {
      AddSeenBone(groups, keys, xs, b);
    } else {
      AddNewBone(groups, keys, xs, b);
    }
  }

  /** A bone whose name is already grouped extends that group only. */
  lemma AddSeenBone(groups: map<string, seq<Point>>, keys: seq<string>, xs: seq<Bone>, b: Bone)
    requires Grouped(groups, keys, xs) && b.name in groups
    requires NameSet(xs + [b]) == NameSet(xs) + {b.name}
    ensures Grouped(groups[b.name := groups[b.name] + [ToPoint(b)]], keys, xs + [b])
  {
    var g' := groups[b.name := groups[b.name] + [ToPoint(b)]];
    assert g'.Keys == groups.Keys;
    forall n | n in g'
      ensures g'[n] == PointsOf(xs + [b], n)
    {
      PointsOfSnoc(xs, b, n);
    }
  }

  /** A bone with a new name opens a group of one point and a new key. */
  lemma AddNewBone(groups: map<string, seq<Point>>, keys: seq<string>, xs: seq<Bone>, b: Bone)
    requires Grouped(groups, keys, xs) && b.name !in groups
    requires NameSet(xs + [b]) == NameSet(xs) + {b.name}
    ensures Grouped(groups[b.name := [ToPoint(b)]], keys + [b.name], xs + [b])
  {
    var g' := groups[b.name := [ToPoint(b)]];
    var k' := keys + [b.name];
    PointsOfEmpty(xs, b.name);
    assert (set k | k in k') == (set k | k in keys) + {b.name};
    assert g'.Keys == groups.Keys + {b.name};
    assert DistinctKeys(k');
    forall n | n in g'
      ensures g'[n] == PointsOf(xs + [b], n)
    {
      PointsOfSnoc(xs, b, n);
    }
  }

  function LinesOf(groups: map<string, seq<Point>>, keys: seq<string>): seq<Line>
    requires forall k | 0 <= k < |keys| :: keys[k] in groups
  {
    seq(|keys|, k requires 0 <= k < |keys| => Line(keys[k], groups[keys[k]]))
  }

  lemma GroupedLineNames(groups: map<string, seq<Point>>, keys: seq<string>, bones: seq<Bone>)
    requires Grouped(groups, keys, bones)
    ensures forall k | 0 <= k < |keys| :: keys[k] in groups
    ensures LineNames(LinesOf(groups, keys)) == NameSet(bones)
    ensures DistinctNames(LinesOf(groups, keys))
    ensures |LinesOf(groups, keys)| == |NameSet(bones)|
  {
    assert forall k | 0 <= k < |keys| :: keys[k] in groups;
    var lines := LinesOf(groups, keys);
    forall n | n in keys
      ensures n in LineNames(lines)
    {
      var k :| 0 <= k < |keys| && keys[k] == n;
      assert lines[k].name == n;
    }
    assert LineNames(lines) == set k | k in keys;
    DistinctCard(keys);
  }

  lemma GroupedLinePoints(groups: map<string, seq<Point>>, keys: seq<string>, bones: seq<Bone>)
    requires Grouped(groups, keys, bones)
    requires forall k | 0 <= k < |keys| :: keys[k] in groups
    ensures forall k | 0 <= k < |keys| ::
      LinesOf(groups, keys)[k] == Line(keys[k], PointsOf(bones, keys[k])) && PointsOf(bones, keys[k]) != []
  {
    var lines := LinesOf(groups, keys);
    forall k | 0 <= k < |lines|
      ensures lines[k] == Line(keys[k], PointsOf(bones, keys[k])) && PointsOf(bones, keys[k]) != []
    {
      assert keys[k] in NameSet(bones);
      PointsOfEmpty(bones, keys[k]);
    }
  }

  lemma GroupedTotal(lines: seq<Line>, keys: seq<string>, bones: seq<Bone>)
    requires DistinctKeys(keys)
    requires NameSet(bones) <= (set k | k in keys)
    requires |lines| == |keys|
    requires forall k | 0 <= k < |keys| :: lines[k] == Line(keys[k], PointsOf(bones, keys[k]))
    ensures TotalPoints(lines) == |bones|
  {
    TotalIsCounted(lines, keys, bones);
    CountedCoversAll(keys, bones);
  }

  /** `map.Select(p => new Line(p.Key, p.Value.ToArray()))` once every sample
      has been visited: one line per key, holding exactly that name's samples. */
  function Collect(groups: map<string, seq<Point>>, keys: seq<string>, ghost bones: seq<Bone>): (lines: seq<Line>)
    requires Grouped(groups, keys, bones)
    ensures DistinctNames(lines)
    ensures LineNames(lines) == NameSet(bones)
    ensures |lines| == |NameSet(bones)|
    ensures (forall k | 0 <= k < |lines| ::
      lines[k].points == PointsOf(bones, lines[k].name) && lines[k].points != [])
    ensures TotalPoints(lines) == |bones|
  {
    GroupedLineNames(groups, keys, bones);
    GroupedLinePoints(groups, keys, bones);
    var lines := LinesOf(groups, keys);
    assert forall k | 0 <= k < |lines| :: lines[k].points == PointsOf(bones, lines[k].name) && lines[k].points != [] by {
      forall k | 0 <= k < |lines|
        ensures lines[k].points == PointsOf(bones, lines[k].name) && lines[k].points != []
      {
        assert lines[k] == Line(keys[k], PointsOf(bones, keys[k]));
      }
    }
    GroupedTotal(lines, keys, bones);
    lines
  }

  /** `AnimationLines`: a dictionary from bone name to the list of its points,
      filled while visiting every sample in frame-then-bone order, then turned
      into one line per key. The dictionary's enumeration order is not
      promised by .NET; the model enumerates in insertion order and the
      contract says nothing about the order of the lines. */
  method AnimationLines(frames: seq<seq<Bone>>) returns (lines: seq<Line>)
    ensures |frames| == 0 ==> lines == []
    ensures DistinctNames(lines)
    ensures LineNames(lines) == NameSet(Flatten(frames))
    ensures |lines| == |NameSet(Flatten(frames))|
    ensures (forall k | 0 <= k < |lines| ::
      lines[k].points == PointsOf(Flatten(frames), lines[k].name) && lines[k].points != [])
    ensures TotalPoints(lines) == |Flatten(frames)|
  {
    if |frames| == 0 {
      lines := [];
    } else {
      lines := LinesByName(Flatten(frames));
    }
  }

  /** Lines 88-99: fill the dictionary from every sample, then read one line
      per key back out of it. */
  method LinesByName(bones: seq<Bone>) returns (lines: seq<Line>)
    ensures DistinctNames(lines)
    ensures LineNames(lines) == NameSet(bones)
    ensures |lines| == |NameSet(bones)|
    ensures (forall k | 0 <= k < |lines| ::
      lines[k].points == PointsOf(bones, lines[k].name) && lines[k].points != [])
    ensures TotalPoints(lines) == |bones|
  {
    var groups, keys := GroupSamples(bones);
    lines := Collect(groups, keys, bones);
  }

  /** The `foreach` over every sample: the dictionary and, beside it, its
      keys in insertion order. */
  method GroupSamples(bones: seq<Bone>) returns (groups: map<string, seq<Point>>, keys: seq<string>)
    ensures Grouped(groups, keys, bones)
  {
    groups, keys := map[], [];
    for i := 0 to |bones|
      invariant Grouped(groups, keys, bones[..i])
    {
      AddBoneGroups(groups, keys, bones[..i], bones[i]);
      assert bones[..i + 1] == bones[..i] + [bones[i]];
      groups, keys := AddBone(groups, keys, bones[i]).0, AddBone(groups, keys, bones[i]).1;
    }
    assert bones[..|bones|] == bones;
  }

  /** Once at least one frame is sampled, the timeline names are the names of
      the bone list. */
  lemma {:induction false} SampledNames(pose: Pose, times: seq<real>, bones: seq<Transform>)
    requires |times| > 0
    ensures NameSet(Flatten(SampleFrames(pose, times, bones))) == BoneNames(bones)
    decreases |times|
  {
    var frames := SampleFrames(pose, times, bones);
    var last := AnimationFrame(pose, times[|times| - 1], bones);
    assert frames[|frames| - 1] == last;
    var prefix := frames[..|frames| - 1];
    assert Flatten(frames) == Flatten(prefix) + last;
    if |times| > 1 {
      assert prefix == SampleFrames(pose, times[..|times| - 1], bones);
      SampledNames(pose, times[..|times| - 1], bones);
    }
    assert NameSet(Flatten(frames)) == NameSet(Flatten(prefix)) + NameSet(last);
  }

  /** `n` is the name of bone `i` and of no other bone. */
  predicate OnlyBoneNamed(bones: seq<Transform>, i: int, n: string)
  {
    && 0 <= i < |bones|
    && bones[i].name == n
    && forall j | 0 <= j < |bones| && j != i :: bones[j].name != n
  }

  lemma FrameOfOnlyBone(pose: Pose, t: real, bones: seq<Transform>, i: int, n: string)
    requires OnlyBoneNamed(bones, i, n)
    ensures PointsOf(AnimationFrame(pose, t, bones), n) == [Point(t, pose(t, bones[i]))]
  {
    var frame := AnimationFrame(pose, t, bones);
    var before := frame[..i];
    var after := frame[i + 1..];
    assert frame == before + [frame[i]] + after;
    forall j | 0 <= j < |before|
      ensures before[j].name != n
    {
      assert before[j] == frame[j];
    }
    forall j | 0 <= j < |after|
      ensures after[j].name != n
    {
      assert after[j] == frame[i + 1 + j];
    }
    assert n !in NameSet(before);
    assert n !in NameSet(after);
    PointsOfEmpty(before, n);
    PointsOfEmpty(after, n);
    PointsOfAppend(before + [frame[i]], after, n);
    PointsOfSnoc(before, frame[i], n);
  }

  /** A bone whose name no other bone shares gets a full timeline: one point
      per frame, in frame order, carrying that frame's time. */
  lemma {:induction false} OnlyBoneTimeline(pose: Pose, times: seq<real>, bones: seq<Transform>, i: int, n: string)
    requires OnlyBoneNamed(bones, i, n)
    ensures PointsOf(Flatten(SampleFrames(pose, times, bones)), n)
         == seq(|times|, f requires 0 <= f < |times| => Point(times[f], pose(times[f], bones[i])))
    decreases |times|
  {
    var frames := SampleFrames(pose, times, bones);
    if |times| > 0 {
      var ts := times[..|times| - 1];
      var t := times[|times| - 1];
      assert frames[..|frames| - 1] == SampleFrames(pose, ts, bones);
      OnlyBoneTimeline(pose, ts, bones, i, n);
      PointsOfAppend(Flatten(SampleFrames(pose, ts, bones)), AnimationFrame(pose, t, bones), n);
      FrameOfOnlyBone(pose, t, bones, i, n);
    }
  }
}
