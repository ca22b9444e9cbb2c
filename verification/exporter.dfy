/** The baking pipeline of `CreateAnimation`: bone list, frame schedule,
    sampling, grouping into lines, compression and the text of the file. */
module Exporter {
  import opened Matrix4
  import opened Hierarchy
  import opened Schedule
  import opened Timeline
  import opened Compression
  import opened Serializer

  /** The fields of `AnimationClip` the exporter reads. */
  datatype Clip = Clip(name: string, length: real, frameRate: real)

  /** What one bake produces: the frame count, the compressed lines and the
      text handed to `File.WriteAllText`. */
  datatype Export = Export(frameCount: nat, lines: seq<Line>, text: string)

  /** The uncompressed line of bone name `n` in a bake. */
  function RawLine(pose: Pose, times: seq<real>, bones: seq<Transform>, n: string): Line
  {
    Line(n, PointsOf(Flatten(SampleFrames(pose, times, bones)), n))
  }

  /** `AnimationLines(frames).Select(CompressLine)`: compression keeps
      every line's name, so the names stay the same and stay distinct. */
  function CompressAll(raw: seq<Line>): (lines: seq<Line>)
    ensures |lines| == |raw|
    ensures forall k | 0 <= k < |raw| :: lines[k] == CompressLine(raw[k])
    ensures LineNames(lines) == LineNames(raw)
    ensures DistinctNames(raw) ==> DistinctNames(lines)
  {
    var lines := seq(|raw|, k requires 0 <= k < |raw| => CompressLine(raw[k]));
    assert forall k | 0 <= k < |raw| :: lines[k].name == raw[k].name;
    assert LineNames(lines) == LineNames(raw) by {
      forall n | n in LineNames(raw)
        ensures n in LineNames(lines)
      {
        var k :| 0 <= k < |raw| && raw[k].name == n;
        assert lines[k].name == n;
      }
    }
    lines
  }

  /** `CreateAnimation(gameObject, animationClip, outputPath)` up to the file
      write. `pose` stands for sampling the clip, waiting for the end of the
      frame and reading `w2l * localToWorldMatrix`; `fmt` for
      `float.ToString()`. A negative frame count makes `Enumerable.Range`
      throw, so nothing is written. */
  method CreateAnimation(root: Transform, clip: Clip, pose: Pose, fmt: Format) returns (r: Option<Export>)
    ensures r.None? <==> FrameCount(clip.length, clip.frameRate) < 0
    ensures r.Some? ==> r.value.frameCount == FrameCount(clip.length, clip.frameRate)
    ensures r.Some? && r.value.frameCount == 0 ==> r.value.lines == []
    ensures r.Some? && r.value.frameCount > 0 ==> LineNames(r.value.lines) == BoneNames(Descendants(root))
    ensures r.Some? ==> DistinctNames(r.value.lines)
    ensures r.Some? ==> forall k | 0 <= k < |r.value.lines| ::
      && r.value.lines[k] == CompressLine(RawLine(pose, FrameTimes(r.value.frameCount).value, Descendants(root), r.value.lines[k].name))
      && r.value.lines[k].points != []
      && DistinctMatrices(r.value.lines[k].points)
    ensures r.Some? ==> r.value.text == AnimationText(fmt, clip.name, clip.length, r.value.frameCount, r.value.lines)
  {
    var bones := Descendants(root);
    var frameCount := FrameCount(clip.length, clip.frameRate);
    var times := FrameTimes(frameCount);
    if times.None? {
      return None;
    }
    var frames := SampleFrames(pose, times.value, bones);
    var raw := AnimationLines(frames);
    if frameCount > 0 {
      SampledNames(pose, times.value, bones);
    }
    var lines := CompressAll(raw);
    var text := AnimationText(fmt, clip.name, clip.length, frameCount, lines);
    return Some(Export(frameCount, lines, text));
  }

  /** A bone that no other bone shares its name with and that has the same
      matrix at every sampled frame time is written as a single point at
      time 0. */
  lemma StaticBoneBakesToOnePoint(pose: Pose, frameCount: int, bones: seq<Transform>, i: int, n: string, m: Matrix)
    requires frameCount > 0
    requires OnlyBoneNamed(bones, i, n)
    requires forall f | 0 <= f < frameCount :: pose(FrameTimes(frameCount).value[f], bones[i]) == m
    ensures CompressLine(RawLine(pose, FrameTimes(frameCount).value, bones, n)) == Line(n, [Point(0.0, m)])
  {
    var times := FrameTimes(frameCount).value;
    FrameTimesInUnitInterval(frameCount, 0);
    OnlyBoneTimeline(pose, times, bones, i, n);
    StaticLineCollapses(RawLine(pose, times, bones, n));
  }

  /** A bone that no other bone shares its name with and whose matrix differs
      at every frame keeps one point per frame, at the frame times. */
  lemma MovingBoneKeepsEveryFrame(pose: Pose, frameCount: int, times: seq<real>, bones: seq<Transform>, i: int, n: string)
    requires FrameTimes(frameCount) == Some(times)
    requires OnlyBoneNamed(bones, i, n)
    requires forall f, g | 0 <= f < g < |times| :: pose(times[f], bones[i]) != pose(times[g], bones[i])
    ensures CompressLine(RawLine(pose, times, bones, n)).points
      == seq(frameCount, f requires 0 <= f < frameCount => Point(times[f], pose(times[f], bones[i])))
  {
    OnlyBoneTimeline(pose, times, bones, i, n);
    var ps := RawLine(pose, times, bones, n).points;
    assert DistinctMatrices(ps);
    FirstOccurrencesOfDistinct(ps, |ps|);
    assert ps[..|ps|] == ps;
  }
}
