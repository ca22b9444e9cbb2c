/** The EDN-like writer: `WriteAnimation`, `WriteLine` and the matrix rows.
    The `Writer` delegate is modelled by the sequence of strings it is called
    with; the file text is their concatenation. */
module Serializer {
  import opened Matrix4
  import opened Timeline
  import opened Compression
  import opened Text

  /** `float.ToString()`. Its text depends on the runtime and the current
      culture, so the model takes it as a parameter. */
  type Format = real -> string

  /** `FloatToStringArray`: one text per value, in order. */
  function FormatAll(fmt: Format, vs: seq<real>): (texts: seq<string>)
    ensures |texts| == |vs|
    ensures forall i | 0 <= i < |vs| :: texts[i] == fmt(vs[i])
  {
    seq(|vs|, i requires 0 <= i < |vs| => fmt(vs[i]))
  }

  /** The 16 space-separated values of one matrix row. */
  function MatrixText(fmt: Format, m: Matrix): string
  {
    Join(" ", FormatAll(fmt, MatrixToArray(m)))
  }

  const RowStart: string := "\n\t\t\t["

  /** `"\n\t\t\t[{0} [{1}]]"` for one point. */
  function Row(fmt: Format, p: Point): string
  {
    RowStart + fmt(p.time) + " [" + MatrixText(fmt, p.matrix) + "]]"
  }

  lemma RowIsRow(fmt: Format, p: Point)
    ensures IsRow(Row(fmt, p))
  {
    var rest := fmt(p.time) + " [" + MatrixText(fmt, p.matrix) + "]]";
    assert Row(fmt, p) == RowStart + rest;
    assert (RowStart + rest)[..|RowStart|] == RowStart;
  }

  function Rows(fmt: Format, ps: seq<Point>): seq<string>
  {
    seq(|ps|, k requires 0 <= k < |ps| => Row(fmt, ps[k]))
  }

  /** A writer call that opens a point row. */
  predicate IsRow(call: string)
  {
    |call| >= |RowStart| && call[..|RowStart|] == RowStart
  }

  function CountRows(calls: seq<string>): nat
  {
    if |calls| == 0 then 0 else CountRows(calls[..|calls| - 1]) + (if IsRow(calls[|calls| - 1]) then 1 else 0)
  }

  /** The concatenated text of a sequence of writer calls. */
  function Concat(calls: seq<string>): string
  {
    if |calls| == 0 then "" else Concat(calls[..|calls| - 1]) + calls[|calls| - 1]
  }

  lemma {:induction false} CountRowsAppend(xs: seq<string>, ys: seq<string>)
    ensures CountRows(xs + ys) == CountRows(xs) + CountRows(ys)
    decreases |ys|
  {
    if |ys| == 0 {
      assert xs + ys == xs;
    } else {
      var ys' := ys[..|ys| - 1];
      assert (xs + ys)[..|xs + ys| - 1] == xs + ys';
      CountRowsAppend(xs, ys');
    }
  }

  lemma {:induction false} CountRowsOfRows(fmt: Format, ps: seq<Point>)
    ensures CountRows(Rows(fmt, ps)) == |ps|
    decreases |ps|
  {
    if |ps| > 0 {
      var ps' := ps[..|ps| - 1];
      assert Rows(fmt, ps)[..|ps| - 1] == Rows(fmt, ps');
      CountRowsOfRows(fmt, ps');
      RowIsRow(fmt, ps[|ps| - 1]);
    }
  }

  /** A call too short to be a row, or not starting with a newline. */
  predicate PlainCall(call: string)
  {
    |call| < |RowStart| || call[0] != '\n'
  }

  lemma {:induction false} CountRowsOfFixed(calls: seq<string>)
    requires forall i | 0 <= i < |calls| :: PlainCall(calls[i])
    ensures CountRows(calls) == 0
    decreases |calls|
  {
    if |calls| > 0 {
      var last := calls[|calls| - 1];
      assert !IsRow(last) by {
        if |last| >= |RowStart| {
          assert last[..|RowStart|][0] == last[0];
        }
      }
      CountRowsOfFixed(calls[..|calls| - 1]);
    }
  }

  function LineOpen(line: Line): seq<string>
  {
    ["\n\t{", ":name \"" + line.name + "\"", "\n\t\t["]
  }

  const LineClose: seq<string> := ["\n\t\t]", "\n\t}"]

  /** `WriteLine`: the line's name, then exactly one row per point, in point
      order, between fixed brackets. */
  function WriteLine(fmt: Format, line: Line): (calls: seq<string>)
    ensures |calls| == |line.points| + 5
    ensures CountRows(calls) == |line.points|
    ensures calls[..3] == LineOpen(line)
    ensures calls[3 .. 3 + |line.points|] == Rows(fmt, line.points)
    ensures calls[3 + |line.points| ..] == LineClose
  {
    var open := LineOpen(line);
    var rows := Rows(fmt, line.points);
    CountRowsOfFixed(open);
    CountRowsOfFixed(LineClose);
    CountRowsOfRows(fmt, line.points);
    CountRowsAppend(open, rows);
    CountRowsAppend(open + rows, LineClose);
    open + rows + LineClose
  }

  /** Where the block of line `k` starts among the calls for `lines`: after
      the blocks of all earlier lines, each five calls plus one per point. */
  function BlockStart(lines: seq<Line>, k: int): nat
    requires 0 <= k <= |lines|
  {
    TotalPoints(lines[..k]) + 5 * k
  }

  /** `block` occurs in `calls` starting at offset `o`. */
  predicate BlockAt(calls: seq<string>, o: int, block: seq<string>)
  {
    0 <= o && o + |block| <= |calls| && calls[o .. o + |block|] == block
  }

  lemma BlockInPrefix(xs: seq<string>, ys: seq<string>, o: int, block: seq<string>)
    requires BlockAt(xs, o, block)
    ensures BlockAt(xs + ys, o, block)
  {
    assert (xs + ys)[o .. o + |block|] == xs[o .. o + |block|];
  }

  lemma BlockShift(pre: seq<string>, xs: seq<string>, post: seq<string>, o: int, block: seq<string>)
    requires BlockAt(xs, o, block)
    ensures BlockAt(pre + xs + post, |pre| + o, block)
  {
    assert (pre + xs + post)[|pre| + o .. |pre| + o + |block|] == xs[o .. o + |block|];
  }

  /** Appending the block of one more line keeps every earlier block in
      place and puts the new one right after them; `blocks[k]` is the block
      of line `k`. */
  lemma BlocksExtend(prev: seq<Line>, line: Line, blocks: seq<seq<string>>, init: seq<string>)
    requires |blocks| == |prev| + 1
    requires |init| == BlockStart(prev, |prev|)
    requires forall k | 0 <= k < |prev| :: BlockAt(init, BlockStart(prev, k), blocks[k])
    ensures forall k | 0 <= k < |prev| + 1 :: BlockAt(init + blocks[|prev|], BlockStart(prev + [line], k), blocks[k])
  {
    var lines := prev + [line];
    var last := blocks[|prev|];
    forall k | 0 <= k < |lines|
      ensures BlockAt(init + last, BlockStart(lines, k), blocks[k])
    {
      if k < |prev| {
        assert lines[..k] == prev[..k];
        BlockInPrefix(init, last, BlockStart(prev, k), blocks[k]);
      } else {
        assert lines[..k] == prev[..|prev|];
        assert (init + last)[|init| .. |init| + |last|] == last;
      }
    }
  }

  /** `BlocksExtend` for the blocks written by `WriteLine`. */
  lemma WriteLinesStep(fmt: Format, lines: seq<Line>, prev: seq<Line>, init: seq<string>, last: seq<string>)
    requires |lines| > 0 && prev == lines[..|lines| - 1] && last == WriteLine(fmt, lines[|lines| - 1])
    requires |init| == BlockStart(lines, |lines| - 1)
    requires forall k | 0 <= k < |prev| :: BlockAt(init, BlockStart(prev, k), WriteLine(fmt, prev[k]))
    ensures forall k | 0 <= k < |lines| :: BlockAt(init + last, BlockStart(lines, k), WriteLine(fmt, lines[k]))
  {
    var blocks := seq(|lines|, k requires 0 <= k < |lines| => WriteLine(fmt, lines[k]));
    assert lines == prev + [lines[|lines| - 1]];
    assert prev[..|prev|] == prev;
    forall k | 0 <= k < |prev|
      ensures BlockAt(init, BlockStart(prev, k), blocks[k])
    {
      assert blocks[k] == WriteLine(fmt, prev[k]);
    }
    BlocksExtend(prev, lines[|lines| - 1], blocks, init);
    forall k | 0 <= k < |lines|
      ensures BlockAt(init + last, BlockStart(lines, k), WriteLine(fmt, lines[k]))
    {
      assert blocks[k] == WriteLine(fmt, lines[k]);
    }
  }

  /** The `foreach (var line in lines) WriteLine(writer, line)` loop: the
      block of every line, in array order, one after the other. */
  function WriteLines(fmt: Format, lines: seq<Line>): (calls: seq<string>)
    ensures CountRows(calls) == TotalPoints(lines)
    ensures |calls| == TotalPoints(lines) + 5 * |lines|
    ensures forall k | 0 <= k < |lines| :: BlockAt(calls, BlockStart(lines, k), WriteLine(fmt, lines[k]))
  {
    if |lines| == 0 then []
    else
      var init := WriteLines(fmt, lines[..|lines| - 1]);
      var last := WriteLine(fmt, lines[|lines| - 1]);
      CountRowsAppend(init, last);
      WriteLinesStep(fmt, lines, lines[..|lines| - 1], init, last);
      init + last
  }

  /** The header written before the lines. */
  function Header(fmt: Format, name: string, length: real, frameCount: nat): string
  {
    "{ :name \"" + name + "\" :length " + fmt(length) + " :frames " + NatToString(frameCount) + " :bones [ "
  }

  /** The fields of the header sit at fixed offsets around the clip name,
      the formatted length and the frame count, and the frame count reads
      back from its digits. */
  lemma HeaderFields(fmt: Format, name: string, length: real, frameCount: nat, h: string)
    requires h == Header(fmt, name, length, frameCount)
    ensures |h| == 38 + |name| + |fmt(length)| + |NatToString(frameCount)|
    ensures h[..9] == "{ :name \""
    ensures h[9 .. 9 + |name|] == name
    ensures h[9 + |name| .. 19 + |name|] == "\" :length "
    ensures h[19 + |name| .. 19 + |name| + |fmt(length)|] == fmt(length)
    ensures h[19 + |name| + |fmt(length)| .. 28 + |name| + |fmt(length)|] == " :frames "
    ensures h[28 + |name| + |fmt(length)| .. 28 + |name| + |fmt(length)| + |NatToString(frameCount)|]
         == NatToString(frameCount)
    ensures ParseDigits(h[28 + |name| + |fmt(length)| .. 28 + |name| + |fmt(length)| + |NatToString(frameCount)|])
         == frameCount
    ensures h[|h| - 10 ..] == " :bones [ "
  {
    var d := NatToString(frameCount);
    FieldsAt("{ :name \"", name, "\" :length ", fmt(length), " :frames ", d, " :bones [ ");
    ParseNatToString(frameCount);
  }

  /** Where the fields of a seven-part text sit. */
  lemma FieldsAt(p0: string, a: string, p1: string, b: string, p2: string, c: string, p3: string)
    ensures |p0 + a + p1 + b + p2 + c + p3| == |p0| + |a| + |p1| + |b| + |p2| + |c| + |p3|
    ensures (p0 + a + p1 + b + p2 + c + p3)[..|p0|] == p0
    ensures (p0 + a + p1 + b + p2 + c + p3)[|p0| .. |p0| + |a|] == a
    ensures (p0 + a + p1 + b + p2 + c + p3)[|p0| + |a| .. |p0| + |a| + |p1|] == p1
    ensures (p0 + a + p1 + b + p2 + c + p3)[|p0| + |a| + |p1| .. |p0| + |a| + |p1| + |b|] == b
    ensures (p0 + a + p1 + b + p2 + c + p3)[|p0| + |a| + |p1| + |b| .. |p0| + |a| + |p1| + |b| + |p2|] == p2
    ensures (p0 + a + p1 + b + p2 + c + p3)[|p0| + |a| + |p1| + |b| + |p2| .. |p0| + |a| + |p1| + |b| + |p2| + |c|] == c
    ensures (p0 + a + p1 + b + p2 + c + p3)[|p0| + |a| + |p1| + |b| + |p2| + |c| ..] == p3
  {
    var h := p0 + a + p1 + b + p2 + c + p3;
    var i1 := |p0|;
    var i2 := i1 + |a|;
    var i3 := i2 + |p1|;
    var i4 := i3 + |b|;
    var i5 := i4 + |p2|;
    var i6 := i5 + |c|;
    assert h[..i1] == p0;
    assert h[i1 .. i2] == a;
    assert h[i2 .. i3] == p1;
    assert h[i3 .. i4] == b;
    assert h[i4 .. i5] == p2;
    assert h[i5 .. i6] == c;
    assert h[i6 ..] == p3;
  }

  const Footer: string := "\n] }"

  /** `WriteAnimation`: the header with the clip's name, length and frame
      count, then every line's block in array order, then the footer. */
  function WriteAnimation(fmt: Format, name: string, length: real, frameCount: nat, lines: seq<Line>): (calls: seq<string>)
    ensures |calls| == TotalPoints(lines) + 5 * |lines| + 2
    ensures calls[0] == Header(fmt, name, length, frameCount)
    ensures PlainCall(calls[0]) && calls[|calls| - 1] == Footer
    ensures forall k | 0 <= k < |lines| :: BlockAt(calls, 1 + BlockStart(lines, k), WriteLine(fmt, lines[k]))
    ensures CountRows(calls) == TotalPoints(lines)
  {
    var head := Header(fmt, name, length, frameCount);
    var body := WriteLines(fmt, lines);
    assert head[0] == '{';
    Framed(head, body);
    BlocksShift(fmt, lines, head, body);
    [head] + body + [Footer]
  }

  lemma BlocksShift(fmt: Format, lines: seq<Line>, head: string, body: seq<string>)
    requires forall k | 0 <= k < |lines| :: BlockAt(body, BlockStart(lines, k), WriteLine(fmt, lines[k]))
    ensures forall k | 0 <= k < |lines| :: BlockAt([head] + body + [Footer], 1 + BlockStart(lines, k), WriteLine(fmt, lines[k]))
  {
    forall k | 0 <= k < |lines|
      ensures BlockAt([head] + body + [Footer], 1 + BlockStart(lines, k), WriteLine(fmt, lines[k]))
    {
      BlockShift([head], body, [Footer], BlockStart(lines, k), WriteLine(fmt, lines[k]));
    }
  }

  /** Framing the body between a call that is no row and the footer adds no
      rows. */
  lemma Framed(head: string, body: seq<string>)
    requires PlainCall(head)
    ensures CountRows([head] + body + [Footer]) == CountRows(body)
  {
    CountRowsAppend([head], body);
    CountRowsAppend([head] + body, [Footer]);
    CountRowsOfFixed([head]);
    CountRowsOfFixed([Footer]);
  }

  /** The file text. */
  function AnimationText(fmt: Format, name: string, length: real, frameCount: nat, lines: seq<Line>): string
  {
    Concat(WriteAnimation(fmt, name, length, frameCount, lines))
  }

  /** The scalar entries of a set of matrices. */
  function EntriesOf(ms: set<Matrix>): set<real>
  {
    set m, r, c | m in ms && 0 <= r < 4 && 0 <= c < 4 :: m[r][c]
  }

  /** `float.ToString()` tells the values `vs` apart and writes none of them
      with a space. Nothing is asked about values outside `vs`: the 7-digit
      text of a float is not one-to-one on all numbers. */
  predicate FaithfulOn(fmt: Format, vs: set<real>)
  {
    && (forall x, y | x in vs && y in vs && fmt(x) == fmt(y) :: x == y)
    && (forall x | x in vs :: ' ' !in fmt(x))
  }

  /** The values of a sequence. */
  function Values(vs: seq<real>): set<real>
  {
    set v | v in vs
  }

  /** With a format that tells the values apart, `FloatToStringArray` loses
      nothing: two value sequences give the same texts exactly when they are
      equal. */
  lemma FormatAllInjective(fmt: Format, vs: seq<real>, ws: seq<real>)
    requires FaithfulOn(fmt, Values(vs) + Values(ws))
    ensures FormatAll(fmt, vs) == FormatAll(fmt, ws) <==> vs == ws
  {
    if FormatAll(fmt, vs) == FormatAll(fmt, ws) {
      forall i | 0 <= i < |vs|
        ensures vs[i] == ws[i]
      {
        assert vs[i] in Values(vs) && ws[i] in Values(ws);
        assert fmt(vs[i]) == FormatAll(fmt, vs)[i] == FormatAll(fmt, ws)[i] == fmt(ws[i]);
      }
    }
  }

  /** Each of the 16 written values is an entry of the matrix. */
  lemma ArrayEntries(m: Matrix, ms: set<Matrix>, i: int)
    requires m in ms && 0 <= i < 16
    ensures MatrixToArray(m)[i] in EntriesOf(ms)
  {
    var r, c := i % 4, i / 4;
    assert 4 * c + r == i;
    assert m[r][c] in EntriesOf(ms);
  }

  /** With a format faithful on their entries, the 16 written values of two
      matrices are the same text exactly when the matrices are equal:
      splitting the row text at spaces gives the values back. */
  lemma MatrixTextDeterminesMatrix(fmt: Format, m1: Matrix, m2: Matrix)
    requires FaithfulOn(fmt, EntriesOf({m1, m2}))
    ensures MatrixText(fmt, m1) == MatrixText(fmt, m2) <==> m1 == m2
  {
    if MatrixText(fmt, m1) == MatrixText(fmt, m2) {
      var a1 := MatrixToArray(m1);
      var a2 := MatrixToArray(m2);
      var vs := EntriesOf({m1, m2});
      forall i | 0 <= i < 16
        ensures a1[i] in vs && a2[i] in vs
      {
        ArrayEntries(m1, {m1, m2}, i);
        ArrayEntries(m2, {m1, m2}, i);
      }
      SplitJoin(FormatAll(fmt, a1), ' ');
      SplitJoin(FormatAll(fmt, a2), ' ');
      assert Values(a1) + Values(a2) <= vs;
      FormatAllInjective(fmt, a1, a2);
      ArrayInjective(m1, m2);
    }
  }

  /** The hypothesis can be met: any format that writes 0 and 1 differently
      and without spaces is faithful on the entries of the zero and identity
      matrices, so it writes the two matrices differently. */
  lemma ZeroAndIdentityWritten(fmt: Format)
    requires fmt(0.0) != fmt(1.0) && ' ' !in fmt(0.0) && ' ' !in fmt(1.0)
    ensures MatrixText(fmt, Zero) != MatrixText(fmt, Identity)
  {
    forall v | v in EntriesOf({Zero, Identity})
      ensures v == 0.0 || v == 1.0
    {
      var m, r, c :| m in {Zero, Identity} && 0 <= r < 4 && 0 <= c < 4 && v == m[r][c];
    }
    assert FaithfulOn(fmt, EntriesOf({Zero, Identity}));
    assert Zero != Identity by {
      assert Zero[0][0] != Identity[0][0];
    }
    MatrixTextDeterminesMatrix(fmt, Zero, Identity);
  }

  /** After compression no two rows of a line write the same 16 values, for
      a format faithful on the entries of the line's matrices. */
  lemma CompressedRowsDiffer(fmt: Format, line: Line)
    requires FaithfulOn(fmt, EntriesOf(MatrixSet(line.points)))
    ensures forall i, j | 0 <= i < j < |CompressLine(line).points| ::
      MatrixText(fmt, CompressLine(line).points[i].matrix) != MatrixText(fmt, CompressLine(line).points[j].matrix)
  {
    var ps := CompressLine(line).points;
    var ms := MatrixSet(line.points);
    forall i, j | 0 <= i < j < |ps|
      ensures MatrixText(fmt, ps[i].matrix) != MatrixText(fmt, ps[j].matrix)
    {
      var m1, m2 := ps[i].matrix, ps[j].matrix;
      assert ps[i] in ps && ps[j] in ps;
      assert m1 in ms && m2 in ms;
      assert EntriesOf({m1, m2}) <= EntriesOf(ms);
      MatrixTextDeterminesMatrix(fmt, m1, m2);
    }
  }
}
