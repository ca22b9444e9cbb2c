/** The transform hierarchy under the exporting object, and the bone list
    the exporter bakes: every transform strictly below the root, in pre-order. */
module Hierarchy {

  /** A scene transform. `id` stands for object identity, which the host
      keeps apart even for transforms that share a name. */
  datatype Transform = Transform(id: int, name: string, children: seq<Transform>)

  /** Number of transforms in the subtree rooted at `t`, `t` included. */
  function Size(t: Transform): (n: nat)
    ensures n >= 1
    decreases t
  {
    1 + SizeOf(t.children)
  }

  function SizeOf(cs: seq<Transform>): nat
    decreases cs
  {
    if |cs| == 0 then 0 else Size(cs[0]) + SizeOf(cs[1..])
  }

  /** `Descendants(transform)`: children in index order, each followed at once
      by its own descendants; the root itself is not listed. */
  function Descendants(t: Transform): (ds: seq<Transform>)
    ensures |ds| == Size(t) - 1
    decreases t
  {
    DescendantsOf(t.children)
  }

  /** The `SelectMany(t => [t].Concat(Descendants(t)))` over a child list. */
  function DescendantsOf(cs: seq<Transform>): (ds: seq<Transform>)
    ensures |ds| == SizeOf(cs)
    decreases cs
  {
    if |cs| == 0 then [] else [cs[0]] + Descendants(cs[0]) + DescendantsOf(cs[1..])
  }

  /** `x` lies strictly below `t`. */
  predicate Below(x: Transform, t: Transform)
    decreases t
  {
    exists i | 0 <= i < |t.children| :: x == t.children[i] || Below(x, t.children[i])
  }

  predicate BelowAny(x: Transform, cs: seq<Transform>)
  {
    exists i | 0 <= i < |cs| :: x == cs[i] || Below(x, cs[i])
  }

  /** Where the block of child `i` starts in its parent's descendant list:
      the sizes of the children before it, summed. */
  function Offset(cs: seq<Transform>, i: int): nat
    requires 0 <= i <= |cs|
    decreases i
  {
    if i == 0 then 0 else Size(cs[0]) + Offset(cs[1..], i - 1)
  }

  /** A block that sits at `o` inside `tail` sits `|d| + 1` places further
      on inside `[x] + d + tail`. */
  lemma BlockAfterHead(ds: seq<Transform>, x: Transform, d: seq<Transform>, tail: seq<Transform>,
                       o: int, len: int, y: Transform, block: seq<Transform>)
    requires ds == [x] + d + tail
    requires 0 <= o && 1 <= len && o + len <= |tail|
    requires tail[o] == y && tail[o + 1 .. o + len] == block
    ensures |d| + 1 + o + len <= |ds|
    ensures ds[|d| + 1 + o] == y
    ensures ds[|d| + 1 + o + 1 .. |d| + 1 + o + len] == block
  {
    assert ds[|d| + 1 + o + 1 .. |d| + 1 + o + len] == tail[o + 1 .. o + len];
  }

  /** The first child stands first, followed by its own descendants. */
  lemma FirstChildBlock(cs: seq<Transform>)
    requires 0 < |cs|
    ensures Size(cs[0]) <= |DescendantsOf(cs)|
    ensures DescendantsOf(cs)[0] == cs[0]
    ensures DescendantsOf(cs)[1 .. Size(cs[0])] == Descendants(cs[0])
  {
    var d := Descendants(cs[0]);
    var ds := DescendantsOf(cs);
    assert ds == [cs[0]] + d + DescendantsOf(cs[1..]);
    assert ds[1 .. 1 + |d|] == d;
  }

  /** Pre-order layout: in the descendant list of a child list, child `i`
      stands at its offset and is followed immediately by its own
      descendants, which fill exactly `Size(cs[i]) - 1` places. */
  lemma {:induction false} ChildBlock(cs: seq<Transform>, i: int)
    requires 0 <= i < |cs|
    ensures Offset(cs, i) + Size(cs[i]) <= |DescendantsOf(cs)|
    ensures DescendantsOf(cs)[Offset(cs, i)] == cs[i]
    ensures DescendantsOf(cs)[Offset(cs, i) + 1 .. Offset(cs, i) + Size(cs[i])] == Descendants(cs[i])
    decreases i
  {
    if i == 0 {
      FirstChildBlock(cs);
    } else {
      var rest := cs[1..];
      var d := Descendants(cs[0]);
      var o := Offset(rest, i - 1);
      ChildBlock(rest, i - 1);
      assert rest[i - 1] == cs[i];
      assert Offset(cs, i) == |d| + 1 + o;
      BlockAfterHead(DescendantsOf(cs), cs[0], d, DescendantsOf(rest), o, Size(cs[i]), cs[i], Descendants(cs[i]));
    }
  }

  /** The same layout stated for a transform and its `i`-th child. */
  lemma DescendantsLayout(t: Transform, i: int)
    requires 0 <= i < |t.children|
    ensures Offset(t.children, i) + Size(t.children[i]) < Size(t)
    ensures Descendants(t)[Offset(t.children, i)] == t.children[i]
    ensures Descendants(t)[Offset(t.children, i) + 1 .. Offset(t.children, i) + Size(t.children[i])]
         == Descendants(t.children[i])
  {
    ChildBlock(t.children, i);
  }

  /** The descendant list holds exactly the transforms strictly below `t`. */
  lemma {:induction false} DescendantsAreBelow(x: Transform, t: Transform)
    ensures x in Descendants(t) <==> Below(x, t)
    decreases t, 1
  {
    DescendantsOfAreBelow(x, t.children);
  }

  lemma {:induction false} DescendantsOfAreBelow(x: Transform, cs: seq<Transform>)
    ensures x in DescendantsOf(cs) <==> BelowAny(x, cs)
    decreases cs, 0
  {
    if |cs| > 0 {
      DescendantsAreBelow(x, cs[0]);
      DescendantsOfAreBelow(x, cs[1..]);
      var ds := DescendantsOf(cs);
      assert ds == [cs[0]] + Descendants(cs[0]) + DescendantsOf(cs[1..]);
      if BelowAny(x, cs) {
        var i :| 0 <= i < |cs| && (x == cs[i] || Below(x, cs[i]));
        if i > 0 {
          assert cs[1..][i - 1] == cs[i];
        }
      }
      if BelowAny(x, cs[1..]) {
        var i :| 0 <= i < |cs[1..]| && (x == cs[1..][i] || Below(x, cs[1..][i]));
        assert cs[i + 1] == cs[1..][i];
      }
    }
  }
}
