/** The path sink ("pen") as a recorded trace of drawing commands. */
module Pen {

  datatype Point = Point(x: real, y: real)

  datatype Cmd =
    | MoveTo(p: Point)
    | LineTo(p: Point)
    | CurveTo(c1: Point, c2: Point, end: Point)
    | ClosePath

  function Add(a: Point, b: Point): Point {
    Point(a.x + b.x, a.y + b.y)
  }

  function Sub(a: Point, b: Point): Point {
    Point(a.x - b.x, a.y - b.y)
  }

  function Mid(a: Point, b: Point): Point {
    Point((a.x + b.x) / 2.0, (a.y + b.y) / 2.0)
  }

  function Dot(a: Point, b: Point): real {
    a.x * b.x + a.y * b.y
  }

  function SqDist(a: Point, b: Point): real {
    Dot(Sub(a, b), Sub(a, b))
  }

  /** Number of sub-paths started in a trace. */
  function CountMoves(cmds: seq<Cmd>): (n: nat)
    ensures n <= |cmds|
  {
    if cmds == [] then 0
    else CountMoves(cmds[..|cmds| - 1]) + (if cmds[|cmds| - 1].MoveTo? then 1 else 0)
  }

  lemma {:induction false} CountMovesAppend(a: seq<Cmd>, b: seq<Cmd>)
    ensures CountMoves(a + b) == CountMoves(a) + CountMoves(b)
    decreases |b|
  {
    if b == [] {
      assert a + b == a;
    } else {
      var b' := b[..|b| - 1];
      assert (a + b)[..|a + b| - 1] == a + b';
      CountMovesAppend(a, b');
    }
  }

  /** The traces of several shapes, one after the other. */
  function Join(blocks: seq<seq<Cmd>>): seq<Cmd> {
    if blocks == [] then []
    else Join(blocks[..|blocks| - 1]) + blocks[|blocks| - 1]
  }

  /** Block i of a trace of k-command blocks starts at k * i. */
  lemma BlockBounds(k: nat, i: nat, m: nat)
    requires i < m
    ensures k * i + k == k * (i + 1) <= k * m
  {
    var d: nat := m - (i + 1);
    assert k * m == k * (i + 1) + k * d;
  }

  lemma SliceOfAppend(a: seq<Cmd>, b: seq<Cmd>, lo: nat, hi: nat)
    requires lo <= hi <= |a|
    ensures (a + b)[lo..hi] == a[lo..hi]
  {
  }

  /** When every shape draws k commands, the joined trace has k commands per
      shape and block i is shape i's trace. */
  lemma {:induction false} JoinLayout(blocks: seq<seq<Cmd>>, k: nat)
    requires forall i :: 0 <= i < |blocks| ==> |blocks[i]| == k
    ensures |Join(blocks)| == k * |blocks|
    ensures forall i :: 0 <= i < |blocks| ==>
      k * i + k <= |Join(blocks)| && Join(blocks)[k * i..k * i + k] == blocks[i]
  {
    if blocks != [] {
      var m := |blocks| - 1;
      var pre := blocks[..m];
      var joined := Join(pre);
      JoinLayout(pre, k);
      var t := Join(blocks);
      assert t == joined + blocks[m];
      BlockBounds(k, m, m + 1);
      assert |t| == k * |blocks|;
      forall i | 0 <= i < |blocks|
        ensures k * i + k <= |t| && t[k * i..k * i + k] == blocks[i]
      {
        BlockBounds(k, i, m + 1);
        if i < m {
          BlockBounds(k, i, m);
          SliceOfAppend(joined, blocks[m], k * i, k * i + k);
          assert pre[i] == blocks[i];
        } else {
          assert joined + blocks[m] == t;
          assert t[|joined|..] == blocks[m];
        }
      }
    }
  }
}
