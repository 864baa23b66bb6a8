/** The jelly miner's cave: a mutable list of soft circular nodes that the
    dwarfs and their weapons erode ("dig") and query by range. */
module JellyCave {
  import opened Geometry

  /** A node whose radius drops below this is spliced out of the cave. */
  const MinRadius := 3.0
  /** The border of the canvas that the grid leaves empty. */
  const Margin := 60

  /** One soft circle of jelly. Its centre and initial radius never change;
      only the radius r shrinks as it is dug. */
  class CaveNode {
    const pos: Vec
    const maxR: real
    var r: real

    constructor (pos: Vec, r: real)
      ensures this.pos == pos && this.r == r && maxR == r
    {
      this.pos := pos;
      this.r := r;
      this.maxR := r;
    }
  }

  /** The random draws buildGrid makes for one grid cell: the "leave the top
      open" coin, the radius factor and the two position jitters. */
  datatype CellDraw = CellDraw(skip: real, scale: real, jx: real, jy: real)

  /** Every draw lies in the range the game asks p5's random() for:
      random() in [0, 1), random(0.85, 1.15), random(-spacing/4, spacing/4). */
  ghost predicate DrawsInRange(draw: (int, int) -> CellDraw, spacing: int) {
    forall x, y ::
      && 0.0 <= draw(x, y).skip < 1.0
      && 0.85 <= draw(x, y).scale < 1.15
      && -(spacing as real) * 0.25 <= draw(x, y).jx < (spacing as real) * 0.25
      && -(spacing as real) * 0.25 <= draw(x, y).jy < (spacing as real) * 0.25
  }

  /** dist(p, n.pos) < rad + n.r, the overlap test of nodesInRange, stated
      without a square root (a negative bound can never be beaten). */
  predicate Touches(n: CaveNode, p: Vec, rad: real)
    reads n
  {
    0.0 < rad + n.r && DistSq(p, n.pos) < (rad + n.r) * (rad + n.r)
  }

  /** Touches is the distance test it stands for: dist(p, n.pos) < rad + n.r. */
  lemma TouchesIsDistanceTest(n: CaveNode, p: Vec, rad: real, sqrt: real -> real)
    requires IsSqrt(sqrt)
    ensures Touches(n, p, rad) <==> sqrt(DistSq(p, n.pos)) < rad + n.r
  {
    if 0.0 < rad + n.r {
      SquaredTestIsDistanceTest(p, n.pos, rad + n.r, sqrt);
    }
  }

  /** The order-preserving filter of the nodes that touch the circle of
      radius rad around p. */
  function InRange(ns: seq<CaveNode>, p: Vec, rad: real): (out: seq<CaveNode>)
    reads ns
    ensures |out| <= |ns|
    ensures forall n <- out :: n in ns
  {
    if ns == [] then []
    else
      var last := ns[|ns| - 1];
      InRange(ns[..|ns| - 1], p, rad) + (if Touches(last, p, rad) then [last] else [])
  }

  /** A node is reported exactly when it is in the list and touches the circle. */
  lemma {:induction false} InRangeMembers(ns: seq<CaveNode>, p: Vec, rad: real, n: CaveNode)
    ensures n in InRange(ns, p, rad) <==> n in ns && Touches(n, p, rad)
  {
    if ns != [] {
      var init := ns[..|ns| - 1];
      InRangeMembers(init, p, rad, n);
      assert ns == init + [ns[|ns| - 1]];
    }
  }

  /** The filter distributes over concatenation, so it keeps the relative
      order of the nodes it reports. */
  lemma {:induction false} InRangeAppend(a: seq<CaveNode>, b: seq<CaveNode>, p: Vec, rad: real)
    ensures InRange(a + b, p, rad) == InRange(a, p, rad) + InRange(b, p, rad)
  {
    if b == [] {
      assert a + b == a;
    } else {
      var init := b[..|b| - 1];
      InRangeAppend(a, init, p, rad);
      assert (a + b)[..|a + b| - 1] == a + init;
    }
  }

  /** Filtering a list without repeats gives a list without repeats. */
  lemma {:induction false} InRangeDistinct(ns: seq<CaveNode>, p: Vec, rad: real)
    requires forall i, j :: 0 <= i < j < |ns| ==> ns[i] != ns[j]
    ensures var out := InRange(ns, p, rad); forall i, j :: 0 <= i < j < |out| ==> out[i] != out[j]
  {
    if ns != [] {
      var init, last := ns[..|ns| - 1], ns[|ns| - 1];
      InRangeDistinct(init, p, rad);
      InRangeMembers(init, p, rad, last);
      assert last !in init;
    }
  }

  /** Node i contains the point p and no earlier node does. */
  predicate FirstTouching(ns: seq<CaveNode>, i: int, p: Vec)
    reads ns
    requires 0 <= i < |ns|
  {
    Touches(ns[i], p, 0.0) && forall j :: 0 <= j < i ==> !Touches(ns[j], p, 0.0)
  }

  /** The position of the first occurrence of x in s, or -1 (JavaScript's indexOf). */
  function IndexOf<T(==)>(s: seq<T>, x: T): (i: int)
    ensures -1 <= i < |s|
    ensures 0 <= i ==> s[i] == x && x !in s[..i]
    ensures i < 0 ==> x !in s
  {
    if s == [] then -1
    else if s[0] == x then 0
    else
      var j := IndexOf(s[1..], x);
      assert s[1..][..if j < 0 then 0 else j] == s[1..if j < 0 then 1 else j + 1];
      if j < 0 then -1 else j + 1
  }

  /** s with its first occurrence of x spliced out, the others in order. */
  function RemoveFirst<T(==)>(s: seq<T>, x: T): (r: seq<T>)
    ensures x !in s ==> r == s
    ensures x in s ==> |r| == |s| - 1
    ensures x in s ==> exists i :: 0 <= i < |s| && s[i] == x && r == s[..i] + s[i + 1..]
  {
    var i := IndexOf(s, x);
    if i < 0 then s else s[..i] + s[i + 1..]
  }

  /** Splicing out an element of a list without repetitions leaves exactly the others. */
  lemma RemoveFirstMembers<T>(s: seq<T>, x: T, y: T)
    requires forall i, j :: 0 <= i < j < |s| ==> s[i] != s[j]
    ensures y in RemoveFirst(s, x) <==> y in s && y != x
  {
    var i := IndexOf(s, x);
    if 0 <= i {
      assert s == s[..i] + [x] + s[i + 1..];
      if y == x {
        forall k | 0 <= k < |s| && k != i ensures s[k] != x {
          assert s[k] != s[i];
        }
        assert x !in s[i + 1..] by {
          forall k | i + 1 <= k < |s| ensures s[k] != x {
            assert s[k] != s[i];
          }
        }
      }
    }
  }

  /** Splicing x out of a list without repetitions keeps the list free of
      repetitions, drops x and keeps every other element. */
  lemma RemoveFirstKeepsOthers<T>(s: seq<T>, x: T)
    requires forall i, j :: 0 <= i < j < |s| ==> s[i] != s[j]
    ensures var r := RemoveFirst(s, x);
      && (forall i, j :: 0 <= i < j < |r| ==> r[i] != r[j])
      && (forall y <- r :: y in s && y != x)
      && (forall y <- s :: y != x ==> y in r)
  {
    var r := RemoveFirst(s, x);
    var i := IndexOf(s, x);
    if 0 <= i {
      forall a, b | 0 <= a < b < |r| ensures r[a] != r[b] {
        var a' := if a < i then a else a + 1;
        var b' := if b < i then b else b + 1;
        assert r[a] == s[a'] && r[b] == s[b'];
      }
    }
    forall y <- r ensures y in s && y != x {
      RemoveFirstMembers(s, x, y);
    }
    forall y <- s | y != x ensures y in r {
      RemoveFirstMembers(s, x, y);
    }
  }

  /** Where buildGrid puts a node, and its radius. */
  datatype Seed = Seed(pos: Vec, r: real)

  /** The cell at height y is left open: the top 12% of the canvas keeps
      a cell empty when its coin comes up below 0.85. */
  predicate Skipped(y: int, height: int, c: CellDraw) {
    (y as real) < (height as real) * 0.12 && c.skip < 0.85
  }

  /** The node the cell at (x, y) lays when it is not left open: at the grid
      point moved by the cell's jitter, with the cell's radius factor. */
  function CellSeed(x: int, y: int, nodeRadius: real, c: CellDraw): Seed {
    Seed(Vec(x as real + c.jx, y as real + c.jy), nodeRadius * c.scale)
  }

  /** The node laid in the cell at (x, y), if any. */
  function Cell(x: int, y: int, nodeRadius: real, height: int, c: CellDraw): (cell: seq<Seed>)
    ensures |cell| <= 1
  {
    if Skipped(y, height, c) then [] else [CellSeed(x, y, nodeRadius, c)]
  }

  /** A cell that is not left open lays exactly its seed. */
  lemma CellLaid(x: int, y: int, nodeRadius: real, height: int, c: CellDraw)
    requires !Skipped(y, height, c)
    ensures Cell(x, y, nodeRadius, height, c) == [CellSeed(x, y, nodeRadius, c)]
  {
  }

  /** The nodes buildGrid's inner loop lays in the row at height y, from
      column x on: one per cell that is not left open, at the grid point
      moved by the cell's jitter, with the cell's radius factor. */
  function RowFrom(x: int, y: int, spacing: int, nodeRadius: real, width: int, height: int,
                   draw: (int, int) -> CellDraw): seq<Seed>
    requires 0 < spacing
    decreases width - Margin - x
  {
    if x >= width - Margin then []
    else Cell(x, y, nodeRadius, height, draw(x, y)) + RowFrom(x + spacing, y, spacing, nodeRadius, width, height, draw)
  }

  /** The nodes buildGrid's outer loop lays from the row at height y on. */
  function GridFrom(y: int, spacing: int, nodeRadius: real, width: int, height: int,
                    draw: (int, int) -> CellDraw): seq<Seed>
    requires 0 < spacing
    decreases height - Margin - y
  {
    if y >= height - Margin then []
    else RowFrom(Margin, y, spacing, nodeRadius, width, height, draw)
         + GridFrom(y + spacing, spacing, nodeRadius, width, height, draw)
  }

  /** One more cell of the inner loop: the cells from x on are cell x
      followed by the cells after it, and nothing once x has passed the margin. */
  lemma RowFromStep(x: int, y: int, spacing: int, nodeRadius: real, width: int, height: int,
                    draw: (int, int) -> CellDraw)
    requires 0 < spacing
    ensures x < width - Margin ==>
              RowFrom(x, y, spacing, nodeRadius, width, height, draw)
              == Cell(x, y, nodeRadius, height, draw(x, y))
                 + RowFrom(x + spacing, y, spacing, nodeRadius, width, height, draw)
    ensures width - Margin <= x ==> RowFrom(x, y, spacing, nodeRadius, width, height, draw) == []
  {
  }

  /** One more row of the outer loop: the rows from y on are row y followed
      by the rows after it, and nothing once y has passed the margin. */
  lemma GridFromStep(y: int, spacing: int, nodeRadius: real, width: int, height: int,
                     draw: (int, int) -> CellDraw)
    requires 0 < spacing
    ensures y < height - Margin ==>
              GridFrom(y, spacing, nodeRadius, width, height, draw)
              == RowFrom(Margin, y, spacing, nodeRadius, width, height, draw)
                 + GridFrom(y + spacing, spacing, nodeRadius, width, height, draw)
    ensures height - Margin <= y ==> GridFrom(y, spacing, nodeRadius, width, height, draw) == []
  {
  }

  /** The outer loop's bookkeeping: once the nodes before are laid for
      the rows above y, adding the row laid for row y lays every row above
      the next one. */
  lemma GridGrows(before: seq<CaveNode>, row: seq<CaveNode>, y: int, spacing: int, nodeRadius: real,
                  width: int, height: int, draw: (int, int) -> CellDraw)
    requires 0 < spacing && y < height - Margin
    requires SeedsOf(before) + GridFrom(y, spacing, nodeRadius, width, height, draw)
             == GridFrom(Margin, spacing, nodeRadius, width, height, draw)
    requires SeedsOf(row) == RowFrom(Margin, y, spacing, nodeRadius, width, height, draw)
    ensures SeedsOf(before + row) + GridFrom(y + spacing, spacing, nodeRadius, width, height, draw)
            == GridFrom(Margin, spacing, nodeRadius, width, height, draw)
  {
    GridFromStep(y, spacing, nodeRadius, width, height, draw);
    SeedsOfConcat(before, row);
    ConcatAssoc(SeedsOf(before), SeedsOf(row), GridFrom(y + spacing, spacing, nodeRadius, width, height, draw));
  }

  /** The inner loop's bookkeeping, the same one cell at a time. */
  lemma RowGrows(added: seq<CaveNode>, cell: seq<CaveNode>, x: int, y: int, spacing: int, nodeRadius: real,
                 width: int, height: int, draw: (int, int) -> CellDraw)
    requires 0 < spacing && x < width - Margin
    requires SeedsOf(added) + RowFrom(x, y, spacing, nodeRadius, width, height, draw)
             == RowFrom(Margin, y, spacing, nodeRadius, width, height, draw)
    requires SeedsOf(cell) == Cell(x, y, nodeRadius, height, draw(x, y))
    ensures SeedsOf(added + cell) + RowFrom(x + spacing, y, spacing, nodeRadius, width, height, draw)
            == RowFrom(Margin, y, spacing, nodeRadius, width, height, draw)
  {
    RowFromStep(x, y, spacing, nodeRadius, width, height, draw);
    SeedsOfConcat(added, cell);
    ConcatAssoc(SeedsOf(added), SeedsOf(cell), RowFrom(x + spacing, y, spacing, nodeRadius, width, height, draw));
  }

  /** Node n was laid for seed s: at its place, with its radius as full radius. */
  ghost predicate Matches(n: CaveNode, s: Seed) {
    n.pos == s.pos && n.maxR == s.r
  }

  lemma ConcatAssoc<T>(a: seq<T>, b: seq<T>, c: seq<T>)
    ensures (a + b) + c == a + (b + c)
  {
  }

  /** Taking one more element of s extends the prefix by s[i]. */
  lemma PrefixStep<T>(s: seq<T>, i: int)
    requires 0 <= i < |s|
    ensures s[..i + 1] == s[..i] + [s[i]]
  {
  }

  /** The seeds the nodes ns were laid for, in order. */
  ghost function SeedsOf(ns: seq<CaveNode>): (s: seq<Seed>)
    ensures |s| == |ns|
  {
    seq(|ns|, i requires 0 <= i < |ns| => Seed(ns[i].pos, ns[i].maxR))
  }

  /** Each node matches its own seed. */
  lemma SeedsOfMatch(ns: seq<CaveNode>)
    ensures forall i :: 0 <= i < |ns| ==> Matches(ns[i], SeedsOf(ns)[i])
  {
  }

  /** The seeds of two runs of nodes are the seeds of the first followed by
      those of the second. */
  lemma SeedsOfConcat(a: seq<CaveNode>, b: seq<CaveNode>)
    ensures SeedsOf(a + b) == SeedsOf(a) + SeedsOf(b)
  {
    var l := SeedsOf(a + b);
    var r := SeedsOf(a) + SeedsOf(b);
    forall i | 0 <= i < |l| ensures l[i] == r[i] {
      if i < |a| {
        assert (a + b)[i] == a[i];
      } else {
        assert (a + b)[i] == b[i - |a|];
      }
    }
  }

  /** A single node's seeds: its place and full radius. */
  lemma SeedsOfOne(n: CaveNode)
    ensures SeedsOf([n]) == [Seed(n.pos, n.maxR)]
  {
  }

  /** a*k lies between a*lo and a*hi when a is positive. */
  lemma ScaleWithin(a: real, k: real, lo: real, hi: real, r: real)
    requires 0.0 < a && lo <= k < hi && r == a * k
    ensures a * lo <= r < a * hi
  {
    ScaleAtLeast(a, k, lo, r);
    ScaleBelow(a, k, hi, r);
  }

  lemma ScaleAtLeast(a: real, k: real, lo: real, r: real)
    requires 0.0 < a && lo <= k && r == a * k
    ensures a * lo <= r
  {
    MulNonneg(a, k - lo);
    assert a * (k - lo) == r - a * lo;
  }

  lemma ScaleBelow(a: real, k: real, hi: real, r: real)
    requires 0.0 < a && k < hi && r == a * k
    ensures r < a * hi
  {
    MulPos(a, hi - k);
    assert a * (hi - k) == a * hi - r;
  }

  class Cave {
    const spacing: int
    const nodeRadius: real
    var nodes: seq<CaveNode>
    /** Every node the cave has laid since it was built: what digging may touch. */
    ghost var Repr: set<CaveNode>

    /** The cave's invariant: no node appears twice, every node kept has a
        radius between MinRadius and its initial radius, and all of them
        are in Repr. */
    ghost predicate Valid()
      reads this, nodes
    {
      && 0 < spacing
      && (forall n <- nodes :: n in Repr)
      && MinRadius <= 0.85 * nodeRadius
      && (forall i, j :: 0 <= i < j < |nodes| ==> nodes[i] != nodes[j])
      && (forall n <- nodes :: MinRadius <= n.r <= n.maxR)
    }

    /** new Cave(spacing, nodeRadius): records the two settings and builds the grid. */
    constructor (spacing: int, nodeRadius: real, width: int, height: int, draw: (int, int) -> CellDraw)
      requires 0 < spacing && MinRadius <= 0.85 * nodeRadius
      requires DrawsInRange(draw, spacing)
      ensures Valid() && this.spacing == spacing && this.nodeRadius == nodeRadius
      ensures SeedsOf(nodes) == GridFrom(Margin, spacing, nodeRadius, width, height, draw)
      ensures forall n <- nodes :: fresh(n) && n.r == n.maxR && Laid(n, width, height)
    {
      this.spacing := spacing;
      this.nodeRadius := nodeRadius;
      nodes := [];
      Repr := {};
      new;
      BuildGrid(width, height, draw);
    }

    /** Node n is one buildGrid lays on a width x height canvas: with a full
        radius within [0.85, 1.15) of nodeRadius, and within a quarter
        spacing of a grid point inside the margin. */
    ghost predicate Laid(n: CaveNode, width: int, height: int) {
      var q := (spacing as real) * 0.25;
      && nodeRadius * 0.85 <= n.maxR < nodeRadius * 1.15
      && (Margin as real) - q <= n.pos.x < ((width - Margin) as real) + q
      && (Margin as real) - q <= n.pos.y < ((height - Margin) as real) + q
    }

    /** buildGrid(): discards every node and lays a fresh jittered grid over
        the canvas, leaving most of the top 12% open. */
    method BuildGrid(width: int, height: int, draw: (int, int) -> CellDraw)
      requires 0 < spacing && MinRadius <= 0.85 * nodeRadius
      requires DrawsInRange(draw, spacing)
      modifies this`nodes, this`Repr
      ensures Valid()
      ensures SeedsOf(nodes) == GridFrom(Margin, spacing, nodeRadius, width, height, draw)
      ensures forall n <- nodes :: fresh(n) && n.r == n.maxR && Laid(n, width, height)
    {
      nodes := [];
      var y := Margin;
      while y < height - Margin
        invariant Valid()
        invariant forall n <- nodes :: fresh(n) && n.r == n.maxR && Laid(n, width, height)
        invariant SeedsOf(nodes) + GridFrom(y, spacing, nodeRadius, width, height, draw)
                  == GridFrom(Margin, spacing, nodeRadius, width, height, draw)
        decreases height - Margin - y
      {
        ghost var before := nodes;
        ghost var row := LayRow(y, width, height, draw);
        GridGrows(before, row, y, spacing, nodeRadius, width, height, draw);
        y := y + spacing;
      }
      GridFromStep(y, spacing, nodeRadius, width, height, draw);
    }

    /** The inner loop of buildGrid: appends the row of nodes at height y,
        the ones added, laid for that row's seeds. */
    method LayRow(y: int, width: int, height: int, draw: (int, int) -> CellDraw)
      returns (ghost added: seq<CaveNode>)
      requires Valid() && Margin <= y < height - Margin
      requires DrawsInRange(draw, spacing)
      modifies this`nodes, this`Repr
      ensures Valid()
      ensures nodes == old(nodes) + added
      ensures SeedsOf(added) == RowFrom(Margin, y, spacing, nodeRadius, width, height, draw)
      ensures forall n <- added :: fresh(n) && n.r == n.maxR && Laid(n, width, height)
    {
      added := [];
      var x := Margin;
      while x < width - Margin
        invariant Valid()
        invariant nodes == old(nodes) + added
        invariant SeedsOf(added) + RowFrom(x, y, spacing, nodeRadius, width, height, draw)
                  == RowFrom(Margin, y, spacing, nodeRadius, width, height, draw)
        invariant forall n <- added :: fresh(n) && n.r == n.maxR && Laid(n, width, height)
        decreases width - Margin - x
      {
        var c := draw(x, y);
        ghost var cell := LayCell(x, y, width, height, c);
        RowGrows(added, cell, x, y, spacing, nodeRadius, width, height, draw);
        added := added + cell;
        x := x + spacing;
      }
      RowFromStep(x, y, spacing, nodeRadius, width, height, draw);
    }

    /** One pass of buildGrid's inner loop: the cell at (x, y) appends its
        node, if it has one: added, laid for the cell's seed. */
    method LayCell(x: int, y: int, width: int, height: int, c: CellDraw) returns (ghost added: seq<CaveNode>)
      requires Valid() && Margin <= x < width - Margin && Margin <= y < height - Margin
      requires 0.85 <= c.scale < 1.15
      requires -(spacing as real) * 0.25 <= c.jx < (spacing as real) * 0.25
      requires -(spacing as real) * 0.25 <= c.jy < (spacing as real) * 0.25
      modifies this`nodes, this`Repr
      ensures Valid()
      ensures nodes == old(nodes) + added
      ensures SeedsOf(added) == Cell(x, y, nodeRadius, height, c)
      ensures forall n <- added :: fresh(n) && n.r == n.maxR && Laid(n, width, height)
    {
      added := [];
      if !((y as real) < (height as real) * 0.12 && c.skip < 0.85) {
        var r := nodeRadius * c.scale;
        CellLaid(x, y, nodeRadius, height, c);
        ScaleWithin(nodeRadius, c.scale, 0.85, 1.15, r);
        var n := new CaveNode(Vec(x as real + c.jx, y as real + c.jy), r);
        assert Laid(n, width, height);
        nodes := nodes + [n];
        Repr := Repr + {n};
        added := [n];
        assert Seed(n.pos, n.maxR) == CellSeed(x, y, nodeRadius, c);
        SeedsOfOne(n);
      }
    }

    /** findNodeAt(x, y): the first node whose circle contains the point, or null. */
    method FindNodeAt(p: Vec) returns (found: CaveNode?)
      ensures found == null <==> forall i :: 0 <= i < |nodes| ==> !Touches(nodes[i], p, 0.0)
      ensures found != null ==> exists i :: 0 <= i < |nodes| && nodes[i] == found && FirstTouching(nodes, i, p)
    {
      var i := 0;
      while i < |nodes|
        invariant 0 <= i <= |nodes|
        invariant forall j :: 0 <= j < i ==> !Touches(nodes[j], p, 0.0)
      {
        var n := nodes[i];
        if 0.0 < n.r && DistSq(p, n.pos) < n.r * n.r {
          return n;
        }
        i := i + 1;
      }
      return null;
    }

    /** nodesInRange(x, y, rad): every node within rad of its rim, in list order. */
    method NodesInRange(p: Vec, rad: real) returns (out: seq<CaveNode>)
      ensures out == InRange(nodes, p, rad)
    {
      out := [];
      var i := 0;
      while i < |nodes|
        invariant 0 <= i <= |nodes|
        invariant out == InRange(nodes[..i], p, rad)
      {
        var n := nodes[i];
        assert nodes[..i + 1][..i] == nodes[..i];
        if 0.0 < rad + n.r && DistSq(p, n.pos) < (rad + n.r) * (rad + n.r) {
          out := out + [n];
        }
        i := i + 1;
      }
      assert nodes[..i] == nodes;
    }

    /** dig(node, amount): shrinks the node's radius by amount and splices it
        out of the cave once the radius drops below MinRadius. A null node is
        ignored; a node no longer in the cave only shrinks. */
    method Dig(node: CaveNode?, amount: real)
      requires Valid() && 0.0 <= amount
      modifies this`nodes, node
      ensures Valid()
      ensures node == null ==> nodes == old(nodes)
      ensures node != null ==> node.r == old(node.r) - amount
      ensures node != null && node.r < MinRadius ==> nodes == RemoveFirst(old(nodes), node)
      ensures node != null && MinRadius <= node.r ==> nodes == old(nodes)
      ensures forall n <- nodes :: n in old(nodes)
      ensures forall n <- old(nodes) :: n != node ==> n in nodes
    {
      if node == null {
        return;
      }
      node.r := node.r - amount;
      if node.r < MinRadius {
        var idx := IndexOf(nodes, node);
        if 0 <= idx {
          RemoveFirstKeepsOthers(nodes, node);
          nodes := nodes[..idx] + nodes[idx + 1..];
        }
      }
    }
  }
}
