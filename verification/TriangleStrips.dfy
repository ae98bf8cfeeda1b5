/**
 What a triangle strip draws: its oriented, non-degenerate triangles in order, each rotated so
 that its smallest index comes first. This is the topology oracle of geometry/src/tests.rs,
 independent of how strips are stitched together.
 */
module TriangleStrips {
  import opened Words

  datatype Triangle = Triangle(a: u32, b: u32, c: u32)

  function Canonical(t: Triangle): Triangle {
    if t.a <= t.b && t.a <= t.c then t
    else if t.b <= t.a && t.b <= t.c then Triangle(t.b, t.c, t.a)
    else Triangle(t.c, t.a, t.b)
  }

  predicate Degenerate(a: u32, b: u32, c: u32) {
    a == b || b == c || a == c
  }

  function Face(a: u32, b: u32, c: u32, flipped: bool): seq<Triangle> {
    if Degenerate(a, b, c) then []
    else [Canonical(if flipped then Triangle(b, a, c) else Triangle(a, b, c))]
  }

  /** Winding alternates along the strip; `reversed` says how the first triangle is wound. */
  function Triangles(strip: seq<u32>, reversed: bool): seq<Triangle> {
    if |strip| < 3 then []
    else Face(strip[0], strip[1], strip[2], reversed) + Triangles(strip[1..], !reversed)
  }

  /** The same oriented triangle, starting at any of its corners. */
  predicate Turned(t: Triangle, a: u32, b: u32, c: u32) {
    t == Triangle(a, b, c) || t == Triangle(b, c, a) || t == Triangle(c, a, b)
  }

  /** The `k`-th triangle of a strip: three different neighbouring indices, every second one swapped. */
  predicate DrawsAt(strip: seq<u32>, reversed: bool, k: nat, t: Triangle) {
    && k + 2 < |strip|
    && strip[k] != strip[k + 1] && strip[k + 1] != strip[k + 2] && strip[k] != strip[k + 2]
    && (if (k % 2 == 1) == reversed then Turned(t, strip[k], strip[k + 1], strip[k + 2])
        else Turned(t, strip[k + 1], strip[k], strip[k + 2]))
    && t.a < t.b && t.a < t.c
  }

  lemma {:induction false} DrawsLater(strip: seq<u32>, reversed: bool, k: nat, t: Triangle)
    requires strip != []
    ensures DrawsAt(strip, reversed, k + 1, t) <==> DrawsAt(strip[1..], !reversed, k, t)
  {
    var rest := strip[1..];
    assert k + 3 < |strip| ==>
        rest[k] == strip[k + 1] && rest[k + 1] == strip[k + 2] && rest[k + 2] == strip[k + 3];
  }

  /** A strip draws exactly the triangles of its neighbouring indices. */
  lemma {:induction false} StripTriangles(strip: seq<u32>, reversed: bool, t: Triangle)
    ensures t in Triangles(strip, reversed) <==> exists k: nat :: DrawsAt(strip, reversed, k, t)
  {
    if |strip| >= 3 {
      var rest, other := strip[1..], !reversed;
      StripTriangles(rest, other, t);
      assert t in Face(strip[0], strip[1], strip[2], reversed) <==> DrawsAt(strip, reversed, 0, t);
      hide DrawsAt;
      if k: nat :| DrawsAt(strip, reversed, k, t) {
        if k > 0 {
          DrawsLater(strip, reversed, k - 1, t);
        }
      }
      if k: nat :| DrawsAt(rest, other, k, t) {
        DrawsLater(strip, reversed, k, t);
      }
    }
  }

  predicate Odd(n: nat) {
    n % 2 == 1
  }

  lemma {:induction false} SplitStrip(a: seq<u32>, b: seq<u32>, reversed: bool)
    requires |a| >= 2
    ensures Triangles(a + b, reversed)
            == Triangles(a, reversed) + Triangles(a[|a| - 2..] + b, reversed != Odd(|a|))
  {
    var overlap := a[|a| - 2..] + b;
    if |a| == 2 {
      assert overlap == a + b;
    } else {
      var rest := a[1..];
      assert (a + b)[1..] == rest + b;
      assert rest[|rest| - 2..] + b == overlap;
      SplitStrip(rest, b, !reversed);
      OddStep(|rest|);
      var head := Face(a[0], a[1], a[2], reversed);
      assert Triangles(a + b, reversed) == head + Triangles(rest + b, !reversed);
      Associative(head, Triangles(rest, !reversed), Triangles(overlap, reversed != Odd(|a|)));
    }
  }

  lemma {:induction false} OddStep(n: nat)
    ensures Odd(n + 1) == !Odd(n)
  {
  }

  lemma {:induction false} Associative<T>(a: seq<T>, b: seq<T>, c: seq<T>)
    ensures a + (b + c) == a + b + c
  {
  }

  lemma {:induction false} Peel(x: u32, rest: seq<u32>, reversed: bool)
    requires |rest| >= 2 && Degenerate(x, rest[0], rest[1])
    ensures Triangles([x] + rest, reversed) == Triangles(rest, !reversed)
  {
    assert ([x] + rest)[1..] == rest;
  }

  /** The copies of two neighbouring indices that join one strip to the next. */
  function Connector(last: u32, first: u32, thrice: bool): seq<u32> {
    [last] + (if thrice then [last] else []) + [first]
  }

  /** A connector draws nothing: it only shifts where the second strip starts. */
  lemma {:induction false} Join(a: seq<u32>, b: seq<u32>, thrice: bool, reversed: bool)
    requires |a| >= 2 && |b| >= 3
    ensures var c := Connector(a[|a| - 1], b[0], thrice);
            Triangles(a + c + b, reversed)
            == Triangles(a, reversed) + Triangles(b, reversed != Odd(|a| + |c|))
  {
    var x, l := a[|a| - 2], a[|a| - 1];
    var c := Connector(l, b[0], thrice);
    assert Triangles(a + (c + b), reversed) == Triangles(a, reversed)
           + Triangles([x, l] + (c + b), reversed != Odd(|a|)) by {
      SplitStrip(a, c + b, reversed);
      assert a[|a| - 2..] == [x, l];
    }
    Associative(a, c, b);
    Associative([x, l], c, b);
    ConnectorDrawsNothing(x, l, b, thrice, reversed != Odd(|a|));
    OddSum(|a|, |c|);
  }

  lemma {:induction false} OddSum(m: nat, n: nat)
    ensures Odd(m + n) == (Odd(m) != Odd(n))
  {
  }

  lemma {:induction false} ConnectorDrawsNothing(x: u32, l: u32, b: seq<u32>, thrice: bool, r: bool)
    requires |b| >= 3
    ensures var c := Connector(l, b[0], thrice); Triangles([x, l] + c + b, r) == Triangles(b, r != Odd(|c|))
  {
    var c := Connector(l, b[0], thrice);
    var tail := [b[0]] + b;
    if thrice {
      assert [x, l] + c + b == [x] + ([l] + ([l] + ([l] + tail)));
      Peel(x, [l] + ([l] + ([l] + tail)), r);
      Peel(l, [l] + ([l] + tail), !r);
      Peel(l, [l] + tail, r);
      Peel(l, tail, !r);
      Peel(b[0], b, r);
    } else {
      assert [x, l] + c + b == [x] + ([l] + ([l] + tail));
      Peel(x, [l] + ([l] + tail), r);
      Peel(l, [l] + tail, !r);
      Peel(l, tail, r);
      Peel(b[0], b, !r);
    }
  }

  /** Doubling the first index starts the strip with the opposite winding. */
  lemma {:induction false} DoubleFirst(b: seq<u32>, reversed: bool)
    requires |b| >= 3
    ensures Triangles([b[0]] + b, reversed) == Triangles(b, !reversed)
  {
    Peel(b[0], b, reversed);
  }
}
