/**
 Loops and rings. A loop lists its vertices once; a ring of the GeoJSON family repeats the first
 coordinate at the end (RFC 7946, section 3.1.6).
 */
module Rings {
  /** The two coordinate conversions, which this project treats as opaque. */
  datatype Conversion<!P, !C> = Conversion(toCoord: P -> C, toPoint: C -> P)

  ghost predicate PointsSurvive<P(!new), C>(conv: Conversion<P, C>) {
    forall p :: conv.toPoint(conv.toCoord(p)) == p
  }

  function Coords<P, C>(conv: Conversion<P, C>, vertices: seq<P>): (coords: seq<C>)
    ensures |coords| == |vertices|
  {
    seq(|vertices|, i requires 0 <= i < |vertices| => conv.toCoord(vertices[i]))
  }

  function Points<P, C>(conv: Conversion<P, C>, coords: seq<C>): (vertices: seq<P>)
    ensures |vertices| == |coords|
  {
    seq(|coords|, i requires 0 <= i < |coords| => conv.toPoint(coords[i]))
  }

  /** Closed: empty, or ending where it starts. */
  predicate Closed<C(==)>(ring: seq<C>) {
    ring == [] || ring[0] == ring[|ring| - 1]
  }

  function RingOf<P, C>(conv: Conversion<P, C>, vertices: seq<P>): seq<C> {
    Coords(conv, vertices + vertices[..if vertices == [] then 0 else 1])
  }

  function LoopOf<P, C(==)>(conv: Conversion<P, C>, ring: seq<C>): seq<P> {
    Points(conv, ring[..if |ring| > 1 && Closed(ring) then |ring| - 1 else |ring|])
  }

  method LoopToRing<P, C>(conv: Conversion<P, C>, vertices: seq<P>) returns (coords: seq<C>)
    ensures coords == RingOf(conv, vertices)
    ensures |coords| == if vertices == [] then 0 else |vertices| + 1
    ensures forall i :: 0 <= i < |coords| ==> coords[i] == conv.toCoord(vertices[if i < |vertices| then i else 0])
  {
    coords := Coords(conv, vertices);
    if |coords| > 0 {
      coords := coords + [coords[0]];
    }
  }

  method RingToLoop<P, C(==)>(conv: Conversion<P, C>, ring: seq<C>) returns (vertices: seq<P>)
    ensures vertices == LoopOf(conv, ring)
    ensures |vertices| == if |ring| >= 2 && ring[0] == ring[|ring| - 1] then |ring| - 1 else |ring|
    ensures forall i :: 0 <= i < |vertices| ==> vertices[i] == conv.toPoint(ring[i])
  {
    var coords := ring;
    if |coords| > 1 && coords[0] == coords[|coords| - 1] {
      coords := coords[..|coords| - 1];
    }
    vertices := Points(conv, coords);
  }

  /** The coordinates that come back unchanged from the conversion to a point. */
  predicate CoordSurvives<P, C(==)>(conv: Conversion<P, C>, c: C) {
    conv.toCoord(conv.toPoint(c)) == c
  }

  predicate PointSurvives<P(==), C>(conv: Conversion<P, C>, p: P) {
    conv.toPoint(conv.toCoord(p)) == p
  }

  /**
   A loop, even one whose first and last vertices are equal, survives the trip through a ring
   exactly when each of its vertices survives conversion; the ring is closed in any case.
   */
  lemma LoopSurvives<P, C>(conv: Conversion<P, C>, vertices: seq<P>)
    ensures LoopOf(conv, RingOf(conv, vertices)) == vertices
       <==> forall i :: 0 <= i < |vertices| ==> PointSurvives(conv, vertices[i])
    ensures Closed(RingOf(conv, vertices))
  {
    if vertices != [] {
      var ring := RingOf(conv, vertices);
      assert ring[|vertices|] == conv.toCoord(vertices[0]);
      assert forall i :: 0 <= i < |vertices| ==> ring[i] == conv.toCoord(vertices[i]);
      var back := LoopOf(conv, ring);
      assert forall i :: 0 <= i < |vertices| ==> back[i] == conv.toPoint(conv.toCoord(vertices[i]));
    }
  }

  /**
   A ring survives the trip through a loop exactly when it is empty, or is closed, is not a single
   coordinate, and each of its coordinates survives conversion.
   */
  lemma RingSurvivesIffClosed<P, C>(conv: Conversion<P, C>, ring: seq<C>)
    ensures RingOf(conv, LoopOf(conv, ring)) == ring
       <==> ring == [] || (|ring| >= 2 && Closed(ring) && forall i :: 0 <= i < |ring| ==> CoordSurvives(conv, ring[i]))
  {
    var back := RingOf(conv, LoopOf(conv, ring));
    if |ring| >= 2 && Closed(ring) {
      var n := |ring| - 1;
      assert forall i :: 0 <= i < n ==> back[i] == conv.toCoord(conv.toPoint(ring[i]));
      assert back[n] == back[0] && ring[n] == ring[0];
    } else if ring != [] {
      assert |back| == |ring| + 1;
    }
  }
}
