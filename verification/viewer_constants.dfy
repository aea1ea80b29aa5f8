/**
 * The vertex layout the surfel viewer uses: each surfel is drawn from a
 * normal (two vertices), a main tangent (two vertices) and the secondary
 * tangents (four vertices), each vertex three floats. The derived counts
 * are defined from the base counts exactly as the viewer defines them.
 */
module ViewerConstants {
  const VerticesForNormal: nat := 2
  const VerticesForMainTangent: nat := 2
  const VerticesForSecondaryTangents: nat := 4
  const VerticesForTangents: nat := VerticesForMainTangent + VerticesForSecondaryTangents
  const NumColourPlanes: nat := 4
  const VerticesForFullSurfel: nat := VerticesForNormal + VerticesForTangents
  const BytesPerFloat: nat := 4
  const FloatsForNormal: nat := VerticesForNormal * 3
  const FloatsForTangents: nat := VerticesForTangents * 3

  /** The part of a surfel's glyph one vertex belongs to. */
  datatype Part = Normal | MainTangent | SecondaryTangent

  /** `n` vertices of one part. */
  function Repeat(p: Part, n: nat): (r: seq<Part>)
    ensures |r| == n
    ensures forall i :: 0 <= i < n ==> r[i] == p
  {
    if n == 0 then [] else [p] + Repeat(p, n - 1)
  }

  /** How many of the vertices belong to part `p`. */
  function CountOf(vs: seq<Part>, p: Part): (n: nat)
    ensures n <= |vs|
  {
    if vs == [] then 0 else (if vs[0] == p then 1 else 0) + CountOf(vs[1..], p)
  }

  lemma {:induction false} CountOfAppend(a: seq<Part>, b: seq<Part>, p: Part)
    ensures CountOf(a + b, p) == CountOf(a, p) + CountOf(b, p)
  {
    if a != [] {
      assert (a + b)[0] == a[0] && (a + b)[1..] == a[1..] + b;
      CountOfAppend(a[1..], b, p);
      assert CountOf(a + b, p) == (if a[0] == p then 1 else 0) + CountOf(a[1..] + b, p);
    } else {
      assert a + b == b;
    }
  }

  lemma {:induction false} CountOfRepeat(q: Part, n: nat, p: Part)
    ensures CountOf(Repeat(q, n), p) == if p == q then n else 0
  {
    if n > 0 {
      assert Repeat(q, n)[1..] == Repeat(q, n - 1);
      CountOfRepeat(q, n - 1, p);
    }
  }

  /**
   * The parts of one surfel's glyph, listed normal, then main, then
   * secondary tangents. The constants fix only how many vertices each part
   * has; the order is chosen here and the lemmas below depend only on the
   * counts.
   */
  function SurfelVertices(): seq<Part>
  {
    Repeat(Normal, VerticesForNormal) + Repeat(MainTangent, VerticesForMainTangent)
      + Repeat(SecondaryTangent, VerticesForSecondaryTangents)
  }

  /**
   * The derived constants describe the glyph: a full surfel is its
   * vertex count, the tangent count is its main and secondary tangent
   * vertices together, and the float counts are three per vertex.
   */
  lemma {:induction false} LayoutConsistent()
    ensures |SurfelVertices()| == VerticesForFullSurfel
    ensures CountOf(SurfelVertices(), Normal) == VerticesForNormal
    ensures CountOf(SurfelVertices(), MainTangent) + CountOf(SurfelVertices(), SecondaryTangent) == VerticesForTangents
    ensures 3 * CountOf(SurfelVertices(), Normal) == FloatsForNormal
    ensures FloatsForNormal + FloatsForTangents == 3 * VerticesForFullSurfel
  {
    var n := Repeat(Normal, VerticesForNormal);
    var m := Repeat(MainTangent, VerticesForMainTangent);
    var s := Repeat(SecondaryTangent, VerticesForSecondaryTangents);
    assert SurfelVertices() == (n + m) + s;
    forall p: Part
      ensures CountOf(SurfelVertices(), p) == CountOf(n, p) + CountOf(m, p) + CountOf(s, p)
    {
      CountOfAppend(n + m, s, p);
      CountOfAppend(n, m, p);
    }
    CountOfRepeat(Normal, VerticesForNormal, Normal);
    CountOfRepeat(Normal, VerticesForNormal, MainTangent);
    CountOfRepeat(Normal, VerticesForNormal, SecondaryTangent);
    CountOfRepeat(MainTangent, VerticesForMainTangent, Normal);
    CountOfRepeat(MainTangent, VerticesForMainTangent, MainTangent);
    CountOfRepeat(MainTangent, VerticesForMainTangent, SecondaryTangent);
    CountOfRepeat(SecondaryTangent, VerticesForSecondaryTangents, Normal);
    CountOfRepeat(SecondaryTangent, VerticesForSecondaryTangents, MainTangent);
    CountOfRepeat(SecondaryTangent, VerticesForSecondaryTangents, SecondaryTangent);
  }

  /** The concrete values the viewer's layout arithmetic produces. */
  lemma ConstantValues()
    ensures VerticesForTangents == 6 && VerticesForFullSurfel == 8
    ensures FloatsForNormal == 6 && FloatsForTangents == 18
    ensures NumColourPlanes == 4 && BytesPerFloat == 4
    ensures (FloatsForNormal + FloatsForTangents) * BytesPerFloat == 96
  {
  }
}
