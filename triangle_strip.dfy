/** MtTriangleStrip: a strip that owns copies of its vertices and lists, per triangle, three
    ids into that copy. Ids come in triples: "012 213 234 435", the last id of each triple
    being the vertex the triangle adds. */
module TriangleStrips {
  import opened Wrappers
  import Vertices
  import Faces

  type Vertex = Vertices.Vertex

  /** The value of a strip: its vertex copies and its VertexIds. */
  datatype StripState = StripState(vertices: seq<Vertex>, vertexIds: seq<int>)

  const Empty := StripState([], [])

  /** What AddFace and FlipOrder keep: ids in triples, one triangle per triple, every id a valid
      index into the strip's own vertices, and one vertex per triangle after the first two. */
  predicate WellFormed(s: StripState)
  {
    && (if |s.vertexIds| == 0 then |s.vertices| == 0 else |s.vertices| >= 3 && |s.vertexIds| == 3 * (|s.vertices| - 2))
    && forall k :: 0 <= k < |s.vertexIds| ==> 0 <= s.vertexIds[k] < |s.vertices|
  }

  /** The number of faces a strip holds. */
  function FaceCount(s: StripState): nat
  {
    |s.vertexIds| / 3
  }

  // ---------------------------------------------------------------------------------------
  // The search for shared vertices.
  //
  // The nested loops of AddFace visit the pairs (i, j) for face vertex i = 0, 1, 2 and, for
  // each, strip position j = |VertexIds| - 1 down to |VertexIds| - 3. "Rank" r = 0 .. 8 numbers
  // these visits in order: rank 3 * i + k is face vertex i against position |VertexIds| - 1 - k.
  // ---------------------------------------------------------------------------------------

  /** (index in the face, position in VertexIds), the pair the source records for a match. */
  datatype Match = Match(faceIndex: nat, stripPosition: nat)

  predicate Searchable(face: seq<Vertex>, s: StripState)
  {
    |face| >= 3 && WellFormed(s) && |s.vertexIds| > 0
  }

  /** The face vertex that rank r visits (r / 3, written without division). */
  function FaceIndexOf(r: nat): nat
  {
    if r < 3 then 0 else if r < 6 then 1 else 2
  }

  /** How far back from the last id rank r looks (r % 3 for r < 9). */
  function OffsetOf(r: nat): int
  {
    if r < 3 then r else if r < 6 then r - 3 else r - 6
  }

  function PositionOf(s: StripState, r: nat): int
  {
    |s.vertexIds| - 1 - OffsetOf(r)
  }

  function MatchAt(s: StripState, r: nat): Match
    requires |s.vertexIds| >= 3 && r < 9
  {
    Match(FaceIndexOf(r), PositionOf(s, r))
  }

  /** m pairs a face vertex with one of the last three strip positions. */
  predicate InWindow(s: StripState, m: Match)
  {
    m.faceIndex < 3 && |s.vertexIds| - 3 <= m.stripPosition < |s.vertexIds|
  }

  /** m pairs a face vertex with one of the last three strip positions, whose vertex it Equals
      (the face vertex is the receiver). */
  predicate IsMatch(face: seq<Vertex>, s: StripState, m: Match)
    requires Searchable(face, s)
  {
    && InWindow(s, m)
    && Vertices.Equals(face[m.faceIndex], s.vertices[s.vertexIds[m.stripPosition]])
  }

  /** The pair of rank r matches. */
  predicate Hit(face: seq<Vertex>, s: StripState, r: nat)
    requires Searchable(face, s) && r < 9
  {
    IsMatch(face, s, MatchAt(s, r))
  }

  /** The nine answers of the inner comparison, by rank. */
  function HitTable(face: seq<Vertex>, s: StripState): (hits: seq<bool>)
    requires Searchable(face, s)
    ensures |hits| == 9 && forall r :: 0 <= r < 9 ==> hits[r] == Hit(face, s, r)
  {
    seq(9, r requires 0 <= r < 9 => Hit(face, s, r))
  }

  /** Rank r is not skipped; the skipped offset is that of match1's position. */
  predicate Free(r: nat, skip: Option<int>)
  {
    skip.None? || OffsetOf(r) != skip.value
  }

  /** The first rank from `from` on that hits and is not skipped, and no earlier such rank hits. */
  function FirstTrue(hits: seq<bool>, from: nat, skip: Option<int>): (r: Option<nat>)
    requires |hits| == 9 && from <= 9
    decreases 9 - from
    ensures r.Some? ==> from <= r.value < 9 && Free(r.value, skip) && hits[r.value]
    ensures forall q :: from <= q < 9 && (r.None? || q < r.value) && Free(q, skip) ==> !hits[q]
  {
    if from == 9 then None
    else if Free(from, skip) && hits[from] then Some(from)
    else FirstTrue(hits, from + 1, skip)
  }

  /** The ranks of (match1, match2): the first hit, then the first later hit at another offset. */
  function SearchRanks(hits: seq<bool>): (res: (Option<nat>, Option<nat>))
    requires |hits| == 9
    ensures res.1.Some? ==> res.0.Some? && res.0.value < res.1.value
  {
    match FirstTrue(hits, 0, None)
    case None => (None, None)
    case Some(r1) => (Some(r1), FirstTrue(hits, r1 + 1, Some(OffsetOf(r1))))
  }

  /** Two hits at different offsets are enough for the search to find match2. */
  lemma TwoHitsFound(hits: seq<bool>, q1: nat, q2: nat)
    requires |hits| == 9 && q1 < 9 && q2 < 9 && hits[q1] && hits[q2] && OffsetOf(q1) != OffsetOf(q2)
    ensures SearchRanks(hits).1.Some?
  {
    var r1 := FirstTrue(hits, 0, None).value;
    var q := if OffsetOf(q1) != OffsetOf(r1) then q1 else q2;
    assert q > r1 && Free(q, Some(OffsetOf(r1)));
  }

  function MatchOf(s: StripState, r: Option<nat>): Option<Match>
    requires |s.vertexIds| >= 3 && (r.Some? ==> r.value < 9)
  {
    if r.None? then None else Some(MatchAt(s, r.value))
  }

  /** The result of the search: (match1, match2). match1 is the first matching pair in visiting
      order; match2 the first later pair at a different strip position. */
  function Search(face: seq<Vertex>, s: StripState): (res: (Option<Match>, Option<Match>))
    requires Searchable(face, s)
    ensures res.1.Some? ==> res.0.Some?
    ensures res.0.Some? ==> InWindow(s, res.0.value)
    ensures res.1.Some? ==> InWindow(s, res.1.value) && res.1.value.stripPosition != res.0.value.stripPosition
  {
    var (r1, r2) := SearchRanks(HitTable(face, s));
    (MatchOf(s, r1), MatchOf(s, r2))
  }

  /** What the search reports are matches. */
  lemma SearchReportsMatches(face: seq<Vertex>, s: StripState)
    requires Searchable(face, s)
    ensures var res := Search(face, s);
      && (res.0.Some? ==> IsMatch(face, s, res.0.value))
      && (res.1.Some? ==> IsMatch(face, s, res.1.value))
  {
  }

  lemma RankParts(i: nat, k: nat)
    requires i < 3 && k < 3
    ensures FaceIndexOf(3 * i + k) == i && OffsetOf(3 * i + k) == k
  {
  }

  /** The comparison the loops make for face vertex i and strip position j is table entry
      3 * i + (|VertexIds| - 1 - j). */
  lemma TableEntry(face: seq<Vertex>, s: StripState, i: nat, j: int)
    requires Searchable(face, s) && i < 3 && |s.vertexIds| - 3 <= j < |s.vertexIds|
    ensures var r := 3 * i + (|s.vertexIds| - 1 - j);
      && r < 9 && MatchAt(s, r) == Match(i, j)
      && HitTable(face, s)[r] == Vertices.Equals(face[i], s.vertices[s.vertexIds[j]])
  {
    RankParts(i, |s.vertexIds| - 1 - j);
  }

  /** Two face-vertex/strip-position pairs that Equal, at two distinct positions. */
  ghost predicate TwoPositionsMatch(face: seq<Vertex>, s: StripState)
    requires Searchable(face, s)
  {
    exists m1: Match, m2: Match :: IsMatch(face, s, m1) && IsMatch(face, s, m2) && m1.stripPosition != m2.stripPosition
  }

  /** The rank that visits a pair in the window. */
  lemma RankOfMatch(s: StripState, m: Match) returns (r: nat)
    requires |s.vertexIds| >= 3 && InWindow(s, m)
    ensures r < 9 && MatchAt(s, r) == m
  {
    r := 3 * m.faceIndex + (|s.vertexIds| - 1 - m.stripPosition);
    RankParts(m.faceIndex, |s.vertexIds| - 1 - m.stripPosition);
  }

  /** A non-empty strip finds match2 exactly when two distinct positions among its last three
      ids hold vertices that face vertices Equal. The two face vertices need not be distinct. */
  lemma SearchSucceedsIffTwoPositionsMatch(face: seq<Vertex>, s: StripState)
    requires Searchable(face, s)
    ensures Search(face, s).1.Some? <==> TwoPositionsMatch(face, s)
  {
    var res := Search(face, s);
    SearchReportsMatches(face, s);
    if res.1.Some? {
      assert IsMatch(face, s, res.0.value) && IsMatch(face, s, res.1.value);
    }
    if TwoPositionsMatch(face, s) {
      var m1: Match, m2: Match :| IsMatch(face, s, m1) && IsMatch(face, s, m2) && m1.stripPosition != m2.stripPosition;
      var q1 := RankOfMatch(s, m1);
      var q2 := RankOfMatch(s, m2);
      TwoHitsFound(HitTable(face, s), q1, q2);
    }
  }

  /** The index of the face vertex the strip copies: the first of 0, 1, 2 used by neither match. */
  function NewVertexIndex(a: nat, b: nat): (k: nat)
    ensures k < 3 && k != a && k != b
    ensures 0 < k ==> 0 == a || 0 == b
    ensures 1 < k ==> 1 == a || 1 == b
  {
    if 0 != a && 0 != b then 0 else if 1 != a && 1 != b then 1 else 2
  }

  /** AddFace on the value of a strip: (accepted, new value). */
  function AddFaceSpec(s: StripState, face: seq<Vertex>): (res: (bool, StripState))
    requires WellFormed(s) && |face| >= 3
    ensures WellFormed(res.1)
    ensures !res.0 ==> res.1 == s
    ensures res.0 ==> |res.1.vertices| > 0
  {
    if |s.vertices| == 0 then
      (true, StripState([face[0], face[1], face[2]], [0, 1, 2]))
    else
      var (m1, m2) := Search(face, s);
      if m1.None? || m2.None? then (false, s)
      else
        var k := NewVertexIndex(m1.value.faceIndex, m2.value.faceIndex);
        (true, StripState(s.vertices + [face[k]], s.vertexIds + Shared(s, m1.value, m2.value) + [|s.vertices|]))
  }

  /** The two ids an accepted face repeats: those at the matched positions, in match order when
      the id count is even and reversed when it is odd. */
  function Shared(s: StripState, m1: Match, m2: Match): (shared: seq<int>)
    requires m1.stripPosition < |s.vertexIds| && m2.stripPosition < |s.vertexIds|
    ensures |shared| == 2 && {shared[0], shared[1]} == {s.vertexIds[m1.stripPosition], s.vertexIds[m2.stripPosition]}
  {
    if |s.vertexIds| % 2 == 0 then [s.vertexIds[m1.stripPosition], s.vertexIds[m2.stripPosition]]
    else [s.vertexIds[m2.stripPosition], s.vertexIds[m1.stripPosition]]
  }

  lemma AddFaceSpecAccepted(s: StripState, face: seq<Vertex>, m1: Match, m2: Match)
    requires WellFormed(s) && |s.vertices| > 0 && |face| >= 3
    requires Search(face, s) == (Some(m1), Some(m2))
    ensures m1.stripPosition < |s.vertexIds| && m2.stripPosition < |s.vertexIds|
    ensures AddFaceSpec(s, face) ==
      (true, StripState(s.vertices + [face[NewVertexIndex(m1.faceIndex, m2.faceIndex)]],
                        s.vertexIds + Shared(s, m1, m2) + [|s.vertices|]))
  {
  }

  function Accepts(s: StripState, face: seq<Vertex>): bool
    requires WellFormed(s) && |face| >= 3
  {
    AddFaceSpec(s, face).0
  }

  /** Adding a face to an empty strip always succeeds and seeds it with the face's three vertices. */
  lemma EmptyStripAcceptsFace(s: StripState, face: seq<Vertex>)
    requires WellFormed(s) && |s.vertices| == 0 && |face| >= 3
    ensures AddFaceSpec(s, face) == (true, StripState(face[..3], [0, 1, 2]))
  {
    assert face[..3] == [face[0], face[1], face[2]];
  }

  /** A non-empty strip accepts a face exactly when two distinct positions among its last three
      ids hold vertices Equal to face vertices. */
  lemma NonEmptyAcceptsIffTwoPositionsMatch(s: StripState, face: seq<Vertex>)
    requires WellFormed(s) && |s.vertices| > 0 && |face| >= 3
    ensures Accepts(s, face) <==> TwoPositionsMatch(face, s)
  {
    SearchSucceedsIffTwoPositionsMatch(face, s);
  }

  /** An accepted face on a non-empty strip appends one triangle: three ids and one vertex,
      leaving what was there untouched. The first two ids repeat the ids at the two matched
      positions, in match order when the old id count is even and reversed when it is odd; the
      third points at the new vertex, a copy of a face vertex used by neither match. */
  lemma AcceptedFaceAppendsOneTriangle(s: StripState, face: seq<Vertex>)
    requires WellFormed(s) && |s.vertices| > 0 && |face| >= 3 && Accepts(s, face)
    ensures
      var t := AddFaceSpec(s, face).1;
      var (m1, m2) := Search(face, s);
      var n := |s.vertexIds|;
      && m1.Some? && m2.Some?
      && |t.vertexIds| == n + 3 && t.vertexIds[..n] == s.vertexIds
      && |t.vertices| == |s.vertices| + 1 && t.vertices[..|s.vertices|] == s.vertices
      && FaceCount(t) == FaceCount(s) + 1
      && t.vertexIds[n] == s.vertexIds[if n % 2 == 0 then m1.value.stripPosition else m2.value.stripPosition]
      && t.vertexIds[n + 1] == s.vertexIds[if n % 2 == 0 then m2.value.stripPosition else m1.value.stripPosition]
      && t.vertexIds[n + 2] == |s.vertices|
      && var k := NewVertexIndex(m1.value.faceIndex, m2.value.faceIndex);
         k != m1.value.faceIndex && k != m2.value.faceIndex && t.vertices[t.vertexIds[n + 2]] == face[k]
  {
  }

  /** FlipOrder on the id list: the first two ids of every triple swap places. */
  function Flipped(ids: seq<int>): (r: seq<int>)
    requires |ids| % 3 == 0
    ensures |r| == |ids|
  {
    seq(|ids|, k requires 0 <= k < |ids| =>
      if k % 3 == 0 then ids[k + 1] else if k % 3 == 1 then ids[k - 1] else ids[k])
  }

  lemma FlippedKeepsWellFormed(s: StripState)
    requires WellFormed(s)
    ensures WellFormed(StripState(s.vertices, Flipped(s.vertexIds)))
  {
    var r := Flipped(s.vertexIds);
    forall k | 0 <= k < |r|
      ensures 0 <= r[k] < |s.vertices|
    {
      if k % 3 == 0 {
        assert k + 1 < |r|;
      }
    }
  }

  /** Flipped on the triple starting at i: its first two ids swap, its third stays. */
  lemma FlippedTriple(ids: seq<int>, i: nat)
    requires |ids| % 3 == 0 && i % 3 == 0 && i < |ids|
    ensures i + 2 < |ids| && (i + 3) % 3 == 0
    ensures Flipped(ids)[i] == ids[i + 1] && Flipped(ids)[i + 1] == ids[i] && Flipped(ids)[i + 2] == ids[i + 2]
  {
    assert (i + 1) % 3 == 1 && (i + 2) % 3 == 2;
  }

  lemma FlippedTwiceRestores(ids: seq<int>)
    requires |ids| % 3 == 0
    ensures Flipped(Flipped(ids)) == ids
  {
  }

  class TriangleStrip {
    var isClockwise: bool
    var vertices: seq<Vertex>
    var vertexIds: seq<int>

    function State(): StripState
      reads this
    {
      StripState(vertices, vertexIds)
    }

    predicate Valid()
      reads this
    {
      WellFormed(State())
    }

    constructor ()
      ensures !isClockwise && vertices == [] && vertexIds == [] && Valid()
    {
      isClockwise := false;
      vertices := [];
      vertexIds := [];
    }

    /** The nested search loops of AddFace; they only read. */
    method FindMatches(newFace: Faces.Face) returns (match1: Option<Match>, match2: Option<Match>)
      requires Valid() && |vertices| > 0 && |newFace.vertices| >= 3
      ensures (match1, match2) == Search(newFace.vertices, State())
    {
      var face := newFace.vertices;
      ghost var hits := HitTable(face, State());
      match1, match2 := None, None;
      ghost var r1: Option<nat>, r2: Option<nat> := None, None;
      var i := 0;
      while i < 3
        invariant 0 <= i <= 3
        invariant Scanned(hits, 3 * i, r1, r2)
        invariant match1 == MatchOf(State(), r1) && match2 == MatchOf(State(), r2)
      {
        if match2.Some? {
          break;
        }
        match1, match2, r1, r2 := ScanRow(face, i, hits, match1, r1);
        i := i + 1;
      }
      ScannedDetermines(hits, 3 * i, r1, r2);
    }

    /** The inner loop of FindMatches: face vertex i against the last three strip positions,
        latest first, skipping the position the first match took. */
    method ScanRow(face: seq<Vertex>, i: nat, ghost hits: seq<bool>, m1: Option<Match>, ghost q1: Option<nat>)
      returns (match1: Option<Match>, match2: Option<Match>, ghost r1: Option<nat>, ghost r2: Option<nat>)
      requires Valid() && |vertices| > 0 && |face| >= 3 && i < 3
      requires hits == HitTable(face, State())
      requires Scanned(hits, 3 * i, q1, None) && m1 == MatchOf(State(), q1)
      ensures Scanned(hits, 3 * i + 3, r1, r2)
      ensures match1 == MatchOf(State(), r1) && match2 == MatchOf(State(), r2)
    {
      ghost var s := State();
      var n := |vertexIds|;
      match1, match2 := m1, None;
      r1, r2 := q1, None;
      var j := n - 1;
      while j >= n - 3
        invariant n - 4 <= j <= n - 1
        invariant r2.None?
        invariant Scanned(hits, 3 * i + (n - 1 - j), r1, r2)
        invariant match1 == MatchOf(s, r1) && match2 == MatchOf(s, r2)
      {
        ghost var rank := 3 * i + (n - 1 - j);
        match1, match2, r1, r2 := ScanCell(face, i, j, hits, match1, r1);
        if match2.Some? {
          ScannedGrows(hits, rank + 1, 3 * i + 3, r1, r2);
          return;
        }
        j := j - 1;
      }
    }

    /** One step of the inner loop: face vertex i against strip position j. */
    method ScanCell(face: seq<Vertex>, i: nat, j: int, ghost hits: seq<bool>, m1: Option<Match>, ghost q1: Option<nat>)
      returns (match1: Option<Match>, match2: Option<Match>, ghost r1: Option<nat>, ghost r2: Option<nat>)
      requires Valid() && |vertices| > 0 && |face| >= 3 && i < 3
      requires hits == HitTable(face, State())
      requires |vertexIds| - 3 <= j <= |vertexIds| - 1
      requires Scanned(hits, 3 * i + (|vertexIds| - 1 - j), q1, None) && m1 == MatchOf(State(), q1)
      ensures Scanned(hits, 3 * i + (|vertexIds| - 1 - j) + 1, r1, r2)
      ensures match1 == MatchOf(State(), r1) && match2 == MatchOf(State(), r2)
    {
      ghost var s := State();
      ghost var rank := 3 * i + (|vertexIds| - 1 - j);
      match1, match2 := m1, None;
      r1, r2 := q1, None;
      TableEntry(face, s, i, j);
      if match1.Some? && match1.value.stripPosition == j {
        ScanMissStep(hits, rank, r1, r2);
      } else if Vertices.Equals(face[i], vertices[vertexIds[j]]) {
        if match1.None? {
          ScanFirstStep(hits, rank, r1, r2);
          match1 := Some(Match(i, j));
          r1 := Some(rank);
        } else {
          ScanSecondStep(hits, rank, r1, r2);
          match2 := Some(Match(i, j));
          r2 := Some(rank);
        }
      } else {
        ScanMissStep(hits, rank, r1, r2);
      }
    }

    /** Adds the face to the strip; returns false, changing nothing, when it cannot be added. */
    method AddFace(newFace: Faces.Face) returns (added: bool)
      requires Valid() && |newFace.vertices| >= 3
      modifies this
      ensures Valid() && isClockwise == old(isClockwise)
      ensures (added, State()) == AddFaceSpec(old(State()), newFace.vertices)
    {
      if |vertices| == 0 {
        EmptyStripAcceptsFace(State(), newFace.vertices);
        SeedWith(newFace);
        return true;
      }
      var match1, match2 := FindMatches(newFace);
      if match1.None? || match2.None? {
        return false;
      }
      AddFaceSpecAccepted(State(), newFace.vertices, match1.value, match2.value);
      AppendSharedIds(match1.value, match2.value);
      AppendNewVertex(newFace, match1.value, match2.value);
      return true;
    }

    /** The first face of an empty strip: its three vertices and the ids 0, 1, 2. */
    method SeedWith(newFace: Faces.Face)
      requires Valid() && |vertices| == 0 && |newFace.vertices| >= 3
      modifies this
      ensures State() == StripState(newFace.vertices[..3], [0, 1, 2]) && isClockwise == old(isClockwise)
    {
      assert vertexIds == [];
      vertices := vertices + [newFace.vertices[0]];
      vertices := vertices + [newFace.vertices[1]];
      vertices := vertices + [newFace.vertices[2]];
      vertexIds := vertexIds + [0];
      vertexIds := vertexIds + [1];
      vertexIds := vertexIds + [2];
      assert vertices == newFace.vertices[..3];
    }

    /** The first two ids of the new triangle: the ids at the matched positions, ordered by the
        parity of the id count. */
    method AppendSharedIds(m1: Match, m2: Match)
      requires m1.stripPosition < |vertexIds| && m2.stripPosition < |vertexIds|
      modifies this
      ensures vertexIds == old(vertexIds) + Shared(old(State()), m1, m2)
      ensures vertices == old(vertices) && isClockwise == old(isClockwise)
    {
      if |vertexIds| % 2 == 0 {
        vertexIds := vertexIds + [vertexIds[m1.stripPosition]];
        vertexIds := vertexIds + [vertexIds[m2.stripPosition]];
      } else {
        vertexIds := vertexIds + [vertexIds[m2.stripPosition]];
        vertexIds := vertexIds + [vertexIds[m1.stripPosition]];
      }
    }

    /** The loop over the face vertices: the first one neither match uses is copied into the
        strip, and its new index closes the triangle. */
    method AppendNewVertex(newFace: Faces.Face, m1: Match, m2: Match)
      requires |newFace.vertices| >= 3
      modifies this
      ensures vertexIds == old(vertexIds) + [|old(vertices)|]
      ensures vertices == old(vertices) + [newFace.vertices[NewVertexIndex(m1.faceIndex, m2.faceIndex)]]
      ensures isClockwise == old(isClockwise)
    {
      ghost var k := NewVertexIndex(m1.faceIndex, m2.faceIndex);
      var i := 0;
      while i < 3
        invariant 0 <= i <= k
        invariant vertices == old(vertices) && vertexIds == old(vertexIds) && isClockwise == old(isClockwise)
      {
        if i != m1.faceIndex && i != m2.faceIndex {
          assert i == k;
          vertexIds := vertexIds + [|vertices|];
          vertices := vertices + [newFace.vertices[i]];
          return;
        }
        i := i + 1;
      }
    }

    /** Swaps the first two ids of every triple, reversing the winding of every triangle. */
    method FlipOrder()
      requires Valid()
      modifies this
      ensures Valid() && vertices == old(vertices) && isClockwise == old(isClockwise)
      ensures vertexIds == Flipped(old(vertexIds))
    {
      FlippedKeepsWellFormed(State());
      var i := 0;
      while i < |vertexIds|
        invariant 0 <= i <= |vertexIds| && i % 3 == 0
        invariant |vertexIds| == |old(vertexIds)| && vertices == old(vertices) && isClockwise == old(isClockwise)
        invariant forall k :: 0 <= k < i ==> vertexIds[k] == Flipped(old(vertexIds))[k]
        invariant forall k :: i <= k < |vertexIds| ==> vertexIds[k] == old(vertexIds)[k]
      {
        FlippedTriple(old(vertexIds), i);
        var temp := vertexIds[i];
        vertexIds := vertexIds[i := vertexIds[i + 1]];
        vertexIds := vertexIds[i + 1 := temp];
        i := i + 3;
      }
      assert vertexIds == Flipped(old(vertexIds));
    }
  }

  /** The state of the search loops after visiting every rank below R (or, once match2 is
      set, after breaking out): r1 and r2 are the ranks of match1 and match2. */
  ghost predicate Scanned(hits: seq<bool>, R: nat, r1: Option<nat>, r2: Option<nat>)
    requires |hits| == 9 && R <= 9
  {
    && (r1.None? ==> r2.None? && forall q :: 0 <= q < R ==> !hits[q])
    && (r1.Some? ==> r1.value < R && hits[r1.value] && forall q :: 0 <= q < r1.value ==> !hits[q])
    && (r1.Some? && r2.None? ==>
          forall q :: r1.value < q < R && Free(q, Some(OffsetOf(r1.value))) ==> !hits[q])
    && (r2.Some? ==> r1.Some? && r1.value < r2.value < R && Free(r2.value, Some(OffsetOf(r1.value)))
                     && hits[r2.value]
                     && forall q :: r1.value < q < r2.value && Free(q, Some(OffsetOf(r1.value))) ==> !hits[q])
  }

  /** Visiting rank R without recording a match: it misses, or it is at match1's offset. */
  lemma ScanMissStep(hits: seq<bool>, R: nat, r1: Option<nat>, r2: Option<nat>)
    requires |hits| == 9 && R < 9 && Scanned(hits, R, r1, r2) && r2.None?
    requires !hits[R] || (r1.Some? && OffsetOf(R) == OffsetOf(r1.value))
    ensures Scanned(hits, R + 1, r1, r2)
  {
  }

  lemma ScanFirstStep(hits: seq<bool>, R: nat, r1: Option<nat>, r2: Option<nat>)
    requires |hits| == 9 && R < 9 && Scanned(hits, R, r1, r2)
    requires r1.None? && hits[R]
    ensures Scanned(hits, R + 1, Some(R), r2)
  {
  }

  lemma ScanSecondStep(hits: seq<bool>, R: nat, r1: Option<nat>, r2: Option<nat>)
    requires |hits| == 9 && R < 9 && Scanned(hits, R, r1, r2)
    requires r1.Some? && r2.None? && hits[R] && OffsetOf(R) != OffsetOf(r1.value)
    ensures Scanned(hits, R + 1, r1, Some(R))
  {
  }

  /** Once match2 is set, nothing later is looked at. */
  lemma ScannedGrows(hits: seq<bool>, R: nat, R': nat, r1: Option<nat>, r2: Option<nat>)
    requires |hits| == 9 && R <= R' <= 9 && Scanned(hits, R, r1, r2) && r2.Some?
    ensures Scanned(hits, R', r1, r2)
  {
  }

  /** A finished scan has found what SearchRanks finds. */
  lemma ScannedDetermines(hits: seq<bool>, R: nat, r1: Option<nat>, r2: Option<nat>)
    requires |hits| == 9 && R <= 9 && Scanned(hits, R, r1, r2)
    requires R == 9 || r2.Some?
    ensures (r1, r2) == SearchRanks(hits)
  {
    var f1 := FirstTrue(hits, 0, None);
    if r1.Some? {
      assert f1 == r1;
      var f2 := FirstTrue(hits, r1.value + 1, Some(OffsetOf(r1.value)));
      if r2.Some? {
        assert f2 == r2;
      } else {
        assert f2 == None;
      }
    } else {
      assert f1 == None;
    }
  }
}
