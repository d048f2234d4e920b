/**
 * The state of one cell of the generator's grid, and the two list operations
 * that neighbour propagation is built from: the union of the neighbour tables
 * of a cell's kinds, and the order-preserving filter of a candidate list.
 */
module Waves {
  import opened Tiles

  /**
   * A cell either holds its final kind or the list of kinds it may still take
   * (its entropy is the length of that list).
   */
  datatype WaveState = Collapsed(tile: Tile) | Superposition(candidates: seq<Tile>)

  /** A fresh cell: every kind is still possible, each listed once. */
  function DefaultState(): (w: WaveState)
    ensures w.Superposition? && |w.candidates| == 3
    ensures River in w.candidates && Wasteland in w.candidates && Farmland in w.candidates
  {
    Superposition([River, Wasteland, Farmland])
  }

  /**
   * The neighbour tables of the kinds in `s`, concatenated in order (duplicates
   * kept). Every kind of `s` tolerates itself, so each is in the union, and so
   * is Wasteland as soon as `s` has a kind.
   */
  function NeighbourUnion(s: seq<Tile>): (r: seq<Tile>)
    ensures forall i :: 0 <= i < |s| ==> s[i] in r
    ensures s != [] ==> Wasteland in r
  {
    if s == [] then [] else ValidNeighbours(s[0]) + NeighbourUnion(s[1..])
  }

  /** A kind is in the union exactly when some kind of `s` tolerates it. */
  lemma {:induction false} NeighbourUnionMembership(s: seq<Tile>, t: Tile)
    ensures t in NeighbourUnion(s) <==> exists k :: k in s && Compatible(k, t)
  {
    if s != [] {
      NeighbourUnionMembership(s[1..], t);
      if t in ValidNeighbours(s[0]) {
        assert s[0] in s && Compatible(s[0], t);
      }
      if t in NeighbourUnion(s[1..]) {
        var k :| k in s[1..] && Compatible(k, t);
        assert k in s;
      }
      if exists k :: k in s && Compatible(k, t) {
        var k :| k in s && Compatible(k, t);
        if k != s[0] {
          assert k in s[1..];
        }
      }
    }
  }

  /**
   * The kinds a neighbour of a cell in state `w` may keep: the table of a
   * collapsed cell's kind, or the union of the tables of all its candidates.
   * Wasteland is among them unless `w` is open with no candidate left.
   */
  function Possibilities(w: WaveState): (r: seq<Tile>)
    ensures w.Collapsed? ==> w.tile in r
    ensures w.Superposition? ==> forall i :: 0 <= i < |w.candidates| ==> w.candidates[i] in r
    ensures (w.Superposition? ==> w.candidates != []) ==> Wasteland in r
  {
    match w
    case Superposition(s) => NeighbourUnion(s)
    case Collapsed(c) => ValidNeighbours(c)
  }

  /** What the possibilities of a cell contain, for either kind of cell. */
  lemma PossibilitiesMembership(w: WaveState, t: Tile)
    ensures w.Collapsed? ==> (t in Possibilities(w) <==> Compatible(w.tile, t))
    ensures w.Superposition? ==>
      (t in Possibilities(w) <==> exists k :: k in w.candidates && Compatible(k, t))
  {
    if w.Superposition? {
      NeighbourUnionMembership(w.candidates, t);
    }
  }

  /** The order-preserving sublist of `s` made of the elements that occur in `allowed`. */
  function Filter(s: seq<Tile>, allowed: seq<Tile>): (r: seq<Tile>)
    ensures |r| <= |s|
    ensures forall t :: t in r <==> t in s && t in allowed
  {
    if s == [] then []
    else (if s[0] in allowed then [s[0]] else []) + Filter(s[1..], allowed)
  }

  /** `r` is obtained from `s` by deleting elements, the rest keeping their order. */
  predicate IsSubsequence(r: seq<Tile>, s: seq<Tile>)
    decreases |s|
  {
    if r == [] then true
    else if s == [] then false
    else if r[0] == s[0] then IsSubsequence(r[1..], s[1..])
    else IsSubsequence(r, s[1..])
  }

  lemma {:induction false} SubsequenceReflexive(s: seq<Tile>)
    ensures IsSubsequence(s, s)
  {
    if s != [] {
      SubsequenceReflexive(s[1..]);
    }
  }

  /** Filtering deletes elements and never reorders the ones it keeps. */
  lemma {:induction false} FilterIsSubsequence(s: seq<Tile>, allowed: seq<Tile>)
    ensures IsSubsequence(Filter(s, allowed), s)
  {
    if s != [] {
      var rest := Filter(s[1..], allowed);
      FilterIsSubsequence(s[1..], allowed);
      if s[0] in allowed {
        assert Filter(s, allowed) == [s[0]] + rest;
        assert ([s[0]] + rest)[1..] == rest;
      } else {
        assert Filter(s, allowed) == rest;
        if rest != [] {
          assert rest[0] in rest;
        }
      }
    }
  }

  /** Filtering keeps every occurrence of an allowed kind and no occurrence of any other. */
  lemma {:induction false} FilterCount(s: seq<Tile>, allowed: seq<Tile>, t: Tile)
    ensures multiset(Filter(s, allowed))[t] == if t in allowed then multiset(s)[t] else 0
  {
    if s != [] {
      FilterCount(s[1..], allowed, t);
      assert s == [s[0]] + s[1..];
    }
  }

  /** Filtering twice by the same list is filtering once. */
  lemma {:induction false} FilterIdempotent(s: seq<Tile>, allowed: seq<Tile>)
    ensures Filter(Filter(s, allowed), allowed) == Filter(s, allowed)
  {
    if s != [] {
      FilterIdempotent(s[1..], allowed);
      if s[0] in allowed {
        var once := Filter(s, allowed);
        assert once == [s[0]] + Filter(s[1..], allowed);
        assert once[0] == s[0] && once[1..] == Filter(s[1..], allowed);
        assert Filter(once, allowed) == [s[0]] + Filter(Filter(s[1..], allowed), allowed);
      } else {
        assert Filter(s, allowed) == Filter(s[1..], allowed);
      }
    }
  }
}
