/** Pattern targeting: `FindPattern` lays an offset mask over the grid with
  * its origin cell on the source and collects the cells the mask marks. */
module AStarPattern {
  import opened Wrappers
  import opened AStarNodes

  /** The mask `p` is indexed `[y, x]`: `Length0` rows, `Length1` columns.
    * `-1` marks the origin, `1` a cell to include, anything else is ignored. */
  predicate InMask(p: array2<int>, y: int, x: int)
  {
    0 <= y < p.Length0 && 0 <= x < p.Length1
  }

  /** The mask has an origin cell somewhere. */
  ghost predicate HasOrigin(p: array2<int>)
    reads p
  {
    exists y, x :: InMask(p, y, x) && p[y, x] == -1
  }

  /** `(oy, ox)` is the first origin cell in row-major order. */
  ghost predicate IsFirstOrigin(p: array2<int>, oy: int, ox: int)
    reads p
  {
    && InMask(p, oy, ox) && p[oy, ox] == -1
    && (forall y, x :: 0 <= y < oy && 0 <= x < p.Length1 ==> p[y, x] != -1)
    && (forall x :: 0 <= x < ox ==> p[oy, x] != -1)
  }

  /** The first origin cell is determined by the mask. */
  lemma FirstOriginUnique(p: array2<int>, a: int, b: int, c: int, d: int)
    requires IsFirstOrigin(p, a, b) && IsFirstOrigin(p, c, d)
    ensures a == c && b == d
  {
  }

  /** The grid cell the mask cell `(y, x)` falls on when the origin
    * `(oy, ox)` lies on `s`. */
  function Target(s: Pos, oy: int, ox: int, y: int, x: int): (r: Pos)
    ensures r == s <==> y == oy && x == ox
  {
    Pos(s.x + (x - ox), s.y + (y - oy))
  }

  /** Mask cell `(y, x)` is included: it holds `1`, its grid cell exists and,
    * when walkability is tested, is walkable. */
  predicate Picks(g: Graph, p: array2<int>, s: Pos, oy: int, ox: int, tw: bool, y: int, x: int)
    reads p
    requires InMask(p, y, x)
  {
    p[y, x] == 1 && Enterable(g, Target(s, oy, ox, y, x), tw)
  }

  /** The included cells of row `y` among its first `x` columns, left to right. */
  function RowMatches(g: Graph, p: array2<int>, s: Pos, oy: int, ox: int, tw: bool, y: nat, x: nat): seq<Pos>
    reads p
    requires y < p.Length0 && x <= p.Length1
  {
    if x == 0 then []
    else
      RowMatches(g, p, s, oy, ox, tw, y, x - 1)
      + (if Picks(g, p, s, oy, ox, tw, y, x - 1) then [Target(s, oy, ox, y, x - 1)] else [])
  }

  /** The included cells of the first `y` rows, in row-major order. */
  function Matches(g: Graph, p: array2<int>, s: Pos, oy: int, ox: int, tw: bool, y: nat): seq<Pos>
    reads p
    requires y <= p.Length0
  {
    if y == 0 then [] else Matches(g, p, s, oy, ox, tw, y - 1) + RowMatches(g, p, s, oy, ox, tw, y - 1, p.Length1)
  }

  /** A row's matches are the targets of its included cells. */
  lemma {:induction false} RowMatchesMembers(g: Graph, p: array2<int>, s: Pos, oy: int, ox: int, tw: bool,
                                             y: nat, x: nat, n: Pos)
    requires y < p.Length0 && x <= p.Length1
    ensures n in RowMatches(g, p, s, oy, ox, tw, y, x) <==>
              exists c :: 0 <= c < x && Picks(g, p, s, oy, ox, tw, y, c) && n == Target(s, oy, ox, y, c)
  {
    if x > 0 {
      RowMatchesMembers(g, p, s, oy, ox, tw, y, x - 1, n);
    }
  }

  /** The matches of the first `y` rows are the targets of their included cells. */
  lemma {:induction false} MatchesMembers(g: Graph, p: array2<int>, s: Pos, oy: int, ox: int, tw: bool,
                                          y: nat, n: Pos)
    requires y <= p.Length0
    ensures n in Matches(g, p, s, oy, ox, tw, y) <==>
              exists r, c :: 0 <= r < y && 0 <= c < p.Length1 && Picks(g, p, s, oy, ox, tw, r, c)
                             && n == Target(s, oy, ox, r, c)
  {
    if y > 0 {
      MatchesMembers(g, p, s, oy, ox, tw, y - 1, n);
      RowMatchesMembers(g, p, s, oy, ox, tw, y - 1, p.Length1, n);
    }
  }

  /** Every match is an enterable cell other than the source: the mask cell
    * that falls on the source is the origin, which holds `-1`. */
  lemma MatchesExcludeSource(g: Graph, p: array2<int>, s: Pos, oy: int, ox: int, tw: bool, n: Pos)
    requires IsFirstOrigin(p, oy, ox)
    requires n in Matches(g, p, s, oy, ox, tw, p.Length0)
    ensures n != s && Enterable(g, n, tw)
  {
    MatchesMembers(g, p, s, oy, ox, tw, p.Length0, n);
  }

  /** Finds the first origin cell in row-major order. */
  method FindOrigin(p: array2<int>) returns (origin: Option<(int, int)>)
    ensures origin.None? <==> !HasOrigin(p)
    ensures origin.Some? ==> IsFirstOrigin(p, origin.value.0, origin.value.1)
  {
    var h, w := p.Length0, p.Length1;
    var ox, oy := -1, -1;
    var y := 0;
    while y < h && oy < 0
      invariant 0 <= y <= h
      invariant oy < 0 ==> forall r, c :: 0 <= r < y && 0 <= c < w ==> p[r, c] != -1
      invariant oy >= 0 ==> oy < y && IsFirstOrigin(p, oy, ox)
    {
      for x := 0 to w
        invariant oy < 0
        invariant forall c :: 0 <= c < x ==> p[y, c] != -1
      {
        if p[y, x] == -1 {
          ox, oy := x, y;
          break;
        }
      }
      y := y + 1;
    }
    if ox < 0 || oy < 0 {
      return None;
    }
    return Some((oy, ox));
  }

  /** The grid cells marked `1` in the mask, placed so that the mask's first
    * origin cell lies on `src`, in row-major order; with walkability tested,
    * only walkable ones. A missing source or mask gives the empty list; a
    * mask without an origin is an error. */
  method FindPattern(g: Graph, src: Option<Pos>, pattern: array2?<int>, tw: bool) returns (r: Result<seq<Pos>, string>)
    ensures src.None? || pattern == null ==> r == Success([])
    ensures src.Some? && pattern != null ==> (r.Failure? <==> !HasOrigin(pattern))
    ensures src.Some? && pattern != null && r.Success? ==>
              exists oy, ox :: IsFirstOrigin(pattern, oy, ox)
                               && r.value == Matches(g, pattern, src.value, oy, ox, tw, pattern.Length0)
  {
    if src.None? || pattern == null {
      return Success([]);
    }
    var s := src.value;
    var h, w := pattern.Length0, pattern.Length1;
    var origin := FindOrigin(pattern);
    if origin.None? {
      return Failure("FindPattern: pattern must contain exactly one -1 for the origin.");
    }
    var (oy, ox) := origin.value;
    var list := [];
    for y := 0 to h
      invariant list == Matches(g, pattern, s, oy, ox, tw, y)
    {
      for x := 0 to w
        invariant list == Matches(g, pattern, s, oy, ox, tw, y) + RowMatches(g, pattern, s, oy, ox, tw, y, x)
      {
        if pattern[y, x] != 1 {
          continue;
        }
        var dx, dy := x - ox, y - oy;
        var t := Pos(s.x + dx, s.y + dy);
        if t !in g {
          continue;
        }
        if tw && !g[t].walkable {
          continue;
        }
        list := list + [t];
      }
    }
    return Success(list);
  }
}
