/**
 * Day 18, Boiling Boulders: lava droplets made of unit cubes on a grid with `u8`
 * coordinates. Part 1 is the surface area: every face of a cube not shared with
 * another cube of the droplet.
 */
module Day18 {
  import opened Wrappers
  import opened Text
  import opened Sums
  import opened Seqs

  /** A `u8` coordinate. */
  type Byte = b: int | 0 <= b <= 255

  /** `Cube` */
  datatype Cube = Cube(x: Byte, y: Byte, z: Byte)

  predicate IsByte(v: int)
  {
    0 <= v <= 255
  }

  /** `Cube::try_from((i32, i32, i32))`: every coordinate must fit in a `u8`. */
  function TryFrom(x: int, y: int, z: int): (r: Option<Cube>)
    ensures r.Some? <==> IsByte(x) && IsByte(y) && IsByte(z)
    ensures r.Some? ==> r.value.x == x && r.value.y == y && r.value.z == z
  {
    if IsByte(x) && IsByte(y) && IsByte(z) then Some(Cube(x, y, z)) else None
  }

  /** `translate`: the cube shifted by the offset, when it stays on the grid. */
  function Translate(c: Cube, d: (int, int, int)): (r: Option<Cube>)
    ensures r.Some? <==> IsByte(c.x + d.0) && IsByte(c.y + d.1) && IsByte(c.z + d.2)
    ensures r.Some? ==> r.value == Cube(c.x + d.0, c.y + d.1, c.z + d.2)
  {
    TryFrom(d.0 + c.x, d.1 + c.y, d.2 + c.z)
  }

  /** The six face directions, in the order `adjacent` lists them. */
  const Faces: seq<(int, int, int)> := [(1, 0, 0), (-1, 0, 0), (0, 1, 0), (0, -1, 0), (0, 0, 1), (0, 0, -1)]

  /** Two cubes share a face: they differ by one on exactly one axis. */
  predicate FaceNeighbours(a: Cube, b: Cube)
  {
    var dx, dy, dz := b.x - a.x, b.y - a.y, b.z - a.z;
    (dx * dx + dy * dy + dz * dz == 1)
  }

  /** The translations of `c` by each offset that stay on the grid, in the offsets' order. */
  function TranslateAll(c: Cube, offsets: seq<(int, int, int)>): (r: seq<Cube>)
    ensures |r| <= |offsets|
  {
    if offsets == [] then []
    else (match Translate(c, offsets[0]) case Some(b) => [b] case None => []) + TranslateAll(c, offsets[1..])
  }

  /** A cube is listed exactly when some offset moves `c` onto it. */
  lemma {:induction false} TranslateAllMembers(c: Cube, offsets: seq<(int, int, int)>)
    ensures forall b :: b in TranslateAll(c, offsets) <==> exists i :: 0 <= i < |offsets| && Translate(c, offsets[i]) == Some(b)
  {
    if offsets != [] {
      TranslateAllMembers(c, offsets[1..]);
      forall b
        ensures b in TranslateAll(c, offsets) <==> exists i :: 0 <= i < |offsets| && Translate(c, offsets[i]) == Some(b)
      {
        if exists i :: 0 <= i < |offsets| && Translate(c, offsets[i]) == Some(b) {
          var i :| 0 <= i < |offsets| && Translate(c, offsets[i]) == Some(b);
          if i > 0 {
            assert offsets[1..][i - 1] == offsets[i];
          }
        }
        if b in TranslateAll(c, offsets[1..]) {
          var i :| 0 <= i < |offsets[1..]| && Translate(c, offsets[1..][i]) == Some(b);
          assert offsets[i + 1] == offsets[1..][i];
        }
      }
    }
  }

  /** `adjacent`: the cubes sharing a face with `c` that lie on the grid. */
  function Adjacent(c: Cube): seq<Cube>
  {
    TranslateAll(c, Faces)
  }

  /** A square is never negative, at least one away from zero, and one only at one and minus one. */
  lemma Square(d: int)
    ensures d * d >= 0 && (d != 0 ==> d * d >= 1)
    ensures d * d == 1 <==> d == 1 || d == -1
  {
    if d >= 2 {
      assert d * d >= 2 * d;
    } else if d <= -2 {
      assert d * d >= -2 * d;
    }
  }

  lemma FaceOffsets(a: Cube, b: Cube)
    ensures FaceNeighbours(a, b) <==> exists i :: 0 <= i < |Faces| && (b.x - a.x, b.y - a.y, b.z - a.z) == Faces[i]
  {
    var dx, dy, dz := b.x - a.x, b.y - a.y, b.z - a.z;
    Square(dx);
    Square(dy);
    Square(dz);
    if FaceNeighbours(a, b) {
      if dx != 0 {
        assert (dx, dy, dz) == Faces[0] || (dx, dy, dz) == Faces[1];
      } else if dy != 0 {
        assert (dx, dy, dz) == Faces[2] || (dx, dy, dz) == Faces[3];
      } else {
        assert (dx, dy, dz) == Faces[4] || (dx, dy, dz) == Faces[5];
      }
    }
  }

  /** The adjacent cubes are exactly the cubes that share a face with `c`, at most six and none twice. */
  lemma AdjacentMembers(c: Cube)
    ensures forall b :: b in Adjacent(c) <==> FaceNeighbours(c, b)
    ensures |Adjacent(c)| <= 6
  {
    forall b
      ensures b in Adjacent(c) <==> FaceNeighbours(c, b)
    {
      FaceOffsets(c, b);
      TranslateAllMembers(c, Faces);
      if FaceNeighbours(c, b) {
        var i :| 0 <= i < |Faces| && (b.x - c.x, b.y - c.y, b.z - c.z) == Faces[i];
        assert Translate(c, Faces[i]) == Some(b);
      }
    }
  }

  /** Adjacency is symmetric. */
  lemma AdjacentSymmetric(a: Cube, b: Cube)
    ensures b in Adjacent(a) <==> a in Adjacent(b)
  {
    AdjacentMembers(a);
    AdjacentMembers(b);
    var dx, dy, dz := b.x - a.x, b.y - a.y, b.z - a.z;
    assert (-dx) * (-dx) == dx * dx && (-dy) * (-dy) == dy * dy && (-dz) * (-dz) == dz * dz;
  }

  /** A cube away from the grid's edges has all six neighbours, in the order of the offsets. */
  lemma AdjacentInner(c: Cube)
    requires 1 <= c.x <= 254 && 1 <= c.y <= 254 && 1 <= c.z <= 254
    ensures Adjacent(c) == [Cube(c.x + 1, c.y, c.z), Cube(c.x - 1, c.y, c.z), Cube(c.x, c.y + 1, c.z),
                            Cube(c.x, c.y - 1, c.z), Cube(c.x, c.y, c.z + 1), Cube(c.x, c.y, c.z - 1)]
  {
    var x, y, z := c.x, c.y, c.z;
    assert TranslateAll(c, Faces[6..]) == [];
    assert Faces[5..][1..] == Faces[6..];
    assert TranslateAll(c, Faces[5..]) == [Cube(x, y, z - 1)];
    assert Faces[4..][1..] == Faces[5..];
    assert TranslateAll(c, Faces[4..]) == [Cube(x, y, z + 1), Cube(x, y, z - 1)];
    assert Faces[3..][1..] == Faces[4..];
    assert TranslateAll(c, Faces[3..]) == [Cube(x, y - 1, z), Cube(x, y, z + 1), Cube(x, y, z - 1)];
    assert Faces[2..][1..] == Faces[3..];
    assert TranslateAll(c, Faces[2..]) == [Cube(x, y + 1, z), Cube(x, y - 1, z), Cube(x, y, z + 1), Cube(x, y, z - 1)];
    assert Faces[1..][1..] == Faces[2..];
    assert TranslateAll(c, Faces[1..]) == [Cube(x - 1, y, z), Cube(x, y + 1, z), Cube(x, y - 1, z), Cube(x, y, z + 1), Cube(x, y, z - 1)];
  }

  /** A corner cube has only three neighbours on the grid. */
  lemma AdjacentCorner()
    ensures Adjacent(Cube(0, 0, 0)) == [Cube(1, 0, 0), Cube(0, 1, 0), Cube(0, 0, 1)]
  {
    var c := Cube(0, 0, 0);
    assert TranslateAll(c, Faces[6..]) == [];
    assert Faces[5..][1..] == Faces[6..];
    assert Faces[4..][1..] == Faces[5..];
    assert Faces[3..][1..] == Faces[4..];
    assert Faces[2..][1..] == Faces[3..];
    assert Faces[1..][1..] == Faces[2..];
  }

  /** The cubes with duplicates dropped, each kept at its first place: the `HashSet`'s members. */
  function Distinct(cubes: seq<Cube>): (r: seq<Cube>)
    ensures forall c :: c in r <==> c in cubes
    ensures forall i, j :: 0 <= i < j < |r| ==> r[i] != r[j]
  {
    if cubes == [] then []
    else
      var init := cubes[..|cubes| - 1];
      var last := cubes[|cubes| - 1];
      assert cubes == init + [last];
      var d := Distinct(init);
      if last in d then d else d + [last]
  }

  /** How many of `c`'s neighbours are in the droplet. */
  function Neighbours(c: Cube, droplet: set<Cube>): nat
  {
    Count(b => b in droplet, Adjacent(c))
  }

  /** The faces of `c` not shared with another cube of the droplet. */
  function OpenFaces(c: Cube, droplet: set<Cube>): int
  {
    6 - Neighbours(c, droplet)
  }

  /** The droplet's cubes: the `HashSet` built from the input. */
  function Droplet(cubes: seq<Cube>): set<Cube>
  {
    set c | c in cubes
  }

  /** The cubes of the droplet that share a face with `c`. */
  function Touching(c: Cube, droplet: set<Cube>): set<Cube>
  {
    set b | b in droplet && FaceNeighbours(c, b)
  }

  /** The ordered pairs of droplet cubes, the first one from `from`, that share a face. */
  function Contacts(from: set<Cube>, droplet: set<Cube>): set<(Cube, Cube)>
  {
    set a, b | a in from && b in droplet && FaceNeighbours(a, b) :: (a, b)
  }

  /** `solve_part1`: the open faces of every distinct cube. Each cube has six faces and
   * each shared face is hidden once from either side, so the area is six faces per
   * cube less the ordered pairs of touching cubes. */
  function SolvePart1(cubes: seq<Cube>): (r: int)
    ensures 0 <= r <= 6 * |Droplet(cubes)|
    ensures r == 6 * |Droplet(cubes)| - |Contacts(Droplet(cubes), Droplet(cubes))|
  {
    var droplet := set c | c in cubes;
    SurfaceArea(cubes);
    SumOf(c => OpenFaces(c, droplet), Distinct(cubes))
  }

  /** Distinct offsets move a cube to distinct cubes. */
  lemma {:induction false} TranslateAllDistinct(c: Cube, offsets: seq<(int, int, int)>)
    requires forall i, j :: 0 <= i < j < |offsets| ==> offsets[i] != offsets[j]
    ensures forall i, j :: 0 <= i < j < |TranslateAll(c, offsets)| ==> TranslateAll(c, offsets)[i] != TranslateAll(c, offsets)[j]
  {
    if offsets != [] {
      var tail := offsets[1..];
      TranslateAllDistinct(c, tail);
      TranslateAllMembers(c, tail);
      var rest := TranslateAll(c, tail);
      match Translate(c, offsets[0])
      case None =>
        assert TranslateAll(c, offsets) == rest;
      case Some(b) =>
        assert TranslateAll(c, offsets) == [b] + rest;
        forall i, j | 0 <= i < j < |[b] + rest|
          ensures ([b] + rest)[i] != ([b] + rest)[j]
        {
          if i > 0 {
            assert ([b] + rest)[i] == rest[i - 1] && ([b] + rest)[j] == rest[j - 1];
          } else {
            assert ([b] + rest)[j] == rest[j - 1];
          }
        }
    }
  }

  /** Over a list without repeats, counting the cubes in the droplet counts a set. */
  lemma {:induction false} CountMembers(xs: seq<Cube>, droplet: set<Cube>)
    requires forall i, j :: 0 <= i < j < |xs| ==> xs[i] != xs[j]
    ensures Count(b => b in droplet, xs) == |set b | b in xs && b in droplet|
  {
    if xs == [] {
      assert (set b | b in xs && b in droplet) == {};
    } else {
      var tail := xs[1..];
      assert forall i, j :: 0 <= i < j < |tail| ==> tail[i] == xs[i + 1] && tail[j] == xs[j + 1];
      CountMembers(tail, droplet);
      var later := set b | b in tail && b in droplet;
      assert xs[0] !in later;
      if xs[0] in droplet {
        assert (set b | b in xs && b in droplet) == {xs[0]} + later;
      } else {
        assert (set b | b in xs && b in droplet) == later;
      }
    }
  }

  /** The neighbours counted for `c` are the droplet cubes sharing a face with it. */
  lemma NeighboursTouching(c: Cube, droplet: set<Cube>)
    ensures Neighbours(c, droplet) == |Touching(c, droplet)|
  {
    AdjacentMembers(c);
    TranslateAllDistinct(c, Faces);
    CountMembers(Adjacent(c), droplet);
    assert (set b | b in Adjacent(c) && b in droplet) == Touching(c, droplet);
  }

  /** Pairing every member of a set with `a` keeps its size. */
  lemma {:induction false} PairsCard(a: Cube, s: set<Cube>)
    ensures |set b | b in s :: (a, b)| == |s|
    decreases |s|
  {
    if s != {} {
      var x :| x in s;
      PairsCard(a, s - {x});
      assert (set b | b in s :: (a, b)) == (set b | b in s - {x} :: (a, b)) + {(a, x)};
      assert (a, x) !in (set b | b in s - {x} :: (a, b));
    }
  }

  /** Adding a cube to `from` adds its touching pairs and nothing else. */
  lemma ContactsAdd(a: Cube, from: set<Cube>, droplet: set<Cube>)
    requires a !in from
    ensures |Contacts({a} + from, droplet)| == |Touching(a, droplet)| + |Contacts(from, droplet)|
  {
    var mine := set b | b in Touching(a, droplet) :: (a, b);
    assert Contacts({a} + from, droplet) == mine + Contacts(from, droplet);
    assert mine * Contacts(from, droplet) == {};
    PairsCard(a, Touching(a, droplet));
  }

  /** Summed over a list without repeats, the open faces are six per cube less the touching pairs. */
  lemma {:induction false} OpenFacesSum(d: seq<Cube>, droplet: set<Cube>)
    requires forall i, j :: 0 <= i < j < |d| ==> d[i] != d[j]
    ensures SumOf(c => OpenFaces(c, droplet), d) == 6 * |d| - |Contacts((set c | c in d), droplet)|
  {
    if d == [] {
      assert Contacts((set c | c in d), droplet) == {};
    } else {
      var tail := d[1..];
      assert forall i, j :: 0 <= i < j < |tail| ==> tail[i] == d[i + 1] && tail[j] == d[j + 1];
      OpenFacesSum(tail, droplet);
      assert (set c | c in d) == {d[0]} + (set c | c in tail);
      ContactsAdd(d[0], (set c | c in tail), droplet);
      NeighboursTouching(d[0], droplet);
    }
  }

  /** The area counts six faces per distinct cube less the touching pairs, and lies between none and six per cube. */
  lemma SurfaceArea(cubes: seq<Cube>)
    ensures SumOf(c => OpenFaces(c, Droplet(cubes)), Distinct(cubes)) == 6 * |Droplet(cubes)| - |Contacts(Droplet(cubes), Droplet(cubes))|
    ensures 0 <= SumOf(c => OpenFaces(c, Droplet(cubes)), Distinct(cubes)) <= 6 * |Droplet(cubes)|
  {
    var droplet := Droplet(cubes);
    var d := Distinct(cubes);
    OpenFacesSum(d, droplet);
    assert (set c | c in d) == droplet;
    DistinctCard(d);
    forall i | 0 <= i < |d|
      ensures 0 <= OpenFaces(d[i], droplet) <= 6
    {
      OpenFacesRange(d[i], droplet);
    }
    SumOfBounds(c => OpenFaces(c, droplet), d, 0, 6);
  }

  /** Two lists with the same members and no repeats are rearrangements of each other. */
  lemma DistinctPermutation(a: seq<Cube>, b: seq<Cube>)
    requires forall c :: c in a <==> c in b
    requires forall i, j :: 0 <= i < j < |a| ==> a[i] != a[j]
    requires forall i, j :: 0 <= i < j < |b| ==> b[i] != b[j]
    ensures multiset(a) == multiset(b)
  {
    forall c
      ensures multiset(a)[c] == multiset(b)[c]
    {
      DistinctCount(a, c);
      DistinctCount(b, c);
    }
  }

  lemma {:induction false} DistinctCount(a: seq<Cube>, c: Cube)
    requires forall i, j :: 0 <= i < j < |a| ==> a[i] != a[j]
    ensures multiset(a)[c] == if c in a then 1 else 0
  {
    if a != [] {
      var init := a[..|a| - 1];
      assert a == init + [a[|a| - 1]];
      DistinctCount(init, c);
      if c == a[|a| - 1] {
        assert c !in init;
      }
    }
  }

  /** The surface area depends only on which cubes the droplet holds: order and repetition do not matter. */
  lemma SolvePart1SetOnly(a: seq<Cube>, b: seq<Cube>)
    requires forall c :: c in a <==> c in b
    ensures SolvePart1(a) == SolvePart1(b)
  {
    var droplet := set c | c in a;
    assert droplet == set c | c in b;
    DistinctPermutation(Distinct(a), Distinct(b));
    SumOfPermutation(c => OpenFaces(c, droplet), Distinct(a), Distinct(b));
  }

  /** Every cube contributes between zero and six open faces. */
  lemma OpenFacesRange(c: Cube, droplet: set<Cube>)
    ensures 0 <= OpenFaces(c, droplet) <= 6
    ensures OpenFaces(c, droplet) == 6 <==> forall b :: FaceNeighbours(c, b) ==> b !in droplet
  {
    AdjacentMembers(c);
    var adj := Adjacent(c);
    CountProperties(b => b in droplet, adj, []);
    if Neighbours(c, droplet) == 0 {
      forall b | FaceNeighbours(c, b)
        ensures b !in droplet
      {
        var i :| 0 <= i < |adj| && adj[i] == b;
      }
    }
  }

  /** A list in which exactly the element at `k` passes counts one. */
  lemma CountOne<T>(p: T -> bool, xs: seq<T>, k: nat)
    requires k < |xs|
    requires forall i | 0 <= i < |xs| :: p(xs[i]) <==> i == k
    ensures Count(p, xs) == 1
  {
    assert xs == xs[..k] + ([xs[k]] + xs[k + 1..]);
    CountProperties(p, xs[..k], [xs[k]] + xs[k + 1..]);
    CountProperties(p, [xs[k]], xs[k + 1..]);
    CountProperties(p, xs[..k], []);
    CountProperties(p, xs[k + 1..], []);
  }

  /** In a droplet of two inner cubes side by side, each has five open faces. */
  lemma OneSharedFace(a: Cube, b: Cube, droplet: set<Cube>)
    requires 1 <= a.x <= 254 && 1 <= a.y <= 254 && 1 <= a.z <= 254
    requires FaceNeighbours(a, b)
    requires droplet == {a, b}
    ensures OpenFaces(a, droplet) == 5
  {
    AdjacentInner(a);
    AdjacentMembers(a);
    var adj := Adjacent(a);
    var k :| 0 <= k < 6 && adj[k] == b;
    forall i | 0 <= i < 6
      ensures adj[i] in droplet <==> i == k
    {
      assert adj[i] != a;
    }
    CountOne(c => c in droplet, adj, k);
  }

  /** The puzzle's first droplet: two cubes side by side show ten faces. */
  lemma ExampleTwoCubes()
    ensures SolvePart1([Cube(1, 1, 1), Cube(2, 1, 1)]) == 10
  {
    var a, b := Cube(1, 1, 1), Cube(2, 1, 1);
    var cubes := [a, b];
    var droplet := set c | c in cubes;
    assert droplet == {a, b};
    assert Distinct(cubes) == cubes by {
      assert cubes[..1] == [a];
      assert Distinct([a]) == [a];
    }
    OneSharedFace(a, b, droplet);
    OneSharedFace(b, a, droplet);
    SumOfShort(c => OpenFaces(c, droplet), cubes);
  }

  /** `solve_part2` as written repeats the computation of part 1: the exterior-only count is unfinished. */
  function SolvePart2(cubes: seq<Cube>): (r: int)
    ensures r == 6 * |Droplet(cubes)| - |Contacts(Droplet(cubes), Droplet(cubes))|
  {
    SurfaceArea(cubes);
    var droplet := set c | c in cubes;
    SumOf(c => OpenFaces(c, droplet), Distinct(cubes))
  }

  lemma SolvePart2IsPart1(cubes: seq<Cube>)
    ensures SolvePart2(cubes) == SolvePart1(cubes)
  {
  }

  /** A comma followed by a `u8` number. */
  function ParseCommaByte(s: string): (r: Option<(nat, string)>)
    ensures r.Some? ==> r.value.0 <= 255 && |r.value.1| < |s|
  {
    if s == [] || s[0] != ',' then None else ParseUnsignedPrefix(s[1..], 255)
  }

  /** `cube`: three `u8` numbers separated by commas. */
  function ParseCube(s: string): (r: Option<(Cube, string)>)
  {
    match ParseUnsignedPrefix(s, 255)
    case None => None
    case Some((x, r1)) =>
      match ParseCommaByte(r1)
      case None => None
      case Some((y, r2)) =>
        match ParseCommaByte(r2)
        case None => None
        case Some((z, tail)) => Some((Cube(x, y, z), tail))
  }

  lemma ParseCommaByteShow(v: Byte, rest: string)
    requires rest == [] || !IsDigit(rest[0])
    ensures ParseCommaByte("," + ShowNat(v) + rest) == Some((v, rest))
  {
    assert ("," + ShowNat(v) + rest)[1..] == ShowNat(v) + rest;
    ParseUnsignedShow(v, rest, 255);
  }

  function ShowCube(c: Cube): string
  {
    ShowNat(c.x) + "," + ShowNat(c.y) + "," + ShowNat(c.z)
  }

  /** A printed cube parses back, leaving what followed it. */
  lemma ParseShowCube(c: Cube, rest: string)
    requires rest == [] || !IsDigit(rest[0])
    ensures ParseCube(ShowCube(c) + rest) == Some((c, rest))
  {
    var tz := "," + ShowNat(c.z) + rest;
    var ty := "," + ShowNat(c.y) + tz;
    assert ShowCube(c) + rest == ShowNat(c.x) + ty;
    ParseUnsignedShow(c.x, ty, 255);
    ParseCommaByteShow(c.y, tz);
    ParseCommaByteShow(c.z, rest);
  }

  /** The `parse_cube` example. */
  lemma ExampleParse()
    ensures ParseCube("1,2,3") == Some((Cube(1, 2, 3), ""))
  {
    assert ShowCube(Cube(1, 2, 3)) + "" == "1,2,3";
    ParseShowCube(Cube(1, 2, 3), "");
  }
}
