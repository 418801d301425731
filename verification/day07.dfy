/**
 * Day 7, No Space Left On Device: a terminal session of `cd` and `ls` commands is
 * replayed into a table from directory path to the total size of the files listed
 * directly in it; a directory's total size adds up every stored path below it.
 */
module Day07 {
  import opened Wrappers
  import opened Text
  import opened Sums

  /** `s.starts_with(p)` */
  predicate IsPrefix(p: string, s: string)
  {
    |p| <= |s| && s[..|p|] == p
  }

  lemma PrefixTransitive(a: string, b: string, c: string)
    requires IsPrefix(a, b) && IsPrefix(b, c)
    ensures IsPrefix(a, c)
  {
    assert c[..|b|][..|a|] == c[..|a|];
  }

  /** A path as `build_path` writes them: starting and ending with a slash. */
  predicate IsPath(s: string)
  {
    |s| >= 1 && s[0] == '/' && s[|s| - 1] == '/'
  }

  /** `build_path`: "/" for the root, otherwise the names between slashes with a slash at both ends. */
  function BuildPath(parts: seq<string>): (r: string)
    ensures IsPath(r)
    ensures r == "/" <==> parts == []
  {
    if parts == [] then "/" else "/" + Join(parts, "/") + "/"
  }

  /** The path of a directory starts with the path of each directory above it. */
  lemma BuildPathExtends(a: seq<string>, b: seq<string>)
    ensures IsPrefix(BuildPath(a), BuildPath(a + b))
  {
    if a == [] {
      RootPrefix(BuildPath(a + b));
    } else if b == [] {
      assert a + b == a;
    } else {
      JoinedPrefix(a, b);
    }
  }

  lemma RootPrefix(p: string)
    requires IsPath(p)
    ensures IsPrefix("/", p)
  {
    assert p[..1] == [p[0]];
  }

  lemma JoinedPrefix(a: seq<string>, b: seq<string>)
    requires a != [] && b != []
    ensures IsPrefix(BuildPath(a), BuildPath(a + b))
  {
    JoinAppend(a, b, "/");
    var p := "/" + Join(a, "/") + "/";
    assert BuildPath(a + b) == p + (Join(b, "/") + "/");
    PrefixAppend(p, Join(b, "/") + "/");
  }

  lemma PrefixAppend(p: string, q: string)
    ensures IsPrefix(p, p + q)
  {
    assert (p + q)[..|p|] == p;
  }

  datatype Entry = Dir(name: string) | File(size: nat, name: string)
  datatype Command = Cd(target: string) | Ls(entries: seq<Entry>)

  /** The sum of the listed file sizes; directory entries add nothing. */
  function ListedSize(entries: seq<Entry>): nat
  {
    if entries == [] then 0
    else (if entries[0].File? then entries[0].size else 0) + ListedSize(entries[1..])
  }

  lemma {:induction false} ListedSizeAppend(a: seq<Entry>, b: seq<Entry>)
    ensures ListedSize(a + b) == ListedSize(a) + ListedSize(b)
  {
    if a == [] {
      assert a + b == b;
    } else {
      assert (a + b)[1..] == a[1..] + b;
      ListedSizeAppend(a[1..], b);
    }
  }

  /** A listing with a directory added has the same size, one with a file added grows by that file. */
  lemma ListedSizeEntry(entries: seq<Entry>, e: Entry)
    ensures ListedSize(entries + [e]) == ListedSize(entries) + if e.File? then e.size else 0
  {
    ListedSizeAppend(entries, [e]);
  }

  /** The `HashMap<String, u32>` of the source, as a list of path and size with each path once. */
  type FileSystem = seq<(string, nat)>

  predicate UniqueKeys(fs: FileSystem)
  {
    forall i, j :: 0 <= i < j < |fs| ==> fs[i].0 != fs[j].0
  }

  function Lookup(fs: FileSystem, key: string): (r: Option<nat>)
    ensures r.None? <==> forall i :: 0 <= i < |fs| ==> fs[i].0 != key
    ensures r.Some? ==> exists i :: 0 <= i < |fs| && fs[i] == (key, r.value)
  {
    if fs == [] then None
    else if fs[0].0 == key then Some(fs[0].1)
    else
      assert forall i :: 1 <= i < |fs| ==> fs[i] == fs[1..][i - 1];
      var r := Lookup(fs[1..], key);
      if r.Some? then
        var i :| 0 <= i < |fs[1..]| && fs[1..][i] == (key, r.value);
        assert fs[i + 1] == (key, r.value);
        r
      else r
  }

  /** `r` is `fs` with `key` set to `v`: unique keys, `key` holds `v`, every other path reads as
    * before, and no path appears that was neither in `fs` nor `key`. */
  ghost predicate Inserted(fs: FileSystem, key: string, v: nat, r: FileSystem)
  {
    && UniqueKeys(r)
    && Lookup(r, key) == Some(v)
    && (forall k :: k != key ==> Lookup(r, k) == Lookup(fs, k))
    && (forall i :: 0 <= i < |r| ==> r[i].0 == key || exists j :: 0 <= j < |fs| && fs[j].0 == r[i].0)
  }

  /** `HashMap::insert`: the new size replaces any old one under that path. */
  function Insert(fs: FileSystem, key: string, v: nat): (r: FileSystem)
    requires UniqueKeys(fs)
    ensures Inserted(fs, key, v, r)
  {
    if fs == [] then [(key, v)]
    else if fs[0].0 == key then
      InsertReplaces(fs, key, v);
      [(key, v)] + fs[1..]
    else
      var rest := Insert(fs[1..], key, v);
      InsertKeeps(fs, key, v, rest);
      [fs[0]] + rest
  }

  lemma InsertReplaces(fs: FileSystem, key: string, v: nat)
    requires UniqueKeys(fs) && fs != [] && fs[0].0 == key
    ensures Inserted(fs, key, v, [(key, v)] + fs[1..])
  {
    assert forall i :: 1 <= i < |fs| ==> fs[i].0 != key;
  }

  lemma InsertKeeps(fs: FileSystem, key: string, v: nat, rest: FileSystem)
    requires UniqueKeys(fs) && fs != [] && fs[0].0 != key
    requires Inserted(fs[1..], key, v, rest)
    ensures Inserted(fs, key, v, [fs[0]] + rest)
  {
    assert forall i :: 0 <= i < |rest| ==> rest[i].0 != fs[0].0 by {
      forall i | 0 <= i < |rest|
        ensures rest[i].0 != fs[0].0
      {
        if rest[i].0 != key {
          var j :| 0 <= j < |fs[1..]| && fs[1..][j].0 == rest[i].0;
          assert fs[j + 1].0 == rest[i].0;
        }
      }
    }
    forall i | 1 <= i < |rest| + 1
      ensures ([fs[0]] + rest)[i].0 == key || exists j :: 0 <= j < |fs| && fs[j].0 == ([fs[0]] + rest)[i].0
    {
      if rest[i - 1].0 != key {
        var j :| 0 <= j < |fs[1..]| && fs[1..][j].0 == rest[i - 1].0;
        assert fs[j + 1].0 == rest[i - 1].0;
      }
    }
  }

  /** A path not stored yet is appended at the end. */
  lemma {:induction false} InsertAppends(fs: FileSystem, key: string, v: nat)
    requires UniqueKeys(fs) && Lookup(fs, key).None?
    ensures Insert(fs, key, v) == fs + [(key, v)]
  {
    if fs != [] {
      InsertAppends(fs[1..], key, v);
      assert [fs[0]] + (fs[1..] + [(key, v)]) == fs + [(key, v)];
    }
  }

  /** The state `build_fs` keeps between commands. */
  datatype Shell = Shell(fs: FileSystem, cwd: seq<string>)

  predicate WfShell(sh: Shell)
  {
    UniqueKeys(sh.fs) && forall i :: 0 <= i < |sh.fs| ==> IsPath(sh.fs[i].0)
  }

  /** One command of `build_fs`. */
  function Step(sh: Shell, cmd: Command): (r: Shell)
    requires WfShell(sh)
    ensures WfShell(r)
    ensures cmd.Cd? ==> r.fs == sh.fs
    ensures cmd.Ls? ==> r.cwd == sh.cwd && Lookup(r.fs, BuildPath(sh.cwd)) == Some(ListedSize(cmd.entries))
    ensures cmd.Ls? ==> forall k :: k != BuildPath(sh.cwd) ==> Lookup(r.fs, k) == Lookup(sh.fs, k)
  {
    match cmd
    case Cd(target) =>
      if target == "/" then sh.(cwd := [])
      else if target == ".." then sh.(cwd := if sh.cwd == [] then [] else sh.cwd[..|sh.cwd| - 1])
      else sh.(cwd := sh.cwd + [target])
    case Ls(entries) =>
      var r := Insert(sh.fs, BuildPath(sh.cwd), ListedSize(entries));
      forall i | 0 <= i < |r|
        ensures IsPath(r[i].0)
      {
        if r[i].0 != BuildPath(sh.cwd) {
          var j :| 0 <= j < |sh.fs| && sh.fs[j].0 == r[i].0;
        }
      }
      sh.(fs := r)
  }

  /** `cd /` goes to the root, and `cd ..` undoes `cd name`. */
  lemma CdMoves(sh: Shell, name: string)
    requires WfShell(sh) && name != "/" && name != ".."
    ensures Step(sh, Cd("/")).cwd == []
    ensures Step(Step(sh, Cd(name)), Cd("..")) == sh
  {
    assert (sh.cwd + [name])[..|sh.cwd|] == sh.cwd;
  }

  /** Listing a directory not listed before appends its size to the table. */
  lemma LsAppends(sh: Shell, entries: seq<Entry>)
    requires WfShell(sh) && Lookup(sh.fs, BuildPath(sh.cwd)).None?
    ensures Step(sh, Ls(entries)) == Shell(sh.fs + [(BuildPath(sh.cwd), ListedSize(entries))], sh.cwd)
  {
    InsertAppends(sh.fs, BuildPath(sh.cwd), ListedSize(entries));
  }

  function Run(sh: Shell, cmds: seq<Command>): (r: Shell)
    requires WfShell(sh)
    ensures WfShell(r)
    decreases |cmds|
  {
    if cmds == [] then sh else Run(Step(sh, cmds[0]), cmds[1..])
  }

  /** `build_fs`: the session replayed from the working directory `["/"]`. */
  function BuildFs(cmds: seq<Command>): (r: FileSystem)
    ensures UniqueKeys(r)
    ensures forall i :: 0 <= i < |r| ==> IsPath(r[i].0)
  {
    Run(Shell([], ["/"]), cmds).fs
  }

  /** The sizes stored at `key` or below it: the sum over all paths that start with `key`. */
  function DirTotal(fs: FileSystem, key: string): nat
  {
    if fs == [] then 0
    else (if IsPrefix(key, fs[0].0) then fs[0].1 else 0) + DirTotal(fs[1..], key)
  }

  /** A directory's total holds its own listed size. */
  lemma {:induction false} DirTotalSelf(fs: FileSystem, key: string)
    requires Lookup(fs, key).Some?
    ensures Lookup(fs, key).value <= DirTotal(fs, key)
  {
    if fs[0].0 != key {
      DirTotalSelf(fs[1..], key);
    }
  }

  /** A directory's total is at least the total of any directory below it. */
  lemma {:induction false} DirTotalMonotone(fs: FileSystem, outer: string, inner: string)
    requires IsPrefix(outer, inner)
    ensures DirTotal(fs, inner) <= DirTotal(fs, outer)
  {
    if fs != [] {
      DirTotalMonotone(fs[1..], outer, inner);
      if IsPrefix(inner, fs[0].0) {
        PrefixTransitive(outer, inner, fs[0].0);
      }
    }
  }

  /** The space in use: the sum of every stored size. */
  function Used(fs: FileSystem): nat
  {
    if fs == [] then 0 else fs[0].1 + Used(fs[1..])
  }

  /** The root's total is all the space in use. */
  lemma {:induction false} RootTotal(fs: FileSystem)
    requires forall i :: 0 <= i < |fs| ==> IsPath(fs[i].0)
    ensures DirTotal(fs, "/") == Used(fs)
  {
    if fs != [] {
      RootTotal(fs[1..]);
      assert fs[0].0[..1] == "/";
    }
  }

  /** The totals of the directories in `keys` that pass `keep`, in order. */
  function TotalsWhere(fs: FileSystem, keys: FileSystem, keep: nat -> bool): (r: seq<nat>)
    ensures forall i :: 0 <= i < |r| ==> keep(r[i]) && exists j :: 0 <= j < |keys| && r[i] == DirTotal(fs, keys[j].0)
    ensures forall j :: 0 <= j < |keys| && keep(DirTotal(fs, keys[j].0)) ==> DirTotal(fs, keys[j].0) in r
  {
    if keys == [] then []
    else
      var t := DirTotal(fs, keys[0].0);
      var rest := TotalsWhere(fs, keys[1..], keep);
      assert forall j :: 1 <= j < |keys| ==> keys[j] == keys[1..][j - 1];
      var r := if keep(t) then [t] + rest else rest;
      forall i | 0 <= i < |r|
        ensures exists j :: 0 <= j < |keys| && r[i] == DirTotal(fs, keys[j].0)
      {
        if !(keep(t) && i == 0) {
          var ri := if keep(t) then i - 1 else i;
          var j :| 0 <= j < |keys[1..]| && rest[ri] == DirTotal(fs, keys[1..][j].0);
          assert keys[j + 1] == keys[1..][j];
        }
      }
      r
  }

  /** `filter_dir_size`: the total of every stored directory, kept when it passes `keep`. */
  function FilterDirSize(fs: FileSystem, keep: nat -> bool): (r: seq<nat>)
    ensures forall x :: x in r ==> keep(x) && exists j :: 0 <= j < |fs| && x == DirTotal(fs, fs[j].0)
    ensures forall j :: 0 <= j < |fs| && keep(DirTotal(fs, fs[j].0)) ==> DirTotal(fs, fs[j].0) in r
  {
    TotalsWhere(fs, fs, keep)
  }

  /** The directory total at `key` when it passes `keep`, else nothing. */
  function KeptTotal(fs: FileSystem, keep: nat -> bool, key: string): nat
  {
    var t := DirTotal(fs, key);
    if keep(t) then t else 0
  }

  /** Over every directory in `keys`, the sum of the totals that pass `keep`. */
  function KeptSum(fs: FileSystem, keys: FileSystem, keep: nat -> bool): nat
  {
    if keys == [] then 0 else KeptTotal(fs, keep, keys[0].0) + KeptSum(fs, keys[1..], keep)
  }

  /** Adding up what `TotalsWhere` keeps is adding up the kept totals. */
  lemma {:induction false} TotalsWhereSum(fs: FileSystem, keys: FileSystem, keep: nat -> bool)
    ensures Sum(TotalsWhere(fs, keys, keep)) == KeptSum(fs, keys, keep)
  {
    if keys != [] {
      var t := DirTotal(fs, keys[0].0);
      var rest := TotalsWhere(fs, keys[1..], keep);
      TotalsWhereSum(fs, keys[1..], keep);
      assert ([t] + rest)[1..] == rest;
    }
  }

  /** The part 1 threshold: a directory of at most 100000. */
  predicate Small(x: nat)
  {
    x <= 100000
  }

  /** `solve_part1`: the sum, over every directory, of its total when that is at most 100000. */
  function SolvePart1(fs: FileSystem): (r: int)
    ensures r == KeptSum(fs, fs, Small)
  {
    TotalsWhereSum(fs, fs, Small);
    Sum(FilterDirSize(fs, Small))
  }

  /** `DirTotal` as a sum of one term per stored directory. */
  function PrefixSize(key: string): ((string, nat)) -> int
  {
    (e: (string, nat)) => if IsPrefix(key, e.0) then e.1 else 0
  }

  lemma {:induction false} DirTotalSumOf(fs: FileSystem, key: string)
    ensures DirTotal(fs, key) == SumOf(PrefixSize(key), fs)
  {
    if fs != [] {
      DirTotalSumOf(fs[1..], key);
    }
  }

  /** A directory total does not depend on the order the map holds its entries in. */
  lemma DirTotalPermutation(a: FileSystem, b: FileSystem, key: string)
    requires multiset(a) == multiset(b)
    ensures DirTotal(a, key) == DirTotal(b, key)
  {
    DirTotalSumOf(a, key);
    DirTotalSumOf(b, key);
    SumOfPermutation(PrefixSize(key), a, b);
  }

  /** The space in use is the total under the empty prefix, which every path starts with. */
  lemma {:induction false} UsedIsTotal(fs: FileSystem)
    ensures Used(fs) == DirTotal(fs, "")
  {
    if fs != [] {
      UsedIsTotal(fs[1..]);
      assert IsPrefix("", fs[0].0);
    }
  }

  /** `KeptSum` as a sum of one term per listed directory. */
  function KeptTerm(fs: FileSystem, keep: nat -> bool): ((string, nat)) -> int
  {
    (e: (string, nat)) => KeptTotal(fs, keep, e.0)
  }

  lemma {:induction false} KeptSumSumOf(fs: FileSystem, keys: FileSystem, keep: nat -> bool)
    ensures KeptSum(fs, keys, keep) == SumOf(KeptTerm(fs, keep), keys)
  {
    if keys != [] {
      KeptSumSumOf(fs, keys[1..], keep);
    }
  }

  /** Maps with the same directory totals keep the same sum. */
  lemma {:induction false} KeptSumSameTotals(a: FileSystem, b: FileSystem, keys: FileSystem, keep: nat -> bool)
    requires forall k :: DirTotal(a, k) == DirTotal(b, k)
    ensures KeptSum(a, keys, keep) == KeptSum(b, keys, keep)
  {
    if keys != [] {
      KeptSumSameTotals(a, b, keys[1..], keep);
    }
  }

  /** Part 1 does not depend on the `HashMap`'s iteration order. */
  lemma SolvePart1Permutation(a: FileSystem, b: FileSystem)
    requires multiset(a) == multiset(b)
    ensures SolvePart1(a) == SolvePart1(b)
  {
    forall k ensures DirTotal(a, k) == DirTotal(b, k) {
      DirTotalPermutation(a, b, k);
    }
    KeptSumSameTotals(a, b, a, Small);
    KeptSumSumOf(b, a, Small);
    KeptSumSumOf(b, b, Small);
    SumOfPermutation(KeptTerm(b, Small), a, b);
  }

  const DiskSpace: nat := 70000000
  const RequiredSpace: nat := 30000000

  /** The `u32` subtractions of `solve_part2` do not underflow: at most the disk is in use, and less than the required space is free. */
  predicate NeedsDeletion(fs: FileSystem)
  {
    Used(fs) <= DiskSpace && DiskSpace - Used(fs) <= RequiredSpace
  }

  /** How much has to be deleted so that the required space is free. */
  function MinDeleted(fs: FileSystem): nat
    requires NeedsDeletion(fs)
  {
    RequiredSpace - (DiskSpace - Used(fs))
  }

  /** `solve_part2`: the smallest directory total that frees enough space; none when no directory does (the `unwrap` panic). */
  function SolvePart2(fs: FileSystem): (r: Option<nat>)
    requires NeedsDeletion(fs)
    ensures r.None? <==> forall j :: 0 <= j < |fs| ==> DirTotal(fs, fs[j].0) < MinDeleted(fs)
    ensures r.Some? ==> MinDeleted(fs) <= r.value && exists j :: 0 <= j < |fs| && r.value == DirTotal(fs, fs[j].0)
    ensures r.Some? ==> forall j :: 0 <= j < |fs| && MinDeleted(fs) <= DirTotal(fs, fs[j].0) ==> r.value <= DirTotal(fs, fs[j].0)
  {
    var need := MinDeleted(fs);
    var big := FilterDirSize(fs, (x: nat) => x >= need);
    if big == [] then None
    else
      var m := Min(big).value;
      assert m in big;
      forall j | 0 <= j < |fs| && need <= DirTotal(fs, fs[j].0)
        ensures m <= DirTotal(fs, fs[j].0)
      {
        var x := DirTotal(fs, fs[j].0);
        assert x in big;
        var i :| 0 <= i < |big| && big[i] == x;
      }
      Some(m)
  }

  /** For `a` a reordering of `b`, an answer for `b` gives one for `a`, no larger. */
  lemma Part2Transfer(a: FileSystem, b: FileSystem)
    requires multiset(a) == multiset(b)
    requires NeedsDeletion(a) && NeedsDeletion(b) && Used(a) == Used(b)
    ensures SolvePart2(b).Some? ==> SolvePart2(a).Some? && SolvePart2(a).value <= SolvePart2(b).value
  {
    if SolvePart2(b).Some? {
      var i :| 0 <= i < |b| && SolvePart2(b).value == DirTotal(b, b[i].0);
      assert b[i] in multiset(a);
      var j :| 0 <= j < |a| && a[j] == b[i];
      DirTotalPermutation(a, b, b[i].0);
    }
  }

  /** Part 2 does not depend on the `HashMap`'s iteration order either. */
  lemma SolvePart2Permutation(a: FileSystem, b: FileSystem)
    requires multiset(a) == multiset(b) && NeedsDeletion(a)
    ensures NeedsDeletion(b) && SolvePart2(a) == SolvePart2(b)
  {
    UsedIsTotal(a);
    UsedIsTotal(b);
    DirTotalPermutation(a, b, "");
    Part2Transfer(a, b);
    Part2Transfer(b, a);
  }

  /** Once the root has been listed, deleting the root always frees enough, so part 2 has an answer. */
  lemma Part2HasAnswer(fs: FileSystem)
    requires NeedsDeletion(fs)
    requires forall i :: 0 <= i < |fs| ==> IsPath(fs[i].0)
    requires Lookup(fs, "/").Some?
    ensures SolvePart2(fs).Some?
  {
    RootTotal(fs);
    var j :| 0 <= j < |fs| && fs[j] == ("/", Lookup(fs, "/").value);
    assert DirTotal(fs, fs[j].0) == Used(fs) >= MinDeleted(fs);
  }

  /** The sizes listed directly in each directory of the example session. */
  const ExampleFs: FileSystem := [("/", 23352670), ("/a/", 94269), ("/a/e/", 584), ("/d/", 24933642)]

  lemma ExampleTotals()
    ensures DirTotal(ExampleFs, "/") == 48381165
    ensures DirTotal(ExampleFs, "/a/") == 94853
    ensures DirTotal(ExampleFs, "/a/e/") == 584
    ensures DirTotal(ExampleFs, "/d/") == 24933642
  {
    var fs: FileSystem := ExampleFs;
    assert |fs[1..][1..][1..][1..]| == 0;
    assert IsPrefix("/a/", "/a/e/") && !IsPrefix("/a/", "/");
    assert !IsPrefix("/a/", "/d/") by { assert "/d/"[..3][1] != "/a/"[1]; }
    assert !IsPrefix("/a/e/", "/") && !IsPrefix("/a/e/", "/a/") && !IsPrefix("/a/e/", "/d/");
    assert !IsPrefix("/d/", "/") && !IsPrefix("/d/", "/a/") && !IsPrefix("/d/", "/a/e/");
    RootTotal(fs);
  }

  /** Directories `a` and `e` are the small ones, 94853 + 584 = 95437. */
  lemma ExamplePart1()
    ensures SolvePart1(ExampleFs) == 95437
  {
    ExampleTotals();
    var fs: FileSystem := ExampleFs;
    assert |fs[1..][1..][1..][1..]| == 0;
    assert TotalsWhere(fs, fs[3..], Small) == [];
    assert TotalsWhere(fs, fs[2..], Small) == [584];
    assert TotalsWhere(fs, fs[1..], Small) == [94853, 584];
    assert FilterDirSize(fs, Small) == [94853, 584];
  }

  /** The example directories totalling at least 8381165: the root and `d`. */
  lemma ExampleBigDirs()
    ensures FilterDirSize(ExampleFs, (x: nat) => x >= 8381165) == [48381165, 24933642]
  {
    ExampleTotals();
    var fs: FileSystem := ExampleFs;
    var keep := (x: nat) => x >= 8381165;
    assert |fs[1..][1..][1..][1..]| == 0;
    assert TotalsWhere(fs, fs[3..], keep) == [24933642];
    assert TotalsWhere(fs, fs[2..], keep) == [24933642];
    assert TotalsWhere(fs, fs[1..], keep) == [24933642];
  }

  lemma ExampleUsed()
    ensures Used(ExampleFs) == 48381165
  {
    ExampleTotals();
    RootTotal(ExampleFs);
  }

  /** With 48381165 in use, 8381165 must go, and directory `d` is the smallest that frees that much. */
  lemma ExamplePart2()
    ensures NeedsDeletion(ExampleFs)
    ensures SolvePart2(ExampleFs) == Some(24933642)
  {
    ExampleUsed();
    assert MinDeleted(ExampleFs) == 8381165;
    ExampleBigDirs();
    assert Min([48381165, 24933642]) == Some(24933642);
  }

  /** The example terminal session. */
  const ExampleSession: seq<Command> := [
    Cd("/"), Ls([Dir("a"), File(14848514, "b.txt"), File(8504156, "c.dat"), Dir("d")]),
    Cd("a"), Ls([Dir("e"), File(29116, "f"), File(2557, "g"), File(62596, "h.lst")]),
    Cd("e"), Ls([File(584, "i")]),
    Cd(".."), Cd(".."), Cd("d"),
    Ls([File(4060174, "j"), File(8033020, "d.log"), File(5626152, "d.ext"), File(7214296, "k")])]

  /** The shell after each command of the example session. */
  const ExampleStates: seq<Shell> := [
    Shell([], ["/"]), Shell([], []), Shell([("/", 23352670)], []), Shell([("/", 23352670)], ["a"]),
    Shell([("/", 23352670), ("/a/", 94269)], ["a"]), Shell([("/", 23352670), ("/a/", 94269)], ["a", "e"]),
    Shell([("/", 23352670), ("/a/", 94269), ("/a/e/", 584)], ["a", "e"]),
    Shell([("/", 23352670), ("/a/", 94269), ("/a/e/", 584)], ["a"]),
    Shell([("/", 23352670), ("/a/", 94269), ("/a/e/", 584)], []),
    Shell([("/", 23352670), ("/a/", 94269), ("/a/e/", 584)], ["d"]),
    Shell(ExampleFs, ["d"])]

  lemma ExampleStatesWf()
    ensures forall i :: 0 <= i < |ExampleStates| ==> WfShell(ExampleStates[i])
  {
  }

  lemma ExampleCdRoot()
    ensures WfShell(ExampleStates[0]) && Step(ExampleStates[0], ExampleSession[0]) == ExampleStates[1]
  {
  }

  lemma ExampleCdA()
    ensures WfShell(ExampleStates[2]) && Step(ExampleStates[2], ExampleSession[2]) == ExampleStates[3]
  {
  }

  lemma ExampleCdE()
    ensures WfShell(ExampleStates[4]) && Step(ExampleStates[4], ExampleSession[4]) == ExampleStates[5]
  {
  }

  lemma ExampleCdUpE()
    ensures WfShell(ExampleStates[6]) && Step(ExampleStates[6], ExampleSession[6]) == ExampleStates[7]
  {
    assert ["a", "e"][..1] == ["a"];
  }

  lemma ExampleCdUpA()
    ensures WfShell(ExampleStates[7]) && Step(ExampleStates[7], ExampleSession[7]) == ExampleStates[8]
  {
  }

  lemma ExampleCdD()
    ensures WfShell(ExampleStates[8]) && Step(ExampleStates[8], ExampleSession[8]) == ExampleStates[9]
  {
  }

  /** The sizes `ls` reports in the example session, directory by directory. */
  lemma ExampleListedSizes()
    ensures ListedSize(ExampleSession[1].entries) == 23352670
    ensures ListedSize(ExampleSession[3].entries) == 94269
    ensures ListedSize(ExampleSession[5].entries) == 584
    ensures ListedSize(ExampleSession[9].entries) == 24933642
  {
    ListedFour(ExampleSession[1].entries);
    ListedFour(ExampleSession[3].entries);
    ListedFour(ExampleSession[9].entries);
  }

  lemma ListedFour(e: seq<Entry>)
    requires |e| == 4
    ensures ListedSize(e) == ListedSize([e[0]]) + ListedSize([e[1]]) + ListedSize([e[2]]) + ListedSize([e[3]])
  {
    assert e == [e[0]] + [e[1]] + [e[2]] + [e[3]];
    ListedSizeAppend([e[0]] + [e[1]] + [e[2]], [e[3]]);
    ListedSizeAppend([e[0]] + [e[1]], [e[2]]);
    ListedSizeAppend([e[0]], [e[1]]);
  }

  /** One `ls` of the example, from plain facts about the state before and after it. */
  lemma ExampleLs(sh: Shell, entries: seq<Entry>, path: string, size: nat, next: Shell)
    requires WfShell(sh) && BuildPath(sh.cwd) == path && Lookup(sh.fs, path).None?
    requires ListedSize(entries) == size
    requires next == Shell(sh.fs + [(path, size)], sh.cwd)
    ensures Step(sh, Ls(entries)) == next
  {
    LsAppends(sh, entries);
  }

  lemma ExampleBeforeRoot()
    ensures WfShell(ExampleStates[1]) && BuildPath(ExampleStates[1].cwd) == "/" && Lookup(ExampleStates[1].fs, "/").None?
  {
  }

  lemma ExampleAfterRoot()
    ensures ExampleStates[2] == Shell(ExampleStates[1].fs + [("/", 23352670)], ExampleStates[1].cwd)
  {
  }

  lemma ExampleLsRoot()
    ensures Step(ExampleStates[1], ExampleSession[1]) == ExampleStates[2]
  {
    ExampleBeforeRoot();
    ExampleAfterRoot();
    ExampleListedSizes();
    ExampleLs(ExampleStates[1], ExampleSession[1].entries, "/", 23352670, ExampleStates[2]);
  }

  lemma ExampleBeforeA()
    ensures WfShell(ExampleStates[3]) && BuildPath(ExampleStates[3].cwd) == "/a/" && Lookup(ExampleStates[3].fs, "/a/").None?
  {
    assert BuildPath(ExampleStates[3].cwd) == "/a/" by {
      assert ExampleStates[3].cwd == ["a"];
    }
  }

  lemma ExampleAfterA()
    ensures ExampleStates[4] == Shell(ExampleStates[3].fs + [("/a/", 94269)], ExampleStates[3].cwd)
  {
  }

  lemma ExampleLsA()
    ensures Step(ExampleStates[3], ExampleSession[3]) == ExampleStates[4]
  {
    ExampleBeforeA();
    ExampleAfterA();
    ExampleListedSizes();
    ExampleLs(ExampleStates[3], ExampleSession[3].entries, "/a/", 94269, ExampleStates[4]);
  }

  lemma ExampleBeforeE()
    ensures WfShell(ExampleStates[5]) && BuildPath(ExampleStates[5].cwd) == "/a/e/" && Lookup(ExampleStates[5].fs, "/a/e/").None?
  {
    assert BuildPath(ExampleStates[5].cwd) == "/a/e/" by {
      assert ExampleStates[5].cwd == ["a", "e"];
      assert ["a", "e"][1..] == ["e"];
    }
  }

  lemma ExampleAfterE()
    ensures ExampleStates[6] == Shell(ExampleStates[5].fs + [("/a/e/", 584)], ExampleStates[5].cwd)
  {
  }

  lemma ExampleLsE()
    ensures Step(ExampleStates[5], ExampleSession[5]) == ExampleStates[6]
  {
    ExampleBeforeE();
    ExampleAfterE();
    ExampleListedSizes();
    ExampleLs(ExampleStates[5], ExampleSession[5].entries, "/a/e/", 584, ExampleStates[6]);
  }

  lemma ExampleBeforeD()
    ensures WfShell(ExampleStates[9]) && BuildPath(ExampleStates[9].cwd) == "/d/" && Lookup(ExampleStates[9].fs, "/d/").None?
  {
    assert BuildPath(ExampleStates[9].cwd) == "/d/" by {
      assert ExampleStates[9].cwd == ["d"];
    }
  }

  lemma ExampleAfterD()
    ensures ExampleStates[10] == Shell(ExampleStates[9].fs + [("/d/", 24933642)], ExampleStates[9].cwd)
  {
  }

  lemma ExampleLsD()
    ensures Step(ExampleStates[9], ExampleSession[9]) == ExampleStates[10]
  {
    ExampleBeforeD();
    ExampleAfterD();
    ExampleListedSizes();
    ExampleLs(ExampleStates[9], ExampleSession[9].entries, "/d/", 24933642, ExampleStates[10]);
  }

  /** One replayed command: if command `i` takes state `i` to state `i + 1`, replaying from `i` ends where replaying from `i + 1` does. */
  lemma ExampleRunFrom(i: nat)
    requires i < |ExampleSession| == 10
    requires WfShell(ExampleStates[i]) && WfShell(ExampleStates[i + 1])
    requires Step(ExampleStates[i], ExampleSession[i]) == ExampleStates[i + 1]
    requires Run(ExampleStates[i + 1], ExampleSession[i + 1..]) == ExampleStates[10]
    ensures Run(ExampleStates[i], ExampleSession[i..]) == ExampleStates[10]
  {
    assert ExampleSession[i..][1..] == ExampleSession[i + 1..];
  }

  /** The second half of the example session, from `cd e` on. */
  lemma ExampleReplayTail()
    ensures WfShell(ExampleStates[4]) && Run(ExampleStates[4], ExampleSession[4..]) == ExampleStates[10]
  {
    ExampleStatesWf();
    assert Run(ExampleStates[10], ExampleSession[10..]) == ExampleStates[10];
    ExampleLsD();
    ExampleRunFrom(9);
    ExampleCdD();
    ExampleRunFrom(8);
    ExampleCdUpA();
    ExampleRunFrom(7);
    ExampleCdUpE();
    ExampleRunFrom(6);
    ExampleLsE();
    ExampleRunFrom(5);
    ExampleCdE();
    ExampleRunFrom(4);
  }

  /** The first half of the example session, up to `cd e`. */
  lemma ExampleReplayHead()
    ensures WfShell(ExampleStates[2]) && Run(ExampleStates[2], ExampleSession[2..]) == ExampleStates[10]
  {
    ExampleStatesWf();
    ExampleReplayTail();
    ExampleLsA();
    ExampleRunFrom(3);
    ExampleCdA();
    ExampleRunFrom(2);
  }

  lemma ExampleBuild()
    ensures BuildFs(ExampleSession) == ExampleFs
  {
    var c, st := ExampleSession, ExampleStates;
    ExampleStatesWf();
    ExampleReplayHead();
    assert Run(st[1], c[1..]) == st[10] by {
      ExampleLsRoot();
      assert c[1..][1..] == c[2..];
    }
    assert Run(st[0], c[0..]) == st[10] by {
      ExampleCdRoot();
      assert c[0..][1..] == c[1..];
    }
  }
}
