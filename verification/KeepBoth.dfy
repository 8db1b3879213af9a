/** Finder-style numbering of a name that is already taken, and its mirror in the user interface. */
module KeepBoth {
  import opened GoText
  import Decimal
  import FiniteSets

  datatype Parts = Parts(base: string, ext: string)

  function SlashOf(path: string): int {
    LastIndex(path, '/')
  }

  /** The directory part with its slash, and the file name. */
  function DirOf(path: string): string {
    path[..SlashOf(path) + 1]
  }

  function FileOf(path: string): string {
    if SlashOf(path) >= 0 then path[SlashOf(path) + 1..] else path
  }

  /** The last dot of the file name. */
  function DotOf(path: string): (dot: int)
    ensures -1 <= dot < |FileOf(path)|
  {
    LastIndex(FileOf(path), '.')
  }

  /** Stem and extension of a path made of a leading part and a file name whose last dot is known: the split is at
      that dot, unless the name starts with it. */
  function SplitAt(path: string, lead: string, file: string, dot: int): Parts
    requires -1 <= dot < |file|
  {
    if dot > 0 then Parts(lead + file[..dot], file[dot..]) else Parts(path, "")
  }

  /** The leading part in KeepBothName. */
  function Lead(path: string, slash: int): string
    requires -1 <= slash < |path|
  {
    if slash >= 0 then path[..slash] + "/" else ""
  }

  /** The leading part in keepBothName: an empty directory is dropped together with its slash. */
  function LeadTs(path: string, slash: int): string
    requires -1 <= slash < |path|
  {
    if slash > 0 then path[..slash] + "/" else ""
  }

  function Split(path: string): Parts {
    SplitAt(path, Lead(path, SlashOf(path)), FileOf(path), DotOf(path))
  }

  function SplitTs(path: string): Parts {
    SplitAt(path, LeadTs(path, SlashOf(path)), FileOf(path), DotOf(path))
  }

  function Numbered(p: Parts, i: nat): string {
    p.base + " (" + Decimal.Format(i) + ")" + p.ext
  }

  lemma NumberedIsInjective(p: Parts, i: nat, j: nat)
    requires Numbered(p, i) == Numbered(p, j)
    ensures i == j
  {
    var a, b := Numbered(p, i), Numbered(p, j);
    var fi, fj := Decimal.Format(i), Decimal.Format(j);
    assert |fi| == |fj|;
    var k := |p.base| + 2;
    assert a[k..k + |fi|] == fi && b[k..k + |fj|] == fj;
    Decimal.FormatIsInjective(i, j);
  }

  /** The taken candidates numbered i or more. */
  ghost function Ahead(p: Parts, existing: set<string>, i: nat): set<string> {
    set c | c in existing && IsNumberedFrom(p, i, c)
  }

  ghost predicate IsNumberedFrom(p: Parts, i: nat, c: string) {
    exists j: nat :: i <= j && Numbered(p, j) == c
  }

  lemma AheadShrinks(p: Parts, existing: set<string>, i: nat)
    requires Numbered(p, i) in existing
    ensures Ahead(p, existing, i + 1) < Ahead(p, existing, i)
  {
    var c := Numbered(p, i);
    assert IsNumberedFrom(p, i, c);
    if IsNumberedFrom(p, i + 1, c) {
      var j: nat :| i + 1 <= j && Numbered(p, j) == c;
      NumberedIsInjective(p, i, j);
    }
    forall d | d in Ahead(p, existing, i + 1) ensures d in Ahead(p, existing, i) {
      var j: nat :| i + 1 <= j && Numbered(p, j) == d;
      assert IsNumberedFrom(p, i, d);
    }
    assert c in Ahead(p, existing, i) && c !in Ahead(p, existing, i + 1);
  }

  /** The first number from i on whose candidate is free. It exists because numbers give different candidates and
      only finitely many are taken. */
  ghost function FirstFree(p: Parts, existing: set<string>, i: nat): nat
    decreases Ahead(p, existing, i)
  {
    if Numbered(p, i) !in existing then i
    else
      AheadShrinks(p, existing, i);
      FirstFree(p, existing, i + 1)
  }

  lemma {:induction false} FirstFreeIsSmallest(p: Parts, existing: set<string>, i: nat)
    ensures var k := FirstFree(p, existing, i);
      && i <= k && Numbered(p, k) !in existing
      && forall j :: i <= j < k ==> Numbered(p, j) in existing
    decreases Ahead(p, existing, i)
  {
    if Numbered(p, i) in existing {
      AheadShrinks(p, existing, i);
      FirstFreeIsSmallest(p, existing, i + 1);
    }
  }

  method KeepBothName(path: string, existing: set<string>) returns (name: string)
    ensures name == if path !in existing then path else Numbered(Split(path), FirstFree(Split(path), existing, 2))
    ensures name !in existing
  {
    if path !in existing {
      return path;
    }
    var p := Split(path);
    name := Probe(p, existing);
  }

  /** The mirror in the user interface. */
  method KeepBothNameTs(path: string, existing: set<string>) returns (name: string)
    ensures name == if path !in existing then path else Numbered(SplitTs(path), FirstFree(SplitTs(path), existing, 2))
    ensures name !in existing
  {
    if path !in existing {
      return path;
    }
    var p := SplitTs(path);
    name := Probe(p, existing);
  }

  /** The loop of both: try (2), (3), ... until one is free. It ends because the taken candidates ahead run out. */
  method Probe(p: Parts, existing: set<string>) returns (name: string)
    ensures name == Numbered(p, FirstFree(p, existing, 2)) && name !in existing
  {
    var i: nat := 2;
    while Numbered(p, i) in existing
      invariant FirstFree(p, existing, i) == FirstFree(p, existing, 2)
      decreases Ahead(p, existing, i)
    {
      AheadShrinks(p, existing, i);
      i := i + 1;
    }
    name := Numbered(p, i);
  }

  // ---------------------------------------------------------------- how long it probes

  function Probed(p: Parts, k: nat): set<string>
    requires k >= 2
  {
    if k == 2 then {} else Probed(p, k - 1) + {Numbered(p, k - 1)}
  }

  /** c is one of the candidates numbered 2, .., k - 1. */
  ghost predicate NumberedBelow(p: Parts, k: nat, c: string) {
    exists j: nat :: 2 <= j < k && Numbered(p, j) == c
  }

  lemma NextIsNew(p: Parts, k: nat)
    ensures !NumberedBelow(p, k, Numbered(p, k))
  {
    forall j: nat | 2 <= j < k ensures Numbered(p, j) != Numbered(p, k) {
      if Numbered(p, j) == Numbered(p, k) {
        NumberedIsInjective(p, j, k);
      }
    }
  }

  lemma BelowGrows(p: Parts, k: nat, c: string)
    requires NumberedBelow(p, k, c)
    ensures NumberedBelow(p, k + 1, c)
  {
    var j: nat :| 2 <= j < k && Numbered(p, j) == c;
    assert 2 <= j < k + 1 && Numbered(p, j) == c;
  }

  lemma {:induction false} ProbedCount(p: Parts, k: nat)
    requires k >= 2
    ensures |Probed(p, k)| == k - 2
    ensures forall c :: c in Probed(p, k) ==> NumberedBelow(p, k, c)
  {
    if k > 2 {
      ProbedCount(p, k - 1);
      NextIsNew(p, k - 1);
      forall c | c in Probed(p, k) ensures NumberedBelow(p, k, c) {
        if c in Probed(p, k - 1) {
          BelowGrows(p, k - 1, c);
        }
      }
    }
  }

  lemma LeadEndsInSlash(path: string, slash: int)
    requires -1 <= slash < |path| && (slash >= 0 ==> path[slash] == '/')
    ensures Lead(path, slash) == path[..slash + 1]
  {
  }

  lemma LeadIsDir(path: string)
    ensures Lead(path, SlashOf(path)) == DirOf(path) && path == DirOf(path) + FileOf(path) && '/' !in FileOf(path)
  {
    LeadEndsInSlash(path, SlashOf(path));
  }

  lemma SplitLength(path: string, lead: string, file: string, dot: int)
    requires -1 <= dot < |file| && |lead| + |file| == |path|
    ensures |SplitAt(path, lead, file, dot).base| + |SplitAt(path, lead, file, dot).ext| == |path|
  {
  }

  lemma ProbedAreTaken(p: Parts, existing: set<string>, k: nat)
    requires k >= 2 && forall j :: 2 <= j < k ==> Numbered(p, j) in existing
    ensures Probed(p, k) <= existing
  {
    ProbedCount(p, k);
    forall c | c in Probed(p, k) ensures c in existing {
      assert NumberedBelow(p, k, c);
    }
  }

  lemma ProbedAreLonger(p: Parts, path: string, k: nat)
    requires k >= 2 && |p.base| + |p.ext| == |path|
    ensures path !in Probed(p, k)
  {
    ProbedCount(p, k);
    forall c | c in Probed(p, k) ensures |c| > |path| {
      assert NumberedBelow(p, k, c);
    }
  }

  /** By pigeonhole, no more probes fail than there are other names in the directory. */
  lemma ProbesAreBounded(path: string, existing: set<string>)
    requires path in existing
    ensures FirstFree(Split(path), existing, 2) <= |existing| + 1
  {
    var p := Split(path);
    LeadIsDir(path);
    SplitLength(path, DirOf(path), FileOf(path), DotOf(path));
    BoundedFrom(p, path, existing);
  }

  lemma BoundedFrom(p: Parts, path: string, existing: set<string>)
    requires path in existing && |p.base| + |p.ext| == |path|
    ensures FirstFree(p, existing, 2) <= |existing| + 1
  {
    var k := FirstFree(p, existing, 2);
    FirstFreeIsSmallest(p, existing, 2);
    ProbedCount(p, k);
    ProbedAreTaken(p, existing, k);
    ProbedAreLonger(p, path, k);
    FiniteSets.SubsetIsNoLarger(Probed(p, k), existing - {path});
  }

  // ---------------------------------------------------------------- what the new name looks like

  lemma FormatIsPlain(i: nat)
    ensures '/' !in Decimal.Format(i) && '.' !in Decimal.Format(i)
  {
    assert Decimal.AllDigits(Decimal.Format(i));
  }

  /** The file name with a mark put in front of its extension. */
  function Marked(file: string, dot: int, mark: string): string
    requires -1 <= dot < |file|
  {
    if dot > 0 then file[..dot] + mark + file[dot..] else file + mark
  }

  function Shifted(dot: int, mark: string): int {
    if dot > 0 then dot + |mark| else dot
  }

  /** The last dot of the marked name is the one that starts the extension. */
  lemma MarkedDot(file: string, dot: int, mark: string)
    requires dot == LastIndex(file, '.') && '.' !in mark
    ensures LastIndex(Marked(file, dot, mark), '.') == Shifted(dot, mark)
  {
    if dot > 0 {
      var x, y := file[..dot] + mark, file[dot + 1..];
      assert Marked(file, dot, mark) == x + ['.'] + y;
      LastIndexOfJoin(x, '.', y);
    } else {
      LastIndexOfAppend(file, mark, '.');
    }
  }

  /** Marking a split path marks its file name and leaves the directory alone, and splitting it again finds the same
      extension. */
  lemma SplitOfMarked(dir: string, file: string, dot: int, mark: string)
    requires -1 <= dot < |file|
    ensures var p := SplitAt(dir + file, dir, file, dot); var f := Marked(file, dot, mark);
      && p.base + mark + p.ext == dir + f
      && -1 <= Shifted(dot, mark) < |f|
      && SplitAt(dir + f, dir, f, Shifted(dot, mark)) == Parts(p.base + mark, p.ext)
  {
    var f := Marked(file, dot, mark);
    if dot > 0 {
      var k := dot + |mark|;
      assert f[..k] == file[..dot] + mark && f[k..] == file[dot..];
      assert dir + (file[..dot] + mark) == dir + file[..dot] + mark;
      assert dir + (file[..dot] + mark + file[dot..]) == dir + file[..dot] + mark + file[dot..];
    } else {
      assert dir + file + mark + "" == dir + (file + mark);
      assert dir + file + mark == dir + (file + mark);
    }
  }

  /** A numbered candidate is in the same directory, keeps the extension, and only its stem is new. */
  lemma NumberedStaysInPlace(path: string, i: nat)
    ensures var p, q := Split(path), Split(Numbered(Split(path), i));
      && q.ext == p.ext && q.base == p.base + " (" + Decimal.Format(i) + ")"
      && DirOf(Numbered(p, i)) == DirOf(path)
  {
    var mark := " (" + Decimal.Format(i) + ")";
    FormatIsPlain(i);
    assert '/' !in mark && '.' !in mark;
    NumberedIsMarked(Split(path), i);
    MarkedStaysInPlace(path, mark);
  }

  lemma NumberedIsMarked(p: Parts, i: nat)
    ensures Numbered(p, i) == p.base + (" (" + Decimal.Format(i) + ")") + p.ext
    ensures p.base + (" (" + Decimal.Format(i) + ")") == p.base + " (" + Decimal.Format(i) + ")"
  {
  }

  lemma MarkedStaysInPlace(path: string, mark: string)
    requires '/' !in mark && '.' !in mark
    ensures var p := Split(path); var n := p.base + mark + p.ext;
      Split(n) == Parts(p.base + mark, p.ext) && DirOf(n) == DirOf(path)
  {
    var dir, file, dot := DirOf(path), FileOf(path), DotOf(path);
    LeadIsDir(path);
    SplitOfMarked(dir, file, dot, mark);
    var f := Marked(file, dot, mark);
    MarkedDot(file, dot, mark);
    MarkedHasNoSlash(file, dot, mark);
    SlashOfJoin(dir, f, SlashOf(path));
    LeadIsDir(dir + f);
    DirAndFileOfJoin(dir, f, SlashOf(path));
  }

  lemma DirAndFileOfJoin(dir: string, f: string, idx: int)
    requires |dir| == idx + 1 && SlashOf(dir + f) == idx
    ensures DirOf(dir + f) == dir && FileOf(dir + f) == f
  {
    assert (dir + f)[..|dir|] == dir && (dir + f)[|dir|..] == f;
  }

  lemma MarkedHasNoSlash(file: string, dot: int, mark: string)
    requires '/' !in file && '/' !in mark && -1 <= dot < |file|
    ensures '/' !in Marked(file, dot, mark)
  {
  }

  lemma SlashOfJoin(dir: string, name: string, idx: int)
    requires |dir| == idx + 1 && '/' !in name && (idx >= 0 ==> dir[idx] == '/')
    ensures SlashOf(dir + name) == idx
  {
    LastIndexOfAppend(dir, name, '/');
  }

  // ---------------------------------------------------------------- the two implementations

  lemma LeadsAgreeExactly(path: string, slash: int)
    requires -1 <= slash < |path|
    ensures Lead(path, slash) == LeadTs(path, slash) <==> slash != 0
    ensures slash == 0 ==> Lead(path, slash) == "/" && LeadTs(path, slash) == ""
  {
    assert slash == 0 ==> path[..0] + "/" == "/";
  }

  /** Main result. The user interface predicts the name that the core picks, except exactly for a taken path in the
      root directory, spelled with its slash, that has an extension: there it loses the slash. */
  lemma NamesAgreeExactly(path: string, existing: set<string>)
    ensures
      var core := if path !in existing then path else Numbered(Split(path), FirstFree(Split(path), existing, 2));
      var ui := if path !in existing then path else Numbered(SplitTs(path), FirstFree(SplitTs(path), existing, 2));
      core == ui <==> !(path in existing && SlashOf(path) == 0 && DotOf(path) > 0)
  {
    LeadsAgreeExactly(path, SlashOf(path));
    if path in existing && SlashOf(path) == 0 && DotOf(path) > 0 {
      LeadIsDir(path);
      FirstOfNumbered(Split(path), FirstFree(Split(path), existing, 2));
      FirstOfNumbered(SplitTs(path), FirstFree(SplitTs(path), existing, 2));
      assert SplitTs(path).base == FileOf(path)[..DotOf(path)];
      assert SplitTs(path).base[0] in FileOf(path);
    }
  }

  lemma FirstOfNumbered(p: Parts, i: nat)
    requires p.base != ""
    ensures |Numbered(p, i)| > 0 && Numbered(p, i)[0] == p.base[0]
  {
  }

  // ---------------------------------------------------------------- ordinary names

  /** A directory with its slash, or nothing. */
  predicate IsDir(dir: string) {
    dir == "" || dir[|dir| - 1] == '/'
  }

  lemma FileOfJoin(dir: string, file: string)
    requires IsDir(dir) && '/' !in file
    ensures SlashOf(dir + file) == |dir| - 1 && FileOf(dir + file) == file
    ensures Lead(dir + file, SlashOf(dir + file)) == dir
  {
    var path := dir + file;
    LastIndexOfAppend(dir, file, '/');
    assert dir != "" ==> LastIndex(dir, '/') == |dir| - 1;
    assert path[|dir|..] == file;
    assert dir != "" ==> path[..|dir| - 1] + "/" == dir;
    assert dir == "" ==> path == file;
  }

  lemma DotOfName(file: string, stem: string, ext: string)
    requires '.' !in ext && file == stem + "." + ext
    ensures LastIndex(file, '.') == |stem| && file[..|stem|] == stem && file[|stem|..] == "." + ext
  {
    LastIndexOfJoin(stem, '.', ext);
    assert file == stem + ['.'] + ext;
  }

  lemma SplitOfFile(dir: string, file: string)
    requires IsDir(dir) && '/' !in file
    ensures Split(dir + file) == SplitAt(dir + file, dir, file, LastIndex(file, '.'))
  {
    FileOfJoin(dir, file);
  }

  /** The extension is what follows the last dot of the file name, unless the name starts with that dot. */
  lemma SplitOfName(dir: string, stem: string, ext: string, file: string)
    requires IsDir(dir) && '/' !in stem && '/' !in ext && '.' !in ext && file == stem + "." + ext
    ensures Split(dir + file) == if stem == "" then Parts(dir + file, "") else Parts(dir + stem, "." + ext)
  {
    SplitOfFile(dir, file);
    DotOfName(file, stem, ext);
  }

  lemma SplitOfPlainName(dir: string, file: string)
    requires IsDir(dir) && '/' !in file && '.' !in file
    ensures Split(dir + file) == Parts(dir + file, "")
  {
    SplitOfFile(dir, file);
  }

  /** So the number goes between stem and extension. */
  lemma NumberGoesBeforeExtension(dir: string, stem: string, ext: string, i: nat)
    requires IsDir(dir) && '/' !in stem && '/' !in ext && '.' !in ext && stem != ""
    ensures Numbered(Split(dir + (stem + "." + ext)), i) ==
            dir + stem + " (" + Decimal.Format(i) + ")" + ("." + ext)
  {
    SplitOfName(dir, stem, ext, stem + "." + ext);
  }
}
