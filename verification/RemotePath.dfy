/** SanitizeFilePath: which relative paths may be sent to the phone, and how validity passes from a
    folder to its entries. */
module RemotePath {
  import opened Options
  import opened GoText

  const MAX_PATH_LEN := 1024
  const MAX_NAME_LEN := 255

  // ---------------------------------------------------------------- filepath.Clean on relative paths

  /** strings.Split(s, "/") */
  function Split(s: string): (parts: seq<string>)
    ensures parts != []
    decreases |s|
  {
    var i := LastIndex(s, '/');
    if i < 0 then [s] else Split(s[..i]) + [s[i + 1..]]
  }

  /** One path element against the elements kept so far: "" and "." vanish, ".." takes back the element
      before it unless there is none to take. */
  function Step(kept: seq<string>, part: string): seq<string> {
    if part == "" || part == "." then kept
    else if part == ".." && kept != [] && kept[|kept| - 1] != ".." then kept[..|kept| - 1]
    else kept + [part]
  }

  function Reduce(parts: seq<string>): seq<string> {
    if parts == [] then [] else Step(Reduce(parts[..|parts| - 1]), parts[|parts| - 1])
  }

  function Join(parts: seq<string>): string {
    if parts == [] then "."
    else if |parts| == 1 then parts[0]
    else Join(parts[..|parts| - 1]) + "/" + parts[|parts| - 1]
  }

  // ---------------------------------------------------------------- the sanitizer

  predicate PlainChar(c: char) {
    c >= ' ' && c != '\U{7F}' && c != '\\'
  }

  /** No NUL or control byte, no backslash. */
  predicate Plain(s: string) {
    forall i :: 0 <= i < |s| ==> PlainChar(s[i])
  }

  predicate GoodPart(p: string) {
    p != "" && p != "." && p != ".." && |p| <= MAX_NAME_LEN && Plain(p)
  }

  /** The cleaned elements: empty (the root), or not leading out of it and each acceptable. */
  predicate GoodParts(parts: seq<string>) {
    parts == [] || (!HasPrefix(parts[0], "..") && forall i :: 0 <= i < |parts| ==> GoodPart(parts[i]))
  }

  /** The checks made on the trimmed text before it is cleaned. */
  predicate GoodText(t: string) {
    |t| <= MAX_PATH_LEN && Plain(t) && (t != "" ==> t[0] != '/')
  }

  /** SanitizeFilePath: the cleaned path ("" is the root), or nothing when the path is refused. */
  function Sanitize(s: string): Option<string> {
    var t := TrimSpace(s);
    if t == "" then Some("")
    else if !GoodText(t) then None
    else
      var parts := Reduce(Split(t));
      if parts == [] then Some("")
      else if !GoodParts(parts) then None
      else Some(Join(parts))
  }

  predicate Valid(s: string) {
    Sanitize(s).Some?
  }

  // ---------------------------------------------------------------- trimming a joined path

  lemma {:induction false} TrimLeftOfJoin(p: string, s: string)
    requires s != "" && s[0] == '/'
    ensures TrimLeft(p + s) == TrimLeft(p) + s
    decreases |p|
  {
    LeadingSpaceOfJoin(p, s);
    var n := LeadingSpace(p);
    if n != 0 {
      assert (p + s)[n..] == p[n..] + s;
      TrimLeftOfJoin(p[n..], s);
    }
  }

  lemma LeadingSpaceOfJoin(p: string, s: string)
    requires s != "" && s[0] == '/'
    ensures LeadingSpace(p + s) == LeadingSpace(p)
  {
    var j := p + s;
    assert forall i :: 0 <= i < |p| ==> j[i] == p[i];
    assert j[|p|] == '/';
  }

  lemma {:induction false} TrimRightOfJoin(p: string, name: string)
    ensures TrimRight(p + "/" + name) == p + "/" + TrimRight(name)
    decreases |name|
  {
    TrailingSpaceOfJoin(p, name);
    var n := TrailingSpace(name);
    if n != 0 {
      var j := p + "/" + name;
      assert j[..|j| - n] == p + "/" + name[..|name| - n];
      TrimRightOfJoin(p, name[..|name| - n]);
    }
  }

  lemma TrailingSpaceOfJoin(p: string, name: string)
    ensures TrailingSpace(p + "/" + name) == TrailingSpace(name)
  {
    var j := p + "/" + name;
    assert forall i :: 0 <= i < |name| ==> j[|p| + 1 + i] == name[i];
    assert j[|p|] == '/';
  }

  /** What trimming takes off the back is free of slashes and does not end in a dot. */
  lemma {:induction false} TrimmedTail(s: string)
    ensures forall i :: |TrimRight(s)| <= i < |s| ==> s[i] != '/'
    ensures |TrimRight(s)| < |s| ==> s[|s| - 1] != '.'
    decreases |s|
  {
    var n := TrailingSpace(s);
    if n != 0 {
      var front := s[..|s| - n];
      TrimmedTail(front);
      forall i | |TrimRight(s)| <= i < |s| ensures s[i] != '/' {
        assert i < |front| ==> s[i] == front[i];
      }
    }
  }

  // ---------------------------------------------------------------- elements of a joined path

  lemma SplitOfJoin(p: string, name: string)
    requires '/' !in name
    ensures Split(p + "/" + name) == Split(p) + [name]
  {
    LastIndexOfJoin(p, '/', name);
    var j := p + "/" + name;
    assert j == p + ['/'] + name;
    assert j[..|p|] == p && j[|p| + 1..] == name;
  }

  /** Appending text without slashes only lengthens the last element. */
  lemma SplitOfAppend(q: string, w: string)
    requires '/' !in w
    ensures var parts := Split(q); Split(q + w) == parts[..|parts| - 1] + [parts[|parts| - 1] + w]
  {
    var j := q + w;
    var i := LastIndex(q, '/');
    LastIndexOfAppend(q, w, '/');
    if i >= 0 {
      assert j[..i] == q[..i] && j[i + 1..] == q[i + 1..] + w;
    }
  }

  lemma ReduceSnoc(parts: seq<string>, part: string)
    ensures Reduce(parts + [part]) == Step(Reduce(parts), part)
  {
    var all := parts + [part];
    assert all[..|all| - 1] == parts;
  }

  lemma {:induction false} SplitIsPlain(s: string)
    requires Plain(s)
    ensures forall i :: 0 <= i < |Split(s)| ==> Plain(Split(s)[i])
    decreases |s|
  {
    var i := LastIndex(s, '/');
    if i >= 0 {
      SplitIsPlain(s[..i]);
    }
  }

  /** Elements in the middle of cleaning: no empty ones, and ".." only at the front. */
  ghost predicate Cleaned(kept: seq<string>) {
    && (forall i :: 0 <= i < |kept| ==> kept[i] != "" && kept[i] != "." && Plain(kept[i]))
    && (forall i, j :: 0 <= j <= i < |kept| && kept[i] == ".." ==> kept[j] == "..")
  }

  lemma {:induction false} ReduceIsCleaned(parts: seq<string>)
    requires forall i :: 0 <= i < |parts| ==> Plain(parts[i])
    ensures Cleaned(Reduce(parts))
  {
    if parts != [] {
      ReduceIsCleaned(parts[..|parts| - 1]);
    }
  }

  // ---------------------------------------------------------------- folders and their entries

  /** Lengthening the last element of a refused path leaves it refused. */
  lemma LongerStaysBad(kept: seq<string>, last: string, w: string)
    requires Cleaned(kept) && Plain(last) && !GoodParts(Step(kept, last))
    requires w != "" && w[|w| - 1] != '.'
    ensures Step(kept, last + w) == kept + [last + w] && !GoodParts(kept + [last + w])
  {
    var s := last + w;
    assert s[|s| - 1] == w[|w| - 1];
    var all := kept + [s];
    if kept != [] && HasPrefix(kept[0], "..") {
      assert all[0] == kept[0];
    } else if i :| 0 <= i < |kept| && !GoodPart(kept[i]) {
      assert all[i] == kept[i];
    } else {
      assert all[|kept|] == s;
      assert HasPrefix(last, "..") ==> HasPrefix(s, "..");
    }
  }

  /** So does going further down, by anything but "..". */
  lemma DeeperStaysBad(kept: seq<string>, part: string)
    requires !GoodParts(kept) && part != ".."
    ensures !GoodParts(Step(kept, part))
  {
    var all := kept + [part];
    assert all[0] == kept[0];
    if i :| 0 <= i < |kept| && !GoodPart(kept[i]) {
      assert all[i] == kept[i];
    }
  }

  lemma TrimOfJoin(p: string, name: string)
    ensures TrimSpace(p + "/" + name) == TrimLeft(p) + "/" + TrimRight(name)
  {
    assert p + "/" + name == p + ("/" + name);
    TrimLeftOfJoin(p, "/" + name);
    assert TrimLeft(p) + ("/" + name) == TrimLeft(p) + "/" + name;
    TrimRightOfJoin(TrimLeft(p), name);
  }

  /** Cleaning a folder path, and the same path with the white space that trimming took off its end. */
  lemma UntrimmedStaysBad(l: string)
    requires Plain(l) && !GoodParts(Reduce(Split(TrimRight(l))))
    ensures !GoodParts(Reduce(Split(l)))
  {
    var q := TrimRight(l);
    var w := l[|q|..];
    assert l == q + w;
    TrimmedTail(l);
    if w != "" {
      assert w[|w| - 1] == l[|l| - 1];
      assert '/' !in w;
      AppendStaysBad(q, w);
    }
  }

  lemma AppendStaysBad(q: string, w: string)
    requires Plain(q) && !GoodParts(Reduce(Split(q)))
    requires '/' !in w && w != "" && w[|w| - 1] != '.'
    ensures !GoodParts(Reduce(Split(q + w)))
  {
    var parts := Split(q);
    var front, last := parts[..|parts| - 1], parts[|parts| - 1];
    assert parts == front + [last];
    SplitIsPlain(q);
    ReduceIsCleaned(front);
    SplitOfAppend(q, w);
    ReduceSnoc(front, last);
    ReduceSnoc(front, last + w);
    LongerStaysBad(Reduce(front), last, w);
  }

  lemma FolderTextIsGood(l: string, n: string)
    requires GoodText(l + "/" + n)
    ensures GoodText(TrimRight(l)) && Plain(l)
  {
    var c := l + "/" + n;
    assert forall i :: 0 <= i < |l| ==> l[i] == c[i];
    assert l != "" ==> c[0] == l[0];
  }

  /** An entry of a refused folder is refused too, unless its name trims to "..". */
  lemma EntryOfRefusedFolder(p: string, name: string)
    requires '/' !in name && !Valid(p) && TrimRight(name) != ".."
    ensures !Valid(p + "/" + name)
  {
    var l, n := TrimLeft(p), TrimRight(name);
    TrimOfJoin(p, name);
    var c := l + "/" + n;
    if GoodText(c) {
      FolderTextIsGood(l, n);
      UntrimmedStaysBad(l);
      SplitOfJoin(l, n);
      ReduceSnoc(Split(l), n);
      DeeperStaysBad(Reduce(Split(l)), n);
    }
  }

  /** A folder name of 256 bytes, one more than the sanitizer allows. */
  function LongName(): (s: string)
    ensures |s| == MAX_NAME_LEN + 1 && '/' !in s && Plain(s)
  {
    seq(MAX_NAME_LEN + 1, _ => 'a')
  }

  lemma CleanOfTwo(a: string, b: string)
    requires '/' !in a && '/' !in b && a != "" && a != "." && a != ".." && b != "" && b != "." && b != ".."
    ensures Reduce(Split(a + "/" + b)) == [a, b]
  {
    SplitOfJoin(a, b);
    assert Split(a) == [a];
    ReduceSnoc([], a);
    assert [] + [a] == [a];
    ReduceSnoc([a], b);
  }

  /** The folder path of the counterexample: acceptable text, but its second element is too long. */
  lemma RefusedFolder(p: string, name: string)
    requires p == "t" + "/" + name && name == LongName()
    ensures !Valid(p) && Reduce(Split(p)) == ["t", name]
    ensures GoodText(p) && TrimLeft(p) == p
  {
    assert p[0] == 't' && p[|p| - 1] == 'a';
    TrimSpaceOfPlain(p);
    CleanOfTwo("t", name);
    assert !GoodPart(["t", name][1]);
  }

  lemma ParentOfTwo(p: string, a: string, b: string)
    requires Reduce(Split(p)) == [a, b] && b != ".."
    ensures Reduce(Split(p + "/" + "..")) == [a]
  {
    SplitOfJoin(p, "..");
    ReduceSnoc(Split(p), "..");
  }

  lemma StepUpText(p: string)
    requires GoodText(p) && p != "" && |p| + 3 <= MAX_PATH_LEN
    ensures GoodText(p + "/" + "..")
  {
    var c := p + "/" + "..";
    forall i | 0 <= i < |c| ensures PlainChar(c[i]) {
      assert i < |p| ==> c[i] == p[i];
    }
  }

  /** The exception is real: any name that trims to ".." is accepted inside a folder whose own name is too
      long, because cleaning cancels the folder's element before its length is looked at. */
  lemma DotDotEscapesRefusal(name: string)
    requires '/' !in name && TrimRight(name) == ".."
    ensures !Valid("t" + "/" + LongName()) && Valid("t" + "/" + LongName() + "/" + name)
  {
    var p := "t" + "/" + LongName();
    RefusedFolder(p, LongName());
    TrimOfJoin(p, name);
    StepUpText(p);
    ParentOfTwo(p, "t", LongName());
    SingleIsValid(p + "/" + name, p + "/" + "..", "t");
  }

  lemma SingleIsValid(s: string, t: string, a: string)
    requires TrimSpace(s) == t && t != "" && GoodText(t) && Reduce(Split(t)) == [a]
    requires GoodPart(a) && !HasPrefix(a, "..")
    ensures Valid(s)
  {
  }

  /** Exactly when a refused folder guarantees refused entries. */
  lemma RefusalPassesDownExactly(name: string)
    requires '/' !in name
    ensures (forall p: string :: !Valid(p) ==> !Valid(p + "/" + name)) <==> TrimRight(name) != ".."
  {
    if TrimRight(name) != ".." {
      forall p: string | !Valid(p) ensures !Valid(p + "/" + name) {
        EntryOfRefusedFolder(p, name);
      }
    } else {
      DotDotEscapesRefusal(name);
    }
  }
}
