/** What the path sanitizer yields: clean paths pass unchanged, every result is clean, and exactly when sanitizing a
    result once more changes it. */
module CleanPath {
  import opened Options
  import opened GoText
  import opened RemotePath

  // ---------------------------------------------------------------- splitting and joining

  ghost predicate NoSlashes(parts: seq<string>) {
    forall i :: 0 <= i < |parts| ==> '/' !in parts[i]
  }

  lemma {:induction false} JoinOfSplit(s: string)
    ensures Join(Split(s)) == s && NoSlashes(Split(s))
    decreases |s|
  {
    var i := LastIndex(s, '/');
    if i >= 0 {
      JoinOfSplit(s[..i]);
      var front, last := Split(s[..i]), s[i + 1..];
      assert (front + [last])[..|front|] == front;
      assert s == s[..i] + "/" + last;
    }
  }

  lemma JoinSnoc(parts: seq<string>, k: nat)
    requires 0 < k && k + 1 == |parts|
    ensures Join(parts) == Join(parts[..k]) + "/" + parts[k]
  {
  }

  lemma {:induction false} SplitOfJoined(parts: seq<string>)
    requires parts != [] && NoSlashes(parts)
    ensures Split(Join(parts)) == parts
  {
    var k := |parts| - 1;
    if k > 0 {
      SplitOfJoined(parts[..k]);
      JoinSnoc(parts, k);
      SplitOfJoin(Join(parts[..k]), parts[k]);
      assert parts == parts[..k] + [parts[k]];
    } else {
      assert parts == [parts[0]];
    }
  }

  /** Elements that mean themselves are all kept. */
  lemma {:induction false} ReduceKeeps(parts: seq<string>)
    requires forall i :: 0 <= i < |parts| ==> parts[i] != "" && parts[i] != "." && parts[i] != ".."
    ensures Reduce(parts) == parts
  {
    if parts != [] {
      var k := |parts| - 1;
      ReduceKeeps(parts[..k]);
      ReduceSnoc(parts[..k], parts[k]);
      assert parts == parts[..k] + [parts[k]];
    }
  }

  lemma {:induction false} ReducedHasNoSlash(parts: seq<string>)
    requires NoSlashes(parts)
    ensures NoSlashes(Reduce(parts))
  {
    if parts != [] {
      ReducedHasNoSlash(parts[..|parts| - 1]);
    }
  }

  /** The bytes of the elements, each with its separator. */
  function Bytes(parts: seq<string>): nat {
    if parts == [] then 0 else Bytes(parts[..|parts| - 1]) + |parts[|parts| - 1]| + 1
  }

  lemma {:induction false} JoinedLength(parts: seq<string>)
    requires parts != []
    ensures |Join(parts)| == Bytes(parts) - 1
  {
    if |parts| > 1 {
      JoinedLength(parts[..|parts| - 1]);
    } else {
      assert Bytes(parts[..0]) == 0;
    }
  }

  lemma {:induction false} ReduceShrinks(parts: seq<string>)
    ensures Bytes(Reduce(parts)) <= Bytes(parts)
  {
    if parts != [] {
      var kept, part := Reduce(parts[..|parts| - 1]), parts[|parts| - 1];
      ReduceShrinks(parts[..|parts| - 1]);
      assert (kept + [part])[..|kept|] == kept;
    }
  }

  lemma {:induction false} JoinIsPlain(parts: seq<string>)
    requires parts != [] && forall i :: 0 <= i < |parts| ==> Plain(parts[i])
    ensures Plain(Join(parts))
  {
    var k := |parts| - 1;
    if k > 0 {
      JoinIsPlain(parts[..k]);
    }
  }

  lemma {:induction false} JoinStarts(parts: seq<string>)
    requires parts != [] && parts[0] != ""
    ensures Join(parts) != "" && Join(parts)[0] == parts[0][0]
  {
    if |parts| > 1 {
      JoinStarts(parts[..|parts| - 1]);
    }
  }

  // ---------------------------------------------------------------- clean paths

  /** A path of good elements, not too long and not leading out of the root. */
  predicate IsClean(t: string) {
    t != "" && |t| <= MAX_PATH_LEN && GoodParts(Split(t))
  }

  lemma CleanText(t: string)
    requires IsClean(t)
    ensures GoodText(t)
  {
    JoinOfSplit(t);
    JoinIsPlain(Split(t));
    JoinStarts(Split(t));
    assert '/' !in Split(t)[0];
  }

  /** Main result. A clean path without white space at either end is accepted as it is. */
  lemma CleanPassesUnchanged(t: string)
    requires IsClean(t) && TrimSpace(t) == t
    ensures Sanitize(t) == Some(t)
  {
    CleanText(t);
    ReduceKeeps(Split(t));
    JoinOfSplit(t);
  }

  /** An entry with a good name in a clean folder has a clean path. */
  lemma EntryOfCleanFolder(dir: string, name: string)
    requires IsClean(dir) && GoodPart(name) && '/' !in name && |dir| + 1 + |name| <= MAX_PATH_LEN
    ensures IsClean(dir + "/" + name)
  {
    SplitOfJoin(dir, name);
    var parts := Split(dir) + [name];
    assert parts[0] == Split(dir)[0];
  }

  lemma SingleIsClean(name: string)
    requires GoodPart(name) && '/' !in name && !HasPrefix(name, "..")
    ensures IsClean(name)
  {
    assert Split(name) == [name];
  }

  lemma TrimShortens(s: string)
    ensures |TrimSpace(s)| <= |s| && (|TrimSpace(s)| == |s| ==> TrimSpace(s) == s)
  {
    TrimLeftShortens(s);
  }

  lemma {:induction false} TrimLeftShortens(s: string)
    ensures |TrimLeft(s)| <= |s| && (|TrimLeft(s)| == |s| ==> TrimLeft(s) == s)
    decreases |s|
  {
    if LeadingSpace(s) != 0 {
      TrimLeftShortens(s[LeadingSpace(s)..]);
    }
  }

  /** Main result. Whatever is accepted comes out as the root or as a clean path, no longer than what went in. */
  lemma SanitizedIsClean(s: string)
    requires Sanitize(s).Some?
    ensures var t := Sanitize(s).value; (t == "" || IsClean(t)) && |t| <= |TrimSpace(s)|
  {
    var u := TrimSpace(s);
    if u != "" && Reduce(Split(u)) != [] {
      ReducedIsClean(u);
    }
  }

  lemma ReducedIsClean(u: string)
    requires GoodText(u) && Reduce(Split(u)) != [] && GoodParts(Reduce(Split(u)))
    ensures IsClean(Join(Reduce(Split(u)))) && |Join(Reduce(Split(u)))| <= |u|
  {
    var parts := Reduce(Split(u));
    JoinOfSplit(u);
    ReducedHasNoSlash(Split(u));
    SplitOfJoined(parts);
    ReduceShrinks(Split(u));
    JoinedLength(parts);
    JoinedLength(Split(u));
    JoinStarts(parts);
  }

  /** Main result. Sanitizing a result once more leaves it as it is exactly when it neither begins nor ends in white
      space: trimming comes before cleaning, and cleaning can bare a space. */
  lemma SanitizeIsIdempotentExactly(s: string)
    requires Sanitize(s).Some?
    ensures var t := Sanitize(s).value; Sanitize(t) == Some(t) <==> TrimSpace(t) == t
  {
    var t := Sanitize(s).value;
    SanitizedIsClean(s);
    TrimShortens(t);
    if t != "" && TrimSpace(t) == t {
      CleanPassesUnchanged(t);
    } else if Sanitize(t) == Some(t) {
      SanitizedIsClean(t);
    }
  }

  lemma OnePart(s: string, t: string, part: string)
    requires TrimSpace(s) == t && t != "" && GoodText(t) && Reduce(Split(t)) == [part]
    requires GoodPart(part) && !HasPrefix(part, "..")
    ensures Sanitize(s) == Some(part)
  {
  }

  lemma CleanedAlone(part: string)
    requires '/' !in part && part != "" && part != "." && part != ".."
    ensures Reduce(Split(part)) == [part] && Reduce(Split(part + "/" + ".")) == [part]
  {
    assert Split(part) == [part];
    ReduceKeeps([part]);
    SplitOfJoin(part, ".");
    ReduceSnoc([part], ".");
  }

  lemma TrailingBlankGoes(name: string)
    requires name != "" && '!' <= name[0] <= '~' && '!' <= name[|name| - 1] <= '~'
    ensures TrimSpace(name + " ") == name
  {
    var s := name + " ";
    TrimSpaceOfPlain(name);
    assert s[0] == name[0] && TrimLeft(s) == s;
    assert TrailingSpace(s) == 1 && s[..|name|] == name;
  }

  /** It does happen: with a blank and "/." behind it, an ordinary name comes out with the blank, and from a second
      pass without it. */
  lemma SanitizeTwiceDiffers(name: string)
    requires GoodPart(name + " ") && GoodPart(name) && '/' !in name && !HasPrefix(name, "..")
    requires '!' <= name[0] <= '~' && '!' <= name[|name| - 1] <= '~'
    ensures Sanitize(name + " " + "/" + ".") == Some(name + " ") && Sanitize(name + " ") == Some(name)
  {
    var padded := name + " ";
    var t := padded + "/" + ".";
    assert t[0] == name[0] && t[|t| - 1] == '.';
    TrimSpaceOfPlain(t);
    assert forall i :: 0 <= i < |t| ==> t[i] == if i < |padded| then padded[i] else if i == |padded| then '/' else '.';
    assert !HasPrefix(padded, "..") by {
      assert |name| >= 2 ==> padded[..2] == name[..2];
      assert |name| == 1 ==> padded[..2][1] == ' ';
    }
    CleanedAlone(padded);
    OnePart(t, t, padded);
    TrailingBlankGoes(name);
    CleanedAlone(name);
    OnePart(padded, name, name);
  }
}
