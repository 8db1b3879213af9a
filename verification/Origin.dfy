/** The device that a change came from, as both sides spell it. */
module Origin {
  import opened GoText

  function Lowered(s: string): string {
    seq(|s|, i requires 0 <= i < |s| => Lower(s[i]))
  }

  /** NormalizeOrigin: "macos" in any case and padding is "mac". */
  function Normalize(s: string): string {
    var n := Lowered(TrimSpace(s));
    if n == "macos" then "mac" else n
  }

  /** Normalising twice is normalising once. */
  lemma NormalizeIsIdempotent(s: string)
    ensures Normalize(Normalize(s)) == Normalize(s)
  {
    var t := TrimSpace(s);
    LeadingSpaceOfPrefix(t, TrimLeft(s));
    assert LeadingSpace(Lowered(t)) == 0 && TrailingSpace(Lowered(t)) == 0;
    assert TrimSpace(Lowered(t)) == Lowered(t);
    assert Lowered(Lowered(t)) == Lowered(t);
    TrimSpaceOfPlain("mac");
    assert Lowered("mac") == "mac";
  }

  /** In any case, "macos" is the Mac and any other word is itself in lower case. */
  lemma WordIsLowered(s: string)
    requires s != "" && forall i :: 0 <= i < |s| ==> 'a' <= Lower(s[i]) <= 'z'
    ensures |s| == 5 && (forall i :: 0 <= i < 5 ==> Lower(s[i]) == "macos"[i]) ==> Normalize(s) == "mac"
    ensures !(|s| == 5 && forall i :: 0 <= i < 5 ==> Lower(s[i]) == "macos"[i]) ==>
      |Normalize(s)| == |s| && forall i :: 0 <= i < |s| ==> Normalize(s)[i] == Lower(s[i])
  {
    TrimSpaceOfPlain(s);
  }
}
