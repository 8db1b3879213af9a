/** Bytes, and the staged part file that out-of-order chunks are written into. */
module PartFile {

  newtype Byte = b: int | 0 <= b < 256

  type Data = seq<Byte>

  function Zeros(n: nat): Data {
    seq(n, _ => 0)
  }

  /** Seek to off and write raw. A gap that the seek skips reads back as zeros; writing nothing
      leaves the file as it was, even when the seek went past its end. */
  function WriteAt(file: Data, off: nat, raw: Data): (r: Data)
    ensures |r| == if raw == [] then |file| else if off + |raw| < |file| then |file| else off + |raw|
    ensures forall i :: 0 <= i < |raw| ==> r[off + i] == raw[i]
    ensures forall i :: 0 <= i < |file| && !(off <= i < off + |raw|) ==> r[i] == file[i]
    ensures forall i :: |file| <= i < |r| && i < off ==> r[i] == 0
  {
    if raw == [] then file
    else
      seq(if off + |raw| < |file| then |file| else off + |raw|,
          i requires 0 <= i => if off <= i < off + |raw| then raw[i - off] else if i < |file| then file[i] else 0)
  }

  /** raw is what source holds from position off on. */
  ghost predicate Excerpt(raw: Data, source: Data, off: nat) {
    off + |raw| <= |source| && forall i :: 0 <= i < |raw| ==> raw[i] == source[off + i]
  }

  lemma ExcerptIsSlice(raw: Data, source: Data, off: nat)
    requires Excerpt(raw, source, off)
    ensures raw == source[off..off + |raw|]
  {
  }

  lemma ExcerptConcat(a: Data, b: Data, source: Data, off: nat)
    requires Excerpt(a, source, off) && Excerpt(b, source, off + |a|)
    ensures Excerpt(a + b, source, off)
  {
  }

  /** Byte b of the part file is the source's byte b. */
  ghost predicate Faithful(part: Data, source: Data, b: int) {
    0 <= b < |part| && b < |source| && part[b] == source[b]
  }

  /** A write of source bytes never spoils a byte that was already right, and makes its own right. */
  lemma WriteKeepsFaithful(part: Data, source: Data, off: nat, raw: Data)
    requires Excerpt(raw, source, off)
    ensures forall b :: Faithful(part, source, b) ==> Faithful(WriteAt(part, off, raw), source, b)
    ensures forall b :: off <= b < off + |raw| ==> Faithful(WriteAt(part, off, raw), source, b)
  {
    var r := WriteAt(part, off, raw);
    forall b | off <= b < off + |raw| ensures Faithful(r, source, b) {
      assert r[off + (b - off)] == raw[b - off];
    }
  }

  /** A stretch of right bytes reads back as the source. */
  lemma FaithfulExcerpt(part: Data, source: Data, lo: nat, hi: nat)
    requires lo <= hi && forall b :: lo <= b < hi ==> Faithful(part, source, b)
    ensures lo < hi ==> hi <= |part| && hi <= |source| && Excerpt(part[lo..hi], source, lo)
  {
    if lo < hi {
      assert Faithful(part, source, hi - 1);
      var p := part[lo..hi];
      forall i | 0 <= i < |p| ensures p[i] == source[lo + i] {
        assert Faithful(part, source, lo + i);
      }
    }
  }
}
