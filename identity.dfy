/**
 * Note identity: a note is known by the first eight hexadecimal digits of
 * the SHA-256 digest of its trimmed body, and a note is new when its hash is
 * not among the hashes already present in the output directory.
 */
module Identity {
  import opened Text

  predicate IsLowerHex(c: char) {
    '0' <= c <= '9' || 'a' <= c <= 'f'
  }

  /** What `hexdigest()` of SHA-256 returns: 64 lower-case hexadecimal digits. */
  predicate IsHexDigest(d: string) {
    |d| == 64 && forall i :: 0 <= i < |d| ==> IsLowerHex(d[i])
  }

  /** The shape of a note hash: eight lower-case hexadecimal digits. */
  predicate IsNoteHash(h: string) {
    |h| == 8 && forall i :: 0 <= i < |h| ==> IsLowerHex(h[i])
  }

  /**
   * SHA-256 of the UTF-8 encoding of a string, as its hex digest. The hash
   * function itself is outside the model: any function with hex-digest
   * results will do.
   */
  type Digest = f: string -> string | forall s :: IsHexDigest(f(s))
    witness (s: string) => Repeat('0', 64)

  /** The hash of a note whose accumulated body text is `body`. */
  function NoteHash(digest: Digest, body: string): (h: string)
    ensures IsNoteHash(h)
  {
    digest(Strip(body))[..8]
  }

  /** Whitespace around a body does not change its hash. */
  lemma {:induction false} HashIgnoresPadding(digest: Digest, p: string, body: string, q: string)
    requires AllSpace(p) && AllSpace(q)
    ensures NoteHash(digest, p + body + q) == NoteHash(digest, body)
  {
    StripPadded(p, body, q);
  }

  /** The stored (trimmed) note text hashes to the hash it is stored under. */
  lemma {:induction false} HashOfStoredText(digest: Digest, body: string)
    ensures NoteHash(digest, Strip(body)) == NoteHash(digest, body)
  {
    StripIdempotent(body);
  }

  /** The hashes of `hs` not in `existing`, in their order in `hs`: the notes to write. */
  function FreshHashes(hs: seq<string>, existing: set<string>): (r: seq<string>)
    ensures forall h :: h in r ==> h in hs
    ensures |r| <= |hs|
  {
    if hs == [] then []
    else
      var last := hs[|hs| - 1];
      assert hs == hs[..|hs| - 1] + [last];
      FreshHashes(hs[..|hs| - 1], existing) + (if last in existing then [] else [last])
  }

  /** A single hash is fresh exactly when it is not present. */
  lemma {:induction false} FreshHashesOne(h: string, existing: set<string>)
    ensures FreshHashes([h], existing) == if h in existing then [] else [h]
  {
    assert [h][..0] == [];
  }

  /** Freshness is decided hash by hash, so the fresh hashes keep their order. */
  lemma {:induction false} FreshHashesConcat(a: seq<string>, b: seq<string>, existing: set<string>)
    ensures FreshHashes(a + b, existing) == FreshHashes(a, existing) + FreshHashes(b, existing)
    decreases |b|
  {
    if b == [] {
      assert a + b == a;
    } else {
      var init, last := b[..|b| - 1], b[|b| - 1];
      assert (a + b)[..|a + b| - 1] == a + init;
      assert (a + b)[|a + b| - 1] == last;
      FreshHashesConcat(a, init, existing);
    }
  }

  /** A hash is fresh exactly when it is one of `hs` and not present. */
  lemma {:induction false} FreshHashesMembers(hs: seq<string>, existing: set<string>)
    ensures forall h :: h in FreshHashes(hs, existing) <==> h in hs && h !in existing
  {
    if hs != [] {
      var init, last := hs[..|hs| - 1], hs[|hs| - 1];
      assert hs == init + [last];
      FreshHashesMembers(init, existing);
    }
  }

  /** Nothing is fresh exactly when every hash is already present. */
  lemma {:induction false} FreshHashesNone(hs: seq<string>, existing: set<string>)
    ensures FreshHashes(hs, existing) == [] <==> forall i :: 0 <= i < |hs| ==> hs[i] in existing
  {
    var r := FreshHashes(hs, existing);
    FreshHashesMembers(hs, existing);
    if r != [] {
      assert r[0] in r;
    }
  }

  /** Lines 205-209: the number of hashes of a group that are not yet present. */
  method CountNew(hs: seq<string>, existing: set<string>) returns (n: nat)
    ensures n == |FreshHashes(hs, existing)|
    ensures n == 0 <==> forall i :: 0 <= i < |hs| ==> hs[i] in existing
  {
    n := 0;
    for i := 0 to |hs|
      invariant n == |FreshHashes(hs[..i], existing)|
    {
      assert hs[..i + 1][..i] == hs[..i];
      if hs[i] !in existing {
        n := n + 1;
      }
    }
    assert hs[..|hs|] == hs;
    FreshHashesNone(hs, existing);
  }
}
