/** The third layer with the real proof parser: what `Trust.attests` is when proofs are OpenTimestamps bytes. */
module ProofBytes {
  import opened Wrappers
  import opened JsonLexer
  import opened Chain
  import opened RecordFiles
  import opened Rotation
  import opened Anchor
  import opened HonestWorld
  import opened HonestVerdict
  import VerdictMeaning
  import OtsTree
  import OtsParser
  import OtsProofs

  /** A proof file's bytes, one character each. */
  function BytesOf(s: string): (r: OtsTree.Bytes)
    ensures |r| == |s|
  {
    seq(|s|, i requires 0 <= i < |s| => s[i] as int % 256)
  }

  function CharsOf(b: OtsTree.Bytes): string { seq(|b|, i requires 0 <= i < |b| => b[i] as char) }

  lemma BytesBack(b: OtsTree.Bytes)
    ensures BytesOf(CharsOf(b)) == b
  {
  }

  /** Reading hex, pair by pair, up to the first pair that is not hex. */
  function FromHex(s: string): (r: OtsTree.Bytes)
    ensures 2 * |r| <= |s|
  {
    if |s| < 2 then []
    else
      match (HexValue(s[0]), HexValue(s[1]))
      case (Some(h), Some(l)) => [h * 16 + l] + FromHex(s[2..])
      case _ => []
  }

  /** How many attestations proof bytes lead to from a digest. */
  function Attests(m: OtsTree.Machine): (string, string) -> Option<nat> {
    (bytes, digest) =>
      match OtsParser.Parse(m, BytesOf(bytes), FromHex(digest))
      case None => None
      case Some(out) => Some(|out|)
  }

  /** A response from a calendar counts exactly when it is, within the size cap, the bytes of a proof tree that
      attests something about the digest submitted. */
  lemma UsableExactly(t: Trust, m: OtsTree.Machine, digest: string, bytes: string)
    requires t.attests == Attests(m)
    ensures Usable(t, digest, Proof(bytes))
       <==> |bytes| <= OtsTree.MAX_FILE_BYTES
            && exists h, tree :: OtsProofs.Describes(m, BytesOf(bytes), FromHex(digest), h, tree) && OtsTree.Eval(m, tree, FromHex(digest)) != []
  {
    hide OtsParser.Parse, OtsProofs.Describes, OtsTree.Eval, BytesOf, FromHex;
    var s, d := BytesOf(bytes), FromHex(digest);
    NothingFails(m, d);
    if OtsParser.Parse(m, s, d).Some? { OtsProofs.ParseExactly(m, s, d, OtsParser.Parse(m, s, d).value); }
    forall h, tree | OtsProofs.Describes(m, s, d, h, tree) && |s| <= OtsTree.MAX_FILE_BYTES
      ensures OtsParser.Parse(m, s, d) == Some(OtsTree.Eval(m, tree, d))
    {
      OtsProofs.ParseExactly(m, s, d, OtsTree.Eval(m, tree, d));
    }
  }

  lemma NothingFails(m: OtsTree.Machine, digest: OtsTree.Bytes)
    ensures OtsParser.Parse(m, [], digest).None?
  {
  }

  /** With the real parser, under a clean verdict every record that carries no error names a file that is the bytes of
      a proof tree attesting something about the digest its checkpoint hashes to. */
  lemma BackedByTree(k: Kit, t: Trust, m: OtsTree.Machine, disk: Disk, r: AnchorRecord)
    requires t.attests == Attests(m) && Verdict(k, t, disk).ok && Anchored(r) in disk.anchors && !r.failed
    ensures r.checkpoint.Some? && r.digest == k.hash(CheckpointText(r.checkpoint.value))
    ensures r.proofPath.Some? && r.proofPath.value in disk.proofs
    ensures var s, d := BytesOf(disk.proofs[r.proofPath.value]), FromHex(r.digest);
            exists h, tree :: OtsProofs.Describes(m, s, d, h, tree) && OtsTree.Eval(m, tree, d) != []
  {
    hide OtsParser.Parse, OtsProofs.Describes, OtsTree.Eval, BytesOf, FromHex, Verdict, CheckpointText;
    VerdictMeaning.ProofStands(k, t, disk, r);
    VerdictMeaning.SoundRecord(k, t, disk, r);
    UsableExactly(t, m, r.digest, disk.proofs[r.proofPath.value]);
  }

  /** Hash values as they are written: at most 64 characters. */
  ghost predicate ShortDigests(hash: Hash) { forall s: string :: |hash(s)| <= 64 }

  /** Right after a pass whose calendar answered with a pending proof, the verdict is clean. */
  lemma PendingProofVerifies<P(!new)>(env: Env<P>, ops: seq<Op<P>>, now: string, m: OtsTree.Machine, uri: OtsTree.Bytes)
    requires Faithful(env.f) && PathsAgree(env.layout) && Signs(env.t) && Fresh(env, Run(env, Boot<P>(), ops))
    requires Anchorable(Run(env, Boot<P>(), ops))
    requires env.t.attests == Attests(m) && ShortDigests(env.hash)
    requires |OtsProofs.EncodedBytes(uri)| <= OtsTree.MAX_VAR_BYTES <= m.exact
    ensures var s := Proof(CharsOf(OtsProofs.PendingProof(uri)));
            Verdict(KitOf(env), env.t, Step(env, Run(env, Boot<P>(), ops), Anchor(now, s)).disk).ok
  {
    hide Run, PathsAgree, Signs, Fresh, Verdict, AnchorStep, Anchorable, OtsProofs.PendingProof, OtsParser.Parse, NextCheckpoint, SealedDisk,
      CheckpointText, FromHex, OtsProofs.EncodedBytes, BytesOf, CharsOf, Faithful;
    var w, bytes := Run(env, Boot<P>(), ops), OtsProofs.PendingProof(uri);
    var digest := env.hash(CheckpointText(NextCheckpoint(KitOf(env), env.t, SealedDisk(KitOf(env), w.disk, now), now)));
    BytesBack(bytes);
    NothingFails(m, FromHex(digest));
    OtsProofs.PendingProofParses(m, uri, FromHex(digest));
    assert ProofStored(env, w, now, Proof(CharsOf(bytes)));
    AnchoredRunVerifies(env, ops, now, Proof(CharsOf(bytes)));
  }
}
