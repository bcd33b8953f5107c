/** Checkpoints over the evidence and their verification (src/audit/anchor-service.ts). */
module Anchor {
  import opened Wrappers
  import opened Text
  import opened Chain
  import opened Rotation

  // ----- what a checkpoint commits to

  /** What a checkpoint says the live file held when it was signed. */
  datatype LiveTail = LiveTail(finalHash: string, count: int)

  function TailText(tail: Option<LiveTail>): string {
    match tail
    case None => "null"
    case Some(t) => "{\"finalHash\":" + (Quote(t.finalHash) + (",\"count\":" + (Integer(t.count) + ['}'])))
  }

  /** The hashed text of compositeDigest. */
  function CompositeText(head: Option<string>, segments: nat, tail: Option<LiveTail>): string {
    "{\"manifestHead\":" + (QuoteOrNull(head) + (",\"segments\":" + (Integer(segments) + [',']
      + ("\"liveTail\":" + (TailText(tail) + "}")))))
  }

  function Composite(hash: Hash, head: Option<string>, segments: nat, tail: Option<LiveTail>): string {
    hash(CompositeText(head, segments, tail))
  }

  lemma TailTextInjective(s: Option<LiveTail>, t: Option<LiveTail>)
    requires TailText(s) + "}" == TailText(t) + "}"
    ensures s == t
  {
    hide Quote, Integer;
    assert (TailText(s) + "}")[0] == TailText(s)[0] && (TailText(t) + "}")[0] == TailText(t)[0];
    if s.Some? && t.Some? {
      var a, b := s.value, t.value;
      var ra, rb := ",\"count\":" + (Integer(a.count) + ['}'] + "}"), ",\"count\":" + (Integer(b.count) + ['}'] + "}");
      assert TailText(s) + "}" == "{\"finalHash\":" + (Quote(a.finalHash) + ra);
      assert TailText(t) + "}" == "{\"finalHash\":" + (Quote(b.finalHash) + rb);
      SameHead("{\"finalHash\":", Quote(a.finalHash) + ra, Quote(b.finalHash) + rb);
      QuotePrefixFree(a.finalHash, b.finalHash, ra, rb);
      SameHead(",\"count\":", Integer(a.count) + ['}'] + "}", Integer(b.count) + ['}'] + "}");
      IntegerNoComma(a.count);
      IntegerNoComma(b.count);
      CutAt(Integer(a.count), Integer(b.count), '}', "}", "}");
      IntegerInjective(a.count, b.count);
    }
  }

  /** The head, the segment count and the live tail are recoverable from the hashed text. */
  lemma CompositeInjective(head: Option<string>, segments: nat, tail: Option<LiveTail>,
                           other: Option<string>, count: nat, last: Option<LiveTail>)
    ensures CompositeText(head, segments, tail) == CompositeText(other, count, last)
       <==> head == other && segments == count && tail == last
  {
    hide QuoteOrNull, Integer, TailText;
    if CompositeText(head, segments, tail) == CompositeText(other, count, last) {
      var t, u := "\"liveTail\":" + (TailText(tail) + "}"), "\"liveTail\":" + (TailText(last) + "}");
      var r, s := ",\"segments\":" + (Integer(segments) + [','] + t), ",\"segments\":" + (Integer(count) + [','] + u);
      SameHead("{\"manifestHead\":", QuoteOrNull(head) + r, QuoteOrNull(other) + s);
      QuoteOrNullPrefixFree(head, other, r, s);
      FieldCut(",\"segments\":", segments, t, count, u);
      SameHead("\"liveTail\":", TailText(tail) + "}", TailText(last) + "}");
      TailTextInjective(tail, last);
    }
  }

  // ----- checkpoints and anchor records

  datatype Checkpoint = Checkpoint(chainIndex: nat, hash: string, signedAt: string, signature: string, publicKey: string)

  /** canonicalCheckpointBytes. */
  function CheckpointText(cp: Checkpoint): string {
    "{\"chainIndex\":" + Integer(cp.chainIndex) + ",\"hash\":" + Quote(cp.hash) + ",\"signedAt\":" + Quote(cp.signedAt)
    + ",\"signature\":" + Quote(cp.signature) + ",\"publicKey\":" + Quote(cp.publicKey) + "}"
  }

  /** What follows the index. */
  function AfterIndex(cp: Checkpoint): string {
    "\"hash\":" + (Quote(cp.hash) + (",\"signedAt\":" + (Quote(cp.signedAt) + (",\"signature\":" + (Quote(cp.signature)
      + (",\"publicKey\":" + (Quote(cp.publicKey) + "}")))))))
  }

  lemma CheckpointNested(cp: Checkpoint)
    ensures CheckpointText(cp) == "{\"chainIndex\":" + (Integer(cp.chainIndex) + [','] + AfterIndex(cp))
  {
    hide Quote, Integer;
  }

  lemma FieldsInjective(a: Checkpoint, b: Checkpoint)
    requires AfterIndex(a) == AfterIndex(b)
    ensures a == b.(chainIndex := a.chainIndex)
  {
    hide Quote;
    var k4, l4 := Quote(a.publicKey) + "}", Quote(b.publicKey) + "}";
    var k3, l3 := Quote(a.signature) + (",\"publicKey\":" + k4), Quote(b.signature) + (",\"publicKey\":" + l4);
    var k2, l2 := Quote(a.signedAt) + (",\"signature\":" + k3), Quote(b.signedAt) + (",\"signature\":" + l3);
    SameHead("\"hash\":", Quote(a.hash) + (",\"signedAt\":" + k2), Quote(b.hash) + (",\"signedAt\":" + l2));
    QuotePrefixFree(a.hash, b.hash, ",\"signedAt\":" + k2, ",\"signedAt\":" + l2);
    SameHead(",\"signedAt\":", k2, l2);
    QuotePrefixFree(a.signedAt, b.signedAt, ",\"signature\":" + k3, ",\"signature\":" + l3);
    SameHead(",\"signature\":", k3, l3);
    QuotePrefixFree(a.signature, b.signature, ",\"publicKey\":" + k4, ",\"publicKey\":" + l4);
    SameHead(",\"publicKey\":", k4, l4);
    QuotePrefixFree(a.publicKey, b.publicKey, "}", "}");
  }

  /** The text a digest is taken of fixes every field of the checkpoint. */
  lemma CheckpointTextInjective(a: Checkpoint, b: Checkpoint)
    ensures CheckpointText(a) == CheckpointText(b) <==> a == b
  {
    hide Integer, AfterIndex, CheckpointText;
    if CheckpointText(a) == CheckpointText(b) {
      CheckpointNested(a);
      CheckpointNested(b);
      FieldCut("{\"chainIndex\":", a.chainIndex, AfterIndex(a), b.chainIndex, AfterIndex(b));
      FieldsInjective(a, b);
    }
  }

  datatype Status = Confirmed | Pending | OtherStatus

  /** One record of the anchor log; `failed` when it carries an error. */
  datatype AnchorRecord = AnchorRecord(digest: string, checkpoint: Option<Checkpoint>, failed: bool, status: Status,
                                       proofPath: Option<string>)

  datatype AnchorLine = Unparseable | Anchored(record: AnchorRecord)

  /** Keys and proofs, kept abstract: signing, checking a signature, and how many attestations proof bytes
      lead to from a digest (None when they do not parse). */
  datatype Trust = Trust(publicKey: string, sign: (nat, string, string) -> string, checks: Checkpoint -> bool,
                         attests: (string, string) -> Option<nat>)

  /** The evidence directory. `listing` holds the names beside the live file, oldest first; `proofs` holds
      proof bytes by the path an anchor record names. */
  datatype Disk = Disk(files: Files, listing: seq<string>, manifest: seq<Entry>, anchors: seq<AnchorLine>,
                       hasKey: bool, proofs: map<string, string>)

  function LiveAt(k: Kit): string { Resolve(k.layout, AuditPath(k.layout)) }

  function TailOf(s: Option<Summary>): Option<LiveTail> {
    match s case None => None case Some(x) => Some(LiveTail(x.finalHash, x.count))
  }

  // ----- one anchor pass

  /** What came back from the calendars: a proof that parses, or nothing usable. */
  datatype Submission = Proof(bytes: string) | Unreachable

  function SignedCheckpoint(t: Trust, segments: nat, composite: string, now: string): Checkpoint {
    Checkpoint(segments, composite, now, t.sign(segments, composite, now), t.publicKey)
  }

  /** A response counts only when it parses and reaches an attestation. */
  predicate Usable(t: Trust, digest: string, s: Submission) {
    s.Proof? && s.bytes != "" && match t.attests(s.bytes, digest) case None => false case Some(n) => n > 0
  }

  function ProofName(digest: string): string { digest + ".ots" }

  function SealedDisk(k: Kit, disk: Disk, now: string): Disk {
    disk.(manifest := Adopted(k, disk.files, disk.manifest, Discovered(k, disk.files, disk.listing), now))
  }

  /** The record of a checkpoint, and its proof when one came back. */
  function Recorded(k: Kit, t: Trust, disk: Disk, cp: Checkpoint, s: Submission): Disk {
    var digest := k.hash(CheckpointText(cp));
    if Usable(t, digest, s) then
      disk.(anchors := disk.anchors + [Anchored(AnchorRecord(digest, Some(cp), false, Pending, Some(ProofName(digest))))],
            proofs := disk.proofs[ProofName(digest) := s.bytes], hasKey := true)
    else
      disk.(anchors := disk.anchors + [Anchored(AnchorRecord(digest, Some(cp), true, Pending, None))], hasKey := true)
  }

  /** The checkpoint a pass would sign over a sealed disk. */
  function NextCheckpoint(k: Kit, t: Trust, disk: Disk, now: string): Checkpoint {
    var tail := TailOf(ShapeAt(k, disk.files, LiveAt(k)));
    SignedCheckpoint(t, |disk.manifest|, Composite(k.hash, Head(disk.manifest), |disk.manifest|, tail), now)
  }

  function AnchorPass(k: Kit, t: Trust, disk: Disk, now: string, s: Submission): Disk {
    if LiveAt(k) !in disk.files then disk
    else
      var sealed := SealedDisk(k, disk, now);
      if ShapeAt(k, disk.files, LiveAt(k)).None? && sealed.manifest == [] then sealed
      else Recorded(k, t, sealed, NextCheckpoint(k, t, sealed, now), s)
  }

  // ----- candidates for a committed live tail

  datatype Candidate = Candidate(tail: LiveTail, reach: int)

  function Add<T(==)>(xs: seq<T>, x: T): seq<T> { if x in xs then xs else xs + [x] }

  function AddAll<T(==)>(xs: seq<T>, ys: seq<T>): seq<T>
    decreases ys
  {
    if ys == [] then xs else AddAll(Add(xs, ys[0]), ys[1..])
  }

  function SegmentPaths(k: Kit, entries: seq<Entry>): seq<string> {
    seq(|entries|, i requires 0 <= i < |entries| => SegmentPath(k.layout, entries[i].path))
  }

  /** Closed files on disk that were not already sealed when the checkpoint was signed. */
  function StillOpen(k: Kit, paths: seq<string>, closed: seq<string>): seq<string> {
    if paths == [] then []
    else
      var full := Resolve(k.layout, paths[0]);
      (if full in closed then [] else [full]) + StillOpen(k, paths[1..], closed)
  }

  /** The files a live tail of a checkpoint over `segments` sealed ones can be in. */
  function Eligible(k: Kit, disk: Disk, segments: nat): seq<string>
    requires segments <= |disk.manifest|
  {
    AddAll([LiveAt(k)],
           StillOpen(k, Discovered(k, disk.files, disk.listing), SegmentPaths(k, disk.manifest[..segments]))
           + SegmentPaths(k, disk.manifest[segments..]))
  }

  /** Every prefix of a file's records. */
  function Prefixes(es: seq<Event>): seq<Candidate> {
    seq(|es|, i requires 0 <= i < |es| => Candidate(LiveTail(es[i].integrity.hash, i + 1), es[i].integrity.chainIndex))
  }

  function FileOffers(k: Kit, files: Files, paths: seq<string>): seq<Candidate> {
    if paths == [] then []
    else (if paths[0] in files then Prefixes(Events(k.read, files[paths[0]])) else []) + FileOffers(k, files, paths[1..])
  }

  function EntryOffers(entries: seq<Entry>): seq<Candidate> {
    seq(|entries|, i requires 0 <= i < |entries| => Candidate(LiveTail(entries[i].finalHash, entries[i].count), entries[i].lastIndex))
  }

  function Offers(k: Kit, disk: Disk, segments: nat): seq<Candidate>
    requires segments <= |disk.manifest|
  {
    FileOffers(k, disk.files, Eligible(k, disk, segments)) + EntryOffers(disk.manifest[segments..])
  }

  function Tails(cs: seq<Candidate>): set<LiveTail> { set c | c in cs :: c.tail }

  /** Only the first offer of a count and hash is kept. */
  function Offer(out: seq<Candidate>, c: Candidate): seq<Candidate> { if c.tail in Tails(out) then out else out + [c] }

  function OfferAll(out: seq<Candidate>, cs: seq<Candidate>): seq<Candidate>
    decreases cs
  {
    if cs == [] then out else OfferAll(Offer(out, cs[0]), cs[1..])
  }

  /** liveTailCandidates. */
  function Candidates(k: Kit, disk: Disk, segments: nat): seq<Candidate>
    requires segments <= |disk.manifest|
  {
    OfferAll([], Offers(k, disk, segments))
  }

  // ----- whether a checkpoint still reproduces

  /** The manifest head when `segments` were sealed. */
  function HeadAt(disk: Disk, segments: nat): Option<string>
    requires segments <= |disk.manifest|
  {
    Head(disk.manifest[..segments])
  }

  function CompositeSet(k: Kit, disk: Disk, segments: nat): set<string>
    requires segments <= |disk.manifest|
  {
    {Composite(k.hash, HeadAt(disk, segments), segments, None)}
    + set c | c in Candidates(k, disk, segments) :: Composite(k.hash, HeadAt(disk, segments), segments, Some(c.tail))
  }

  predicate Reproduces(k: Kit, disk: Disk, cp: Checkpoint) {
    cp.chainIndex <= |disk.manifest| && cp.hash in CompositeSet(k, disk, cp.chainIndex)
  }

  // ----- the three layers

  /** The files the first layer walks: those the manifest names and the live one, when they exist. */
  function WalkPaths(k: Kit, disk: Disk): seq<string> {
    AddAll([], SegmentPaths(k, disk.manifest) + [LiveAt(k)])
  }

  function ChainProblems(k: Kit, files: Files, paths: seq<string>): seq<(string, Problem)> {
    if paths == [] then []
    else (if paths[0] in files then Tagged(paths[0], Verified(k.read, k.gaps, k.hash, files[paths[0]]).problems) else [])
         + ChainProblems(k, files, paths[1..])
  }

  function Tagged(path: string, ps: seq<Problem>): seq<(string, Problem)> {
    seq(|ps|, i requires 0 <= i < |ps| => (path, ps[i]))
  }

  function Unsealed(k: Kit, disk: Disk): nat {
    |StillOpen(k, Discovered(k, disk.files, disk.listing), SegmentPaths(k, disk.manifest))|
  }

  datatype AnchorProblem = BadLine | BadSignature(segments: nat) | DigestMismatch(segments: nat)
                         | LiveTailMismatch(segments: nat) | NoCheckpoint | ProofMissing | ProofParseError

  /** verifyCheckpoint against the pinned key. */
  predicate Vouched(t: Trust, cp: Checkpoint) { cp.publicKey == t.publicKey && t.checks(cp) }

  function CheckpointProblems(k: Kit, t: Trust, disk: Disk, r: AnchorRecord): seq<AnchorProblem> {
    match r.checkpoint
    case None => [NoCheckpoint]
    case Some(cp) =>
      (if Vouched(t, cp) then [] else [BadSignature(cp.chainIndex)])
      + (if r.digest == k.hash(CheckpointText(cp)) then [] else [DigestMismatch(cp.chainIndex)])
      + (if Reproduces(k, disk, cp) then [] else [LiveTailMismatch(cp.chainIndex)])
  }

  function ProofProblems(t: Trust, disk: Disk, r: AnchorRecord): seq<AnchorProblem> {
    if r.failed then []
    else if r.proofPath.None? || r.proofPath.value == "" || r.proofPath.value !in disk.proofs || disk.proofs[r.proofPath.value] == "" then
      [ProofMissing]
    else
      match t.attests(disk.proofs[r.proofPath.value], r.digest)
      case None => [ProofParseError]
      case Some(n) => if n == 0 then [ProofParseError] else []
  }

  function LineAnchorProblems(k: Kit, t: Trust, disk: Disk, line: AnchorLine): seq<AnchorProblem> {
    match line
    case Unparseable => [BadLine]
    case Anchored(r) => CheckpointProblems(k, t, disk, r) + ProofProblems(t, disk, r)
  }

  function AnchorProblems(k: Kit, t: Trust, disk: Disk, lines: seq<AnchorLine>): seq<AnchorProblem> {
    if lines == [] then []
    else AnchorProblems(k, t, disk, lines[..|lines| - 1]) + LineAnchorProblems(k, t, disk, lines[|lines| - 1])
  }

  function Tally(lines: seq<AnchorLine>, status: Status): nat {
    if lines == [] then 0
    else
      var last := lines[|lines| - 1];
      Tally(lines[..|lines| - 1], status) + if last.Anchored? && !last.record.failed && last.record.status == status then 1 else 0
  }

  /** The anchor log is read only when the key file is there too. */
  function LogRead(disk: Disk): seq<AnchorLine> { if disk.hasKey then disk.anchors else [] }

  datatype Report = Report(ok: bool, chained: seq<(string, Problem)>, linked: seq<ManifestProblem>, unsealed: nat,
                           anchored: seq<AnchorProblem>, pending: nat, confirmed: nat)

  /** The verdict of runVerify. */
  function Verdict(k: Kit, t: Trust, disk: Disk): Report {
    var chained := ChainProblems(k, disk.files, WalkPaths(k, disk));
    var linked := ManifestProblems(k, disk.files, disk.manifest);
    var anchored := AnchorProblems(k, t, disk, LogRead(disk));
    var pending, confirmed := Tally(LogRead(disk), Pending), Tally(LogRead(disk), Confirmed);
    Report(chained == [] && linked == [] && Unsealed(k, disk) == 0 && anchored == [] && confirmed + pending > 0,
           chained, linked, Unsealed(k, disk), anchored, pending, confirmed)
  }
}
