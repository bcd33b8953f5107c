/** OpenTimestamps proofs as trees (src/audit/ots-proof.ts, verifier/ots.go): what the bytes of a proof say. */
module OtsTree {
  import opened Wrappers

  type Byte = b: int | 0 <= b < 256 witness 0

  type Bytes = seq<Byte>

  const MAX_FILE_BYTES := 0x100000
  const MAX_VAR_BYTES := 4096
  const MAX_DEPTH := 256
  const MAX_OPS := 4096
  const MAX_ATTESTATIONS := 256
  const MAX_MESSAGE_BYTES := 0x10000
  const MAX_VARINT_BYTES := 9

  /** What a verifier brings to a proof: its hash functions, and the largest varint it takes as exact
      (2^53 - 1 in TypeScript, 2^63 - 1 in Go). */
  datatype Machine = Machine(sha1: Bytes -> Bytes, sha256: Bytes -> Bytes, exact: nat)

  // ----- varints

  /** Little-endian base 128. */
  function Value(raw: Bytes): nat {
    if raw == [] then 0 else raw[0] % 128 + 128 * Value(raw[1..])
  }

  /** High bits continue; the last byte has none. The encoding need not be the shortest. */
  predicate IsVarint(raw: Bytes) {
    && 0 < |raw| <= MAX_VARINT_BYTES
    && raw[|raw| - 1] < 128
    && forall i | 0 <= i < |raw| - 1 :: raw[i] >= 128
  }

  predicate VarintWithin(raw: Bytes, most: nat) { IsVarint(raw) && Value(raw) <= most }

  // ----- proof trees

  datatype Op = Append(raw: Bytes, arg: Bytes) | Prepend(raw: Bytes, arg: Bytes) | Reverse | Hexlify | Sha1 | Sha256

  /** An attestation leaf, or an operation whose result feeds a child. `raw` is the length as written. */
  datatype Edge = Leaf(tag: Bytes, raw: Bytes, payload: Bytes) | Apply(op: Op, child: Tree)

  /** Forks, then one last edge. */
  datatype Tree = Fork(edge: Edge, rest: Tree) | Last(edge: Edge)

  const FORK: Byte := 0xff

  function OpText(op: Op): Bytes {
    match op
    case Append(raw, arg) => [0xf0] + raw + arg
    case Prepend(raw, arg) => [0xf1] + raw + arg
    case Reverse => [0xf2]
    case Hexlify => [0xf3]
    case Sha1 => [0x02]
    case Sha256 => [0x08]
  }

  function EdgeText(e: Edge): Bytes {
    match e
    case Leaf(tag, raw, payload) => [0x00] + (tag + (raw + payload))
    case Apply(op, child) => OpText(op) + Text(child)
  }

  function Text(t: Tree): Bytes {
    match t
    case Fork(e, rest) => [FORK] + (EdgeText(e) + Text(rest))
    case Last(e) => EdgeText(e)
  }

  // ----- what a tree means

  datatype Attestation = Pending(uri: Bytes) | Bitcoin(height: nat, value: Bytes)

  const TAG_PENDING: Bytes := [0x83, 0xdf, 0xe3, 0x0d, 0x2e, 0xf9, 0x0c, 0x8e]
  const TAG_BITCOIN: Bytes := [0x05, 0x88, 0x96, 0x0d, 0x73, 0xd7, 0x19, 0x01]

  function Reversed(s: Bytes): Bytes { if s == [] then [] else Reversed(s[1..]) + [s[0]] }

  function HexByte(d: int): Byte
    requires 0 <= d < 16
  {
    if d < 10 then 48 + d else 87 + d
  }

  function Hex(s: Bytes): Bytes { if s == [] then [] else [HexByte(s[0] / 16), HexByte(s[0] % 16)] + Hex(s[1..]) }

  function Applied(m: Machine, op: Op, msg: Bytes): Bytes {
    match op
    case Append(_, arg) => msg + arg
    case Prepend(_, arg) => arg + msg
    case Reverse => Reversed(msg)
    case Hexlify => Hex(msg)
    case Sha1 => m.sha1(msg)
    case Sha256 => m.sha256(msg)
  }

  /** Where a varint at `i` ends: after its first byte without a high bit, within `left` bytes. */
  function VarintEnd(s: Bytes, i: nat, left: nat): Option<nat>
    decreases left
  {
    if left == 0 || i >= |s| then None
    else if s[i] < 128 then Some(i + 1)
    else VarintEnd(s, i + 1, left - 1)
  }

  lemma VarintEndBounds(s: Bytes, i: nat, left: nat)
    ensures VarintEnd(s, i, left).Some? ==> i < VarintEnd(s, i, left).value <= |s|
    ensures VarintEnd(s, i, left).Some? ==> VarintEnd(s, i, left).value <= i + left
    decreases left
  {
  }

  datatype Read<+T> = Ok(value: T, end: nat) | Fail

  /** Reader.varint. */
  function ReadVarint(m: Machine, s: Bytes, i: nat): (r: Read<nat>)
    ensures r.Ok? ==> i < r.end <= |s|
  {
    VarintEndBounds(s, i, MAX_VARINT_BYTES);
    match VarintEnd(s, i, MAX_VARINT_BYTES)
    case None => Fail
    case Some(e) => if Value(s[i..e]) <= m.exact then Ok(Value(s[i..e]), e) else Fail
  }

  /** Reader.bytes. */
  function ReadBytes(s: Bytes, i: nat, n: nat): (r: Read<Bytes>)
    ensures r.Ok? ==> i <= r.end <= |s| && r.end == i + n
  {
    if i + n <= |s| then Ok(s[i..i + n], i + n) else Fail
  }

  /** Reader.varbytes. */
  function ReadVarbytes(m: Machine, s: Bytes, i: nat): (r: Read<Bytes>)
    ensures r.Ok? ==> i < r.end <= |s|
  {
    match ReadVarint(m, s, i)
    case Fail => Fail
    case Ok(n, j) => if n > MAX_VAR_BYTES then Fail else ReadBytes(s, j, n)
  }

  /** What an attestation leaf yields at a message: nothing when its type is unknown, None when its payload
      does not decode. Payload bytes after the decoded field are ignored. */
  function LeafMeaning(m: Machine, tag: Bytes, payload: Bytes, msg: Bytes): Option<seq<Attestation>> {
    if tag == TAG_PENDING then
      match ReadVarbytes(m, payload, 0)
      case Fail => None
      case Ok(uri, _) => Some([Pending(uri)])
    else if tag == TAG_BITCOIN then
      match ReadVarint(m, payload, 0)
      case Fail => None
      case Ok(height, _) => Some([Bitcoin(height, msg)])
    else Some([])
  }

  function EvalEdge(m: Machine, e: Edge, msg: Bytes): seq<Attestation> {
    match e
    case Leaf(tag, _, payload) => (match LeafMeaning(m, tag, payload, msg) case None => [] case Some(a) => a)
    case Apply(op, child) => Eval(m, child, Applied(m, op, msg))
  }

  /** The attestations of a tree over a message, in order. */
  function Eval(m: Machine, t: Tree, msg: Bytes): seq<Attestation> {
    match t
    case Fork(e, rest) => EvalEdge(m, e, msg) + Eval(m, rest, msg)
    case Last(e) => EvalEdge(m, e, msg)
  }

  // ----- every leaf sees only its own path

  /** One leaf, and the operations from the root down to it. */
  datatype Path = Path(ops: seq<Op>, tag: Bytes, payload: Bytes)

  function Deeper(op: Op, ps: seq<Path>): seq<Path> {
    if ps == [] then [] else [ps[0].(ops := [op] + ps[0].ops)] + Deeper(op, ps[1..])
  }

  function EdgePaths(e: Edge): seq<Path> {
    match e
    case Leaf(tag, _, payload) => [Path([], tag, payload)]
    case Apply(op, child) => Deeper(op, Paths(child))
  }

  function Paths(t: Tree): seq<Path> {
    match t
    case Fork(e, rest) => EdgePaths(e) + Paths(rest)
    case Last(e) => EdgePaths(e)
  }

  function FoldOps(m: Machine, ops: seq<Op>, msg: Bytes): Bytes {
    if ops == [] then msg else FoldOps(m, ops[1..], Applied(m, ops[0], msg))
  }

  function PathMeaning(m: Machine, p: Path, digest: Bytes): seq<Attestation> {
    match LeafMeaning(m, p.tag, p.payload, FoldOps(m, p.ops, digest)) case None => [] case Some(a) => a
  }

  function Collected(m: Machine, ps: seq<Path>, digest: Bytes): seq<Attestation> {
    if ps == [] then [] else PathMeaning(m, ps[0], digest) + Collected(m, ps[1..], digest)
  }

  lemma {:induction false} CollectedConcat(m: Machine, a: seq<Path>, b: seq<Path>, digest: Bytes)
    ensures Collected(m, a + b, digest) == Collected(m, a, digest) + Collected(m, b, digest)
    decreases a
  {
    hide PathMeaning;
    if a == [] {
      assert a + b == b;
    } else {
      assert (a + b)[1..] == a[1..] + b;
      CollectedConcat(m, a[1..], b, digest);
    }
  }

  lemma {:induction false} CollectedDeeper(m: Machine, op: Op, ps: seq<Path>, digest: Bytes)
    ensures Collected(m, Deeper(op, ps), digest) == Collected(m, ps, Applied(m, op, digest))
    decreases ps
  {
    hide Applied, LeafMeaning;
    if ps != [] {
      var p := ps[0].(ops := [op] + ps[0].ops);
      assert p.ops[1..] == ps[0].ops;
      CollectedDeeper(m, op, ps[1..], digest);
      assert Deeper(op, ps)[0] == p && Deeper(op, ps)[1..] == Deeper(op, ps[1..]);
    }
  }

  /** A tree's attestations are those of its leaves, each at the fold of the operations on its own path over
      the digest: no fork affects a sibling. */
  lemma {:induction false} EvalIsFolds(m: Machine, t: Tree, digest: Bytes)
    ensures Eval(m, t, digest) == Collected(m, Paths(t), digest)
    decreases t
  {
    hide Applied;
    match t
    case Fork(e, rest) =>
      EdgeIsFolds(m, e, digest);
      EvalIsFolds(m, rest, digest);
      CollectedConcat(m, EdgePaths(e), Paths(rest), digest);
    case Last(e) => EdgeIsFolds(m, e, digest);
  }

  lemma {:induction false} EdgeIsFolds(m: Machine, e: Edge, digest: Bytes)
    ensures EvalEdge(m, e, digest) == Collected(m, EdgePaths(e), digest)
    decreases e
  {
    hide Applied, LeafMeaning;
    match e
    case Leaf(tag, raw, payload) =>
      var p := Path([], tag, payload);
      assert [p][1..] == [];
      assert Collected(m, [p], digest) == PathMeaning(m, p, digest) + Collected(m, [], digest);
    case Apply(op, child) =>
      EvalIsFolds(m, child, Applied(m, op, digest));
      CollectedDeeper(m, op, Paths(child), digest);
  }

  // ----- the caps

  predicate OpFits(m: Machine, op: Op, msg: Bytes) {
    match op
    case Append(raw, arg) => Sized(m, raw, arg) && |Applied(m, op, msg)| <= MAX_MESSAGE_BYTES
    case Prepend(raw, arg) => Sized(m, raw, arg) && |Applied(m, op, msg)| <= MAX_MESSAGE_BYTES
    case Hexlify => |Applied(m, op, msg)| <= MAX_MESSAGE_BYTES
    case _ => true
  }

  /** A length as written that names exactly these bytes, within the caps. */
  predicate Sized(m: Machine, raw: Bytes, arg: Bytes) {
    VarintWithin(raw, m.exact) && Value(raw) == |arg| && |arg| <= MAX_VAR_BYTES
  }

  predicate EdgeFits(m: Machine, e: Edge, msg: Bytes, depth: nat) {
    match e
    case Leaf(tag, raw, payload) => |tag| == 8 && Sized(m, raw, payload) && LeafMeaning(m, tag, payload, msg).Some?
    case Apply(op, child) => OpFits(m, op, msg) && Fits(m, child, Applied(m, op, msg), depth + 1)
  }

  /** Every length, message and nesting of the tree is within the caps. */
  predicate Fits(m: Machine, t: Tree, msg: Bytes, depth: nat) {
    depth <= MAX_DEPTH &&
    match t
    case Fork(e, rest) => EdgeFits(m, e, msg, depth) && Fits(m, rest, msg, depth)
    case Last(e) => EdgeFits(m, e, msg, depth)
  }

  function EdgeOps(e: Edge): nat { match e case Leaf(_, _, _) => 0 case Apply(_, child) => 1 + Ops(child) }

  function Ops(t: Tree): nat { match t case Fork(e, rest) => EdgeOps(e) + Ops(rest) case Last(e) => EdgeOps(e) }

  function EdgeLeaves(e: Edge): nat { match e case Leaf(_, _, _) => 1 case Apply(_, child) => Leaves(child) }

  function Leaves(t: Tree): nat { match t case Fork(e, rest) => EdgeLeaves(e) + Leaves(rest) case Last(e) => EdgeLeaves(e) }
}
