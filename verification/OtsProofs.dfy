/** The proof parser accepts exactly the bytes of proof trees, and no accepted proof begins another. */
module OtsProofs {
  import opened Wrappers
  import opened OtsTree
  import opened OtsParser
  import opened Slices

  lemma AtByte(s: Bytes, i: nat, b: Byte)
    ensures At(s, i, [b]) <==> i < |s| && s[i] == b
  {
  }

  lemma AtSelf(s: Bytes, i: nat, e: nat)
    requires i <= e <= |s|
    ensures At(s, i, s[i..e])
  {
  }

  // ----- lengths

  lemma {:induction false} VarintAt(s: Bytes, i: nat, raw: Bytes, left: nat)
    requires At(s, i, raw) && 0 < |raw| <= left && raw[|raw| - 1] < 128
    requires forall k | 0 <= k < |raw| - 1 :: raw[k] >= 128
    ensures VarintEnd(s, i, left) == Some(i + |raw|)
    decreases left
  {
    assert s[i] == s[i..i + |raw|][0] == raw[0];
    if |raw| > 1 {
      assert [raw[0]] + raw[1..] == raw;
      AtConcat(s, i, [raw[0]], raw[1..]);
      VarintAt(s, i + 1, raw[1..], left - 1);
    }
  }

  lemma {:induction false} VarintFound(s: Bytes, i: nat, left: nat, k: nat)
    requires VarintEnd(s, i, left).Some? && i <= k
    ensures i < VarintEnd(s, i, left).value <= |s|
    ensures s[VarintEnd(s, i, left).value - 1] < 128
    ensures k < VarintEnd(s, i, left).value - 1 ==> s[k] >= 128
    decreases left
  {
    if s[i] >= 128 {
      VarintFound(s, i + 1, left - 1, if k > i then k else i + 1);
    }
  }

  lemma VarintEnds(s: Bytes, i: nat, raw: Bytes)
    requires At(s, i, raw) && IsVarint(raw)
    ensures VarintEnd(s, i, MAX_VARINT_BYTES) == Some(i + |raw|) && i + |raw| <= |s| && s[i..i + |raw|] == raw
  {
    hide VarintEnd;
    VarintAt(s, i, raw, MAX_VARINT_BYTES);
  }

  lemma ReadsVarint(m: Machine, s: Bytes, i: nat, raw: Bytes)
    requires At(s, i, raw) && VarintWithin(raw, m.exact)
    ensures ReadVarint(m, s, i) == Ok(Value(raw), i + |raw|)
  {
    hide Value, VarintEnd, IsVarint, At;
    VarintEnds(s, i, raw);
  }

  lemma VarintRead(m: Machine, s: Bytes, i: nat) returns (raw: Bytes)
    requires ReadVarint(m, s, i).Ok?
    ensures At(s, i, raw) && VarintWithin(raw, m.exact)
    ensures ReadVarint(m, s, i) == Ok(Value(raw), i + |raw|)
    ensures raw == s[i..VarintEnd(s, i, MAX_VARINT_BYTES).value]
  {
    VarintEndBounds(s, i, MAX_VARINT_BYTES);
    var e := VarintEnd(s, i, MAX_VARINT_BYTES).value;
    raw := s[i..e];
    forall k | 0 <= k < |raw| - 1
      ensures raw[k] >= 128
    {
      VarintFound(s, i, MAX_VARINT_BYTES, i + k);
    }
    VarintFound(s, i, MAX_VARINT_BYTES, i);
    assert raw[|raw| - 1] == s[e - 1];
  }

  lemma ReadsVarbytes(m: Machine, s: Bytes, i: nat, raw: Bytes, arg: Bytes)
    requires At(s, i, raw + arg) && Sized(m, raw, arg)
    ensures ReadVarbytes(m, s, i) == Ok(arg, i + |raw| + |arg|)
    ensures VarintEnd(s, i, MAX_VARINT_BYTES) == Some(i + |raw|) && s[i..i + |raw|] == raw
  {
    hide Value, VarintEnd, IsVarint, ReadVarint;
    AtConcat(s, i, raw, arg);
    ReadsVarint(m, s, i, raw);
    VarintEnds(s, i, raw);
  }

  lemma VarbytesRead(m: Machine, s: Bytes, i: nat) returns (raw: Bytes, arg: Bytes)
    requires ReadVarbytes(m, s, i).Ok?
    ensures At(s, i, raw + arg) && Sized(m, raw, arg)
    ensures ReadVarbytes(m, s, i) == Ok(arg, i + |raw| + |arg|)
    ensures raw == s[i..VarintEnd(s, i, MAX_VARINT_BYTES).value]
  {
    hide ReadVarint, Value;
    raw := VarintRead(m, s, i);
    arg := ReadVarbytes(m, s, i).value;
    AtSelf(s, i + |raw|, i + |raw| + |arg|);
    AtConcat(s, i, raw, arg);
  }

  // ----- operations and leaves

  function OpTag(op: Op): Byte { OpText(op)[0] }

  /** The bytes of an operation that carries an argument. */
  lemma ArgText(s: Bytes, i: nat, tag: Byte, raw: Bytes, arg: Bytes)
    ensures [tag] + raw + arg == [tag] + (raw + arg)
    ensures At(s, i, [tag] + raw + arg) <==> i < |s| && s[i] == tag && At(s, i + 1, raw + arg)
  {
    assert [tag] + raw + arg == [tag] + (raw + arg);
    AtConcat(s, i, [tag], raw + arg);
    AtByte(s, i, tag);
  }

  lemma ReadsOp(m: Machine, s: Bytes, i: nat, op: Op, msg: Bytes)
    requires At(s, i, OpText(op)) && OpFits(m, op, msg)
    ensures i < |s| && s[i] == OpTag(op) && OpTag(op) != 0 && OpTag(op) != FORK
    ensures ReadOp(m, s, s[i], i + 1, msg) == Ok(op, i + |OpText(op)|)
  {
    hide At, ReadOp, OpText, OpFits, OpTag;
    if op.Append? || op.Prepend? { ReadsArgOp(m, s, i, op, msg); } else { ReadsPlainOp(m, s, i, op, msg); }
  }

  lemma ArgOpFits(m: Machine, op: Op, msg: Bytes)
    requires OpFits(m, op, msg) && (op.Append? || op.Prepend?)
    ensures Sized(m, op.raw, op.arg) && |msg| + |op.arg| <= MAX_MESSAGE_BYTES
    ensures OpText(op) == [if op.Append? then 0xf0 else 0xf1] + op.raw + op.arg
  {
    hide Sized, Hex, Reversed;
  }

  lemma ArgOpRead(m: Machine, s: Bytes, i: nat, op: Op, msg: Bytes)
    requires (op.Append? || op.Prepend?) && |msg| + |op.arg| <= MAX_MESSAGE_BYTES
    requires ReadVarbytes(m, s, i) == Ok(op.arg, i + |op.raw| + |op.arg|)
    requires VarintEnd(s, i, MAX_VARINT_BYTES) == Some(i + |op.raw|) && i + |op.raw| <= |s| && s[i..i + |op.raw|] == op.raw
    ensures ReadOp(m, s, if op.Append? then 0xf0 else 0xf1, i, msg) == Ok(op, i + |op.raw| + |op.arg|)
  {
    hide ReadVarbytes, VarintEnd;
  }

  lemma ReadsArgOp(m: Machine, s: Bytes, i: nat, op: Op, msg: Bytes)
    requires At(s, i, OpText(op)) && OpFits(m, op, msg) && (op.Append? || op.Prepend?)
    ensures i < |s| && s[i] == OpTag(op) && OpTag(op) != 0 && OpTag(op) != FORK
    ensures ReadOp(m, s, s[i], i + 1, msg) == Ok(op, i + |OpText(op)|)
  {
    hide At, ReadOp, OpFits, OpText, ReadVarbytes, Sized, VarintEnd;
    ArgOpFits(m, op, msg);
    ArgText(s, i, if op.Append? then 0xf0 else 0xf1, op.raw, op.arg);
    ReadsVarbytes(m, s, i + 1, op.raw, op.arg);
    ArgOpRead(m, s, i + 1, op, msg);
  }

  lemma ReadsPlainOp(m: Machine, s: Bytes, i: nat, op: Op, msg: Bytes)
    requires At(s, i, OpText(op)) && OpFits(m, op, msg) && !op.Append? && !op.Prepend?
    ensures i < |s| && s[i] == OpTag(op) && OpTag(op) != 0 && OpTag(op) != FORK
    ensures ReadOp(m, s, s[i], i + 1, msg) == Ok(op, i + |OpText(op)|)
  {
    hide At, ReadVarbytes, Sized, VarintEnd, Reversed, Hex;
    HexLength(msg);
    AtByte(s, i, OpText(op)[0]);
    assert OpText(op) == [OpText(op)[0]];
  }

  lemma OpRead(m: Machine, s: Bytes, i: nat, msg: Bytes) returns (op: Op)
    requires i < |s| && ReadOp(m, s, s[i], i + 1, msg).Ok?
    ensures OpFits(m, op, msg) && At(s, i, OpText(op))
    ensures ReadOp(m, s, s[i], i + 1, msg) == Ok(op, i + |OpText(op)|)
  {
    hide At, ReadVarbytes, Sized, VarintEnd, Reversed, Hex;
    op := ReadOp(m, s, s[i], i + 1, msg).value;
    AtByte(s, i, s[i]);
    if s[i] == 0xf0 || s[i] == 0xf1 {
      var raw, arg := VarbytesRead(m, s, i + 1);
      ArgText(s, i, s[i], raw, arg);
    } else {
      HexLength(msg);
      assert OpText(op) == [s[i]];
    }
  }

  lemma AtRead(s: Bytes, i: nat, w: Bytes)
    requires At(s, i, w)
    ensures ReadBytes(s, i, |w|) == Ok(w, i + |w|)
  {
  }

  lemma ReadsLeaf(m: Machine, s: Bytes, i: nat, e: Edge, msg: Bytes, ops: nat, leaves: nat)
    requires e.Leaf? && EdgeFits(m, e, msg, 0) && leaves + 1 <= MAX_ATTESTATIONS
    requires At(s, i, EdgeText(e))
    ensures i < |s| && s[i] == 0
    ensures ReadLeaf(m, s, i + 1, msg, ops, leaves) == Node(EvalEdge(m, e, msg), i + |EdgeText(e)|, ops, leaves + 1)
  {
    hide ReadVarbytes, LeafMeaning, Sized, At;
    AtConcat(s, i, [0x00], e.tag + (e.raw + e.payload));
    AtConcat(s, i + 1, e.tag, e.raw + e.payload);
    AtByte(s, i, 0x00);
    AtRead(s, i + 1, e.tag);
    ReadsVarbytes(m, s, i + 9, e.raw, e.payload);
  }

  lemma LeafRead(m: Machine, s: Bytes, i: nat, msg: Bytes, ops: nat, leaves: nat) returns (e: Edge)
    requires i < |s| && s[i] == 0 && ReadLeaf(m, s, i + 1, msg, ops, leaves).Node?
    ensures e.Leaf? && EdgeFits(m, e, msg, 0) && At(s, i, EdgeText(e)) && leaves + 1 <= MAX_ATTESTATIONS
    ensures ReadLeaf(m, s, i + 1, msg, ops, leaves) == Node(EvalEdge(m, e, msg), i + |EdgeText(e)|, ops, leaves + 1)
  {
    hide ReadVarbytes, LeafMeaning, Sized;
    var tag := s[i + 1..i + 9];
    var raw, payload := VarbytesRead(m, s, i + 9);
    e := Leaf(tag, raw, payload);
    AtByte(s, i, 0x00);
    AtSelf(s, i + 1, i + 9);
    AtConcat(s, i + 1, tag, raw + payload);
    AtConcat(s, i, [0x00], tag + (raw + payload));
  }

  // ----- a tree's bytes parse to its meaning

  lemma {:induction false} ReadsEdge(m: Machine, s: Bytes, i: nat, e: Edge, msg: Bytes, depth: nat, ops: nat, leaves: nat)
    requires EdgeFits(m, e, msg, depth) && At(s, i, EdgeText(e))
    requires ops + EdgeOps(e) <= MAX_OPS && leaves + EdgeLeaves(e) <= MAX_ATTESTATIONS
    ensures i < |s| && s[i] != FORK
    ensures ReadEdge(m, s, s[i], i + 1, msg, depth, ops, leaves)
         == Node(EvalEdge(m, e, msg), i + |EdgeText(e)|, ops + EdgeOps(e), leaves + EdgeLeaves(e))
    decreases e
  {
    hide ReadLeaf, ReadOp, OpText, Applied, OpFits, At;
    match e
    case Leaf(_, _, _) => ReadsLeaf(m, s, i, e, msg, ops, leaves);
    case Apply(op, child) =>
      AtConcat(s, i, OpText(op), Text(child));
      ReadsOp(m, s, i, op, msg);
      ReadsNode(m, s, i + |OpText(op)|, child, Applied(m, op, msg), depth + 1, ops + 1, leaves);
  }

  lemma {:induction false} ReadsNode(m: Machine, s: Bytes, i: nat, t: Tree, msg: Bytes, depth: nat, ops: nat, leaves: nat)
    requires Fits(m, t, msg, depth) && At(s, i, Text(t))
    requires ops + Ops(t) <= MAX_OPS && leaves + Leaves(t) <= MAX_ATTESTATIONS
    ensures ReadNode(m, s, i, msg, depth, ops, leaves) == Node(Eval(m, t, msg), i + |Text(t)|, ops + Ops(t), leaves + Leaves(t))
    decreases t
  {
    hide EdgeText, EvalEdge, EdgeFits, ReadEdge, EdgeOps, EdgeLeaves, At;
    match t
    case Last(e) => ReadsEdge(m, s, i, e, msg, depth, ops, leaves);
    case Fork(e, rest) =>
      AtConcat(s, i, [FORK], EdgeText(e) + Text(rest));
      AtConcat(s, i + 1, EdgeText(e), Text(rest));
      AtByte(s, i, FORK);
      ReadsEdge(m, s, i + 1, e, msg, depth, ops, leaves);
      ReadsNode(m, s, i + 1 + |EdgeText(e)|, rest, msg, depth, ops + EdgeOps(e), leaves + EdgeLeaves(e));
  }

  // ----- whatever parses is a tree's bytes

  lemma {:induction false} EdgeRead(m: Machine, s: Bytes, i: nat, msg: Bytes, depth: nat, ops: nat, leaves: nat) returns (e: Edge)
    requires i < |s| && ReadEdge(m, s, s[i], i + 1, msg, depth, ops, leaves).Node?
    requires ops <= MAX_OPS && leaves <= MAX_ATTESTATIONS
    ensures EdgeFits(m, e, msg, depth) && At(s, i, EdgeText(e))
    ensures ReadEdge(m, s, s[i], i + 1, msg, depth, ops, leaves)
         == Node(EvalEdge(m, e, msg), i + |EdgeText(e)|, ops + EdgeOps(e), leaves + EdgeLeaves(e))
    ensures ops + EdgeOps(e) <= MAX_OPS && leaves + EdgeLeaves(e) <= MAX_ATTESTATIONS
    decreases |s| - i, 0
  {
    hide ReadLeaf, ReadOp, OpText, Applied, OpFits, At;
    if s[i] == 0 {
      e := LeafRead(m, s, i, msg, ops, leaves);
    } else {
      var op := OpRead(m, s, i, msg);
      ReadsOp(m, s, i, op, msg);
      var child := NodeRead(m, s, i + |OpText(op)|, Applied(m, op, msg), depth + 1, ops + 1, leaves);
      e := Apply(op, child);
      AtConcat(s, i, OpText(op), Text(child));
    }
  }

  lemma {:induction false} NodeRead(m: Machine, s: Bytes, i: nat, msg: Bytes, depth: nat, ops: nat, leaves: nat) returns (t: Tree)
    requires i <= |s| && ReadNode(m, s, i, msg, depth, ops, leaves).Node?
    requires ops <= MAX_OPS && leaves <= MAX_ATTESTATIONS
    ensures Fits(m, t, msg, depth) && At(s, i, Text(t))
    ensures ReadNode(m, s, i, msg, depth, ops, leaves) == Node(Eval(m, t, msg), i + |Text(t)|, ops + Ops(t), leaves + Leaves(t))
    ensures ops + Ops(t) <= MAX_OPS && leaves + Leaves(t) <= MAX_ATTESTATIONS
    decreases |s| - i, 1
  {
    hide EdgeText, EvalEdge, EdgeFits, ReadEdge, EdgeOps, EdgeLeaves, At;
    if s[i] != FORK {
      var e := EdgeRead(m, s, i, msg, depth, ops, leaves);
      t := Last(e);
    } else {
      var e := EdgeRead(m, s, i + 1, msg, depth, ops, leaves);
      var rest := NodeRead(m, s, i + 1 + |EdgeText(e)|, msg, depth, ops + EdgeOps(e), leaves + EdgeLeaves(e));
      t := Fork(e, rest);
      AtByte(s, i, FORK);
      AtConcat(s, i + 1, EdgeText(e), Text(rest));
      AtConcat(s, i, [FORK], EdgeText(e) + Text(rest));
    }
  }

  // ----- whole proofs

  /** A tree within every cap over a digest. */
  predicate TreeOk(m: Machine, t: Tree, digest: Bytes) {
    Fits(m, t, digest, 0) && Ops(t) <= MAX_OPS && Leaves(t) <= MAX_ATTESTATIONS
  }

  /** The header of a full `.ots` file: its own digest is carried but plays no part. */
  predicate IsHeader(m: Machine, h: Bytes, version: Bytes, op: Byte, own: Bytes) {
    && VarintWithin(version, m.exact)
    && DigestLength(op) > 0 && |own| == DigestLength(op)
    && h == MAGIC + (version + ([op] + own))
  }

  ghost predicate HasHeader(m: Machine, h: Bytes) { exists version, op, own :: IsHeader(m, h, version, op, own) }

  lemma StartsAfterHeader(m: Machine, s: Bytes, h: Bytes, version: Bytes, op: Byte, own: Bytes)
    requires IsHeader(m, h, version, op, own) && h <= s
    ensures StreamStart(m, s) == Some(|h|) && MAGIC <= s
  {
    hide Value, ReadVarint;
    AtConcat(s, 0, MAGIC, version + ([op] + own));
    AtConcat(s, |MAGIC|, version, [op] + own);
    AtConcat(s, |MAGIC| + |version|, [op], own);
    AtByte(s, |MAGIC| + |version|, op);
    ReadsVarint(m, s, |MAGIC|, version);
  }

  lemma HeaderFound(m: Machine, s: Bytes)
    requires MAGIC <= s && StreamStart(m, s).Some?
    ensures HasHeader(m, s[..StreamStart(m, s).value])
  {
    hide Value, ReadVarint;
    var i := StreamStart(m, s).value;
    var version := VarintRead(m, s, |MAGIC|);
    var j := |MAGIC| + |version|;
    var op, own := s[j], s[j + 1..i];
    AtConcat(s, j, [op], own);
    AtByte(s, j, op);
    AtConcat(s, |MAGIC|, version, [op] + own);
    AtConcat(s, 0, MAGIC, version + ([op] + own));
    assert IsHeader(m, s[..i], version, op, own);
  }

  /** These bytes are a header or nothing, then the bytes of this tree. */
  ghost predicate Describes(m: Machine, s: Bytes, digest: Bytes, h: Bytes, t: Tree) {
    && s == h + Text(t) && TreeOk(m, t, digest)
    && if MAGIC <= s then HasHeader(m, h) else h == []
  }

  lemma DescribedParses(m: Machine, s: Bytes, digest: Bytes, h: Bytes, t: Tree)
    requires Describes(m, s, digest, h, t) && |s| <= MAX_FILE_BYTES
    ensures Parse(m, s, digest) == Some(Eval(m, t, digest))
  {
    hide StreamStart, Text, Fits, Eval, Ops, Leaves, ReadNode, DigestLength;
    if MAGIC <= s {
      var version, op, own :| IsHeader(m, h, version, op, own);
      StartsAfterHeader(m, s, h, version, op, own);
    } else {
      RawStart(m, s);
    }
    AtSelf(s, |h|, |s|);
    assert s[|h|..|s|] == Text(t);
    ReadsNode(m, s, |h|, t, digest, 0, 0, 0);
  }

  lemma RawStart(m: Machine, s: Bytes)
    requires !(MAGIC <= s)
    ensures StreamStart(m, s) == Some(0)
  {
  }

  lemma ParsedDescribes(m: Machine, s: Bytes, digest: Bytes) returns (h: Bytes, t: Tree)
    requires Parse(m, s, digest).Some?
    ensures Describes(m, s, digest, h, t) && Parse(m, s, digest) == Some(Eval(m, t, digest))
  {
    hide StreamStart, Text, Fits, Eval, Ops, Leaves, ReadNode, HasHeader;
    var i := StreamStart(m, s).value;
    t := NodeRead(m, s, i, digest, 0, 0, 0);
    h := s[..i];
    assert s == s[..i] + s[i..|s|];
    if MAGIC <= s { HeaderFound(m, s); } else { RawStart(m, s); }
  }

  /** In raw or full form, a proof parses to given attestations exactly when it is the bytes of a tree within
      the caps that means those attestations over the submitted digest. */
  lemma ParseExactly(m: Machine, s: Bytes, digest: Bytes, out: seq<Attestation>)
    ensures Parse(m, s, digest) == Some(out)
       <==> |s| <= MAX_FILE_BYTES && exists h, t :: Describes(m, s, digest, h, t) && out == Eval(m, t, digest)
  {
    hide ReadNode, StreamStart, Describes, Eval;
    if Parse(m, s, digest) == Some(out) {
      var h, t := ParsedDescribes(m, s, digest);
    }
    if |s| <= MAX_FILE_BYTES {
      forall h, t | Describes(m, s, digest, h, t) && out == Eval(m, t, digest)
        ensures Parse(m, s, digest) == Some(out)
      {
        DescribedParses(m, s, digest, h, t);
      }
    }
  }

  // ----- prefix freedom

  /** Read as a raw stream, a proper beginning of the magic is an attestation cut short. */
  lemma MagicPrefixFails(m: Machine, a: Bytes, digest: Bytes)
    requires a <= MAGIC && |a| < |MAGIC|
    ensures Parse(m, a, digest) == None
  {
    hide LeafMeaning, ReadVarbytes, StreamStart;
    RawStart(m, a);
    if |a| > 0 {
      assert a[0] == MAGIC[0] == 0x00;
      if |a| >= 9 { MagicLengthFails(m, a); }
      assert ReadLeaf(m, a, 1, digest, 0, 0) == Bad;
      assert ReadEdge(m, a, a[0], 1, digest, 0, 0, 0) == Bad;
    }
  }

  /** The tenth byte of the magic, as a length, names more bytes than the magic has left. */
  lemma MagicLengthFails(m: Machine, a: Bytes)
    requires a <= MAGIC && 9 <= |a| < |MAGIC|
    ensures ReadVarbytes(m, a, 9) == Fail
  {
    if |a| >= 10 {
      assert a[9] == MAGIC[9] == 0x73;
      assert VarintEnd(a, 9, MAX_VARINT_BYTES) == Some(10);
      assert a[9..10] == [0x73] && [0x73][1..] == [] && Value([0x73]) == 115;
    }
  }

  /** Bytes read as a tree in one way only, whatever the messages. */
  lemma {:induction false} OneTree(m: Machine, s: Bytes, i: nat, t: Tree, msg: Bytes, u: Tree, other: Bytes, depth: nat)
    requires Fits(m, t, msg, depth) && Fits(m, u, other, depth) && At(s, i, Text(t)) && At(s, i, Text(u))
    ensures t == u
    decreases t
  {
    hide EdgeText, EdgeFits;
    TreeStart(m, s, i, t, msg, depth);
    TreeStart(m, s, i, u, other, depth);
    match (t, u)
    case (Last(e), Last(f)) => OneEdge(m, s, i, e, msg, f, other, depth);
    case (Fork(e, rest), Fork(f, more)) =>
      OneEdge(m, s, i + 1, e, msg, f, other, depth);
      OneTree(m, s, i + 1 + |EdgeText(e)|, rest, msg, more, other, depth);
    case _ =>
  }

  /** What the first bytes of a tree say about it. */
  lemma TreeStart(m: Machine, s: Bytes, i: nat, t: Tree, msg: Bytes, depth: nat)
    requires Fits(m, t, msg, depth) && At(s, i, Text(t))
    ensures i < |s| && (t.Fork? <==> s[i] == FORK)
    ensures t.Fork? ==> At(s, i + 1, EdgeText(t.edge)) && At(s, i + 1 + |EdgeText(t.edge)|, Text(t.rest))
    ensures t.Last? ==> At(s, i, EdgeText(t.edge))
  {
    hide EdgeText, EdgeFits, At;
    match t
    case Last(e) => EdgeStart(m, s, i, e, msg, depth);
    case Fork(e, rest) =>
      AtConcat(s, i, [FORK], EdgeText(e) + Text(rest));
      AtConcat(s, i + 1, EdgeText(e), Text(rest));
      AtByte(s, i, FORK);
  }

  lemma EdgeStart(m: Machine, s: Bytes, i: nat, e: Edge, msg: Bytes, depth: nat)
    requires EdgeFits(m, e, msg, depth) && At(s, i, EdgeText(e))
    ensures i < |s| && s[i] != FORK && (e.Leaf? <==> s[i] == 0)
    ensures e.Apply? ==> At(s, i, OpText(e.op)) && At(s, i + |OpText(e.op)|, Text(e.child))
  {
    hide Text, OpText, Applied, OpFits, Sized, LeafMeaning, Fits, At;
    match e
    case Leaf(tag, raw, payload) =>
      AtConcat(s, i, [0x00], tag + (raw + payload));
      AtByte(s, i, 0x00);
    case Apply(op, child) =>
      AtConcat(s, i, OpText(op), Text(child));
      ReadsOp(m, s, i, op, msg);
  }

  lemma {:induction false} OneEdge(m: Machine, s: Bytes, i: nat, e: Edge, msg: Bytes, f: Edge, other: Bytes, depth: nat)
    requires EdgeFits(m, e, msg, depth) && EdgeFits(m, f, other, depth) && At(s, i, EdgeText(e)) && At(s, i, EdgeText(f))
    ensures e == f
    decreases e
  {
    hide EdgeText, Text, OpText, Applied, OpFits, At, ReadLeaf, ReadOp, LeafMeaning;
    EdgeStart(m, s, i, e, msg, depth);
    EdgeStart(m, s, i, f, other, depth);
    match (e, f)
    case (Leaf(_, _, _), Leaf(_, _, _)) => OneLeaf(m, s, i, e, f);
    case (Apply(op, child), Apply(op2, child2)) =>
      ReadsOp(m, s, i, op, msg);
      ReadsOp(m, s, i, op2, other);
      SameOp(m, s, s[i], i + 1, msg, other);
      OneTree(m, s, i + |OpText(op)|, child, Applied(m, op, msg), child2, Applied(m, op2, other), depth + 1);
    case _ =>
  }

  lemma SameOp(m: Machine, s: Bytes, tag: Byte, i: nat, msg: Bytes, other: Bytes)
    requires ReadOp(m, s, tag, i, msg).Ok? && ReadOp(m, s, tag, i, other).Ok?
    ensures ReadOp(m, s, tag, i, msg) == ReadOp(m, s, tag, i, other)
  {
    hide ReadVarbytes;
  }

  lemma OneLeaf(m: Machine, s: Bytes, i: nat, e: Edge, f: Edge)
    requires e.Leaf? && f.Leaf? && |e.tag| == 8 && |f.tag| == 8 && Sized(m, e.raw, e.payload) && Sized(m, f.raw, f.payload)
    requires At(s, i, EdgeText(e)) && At(s, i, EdgeText(f))
    ensures e == f
  {
    hide At, Sized, ReadVarbytes;
    LeafAt(m, s, i, e);
    LeafAt(m, s, i, f);
    ReadsVarbytes(m, s, i + 9, e.raw, e.payload);
    ReadsVarbytes(m, s, i + 9, f.raw, f.payload);
  }

  lemma LeafAt(m: Machine, s: Bytes, i: nat, e: Edge)
    requires e.Leaf? && |e.tag| == 8 && At(s, i, EdgeText(e))
    ensures ReadBytes(s, i + 1, 8) == Ok(e.tag, i + 9) && At(s, i + 9, e.raw + e.payload)
  {
    hide At;
    AtConcat(s, i, [0x00], e.tag + (e.raw + e.payload));
    AtConcat(s, i + 1, e.tag, e.raw + e.payload);
    AtRead(s, i + 1, e.tag);
  }

  /** No accepted proof is a proper beginning of another, in either container form and over any digests. */
  lemma AcceptedPrefixFree(m: Machine, a: Bytes, digest: Bytes, b: Bytes, other: Bytes)
    requires a <= b && Parse(m, a, digest).Some? && Parse(m, b, other).Some?
    ensures a == b
  {
    hide Parse, Describes, Eval;
    var h, t := ParsedDescribes(m, a, digest);
    var g, u := ParsedDescribes(m, b, other);
    if |a| < |MAGIC| && MAGIC <= b {
      assert a <= MAGIC;
      MagicPrefixFails(m, a, digest);
      assert false;
    } else {
      assert MAGIC <= a <==> MAGIC <= b;
      SameDescription(m, a, digest, h, t, b, other, g, u);
    }
  }

  lemma SameDescription(m: Machine, a: Bytes, digest: Bytes, h: Bytes, t: Tree, b: Bytes, other: Bytes, g: Bytes, u: Tree)
    requires Describes(m, a, digest, h, t) && Describes(m, b, other, g, u) && a <= b && (MAGIC <= a <==> MAGIC <= b)
    ensures a == b
  {
    hide StreamStart, Text, Fits, Ops, Leaves, DigestLength, IsHeader;
    assert h <= a <= b && g <= b;
    if MAGIC <= a {
      var version, op, own :| IsHeader(m, h, version, op, own);
      StartsAfterHeader(m, b, h, version, op, own);
      var version2, op2, own2 :| IsHeader(m, g, version2, op2, own2);
      StartsAfterHeader(m, b, g, version2, op2, own2);
    }
    assert |h| == |g| && h == b[..|h|] == g;
    assert b[|h|..|a|] == a[|h|..] == Text(t);
    assert b[|h|..|b|] == Text(u);
    OneTree(m, b, |h|, t, digest, u, other, 0);
  }

  // ----- the corpus encoders

  /** The shortest varint (varint in scripts/gen-corpus.ts). */
  function Encoded(v: nat): Bytes { if v < 128 then [v] else [v % 128 + 128] + Encoded(v / 128) }

  method EncodeVarint(value: nat) returns (out: Bytes)
    ensures out == Encoded(value)
  {
    out := [];
    var v, more := value, true;
    while more
      invariant more ==> Encoded(value) == out + Encoded(v)
      invariant !more ==> Encoded(value) == out
      decreases if more then v + 1 else 0
    {
      var b := v % 128;
      var next := v / 128;
      if next > 0 { b := b + 128; }
      out := out + [b];
      v, more := next, next > 0;
    }
  }

  lemma {:induction false} EncodedValue(v: nat)
    ensures Value(Encoded(v)) == v
    ensures |Encoded(v)| > 0 && Encoded(v)[|Encoded(v)| - 1] < 128
    ensures forall i | 0 <= i < |Encoded(v)| - 1 :: Encoded(v)[i] >= 128
  {
    if v >= 128 {
      EncodedValue(v / 128);
      assert Encoded(v)[1..] == Encoded(v / 128);
    } else {
      assert [v as Byte][1..] == [];
    }
  }

  lemma {:induction false} EncodedLength(v: nat, n: nat)
    requires v < Scale(n) && n > 0
    ensures |Encoded(v)| <= n
  {
    if v >= 128 {
      assert v < 128 * Scale(n - 1);
      assert v / 128 < Scale(n - 1);
      if n == 1 { assert false; } else { EncodedLength(v / 128, n - 1); }
    }
  }

  /** A length or height below 2^63 is written as a varint that reads back. */
  lemma EncodedIsVarint(v: nat)
    requires v < Scale(9)
    ensures IsVarint(Encoded(v)) && Value(Encoded(v)) == v
  {
    EncodedValue(v);
    EncodedLength(v, 9);
  }

  function EncodedBytes(payload: Bytes): Bytes { Encoded(|payload|) + payload }

  const SALT: Bytes := [0xa1, 0xb2, 0xc3, 0xd4, 0xe5, 0xf6, 0x07, 0x08]

  /** append the salt, hash, attest: the stream both corpus proofs share. */
  function CorpusProof(tag: Bytes, payload: Bytes): Bytes {
    [0xf0] + EncodedBytes(SALT) + [0x08] + [0x00] + tag + EncodedBytes(payload)
  }

  function PendingProof(uri: Bytes): Bytes { CorpusProof(TAG_PENDING, EncodedBytes(uri)) }

  function BitcoinProof(height: nat): Bytes { CorpusProof(TAG_BITCOIN, Encoded(height)) }

  function CorpusTree(tag: Bytes, payload: Bytes): Tree {
    Last(Apply(Append(Encoded(|SALT|), SALT), Last(Apply(Sha256, Last(Leaf(tag, Encoded(|payload|), payload))))))
  }

  lemma ShortLength(m: Machine, payload: Bytes)
    requires |payload| <= MAX_VAR_BYTES <= m.exact
    ensures Sized(m, Encoded(|payload|), payload)
  {
    assert Scale(2) == 16384 && Scale(9) == 128 * (128 * (128 * (128 * (128 * (128 * (128 * Scale(2)))))));
    EncodedIsVarint(|payload|);
  }

  lemma CorpusText(tag: Bytes, payload: Bytes)
    ensures Text(CorpusTree(tag, payload)) == CorpusProof(tag, payload)
  {
    hide Encoded;
    var leaf := Leaf(tag, Encoded(|payload|), payload);
    var hashed := Last(Apply(Sha256, Last(leaf)));
    assert EdgeText(leaf) == [0x00] + tag + EncodedBytes(payload);
    assert Text(Last(leaf)) == EdgeText(leaf);
    assert Text(hashed) == [0x08] + EdgeText(leaf);
    assert Text(CorpusTree(tag, payload)) == [0xf0] + Encoded(|SALT|) + SALT + Text(hashed);
  }

  /** One more operation in front of a tree. */
  lemma ApplyFirst(m: Machine, op: Op, t: Tree, msg: Bytes, depth: nat)
    requires OpFits(m, op, msg) && Fits(m, t, Applied(m, op, msg), depth + 1)
    ensures var u := Last(Apply(op, t));
            Fits(m, u, msg, depth) && Eval(m, u, msg) == Eval(m, t, Applied(m, op, msg))
            && Ops(u) == Ops(t) + 1 && Leaves(u) == Leaves(t)
  {
    hide OpFits, Applied;
  }

  lemma LeafAlone(m: Machine, tag: Bytes, payload: Bytes, msg: Bytes, out: seq<Attestation>, depth: nat)
    requires |tag| == 8 && Sized(m, Encoded(|payload|), payload) && LeafMeaning(m, tag, payload, msg) == Some(out) && depth <= MAX_DEPTH
    ensures var t := Last(Leaf(tag, Encoded(|payload|), payload));
            Fits(m, t, msg, depth) && Eval(m, t, msg) == out && Ops(t) == 0 && Leaves(t) == 1
  {
    hide LeafMeaning, Sized, Encoded;
  }

  lemma CorpusTreeReads(m: Machine, tag: Bytes, payload: Bytes, digest: Bytes, out: seq<Attestation>)
    requires |tag| == 8 && |digest| + |SALT| <= MAX_MESSAGE_BYTES
    requires Sized(m, Encoded(|SALT|), SALT) && Sized(m, Encoded(|payload|), payload)
    requires LeafMeaning(m, tag, payload, m.sha256(digest + SALT)) == Some(out)
    ensures var t := CorpusTree(tag, payload); TreeOk(m, t, digest) && Eval(m, t, digest) == out
  {
    hide LeafMeaning, Encoded, Sized, Fits, Eval, Ops, Leaves;
    var leaf := Last(Leaf(tag, Encoded(|payload|), payload));
    LeafAlone(m, tag, payload, m.sha256(digest + SALT), out, 2);
    ApplyFirst(m, Sha256, leaf, digest + SALT, 1);
    ApplyFirst(m, Append(Encoded(|SALT|), SALT), Last(Apply(Sha256, leaf)), digest, 0);
  }

  lemma CorpusParses(m: Machine, tag: Bytes, payload: Bytes, digest: Bytes, out: seq<Attestation>)
    requires |tag| == 8 && |payload| <= MAX_VAR_BYTES <= m.exact && |digest| + |SALT| <= MAX_MESSAGE_BYTES
    requires LeafMeaning(m, tag, payload, m.sha256(digest + SALT)) == Some(out)
    ensures Parse(m, CorpusProof(tag, payload), digest) == Some(out)
  {
    hide LeafMeaning, Encoded, Sized, Parse, IsVarint;
    var s, t := CorpusProof(tag, payload), CorpusTree(tag, payload);
    ShortLength(m, SALT);
    ShortLength(m, payload);
    CorpusText(tag, payload);
    CorpusTreeReads(m, tag, payload, digest, out);
    EncodedShort(|SALT|);
    EncodedShort(|payload|);
    assert s[0] != MAGIC[0];
    assert Describes(m, s, digest, [], t);
    DescribedParses(m, s, digest, [], t);
  }

  lemma EncodedShort(v: nat)
    requires v <= MAX_VAR_BYTES
    ensures |Encoded(v)| <= 2
  {
    assert Scale(2) == 16384;
    EncodedLength(v, 2);
  }

  /** A pending corpus proof parses to exactly the attestation it was made from. */
  lemma PendingProofParses(m: Machine, uri: Bytes, digest: Bytes)
    requires |EncodedBytes(uri)| <= MAX_VAR_BYTES <= m.exact && |digest| + |SALT| <= MAX_MESSAGE_BYTES
    ensures Parse(m, PendingProof(uri), digest) == Some([Pending(uri)])
  {
    hide Encoded, ReadVarbytes, Parse, CorpusProof;
    ShortLength(m, uri);
    var inner := EncodedBytes(uri);
    assert At(inner, 0, inner);
    ReadsVarbytes(m, inner, 0, Encoded(|uri|), uri);
    CorpusParses(m, TAG_PENDING, inner, digest, [Pending(uri)]);
  }

  /** So does a Bitcoin one, over the value the operations derive from the digest. */
  lemma BitcoinProofParses(m: Machine, height: nat, digest: Bytes)
    requires height <= m.exact < Scale(9) && MAX_VAR_BYTES <= m.exact && |digest| + |SALT| <= MAX_MESSAGE_BYTES
    ensures Parse(m, BitcoinProof(height), digest) == Some([Bitcoin(height, m.sha256(digest + SALT))])
  {
    hide Encoded, ReadVarint, Parse, CorpusProof;
    EncodedIsVarint(height);
    var inner := Encoded(height);
    assert At(inner, 0, inner);
    ReadsVarint(m, inner, 0, inner);
    CorpusParses(m, TAG_BITCOIN, inner, digest, [Bitcoin(height, m.sha256(digest + SALT))]);
  }
}
