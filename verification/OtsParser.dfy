/** The proof parser (class Reader and parseOtsProof in src/audit/ots-proof.ts, verifier/ots.go). */
module OtsParser {
  import opened Wrappers
  import opened OtsTree

  const MAGIC: Bytes := [
    0x00, 0x4f, 0x70, 0x65, 0x6e, 0x54, 0x69, 0x6d, 0x65, 0x73, 0x74, 0x61, 0x6d, 0x70, 0x73, 0x00,
    0x00, 0x50, 0x72, 0x6f, 0x6f, 0x66, 0x00, 0xbf, 0x89, 0xe2, 0xe8, 0x84, 0xe8, 0x92, 0x94]

  // ----- what the cursor computes

  /** The operation a tag introduces, with its argument, when its result stays within the caps. RIPEMD-160
      and Keccak-256 are declined. */
  function ReadOp(m: Machine, s: Bytes, tag: Byte, i: nat, msg: Bytes): (r: Read<Op>)
    ensures r.Ok? ==> i <= r.end
    ensures r.Ok? && i <= |s| ==> r.end <= |s|
  {
    if tag == 0xf0 || tag == 0xf1 then
      match ReadVarbytes(m, s, i)
      case Fail => Fail
      case Ok(arg, e) =>
        VarintEndBounds(s, i, MAX_VARINT_BYTES);
        var raw := s[i..VarintEnd(s, i, MAX_VARINT_BYTES).value];
        if |msg| + |arg| > MAX_MESSAGE_BYTES then Fail
        else Ok(if tag == 0xf0 then Append(raw, arg) else Prepend(raw, arg), e)
    else if tag == 0xf2 then Ok(Reverse, i)
    else if tag == 0xf3 then (if 2 * |msg| > MAX_MESSAGE_BYTES then Fail else Ok(Hexlify, i))
    else if tag == 0x02 then Ok(Sha1, i)
    else if tag == 0x08 then Ok(Sha256, i)
    else Fail
  }

  /** What parsing one node yields: attestations, the cursor, and the running totals of both caps. */
  datatype Node = Node(out: seq<Attestation>, end: nat, ops: nat, leaves: nat) | Bad

  function ReadLeaf(m: Machine, s: Bytes, i: nat, msg: Bytes, ops: nat, leaves: nat): (r: Node)
    ensures r.Node? ==> i < r.end <= |s|
  {
    if leaves + 1 > MAX_ATTESTATIONS then Bad
    else
      match ReadBytes(s, i, 8)
      case Fail => Bad
      case Ok(tag, j) =>
        match ReadVarbytes(m, s, j)
        case Fail => Bad
        case Ok(payload, e) =>
          match LeafMeaning(m, tag, payload, msg)
          case None => Bad
          case Some(out) => Node(out, e, ops, leaves + 1)
  }

  function ReadEdge(m: Machine, s: Bytes, tag: Byte, i: nat, msg: Bytes, depth: nat, ops: nat, leaves: nat): (r: Node)
    ensures r.Node? ==> i < r.end <= |s|
    decreases |s| - i, 1
  {
    if tag == 0x00 then ReadLeaf(m, s, i, msg, ops, leaves)
    else if ops + 1 > MAX_OPS || i > |s| then Bad
    else
      match ReadOp(m, s, tag, i, msg)
      case Fail => Bad
      case Ok(op, j) => ReadNode(m, s, j, Applied(m, op, msg), depth + 1, ops + 1, leaves)
  }

  function ReadNode(m: Machine, s: Bytes, i: nat, msg: Bytes, depth: nat, ops: nat, leaves: nat): (r: Node)
    ensures r.Node? ==> i < r.end <= |s|
    decreases |s| - i, 0
  {
    if depth > MAX_DEPTH || i >= |s| then Bad
    else if s[i] != FORK then ReadEdge(m, s, s[i], i + 1, msg, depth, ops, leaves)
    else if i + 1 >= |s| then Bad
    else
      match ReadEdge(m, s, s[i + 1], i + 2, msg, depth, ops, leaves)
      case Bad => Bad
      case Node(a, j, o, l) =>
        match ReadNode(m, s, j, msg, depth, o, l)
        case Bad => Bad
        case Node(b, e, o2, l2) => Node(a + b, e, o2, l2)
  }

  function DigestLength(op: Byte): nat { if op == 0x08 then 32 else if op == 0x02 || op == 0x03 then 20 else 0 }

  /** Where the operations begin: past the header of a full `.ots` file, or at once. */
  function StreamStart(m: Machine, s: Bytes): (r: Option<nat>)
    ensures r.Some? ==> r.value <= |s|
  {
    if !(MAGIC <= s) then Some(0)
    else
      match ReadVarint(m, s, |MAGIC|)
      case Fail => None
      case Ok(_, i) =>
        if i >= |s| || DigestLength(s[i]) == 0 || i + 1 + DigestLength(s[i]) > |s| then None
        else Some(i + 1 + DigestLength(s[i]))
  }

  /** parseOtsProof: the attestations of a proof over a digest, None when it does not parse. */
  function Parse(m: Machine, s: Bytes, digest: Bytes): Option<seq<Attestation>> {
    if |s| > MAX_FILE_BYTES then None
    else
      match StreamStart(m, s)
      case None => None
      case Some(i) =>
        match ReadNode(m, s, i, digest, 0, 0, 0)
        case Bad => None
        case Node(out, end, _, _) => if end == |s| then Some(out) else None
  }

  // ----- lemmas about varints and lengths

  function Scale(n: nat): nat { if n == 0 then 1 else 128 * Scale(n - 1) }

  lemma {:induction false} ValueSnoc(raw: Bytes, b: Byte)
    ensures Value(raw + [b]) == Value(raw) + (b % 128) * Scale(|raw|)
  {
    if raw == [] {
      assert [b][1..] == [];
      assert raw + [b] == [b];
    } else {
      assert (raw + [b])[1..] == raw[1..] + [b];
      ValueSnoc(raw[1..], b);
      var x, n := b % 128, Scale(|raw| - 1);
      assert 128 * (Value(raw[1..]) + x * n) == 128 * Value(raw[1..]) + x * (128 * n);
    }
  }

  lemma {:induction false} ValueGrows(a: Bytes, b: Bytes)
    ensures Value(a) <= Value(a + b)
  {
    if a == [] {
    } else {
      assert (a + b)[1..] == a[1..] + b;
      ValueGrows(a[1..], b);
    }
  }

  lemma EmptyValue()
    ensures Value([]) == 0
  {
  }

  lemma EndStep(s: Bytes, i: nat, left: nat)
    ensures VarintEnd(s, i, left)
         == if left == 0 || i >= |s| then None else if s[i] < 128 then Some(i + 1) else VarintEnd(s, i + 1, left - 1)
  {
  }

  lemma ValueStep(s: Bytes, start: nat, pos: nat)
    requires start <= pos < |s|
    ensures Value(s[start..pos + 1]) == Value(s[start..pos]) + s[pos] % 128 * Scale(pos - start)
  {
    ValueSnoc(s[start..pos], s[pos]);
    assert s[start..pos] + [s[pos]] == s[start..pos + 1];
  }

  /** A varint that passed the limit part way is past it as a whole. */
  lemma PrefixTooLarge(s: Bytes, start: nat, pos: nat, left: nat)
    requires start < pos <= |s|
    ensures VarintEnd(s, pos - 1, left).Some? ==>
              pos <= VarintEnd(s, pos - 1, left).value <= |s| &&
              Value(s[start..pos]) <= Value(s[start..VarintEnd(s, pos - 1, left).value])
  {
    VarintEndBounds(s, pos - 1, left);
    if VarintEnd(s, pos - 1, left).Some? {
      var e := VarintEnd(s, pos - 1, left).value;
      assert s[start..e] == s[start..pos] + s[pos..e];
      ValueGrows(s[start..pos], s[pos..e]);
    }
  }

  lemma {:induction false} HexLength(s: Bytes)
    ensures |Hex(s)| == 2 * |s|
  {
    if s != [] { HexLength(s[1..]); }
  }

  // ----- the parser

  /** Cursor over proof bytes. Nothing here trusts a length. */
  class Reader {
    const m: Machine
    const data: Bytes
    var pos: nat
    var ops: nat
    var attestations: nat
    var out: seq<Attestation>

    constructor (m: Machine, data: Bytes)
      ensures this.m == m && this.data == data && pos == 0 && ops == 0 && attestations == 0 && out == []
    {
      this.m, this.data := m, data;
      pos, ops, attestations, out := 0, 0, 0, [];
    }

    method NextByte() returns (r: Option<Byte>)
      modifies this`pos
      ensures if old(pos) < |data| then r == Some(data[old(pos)]) && pos == old(pos) + 1 else r == None
    {
      if pos >= |data| { return None; }
      r := Some(data[pos]);
      pos := pos + 1;
    }

    method NextBytes(n: nat) returns (r: Option<Bytes>)
      modifies this`pos
      ensures match ReadBytes(data, old(pos), n) case Fail => r == None case Ok(b, e) => r == Some(b) && pos == e
    {
      if pos + n > |data| { return None; }
      r := Some(data[pos..pos + n]);
      pos := pos + n;
    }

    method Varint() returns (r: Option<nat>)
      requires pos <= |data|
      modifies this`pos
      ensures match ReadVarint(m, data, old(pos)) case Fail => r == None case Ok(v, e) => r == Some(v) && pos == e
    {
      hide Value, VarintEnd;
      EmptyValue();
      var value, scale := 0, 1;
      ghost var start, stop := pos, VarintEnd(data, pos, MAX_VARINT_BYTES);
      var i := 0;
      assert data[start..start] == [];
      while i < MAX_VARINT_BYTES
        invariant 0 <= i <= MAX_VARINT_BYTES && pos == start + i <= |data|
        invariant stop == VarintEnd(data, pos, MAX_VARINT_BYTES - i)
        invariant value == Value(data[start..pos]) && scale == Scale(i)
      {
        EndStep(data, pos, MAX_VARINT_BYTES - i);
        if pos >= |data| { return None; }
        var b := data[pos];
        ValueStep(data, start, pos);
        pos := pos + 1;
        value := value + b % 128 * scale;
        if value > m.exact {
          PrefixTooLarge(data, start, pos, MAX_VARINT_BYTES - i);
          return None;
        }
        if b < 128 { return Some(value); }
        scale := scale * 128;
        i := i + 1;
      }
      EndStep(data, pos, 0);
      return None;
    }

    method Varbytes() returns (r: Option<Bytes>)
      requires pos <= |data|
      modifies this`pos
      ensures match ReadVarbytes(m, data, old(pos)) case Fail => r == None case Ok(b, e) => r == Some(b) && pos == e
    {
      hide ReadVarint;
      var n := Varint();
      if n.None? || n.value > MAX_VAR_BYTES { return None; }
      r := NextBytes(n.value);
    }

    /** The state after a node: accepted exactly when the function accepts, with its results appended. */
    twostate predicate Took(ok: bool, r: Node)
      reads this
    {
      match r
      case Bad => !ok
      case Node(o, e, n, l) => ok && out == old(out) + o && pos == e && ops == n && attestations == l
    }

    method Timestamp(msg: Bytes, depth: nat) returns (ok: bool)
      requires pos <= |data|
      modifies this
      ensures Took(ok, ReadNode(m, data, old(pos), msg, depth, old(ops), old(attestations)))
      decreases |data| - pos, 0
    {
      hide ReadLeaf, ReadOp;
      if depth > MAX_DEPTH { return false; }
      ghost var whole := ReadNode(m, data, pos, msg, depth, ops, attestations);
      ghost var begun := out;
      while true
        invariant old(pos) <= pos <= |data|
        invariant match ReadNode(m, data, pos, msg, depth, ops, attestations)
                  case Bad => whole == Bad
                  case Node(o, e, n, l) => whole.Node? && begun + whole.out == out + o && whole.end == e && whole.ops == n && whole.leaves == l
        decreases |data| - pos
      {
        var tag := NextByte();
        if tag.None? { return false; }
        if tag.value != FORK {
          ok := EdgeAt(tag.value, msg, depth);
          return;
        }
        var inner := NextByte();
        if inner.None? { return false; }
        var taken := EdgeAt(inner.value, msg, depth);
        if !taken { return false; }
      }
    }

    method EdgeAt(tag: Byte, msg: Bytes, depth: nat) returns (ok: bool)
      requires pos <= |data|
      modifies this
      ensures Took(ok, ReadEdge(m, data, tag, old(pos), msg, depth, old(ops), old(attestations)))
      decreases |data| - pos, 1
    {
      hide ReadLeaf, ReadOp;
      if tag == 0x00 {
        ok := Attest(msg);
        return;
      }
      ops := ops + 1;
      if ops > MAX_OPS { return false; }
      var next := ApplyOp(tag, msg);
      if next.None? { return false; }
      ok := Timestamp(next.value, depth + 1);
    }

    method ApplyOp(tag: Byte, msg: Bytes) returns (r: Option<Bytes>)
      requires pos <= |data|
      modifies this`pos
      ensures match ReadOp(m, data, tag, old(pos), msg)
              case Fail => r == None
              case Ok(op, e) => r == Some(Applied(m, op, msg)) && pos == e
    {
      hide ReadVarbytes;
      if tag == 0xf0 || tag == 0xf1 {
        var arg := Varbytes();
        if arg.None? { return None; }
        var grown := if tag == 0xf0 then msg + arg.value else arg.value + msg;
        return if |grown| > MAX_MESSAGE_BYTES then None else Some(grown);
      }
      if tag == 0xf2 { return Some(Reversed(msg)); }
      if tag == 0xf3 {
        HexLength(msg);
        return if |Hex(msg)| > MAX_MESSAGE_BYTES then None else Some(Hex(msg));
      }
      if tag == 0x02 { return Some(m.sha1(msg)); }
      if tag == 0x08 { return Some(m.sha256(msg)); }
      return None;
    }

    method Attest(msg: Bytes) returns (ok: bool)
      requires pos <= |data|
      modifies this
      ensures Took(ok, ReadLeaf(m, data, old(pos), msg, old(ops), old(attestations)))
    {
      hide ReadVarbytes, ReadVarint, ReadBytes;
      attestations := attestations + 1;
      if attestations > MAX_ATTESTATIONS { return false; }
      var tag := NextBytes(8);
      if tag.None? { return false; }
      var payload := Varbytes();
      if payload.None? { return false; }
      if tag.value == TAG_PENDING {
        var inner := new Reader(m, payload.value);
        var uri := inner.Varbytes();
        if uri.None? { return false; }
        out := out + [Pending(uri.value)];
      } else if tag.value == TAG_BITCOIN {
        var inner := new Reader(m, payload.value);
        var height := inner.Varint();
        if height.None? { return false; }
        out := out + [Bitcoin(height.value, msg)];
      }
      return true;
    }
  }

  method ParseOtsProof(m: Machine, data: Bytes, digest: Bytes) returns (r: Option<seq<Attestation>>)
    ensures r == Parse(m, data, digest)
  {
    hide ReadNode, ReadVarint;
    if |data| > MAX_FILE_BYTES { return None; }
    var reader := new Reader(m, data);
    assert MAGIC <= data <==> |data| >= |MAGIC| && data[..|MAGIC|] == MAGIC;
    if |data| >= |MAGIC| && data[..|MAGIC|] == MAGIC {
      reader.pos := |MAGIC|;
      var version := reader.Varint();
      if version.None? { return None; }
      var op := reader.NextByte();
      if op.None? { return None; }
      if DigestLength(op.value) == 0 { return None; }
      var skipped := reader.NextBytes(DigestLength(op.value));
      if skipped.None? { return None; }
    }
    ghost var begin := reader.pos;
    assert StreamStart(m, data) == Some(begin) && reader.out == [];
    ghost var node := ReadNode(m, data, reader.pos, digest, 0, 0, 0);
    label Began:
    var ok := reader.Timestamp(digest, 0);
    assert reader.Took@Began(ok, node);
    if !ok || reader.pos != |data| { return None; }
    assert node.Node? && reader.out == node.out && node.end == |data|;
    assert node == ReadNode(m, data, begin, digest, 0, 0, 0);
    return Some(reader.out);
  }
}
