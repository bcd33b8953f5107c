/** What each operation and each attestation of a proof does, said of the bytes of small proofs
    (applyOp and attestation in src/audit/ots-proof.ts). */
module OtsMeaning {
  import opened Wrappers
  import opened Slices
  import opened OtsTree
  import opened OtsParser
  import opened OtsProofs

  // ----- one operation, then one attestation

  function LeafBytes(tag: Bytes, payload: Bytes): Bytes { [0x00] + (tag + EncodedBytes(payload)) }

  lemma LeafRead(m: Machine, s: Bytes, i: nat, tag: Bytes, payload: Bytes, msg: Bytes, ops: nat)
    requires |tag| == 8 && |payload| <= MAX_VAR_BYTES <= m.exact
    requires At(s, i, LeafBytes(tag, payload)) && i + |LeafBytes(tag, payload)| == |s|
    ensures ReadNode(m, s, i, msg, 1, ops, 0)
         == match LeafMeaning(m, tag, payload, msg) case None => Bad case Some(out) => Node(out, |s|, ops, 1)
  {
    hide LeafMeaning, ReadVarbytes, Encoded;
    var bytes := EncodedBytes(payload);
    AtConcat(s, i, [0x00], tag + bytes);
    AtByte(s, i, 0x00);
    AtConcat(s, i + 1, tag, bytes);
    ShortLength(m, payload);
    ReadsVarbytes(m, s, i + 9, Encoded(|payload|), payload);
  }

  lemma NoMagic(s: Bytes)
    requires s != [] && s[0] != 0x00
    ensures !(MAGIC <= s)
  {
    assert MAGIC[0] == 0x00;
  }

  /** Operation bytes that read as one operation, before one attestation. */
  lemma OneOp(m: Machine, first: Bytes, op: Op, tag: Bytes, payload: Bytes, digest: Bytes)
    requires first != [] && first[0] != 0x00 && first[0] != FORK
    requires var s := first + LeafBytes(tag, payload); ReadOp(m, s, s[0], 1, digest) == Ok(op, |first|)
    requires |tag| == 8 && |payload| <= MAX_VAR_BYTES <= m.exact && |first| <= 5000
    ensures Parse(m, first + LeafBytes(tag, payload), digest) == LeafMeaning(m, tag, payload, Applied(m, op, digest))
  {
    hide LeafMeaning, ReadOp, Applied, Encoded, LeafBytes, StreamStart;
    var s := first + LeafBytes(tag, payload);
    LeafSize(tag, payload);
    NoMagic(s);
    RawStart(m, s);
    assert At(s, |first|, LeafBytes(tag, payload));
    LeafRead(m, s, |first|, tag, payload, Applied(m, op, digest), 1);
    assert ReadNode(m, s, 0, digest, 0, 0, 0) == ReadEdge(m, s, s[0], 1, digest, 0, 0, 0);
  }

  lemma LeafSize(tag: Bytes, payload: Bytes)
    requires |tag| == 8 && |payload| <= MAX_VAR_BYTES
    ensures 0 < |LeafBytes(tag, payload)| <= 5000
  {
    hide Encoded;
    EncodedShort(|payload|);
  }

  /** Operation bytes that read as none. */
  lemma NoOp(m: Machine, s: Bytes, digest: Bytes)
    requires s != [] && s[0] != 0x00 && s[0] != FORK && ReadOp(m, s, s[0], 1, digest).Fail?
    ensures Parse(m, s, digest) == None
  {
    hide ReadOp, StreamStart;
    NoMagic(s);
    RawStart(m, s);
    assert ReadEdge(m, s, s[0], 1, digest, 0, 0, 0) == Bad;
    assert ReadNode(m, s, 0, digest, 0, 0, 0) == Bad;
  }

  // ----- the operations

  function BitcoinLeaf(height: nat): Bytes { LeafBytes(TAG_BITCOIN, Encoded(height)) }

  /** Back to front. */
  function Mirrored(s: Bytes): (r: Bytes)
    ensures |r| == |s|
  {
    seq(|s|, i requires 0 <= i < |s| => s[|s| - 1 - i])
  }

  /** The characters 0 to 9 and a to f. */
  const DIGITS: Bytes := [48, 49, 50, 51, 52, 53, 54, 55, 56, 57, 97, 98, 99, 100, 101, 102]

  /** Two digits a byte, the high one first. */
  function HexDigits(s: Bytes): (r: Bytes)
    ensures |r| == 2 * |s|
  {
    seq(2 * |s|, i requires 0 <= i < 2 * |s| => if i % 2 == 0 then DIGITS[s[i / 2] / 16] else DIGITS[s[i / 2] % 16])
  }

  lemma {:induction false} ReversedIsMirrored(s: Bytes)
    ensures Reversed(s) == Mirrored(s)
  {
    if s != [] { ReversedIsMirrored(s[1..]); }
  }

  lemma {:induction false} HexIsDigits(s: Bytes)
    ensures Hex(s) == HexDigits(s)
  {
    if s != [] {
      HexIsDigits(s[1..]);
      var rest := HexDigits(s[1..]);
      assert HexByte(s[0] / 16) == DIGITS[s[0] / 16] && HexByte(s[0] % 16) == DIGITS[s[0] % 16];
      forall i | 0 <= i < 2 * |s|
        ensures HexDigits(s)[i] == ([DIGITS[s[0] / 16], DIGITS[s[0] % 16]] + rest)[i]
      {
        if i >= 2 { assert s[1..][(i - 2) / 2] == s[i / 2]; }
      }
    }
  }

  /** What proof bytes with one operation attest at: append puts its argument behind the message and prepend before
      it, reverse turns it round, hexlify spells it in lower-case digits, and the hashes hash it. A message grown past
      the cap is refused. */
  lemma OperationsMean(m: Machine, arg: Bytes, height: nat, digest: Bytes)
    requires |arg| <= 4096 <= m.exact && height <= m.exact < Scale(9)
    ensures var leaf := BitcoinLeaf(height);
            && Parse(m, [0xf0] + EncodedBytes(arg) + leaf, digest)
               == (if |digest| + |arg| <= 65536 then Some([Bitcoin(height, digest + arg)]) else None)
            && Parse(m, [0xf1] + EncodedBytes(arg) + leaf, digest)
               == (if |digest| + |arg| <= 65536 then Some([Bitcoin(height, arg + digest)]) else None)
            && Parse(m, [0xf2] + leaf, digest) == Some([Bitcoin(height, Mirrored(digest))])
            && Parse(m, [0xf3] + leaf, digest)
               == (if 2 * |digest| <= 65536 then Some([Bitcoin(height, HexDigits(digest))]) else None)
            && Parse(m, [0x02] + leaf, digest) == Some([Bitcoin(height, m.sha1(digest))])
            && Parse(m, [0x08] + leaf, digest) == Some([Bitcoin(height, m.sha256(digest))])
  {
    hide Parse, EncodedBytes, BitcoinLeaf, Hex, Reversed;
    ArgMeans(m, true, arg, height, digest);
    ArgMeans(m, false, arg, height, digest);
    PlainMeans(m, Reverse, height, digest);
    PlainMeans(m, Hexlify, height, digest);
    PlainMeans(m, Sha1, height, digest);
    PlainMeans(m, Sha256, height, digest);
    ReversedIsMirrored(digest);
    HexIsDigits(digest);
  }

  lemma HeightRead(m: Machine, height: nat, msg: Bytes)
    requires 4096 <= m.exact && height <= m.exact < Scale(9)
    ensures LeafMeaning(m, TAG_BITCOIN, Encoded(height), msg) == Some([Bitcoin(height, msg)]) && |Encoded(height)| <= 9
  {
    hide Encoded, ReadVarint;
    EncodedIsVarint(height);
    var inner := Encoded(height);
    assert At(inner, 0, inner);
    ReadsVarint(m, inner, 0, inner);
  }

  lemma ArgMeans(m: Machine, append: bool, arg: Bytes, height: nat, digest: Bytes)
    requires |arg| <= 4096 <= m.exact && height <= m.exact < Scale(9)
    ensures Parse(m, [if append then 0xf0 else 0xf1] + EncodedBytes(arg) + BitcoinLeaf(height), digest)
         == if |digest| + |arg| <= 65536 then Some([Bitcoin(height, if append then digest + arg else arg + digest)]) else None
  {
    hide Parse, Encoded, ReadVarbytes, VarintEnd, LeafBytes, LeafMeaning;
    var raw := Encoded(|arg|);
    var op := if append then Append(raw, arg) else Prepend(raw, arg);
    var first := [if append then 0xf0 else 0xf1] + EncodedBytes(arg);
    var s := first + BitcoinLeaf(height);
    EncodedShort(|arg|);
    ShortLength(m, arg);
    assert s == [if append then 0xf0 else 0xf1] + (raw + arg) + BitcoinLeaf(height);
    assert At(s, 1, raw + arg);
    ReadsVarbytes(m, s, 1, raw, arg);
    if |digest| + |arg| <= 65536 {
      ArgOpRead(m, s, 1, op, digest);
      HeightRead(m, height, Applied(m, op, digest));
      OneOp(m, first, op, TAG_BITCOIN, Encoded(height), digest);
    } else {
      NoOp(m, s, digest);
    }
  }

  function PlainTag(op: Op): Byte { if op.Reverse? then 0xf2 else if op.Hexlify? then 0xf3 else if op.Sha1? then 0x02 else 0x08 }

  lemma PlainMeans(m: Machine, op: Op, height: nat, digest: Bytes)
    requires 4096 <= m.exact && height <= m.exact < Scale(9) && !op.Append? && !op.Prepend?
    ensures Parse(m, [PlainTag(op)] + BitcoinLeaf(height), digest)
            == if op.Hexlify? && 2 * |digest| > 65536 then None else Some([Bitcoin(height, Applied(m, op, digest))])
  {
    hide Parse, Encoded, LeafBytes, LeafMeaning, Applied;
    var byte := PlainTag(op);
    HeightRead(m, height, Applied(m, op, digest));
    if op.Hexlify? && 2 * |digest| > 65536 {
      NoOp(m, [byte] + BitcoinLeaf(height), digest);
    } else {
      OneOp(m, [byte], op, TAG_BITCOIN, Encoded(height), digest);
    }
  }

  /** Every other byte where an operation may stand is refused: the hashes that are declined, and unknown ones. */
  lemma OtherTagsFail(m: Machine, s: Bytes, digest: Bytes)
    requires s != [] && s[0] !in {0x00, 0xff, 0xf0, 0xf1, 0xf2, 0xf3, 0x02, 0x08}
    ensures Parse(m, s, digest) == None
  {
    NoOp(m, s, digest);
  }

  // ----- the attestations

  /** Behind any operation, here a hash: a pending payload names its calendar, a Bitcoin one its height at the message,
      whatever follows in the payload; one that does not decode is refused, and any other type is passed over. */
  lemma AttestationsMean(m: Machine, tag: Bytes, payload: Bytes, digest: Bytes)
    requires |tag| == 8 && |payload| <= 4096 <= m.exact
    ensures var out := Parse(m, [0x08] + LeafBytes(tag, payload), digest);
            if tag == [0x83, 0xdf, 0xe3, 0x0d, 0x2e, 0xf9, 0x0c, 0x8e] then
              match ReadVarbytes(m, payload, 0) case Fail => out == None case Ok(uri, _) => out == Some([Pending(uri)])
            else if tag == [0x05, 0x88, 0x96, 0x0d, 0x73, 0xd7, 0x19, 0x01] then
              match ReadVarint(m, payload, 0) case Fail => out == None case Ok(n, _) => out == Some([Bitcoin(n, m.sha256(digest))])
            else out == Some([])
  {
    hide Parse, LeafBytes, ReadVarbytes, ReadVarint;
    OneOp(m, [0x08], Sha256, tag, payload, digest);
  }

  // ----- the container

  /** A full file is its header and a stream: 32 bytes of its own digest behind a SHA-256 tag, 20 behind a SHA-1 or
      RIPEMD-160 one, whatever they are. Any other tag is refused. */
  lemma ContainerMeans(m: Machine, version: Bytes, op: Byte, own: Bytes, t: Tree, digest: Bytes)
    requires VarintWithin(version, m.exact) && TreeOk(m, t, digest)
    requires |own| == (if op == 0x08 then 32 else 20) && |MAGIC + (version + ([op] + own)) + Text(t)| <= MAX_FILE_BYTES
    ensures Parse(m, MAGIC + (version + ([op] + own)) + Text(t), digest)
         == if op == 0x08 || op == 0x02 || op == 0x03 then Some(Eval(m, t, digest)) else None
  {
    hide TreeOk, Text, Eval, Parse, IsVarint, Value;
    var h := MAGIC + (version + ([op] + own));
    if op == 0x08 || op == 0x02 || op == 0x03 {
      assert IsHeader(m, h, version, op, own);
      assert Describes(m, h + Text(t), digest, h, t);
      DescribedParses(m, h + Text(t), digest, h, t);
    } else {
      UnknownHeader(m, h + Text(t), version, op, digest);
    }
  }

  lemma UnknownHeader(m: Machine, s: Bytes, version: Bytes, op: Byte, digest: Bytes)
    requires VarintWithin(version, m.exact) && op !in {0x08, 0x02, 0x03} && MAGIC + (version + [op]) <= s
    ensures Parse(m, s, digest) == None
  {
    hide Value, ReadVarint, IsVarint, ReadNode;
    AtConcat(s, 0, MAGIC, version + [op]);
    AtConcat(s, |MAGIC|, version, [op]);
    AtByte(s, |MAGIC| + |version|, op);
    ReadsVarint(m, s, |MAGIC|, version);
  }
}
