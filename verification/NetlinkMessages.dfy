/** Netlink message framing: the 16-byte header, the `NLMSG_OK`/`NLMSG_NEXT` walk, and the
    rewriting of a dumped message into a delete request. */
module NetlinkMessages {
  import opened Bytes

  type Msg = seq<byte>

  const HEADER := 16
  const NLM_F_REQUEST := 1

  /** A whole message: its length field counts exactly its own bytes. */
  predicate IsMessage(m: Msg) {
    |m| >= HEADER && GetU32(m, 0) == |m|
  }

  function TypeOf(m: Msg): nat
    requires |m| >= HEADER
  {
    GetU16(m, 4)
  }

  function FlagsOf(m: Msg): nat
    requires |m| >= HEADER
  {
    GetU16(m, 6)
  }

  function SeqOf(m: Msg): nat
    requires |m| >= HEADER
  {
    GetU32(m, 8)
  }

  /** What a message is about: everything behind its header. */
  function Body(m: Msg): seq<byte>
    requires |m| >= HEADER
  {
    m[HEADER..]
  }

  /** The three header stores of the flush path, applied to a copy of the dumped message. */
  function DeleteRequest(m: Msg, delType: nat, seqNo: nat): (r: Msg)
    requires IsMessage(m) && delType < TWO_16 && seqNo < TWO_32
    ensures |r| == |m|
  {
    m[..4] + PutU16(delType) + PutU16(NLM_F_REQUEST) + PutU32(seqNo) + m[12..]
  }

  /** A delete request is a well-framed message that carries the new type, flags and sequence
      number, and names the same object with the same sender port as the dumped message. */
  lemma DeleteRequestMeaning(m: Msg, delType: nat, seqNo: nat)
    requires IsMessage(m) && delType < TWO_16 && seqNo < TWO_32
    ensures var r := DeleteRequest(m, delType, seqNo);
            && IsMessage(r) && TypeOf(r) == delType && FlagsOf(r) == NLM_F_REQUEST
            && SeqOf(r) == seqNo && Body(r) == Body(m) && r[12..16] == m[12..16]
  {
    hide GetU16, GetU32, PutU16, PutU32;
    var r := DeleteRequest(m, delType, seqNo);
    assert r[..4] == m[..4];
    SameU32(r, m);
    assert r[4..6] == PutU16(delType);
    StoredU16(r, 4, delType);
    assert r[6..8] == PutU16(NLM_F_REQUEST);
    StoredU16(r, 6, NLM_F_REQUEST);
    assert r[8..12] == PutU32(seqNo);
    StoredU32(r, 8, seqNo);
    assert r[12..] == m[12..];
    assert r[12..][4..] == r[16..] && m[12..][4..] == m[16..];
    assert r[12..][..4] == r[12..16] && m[12..][..4] == m[12..16];
  }

  /** The receiver's walk over a datagram: `NLMSG_OK`, then `NLMSG_NEXT`. */
  function Messages(b: seq<byte>): seq<Msg>
    decreases |b|
  {
    if |b| >= HEADER && HEADER <= GetU32(b, 0) <= |b| then
      var n := GetU32(b, 0);
      [b[..n]] + (if Align4(n) <= |b| then Messages(b[Align4(n)..]) else [])
    else
      []
  }

  /** `b` holds exactly the messages `ms`: each starts on a 4-byte boundary behind its
      predecessor, and the last one ends where `b` ends. */
  ghost predicate Packed(b: seq<byte>, ms: seq<Msg>)
    decreases |ms|
  {
    if ms == [] then
      b == []
    else
      && IsMessage(ms[0]) && ms[0] <= b
      && if |ms| == 1 then |b| == |ms[0]|
         else Align4(|ms[0]|) <= |b| && Packed(b[Align4(|ms[0]|)..], ms[1..])
  }

  /** Packing is what the receiver undoes. */
  lemma {:induction false} PackedIsWalked(b: seq<byte>, ms: seq<Msg>)
    requires Packed(b, ms)
    ensures Messages(b) == ms
    decreases |ms|
  {
    if ms != [] {
      var m := ms[0];
      assert b[..|m|] == m;
      assert GetU32(b, 0) == GetU32(m, 0);
      if |ms| == 1 {
        assert Align4(|m|) <= |b| ==> b[Align4(|m|)..] == [];
        assert ms == [m];
      } else {
        PackedIsWalked(b[Align4(|m|)..], ms[1..]);
      }
    }
  }

  /** Appending one message behind at most three bytes of padding keeps a buffer packed. */
  lemma {:induction false} PackedSnoc(b: seq<byte>, ms: seq<Msg>, pad: seq<byte>, m: Msg)
    requires Packed(b, ms) && IsMessage(m)
    requires |pad| == Align4(|b|) - |b|
    ensures Packed(b + pad + m, ms + [m])
    decreases |ms|
  {
    if ms == [] {
      assert b + pad + m == m && ms + [m] == [m];
    } else {
      var f := ms[0];
      var a := Align4(|f|);
      assert (ms + [m])[0] == f && (ms + [m])[1..] == ms[1..] + [m];
      assert f <= b + pad + m;
      if |ms| == 1 {
        assert ms[1..] == [];
        assert (b + pad + m)[a..] == m;
      } else {
        AlignShift(|b|, a);
        PackedSnoc(b[a..], ms[1..], pad, m);
        assert (b + pad + m)[a..] == b[a..] + pad + m;
        assert a <= |b + pad + m|;
        assert |ms + [m]| != 1;
      }
    }
  }

  /** So the receiver sees one more message, behind those it saw before. */
  lemma PackedGrows(b: seq<byte>, ms: seq<Msg>, pad: seq<byte>, m: Msg)
    requires Packed(b, ms) && IsMessage(m)
    requires |pad| == Align4(|b|) - |b|
    ensures Packed(b + pad + m, ms + [m])
    ensures Messages(b + pad + m) == Messages(b) + [m]
  {
    PackedIsWalked(b, ms);
    PackedSnoc(b, ms, pad, m);
    PackedIsWalked(b + pad + m, ms + [m]);
  }
}
