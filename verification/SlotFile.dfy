/** The bytes of a sidecar slot file and the checks a load makes before it believes one. Both kinds
    start with a magic word, a sequence number and a CRC over everything behind it. */
module SlotFile {
  import opened Bytes
  import opened Layout
  import opened Crc

  const COMPACT_MAGIC: u32 := 0x54534832
  const FULL_MAGIC: u32 := 0x54534831
  const PREFIX: nat := 12
  const COMPACT_PAYLOAD: nat := 76
  const FULL_PAYLOAD: nat := 584

  /** Kind of slot: its magic word and the length of what the CRC covers. */
  datatype Kind = Kind(magic: u32, payload: nat)

  const Compact: Kind := Kind(COMPACT_MAGIC, COMPACT_PAYLOAD)
  const Full: Kind := Kind(FULL_MAGIC, FULL_PAYLOAD)

  predicate Accepted(kind: Kind, f: Bytes) {
    && PREFIX + kind.payload <= |f|
    && U32(f, 0) == kind.magic
    && Crc32(Payload(kind, f)) == WordAt(f, 8)
  }

  function Payload(kind: Kind, f: Bytes): Bytes
    requires PREFIX + kind.payload <= |f|
  {
    f[PREFIX..PREFIX + kind.payload]
  }

  function SequenceNumber(f: Bytes): u32
    requires PREFIX <= |f|
  {
    U32(f, 4)
  }

  // Writing

  lemma {:induction false} NumberBelow(s: seq<bool>)
    ensures Number(s) < Pow2(|s|)
  {
    if s != [] {
      NumberBelow(s[1..]);
    }
  }

  lemma {:induction false} BitsNumber(s: seq<bool>)
    ensures BitsOf(Number(s), |s|) == s
  {
    if s != [] {
      BitsNumber(s[1..]);
    }
  }

  function OctetByte(o: Octet): (b: byte)
    ensures Bits(b) == o
  {
    NumberBelow(o);
    BitsNumber(o);
    assert Pow2(4) == 16 && Pow2(8) == 256;
    Number(o)
  }

  function WordBytes(w: Word): (f: Bytes)
    ensures |f| == 4 && WordAt(f, 0) == w
  {
    var f := [OctetByte(w[..8]), OctetByte(w[8..16]), OctetByte(w[16..24]), OctetByte(w[24..])];
    assert w == w[..8] + w[8..16] + w[16..24] + w[24..];
    f
  }

  /** The file a writer leaves. */
  function Slot(kind: Kind, s: u32, payload: Bytes): Bytes
    requires |payload| == kind.payload
  {
    PutU32(Zeros(4), 0, kind.magic) + PutU32(Zeros(4), 0, s) + WordBytes(Crc32(payload)) + payload
  }

  lemma U32Inside(f: Bytes, at: nat, w: Bytes)
    requires |w| == 4 && at + 4 <= |f| && f[at..at + 4] == w
    ensures U32(f, at) == U32(w, 0)
  {
    assert f[at] == w[0] && f[at + 1] == w[1] && f[at + 2] == w[2] && f[at + 3] == w[3];
  }

  lemma WordInside(f: Bytes, at: nat, w: Bytes)
    requires |w| == 4 && at + 4 <= |f| && f[at..at + 4] == w
    ensures WordAt(f, at) == WordAt(w, 0)
  {
    hide Bits;
    assert f[at] == w[0] && f[at + 1] == w[1] && f[at + 2] == w[2] && f[at + 3] == w[3];
  }

  /** A complete slot is accepted and gives back what was written. */
  lemma SlotRoundTrip(kind: Kind, s: u32, payload: Bytes)
    requires |payload| == kind.payload
    ensures var f := Slot(kind, s, payload);
            Accepted(kind, f) && SequenceNumber(f) == s && Payload(kind, f) == payload
  {
    hide Crc32, U32, WordAt, PutU32, WordBytes;
    var f := Slot(kind, s, payload);
    var m, q, c := PutU32(Zeros(4), 0, kind.magic), PutU32(Zeros(4), 0, s), WordBytes(Crc32(payload));
    assert f[0..4] == m && f[4..8] == q && f[8..12] == c && f[12..12 + kind.payload] == payload;
    U32Inside(f, 0, m);
    U32Inside(f, 4, q);
    WordInside(f, 8, c);
  }

  /** A slot cut short is never accepted. */
  lemma TornRejected(kind: Kind, s: u32, payload: Bytes, n: nat)
    requires |payload| == kind.payload && n < |Slot(kind, s, payload)|
    ensures !Accepted(kind, Slot(kind, s, payload)[..n])
  {
    hide Crc32, WordBytes, PutU32;
  }

  /** Damage confined to four adjacent bytes of the covered part is always noticed. */
  lemma DamageRejected(kind: Kind, f: Bytes, f': Bytes, i: nat)
    requires Accepted(kind, f) && |f'| == |f| && PREFIX <= i
    requires forall p :: 0 <= p < |f| && !(i <= p < i + 4) ==> f'[p] == f[p]
    requires Payload(kind, f') != Payload(kind, f)
    ensures !Accepted(kind, f')
  {
    hide Crc32, Bits;
    var a, b := Payload(kind, f), Payload(kind, f');
    forall j | 0 <= j < |a| && !(i - PREFIX <= j < i - PREFIX + 4)
      ensures a[j] == b[j]
    {
      assert a[j] == f[PREFIX + j] && b[j] == f'[PREFIX + j];
    }
    DetectsBursts(a, b, i - PREFIX);
    assert WordAt(f', 8) == WordAt(f, 8);
  }

  /** The sequence number is not covered: a slot damaged there is accepted under another number. */
  lemma SequenceUncovered(kind: Kind, f: Bytes, s: u32)
    requires Accepted(kind, f)
    ensures var f' := PutU32(f, 4, s);
            Accepted(kind, f') && SequenceNumber(f') == s && Payload(kind, f') == Payload(kind, f)
  {
    hide Crc32, Bits, PutU32;
    var f' := PutU32(f, 4, s);
    assert Payload(kind, f') == Payload(kind, f);
    SameU32(f', f, 0);
    assert WordAt(f', 8) == WordAt(f, 8);
  }

  /** A slot of one kind is never taken for the other, however long it is. */
  lemma OtherKindRejected(kind: Kind, other: Kind, s: u32, payload: Bytes)
    requires {kind, other} == {Compact, Full} && kind != other && |payload| == kind.payload
    ensures !Accepted(other, Slot(kind, s, payload))
  {
    hide Crc32, WordAt, WordBytes, PutU32;
    SlotRoundTrip(kind, s, payload);
    assert kind.magic != other.magic;
  }
}
