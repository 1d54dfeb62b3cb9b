/** The id generator: 64-bit ids packing milliseconds, node and sequence, drawn from one atomic word
    by a weak compare-and-swap loop. Shifts and masks are written as products, quotients and
    remainders by powers of two; what 64 bits cannot hold is cut by an explicit remainder. */
module Snowflake {
  import opened Bytes

  const SEQUENCES: nat := 4096                  // 1 << SEQUENCE_BITS
  const NODES: nat := 1024                      // 1 << NODE_BITS
  const TIMESTAMP_UNIT: nat := 4194304          // 1 << TIMESTAMP_SHIFT
  const PACKED_MS: nat := 0x10_0000_0000_0000   // 1 << 52, the milliseconds the word `last` can hold
  const ID_MS: nat := 0x400_0000_0000           // 1 << 42, the milliseconds an id can hold
  const ID_SPAN: nat := 0x40_0000_0000_0000     // 1 << 54, the words that map to distinct ids
  const EPOCH_SECONDS: nat := 1_704_067_200

  function NextMs(previous: u64, now: u64): nat
  {
    if now > previous / SEQUENCES then now
    else if previous % SEQUENCES < SEQUENCES - 1 then previous / SEQUENCES
    else previous / SEQUENCES + 1
  }

  function NextSeq(previous: u64, now: u64): nat
  {
    if now > previous / SEQUENCES then 0
    else if previous % SEQUENCES < SEQUENCES - 1 then previous % SEQUENCES + 1
    else 0
  }

  /** (next_ms << 12) | next_seq in 64 bits. */
  function Candidate(previous: u64, now: u64): u64
  {
    NextMs(previous, now) % PACKED_MS * SEQUENCES + NextSeq(previous, now)
  }

  /** (next_ms << 22) | (node << 12) | next_seq in 64 bits. */
  function Pack(ms: nat, node: nat, sequence: nat): u64
    requires node < NODES && sequence < SEQUENCES
  {
    ms % ID_MS * TIMESTAMP_UNIT + node * SEQUENCES + sequence
  }

  function TimestampOf(id: u64): nat
  {
    id / TIMESTAMP_UNIT / 1000 + EPOCH_SECONDS
  }

  /** The id that goes with a word: same milliseconds, same sequence, the node between them. */
  function IdOf(word: nat, node: nat): u64
    requires node < NODES
  {
    Pack(word / SEQUENCES, node, word % SEQUENCES)
  }

  // ----- Arithmetic of one step -----

  /** The later of a word's successor and the first word of a clock reading. */
  function Later(previous: u64, now: u64): int
  {
    var successor, clock := previous as int + 1, now as int * SEQUENCES;
    if successor < clock then clock else successor
  }

  /** One step takes the word to the later of its successor and the clock's first word, as long as
      that fits in 64 bits. */
  lemma CandidateIsLater(previous: u64, now: u64)
    requires now < PACKED_MS && previous < TWO_64 - 1
    ensures Candidate(previous, now) == Later(previous, now)
    ensures NextMs(previous, now) == Candidate(previous, now) / SEQUENCES
    ensures NextSeq(previous, now) == Candidate(previous, now) % SEQUENCES
  {
  }

  lemma WordParts(ms: nat, sequence: nat)
    requires sequence < SEQUENCES
    ensures (ms * SEQUENCES + sequence) / SEQUENCES == ms && (ms * SEQUENCES + sequence) % SEQUENCES == sequence
  {
  }

  /** What the word cuts off the milliseconds, the id would cut off too. */
  lemma MsWithinMs(ms: nat)
    ensures ms % PACKED_MS % ID_MS == ms % ID_MS
  {
    var r, k := ms % PACKED_MS, ms / PACKED_MS;
    assert ms == r + (k * 1024) * ID_MS;
    SameRemainder(ms, r, k * 1024, ID_MS);
  }

  lemma PackFields(ms: nat, node: nat, sequence: nat)
    requires node < NODES && sequence < SEQUENCES
    ensures var id := Pack(ms, node, sequence);
            id / TIMESTAMP_UNIT == ms % ID_MS && id / SEQUENCES % NODES == node && id % SEQUENCES == sequence
  {
    var id := Pack(ms, node, sequence);
    assert id / SEQUENCES == ms % ID_MS * NODES + node;
  }

  /** Ids of one node are equal exactly when their words agree modulo 2^54. */
  lemma SameNodeCollision(p: nat, q: nat, node: nat)
    requires node < NODES
    ensures IdOf(p, node) == IdOf(q, node) <==> p % ID_SPAN == q % ID_SPAN
  {
    PackFields(p / SEQUENCES, node, p % SEQUENCES);
    PackFields(q / SEQUENCES, node, q % SEQUENCES);
    SpanSplit(p);
    SpanSplit(q);
  }

  lemma SpanSplit(p: nat)
    ensures p % ID_SPAN == p / SEQUENCES % ID_MS * SEQUENCES + p % SEQUENCES
  {
    var a, b := p / SEQUENCES, p % SEQUENCES;
    var c, d := a / ID_MS, a % ID_MS;
    assert p == c * ID_SPAN + (d * SEQUENCES + b);
    assert 0 <= d * SEQUENCES + b < ID_SPAN;
  }

  /** Ids of different nodes never collide, whatever their clocks hold. */
  lemma NodesNeverCollide(p: nat, node: nat, q: nat, node': nat)
    requires node < NODES && node' < NODES && node != node'
    ensures IdOf(p, node) != IdOf(q, node')
  {
    PackFields(p / SEQUENCES, node, p % SEQUENCES);
    PackFields(q / SEQUENCES, node', q % SEQUENCES);
  }

  /** Below 2^54 the ids of one node are ordered as their words. */
  lemma IdOrder(p: nat, q: nat, node: nat)
    requires node < NODES && p < q < ID_SPAN
    ensures IdOf(p, node) < IdOf(q, node)
  {
    var a, b := p / SEQUENCES, q / SEQUENCES;
    assert a <= b < ID_MS;
    if a < b {
      assert b * TIMESTAMP_UNIT >= a * TIMESTAMP_UNIT + TIMESTAMP_UNIT;
    }
  }

  /** The epoch is the start of 2024: fifty-four years after that of Unix time, thirteen of them leap years. */
  lemma EpochIs2024()
    ensures EPOCH_SECONDS == (54 * 365 + 13) * 24 * 60 * 60
  {
  }

  /** The timestamp of an id is its word's milliseconds in whole seconds since 1970. */
  lemma TimestampExact(word: nat, node: nat)
    requires node < NODES && word < ID_SPAN
    ensures TimestampOf(IdOf(word, node)) == word / SEQUENCES / 1000 + EPOCH_SECONDS
  {
    PackFields(word / SEQUENCES, node, word % SEQUENCES);
    assert word / SEQUENCES < ID_MS;
  }

  lemma TimestampAtLeast(word: nat, node: nat, now: nat)
    requires node < NODES && now * SEQUENCES <= word < ID_SPAN
    ensures TimestampOf(IdOf(word, node)) >= now / 1000 + EPOCH_SECONDS
  {
    PackFields(word / SEQUENCES, node, word % SEQUENCES);
    assert word / SEQUENCES >= now;
  }
}
