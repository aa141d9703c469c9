// The data of uthash.h: the handle inside every element, the buckets, the table.
module HashTypes {
  import opened Bytes
  import opened BloomFilter

  // The bytes a handle's key pointer and keylen denote.
  type Key = seq<Byte>

  const INITIAL_NUM_BUCKETS: nat := 32
  const INITIAL_NUM_BUCKETS_LOG2: nat := 5
  const BKT_CAPACITY_THRESH: nat := 10

  // An element with its UT_hash_handle.
  class Node {
    var tbl: Table?
    var prev: Node?
    var next: Node?
    var hhPrev: Node?
    var hhNext: Node?
    var key: Key
    var hashv: U32
  }

  // UT_hash_bucket.
  datatype Bucket = Bucket(hhHead: Node?, count: nat, expandMult: nat)

  // UT_hash_table.
  class Table {
    var buckets: array<Bucket>
    var numBuckets: nat
    var log2NumBuckets: nat
    var numItems: nat
    var tail: Node?
    var idealChainMaxlen: nat
    var nonidealItems: nat
    var ineffExpands: nat
    var noexpand: bool
    var bloom: Bloom?  // NULL when HASH_BLOOM is not defined

    // The zeroed table and buckets of HASH_MAKE_TABLE.
    constructor (head: Node, bloom: Bloom?)
      ensures fresh(buckets) && buckets.Length == INITIAL_NUM_BUCKETS
      ensures forall b {:trigger buckets[b]} :: 0 <= b < INITIAL_NUM_BUCKETS ==> buckets[b] == Bucket(null, 0, 0)
      ensures numBuckets == INITIAL_NUM_BUCKETS && log2NumBuckets == INITIAL_NUM_BUCKETS_LOG2
      ensures numItems == idealChainMaxlen == nonidealItems == ineffExpands == 0 && !noexpand && tail == head
      ensures this.bloom == bloom
    {
      buckets := new Bucket[INITIAL_NUM_BUCKETS](_ => Bucket(null, 0, 0));
      numBuckets, log2NumBuckets, numItems := INITIAL_NUM_BUCKETS, INITIAL_NUM_BUCKETS_LOG2, 0;
      tail := head;
      this.bloom := bloom;
      idealChainMaxlen, nonidealItems, ineffExpands, noexpand := 0, 0, 0, false;
    }
  }

  // Element i of s, or NULL.
  function At(s: seq<Node>, i: int): Node? {
    if 0 <= i < |s| then s[i] else null
  }

  // The application-order list: prev and next link exactly the nodes of s, in order.
  ghost predicate AppLinks(s: seq<Node>)
    reads s`prev, s`next
  {
    && (forall i {:trigger s[i].prev} :: 0 <= i < |s| ==> s[i].prev == At(s, i - 1))
    && (forall i {:trigger s[i].next} :: 0 <= i < |s| ==> s[i].next == At(s, i + 1))
  }
}
