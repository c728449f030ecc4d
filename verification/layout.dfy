/**
 * The storage layout shared by `fast_hashsetimpl` and `fast_hashset_fclear`
 * (fast_hashmap.hpp), as values: slots, inline nodes, big nodes and the
 * overflow list, the invariant that makes the table an exact set of keys, and
 * the two ways `insert` changes the layout (store a key in a free slot; move
 * the last key of a full node into a new big node and link to it).
 *
 * Links are indices into the overflow list, as in the source. Two ghost
 * components give the proofs their footing: `owner[j]` is the bucket whose
 * chain big node j belongs to, and `loc[k]` is the slot that holds key k.
 */
module Layout {
  import opened Mixer

  /** Range of `uint32_t` (the type of `size_`, `count_` and the hash value). */
  const WordLimit: nat := 0x1_0000_0000

  /** `++` on a `uint32_t` counter: it wraps from 2^32 - 1 to 0. */
  function Inc32(c: nat): (d: nat)
    requires c < WordLimit
    ensures d < WordLimit && (d == c + 1 || (c == WordLimit - 1 && d == 0))
  {
    if c + 1 == WordLimit then 0 else c + 1
  }

  /** A `KeyFlags` record: a key (or an overflow-list index), `is_offs` and `occupied`. */
  datatype Slot = Slot(key: nat, isOffs: bool, occupied: bool)

  /** An occupied slot that holds a real key rather than a link. */
  predicate IsKey(s: Slot) { s.occupied && !s.isOffs }

  /** What `memset(..., 0, ...)` leaves in a slot. */
  const EmptySlot: Slot := Slot(0, false, false)

  /** `node`: the `node_keys` slots of one bucket. */
  datatype Node = Node(keys: seq<Slot>)

  /** `big_node`: the `big_node_keys` slots of one overflow-list entry. */
  datatype BigNode = BigNode(keys: seq<Slot>)

  /**
   * The fixed configuration of a table: `size_` buckets, the template arguments
   * `node_keys` and `big_node_keys`, and the word width (`wide` is the 64-bit
   * `fast_hashset62`, otherwise the 32-bit `fast_hashset30`).
   */
  datatype Shape = Shape(size: nat, nodeKeys: nat, bigNodeKeys: nat, wide: bool)
  {
    /** `size_ > 0` (it is a divisor), it fits `uint32_t`, and the two static_asserts. */
    predicate Ok()
    {
      0 < size < WordLimit && 1 < nodeKeys < bigNodeKeys
    }

    /** Keys and offsets live in the `W - 2` low bits of a slot. */
    function KeyLimit(): nat
    {
      if wide then 0x4000_0000_0000_0000 else 0x4000_0000
    }

    /** `Hash32{}(key) % size_`, with the overload picked by the key's type. */
    function Bucket(key: nat): (h: nat)
      requires Ok()
      ensures h < size
    {
      var hash := if wide then Hash64((key % 0x1_0000_0000_0000_0000) as bv64)
                  else Hash32((key % WordLimit) as bv32);
      BucketOf(hash, size)
    }
  }

  /** `node_keys` slots, all as `memset` leaves them. */
  function EmptyNode(nodeKeys: nat): (n: Node)
    ensures |n.keys| == nodeKeys
    ensures forall i | 0 <= i < nodeKeys :: n.keys[i] == EmptySlot
  {
    Node(seq(nodeKeys, _ => EmptySlot))
  }

  /**
   * The `big_node(key0, key1)` constructor: slots 0 and 1 hold the two keys, the
   * remaining slots are neither occupied nor links.
   */
  function NewBigNode(sh: Shape, key0: nat, key1: nat): (b: BigNode)
    requires sh.Ok()
    ensures |b.keys| == sh.bigNodeKeys
    ensures b.keys[0] == Slot(key0, false, true) && b.keys[1] == Slot(key1, false, true)
    ensures forall i | 2 <= i < sh.bigNodeKeys :: !b.keys[i].occupied && !b.keys[i].isOffs
  {
    BigNode([Slot(key0, false, true), Slot(key1, false, true)]
            + seq(sh.bigNodeKeys - 2, _ => EmptySlot))
  }

  /** A node of the structure: the inline node of bucket h, or big node j of the overflow list. */
  datatype NodeRef = Inline(h: nat) | Overflow(j: nat)

  /** A slot: slot i of node r (the C++ passes a `KeyFlags &` instead). */
  datatype Loc = Loc(r: NodeRef, i: nat)

  /** Position in the chain order: the inline node comes before every big node. */
  function Pos(r: NodeRef): int
  {
    match r
    case Inline(_) => -1
    case Overflow(j) => j
  }

  function Width(sh: Shape, r: NodeRef): nat
  {
    if r.Inline? then sh.nodeKeys else sh.bigNodeKeys
  }

  /** The table `ha`, the overflow list `olist`, and the two ghost components. */
  datatype Table = Table(ha: seq<Node>, olist: seq<BigNode>, owner: seq<nat>, loc: map<nat, Loc>)
  {
    predicate Has(r: NodeRef)
    {
      match r
      case Inline(h) => h < |ha|
      case Overflow(j) => j < |olist|
    }

    function SlotsOf(r: NodeRef): seq<Slot>
    {
      match r
      case Inline(h) => if h < |ha| then ha[h].keys else []
      case Overflow(j) => if j < |olist| then olist[j].keys else []
    }

    /** The bucket whose chain node r belongs to. */
    function OwnerOf(r: NodeRef): nat
    {
      match r
      case Inline(h) => h
      case Overflow(j) => if j < |owner| then owner[j] else 0
    }

    /** The keys the structure holds: those of every occupied, non-link slot. */
    function Contents(): set<nat>
    {
      loc.Keys
    }

    /** Overwrite one slot, leaving every other slot as it is. */
    function Put(l: Loc, s: Slot): (t: Table)
      requires Has(l.r) && l.i < |SlotsOf(l.r)|
      ensures t.owner == owner && t.loc == loc && |t.ha| == |ha| && |t.olist| == |olist|
    {
      match l.r
      case Inline(h) => this.(ha := ha[h := Node(ha[h].keys[l.i := s])])
      case Overflow(j) => this.(olist := olist[j := BigNode(olist[j].keys[l.i := s])])
    }
  }

  /*
   * The invariant.
   */

  /** The slot `loc[k]` names exists and holds k as a key. */
  ghost predicate Located(t: Table, k: nat)
    requires k in t.loc
  {
    var l := t.loc[k];
    t.Has(l.r) && l.i < |t.SlotsOf(l.r)| && t.SlotsOf(l.r)[l.i] == Slot(k, false, true)
  }

  /** Key slot i of node r: the key fits the key field, hashes to r's bucket and is located there. */
  ghost predicate KeyHome(sh: Shape, t: Table, r: NodeRef, i: nat)
    requires sh.Ok() && i < |t.SlotsOf(r)|
  {
    var k := t.SlotsOf(r)[i].key;
    k < sh.KeyLimit() && sh.Bucket(k) == t.OwnerOf(r) && k in t.loc && t.loc[k] == Loc(r, i)
  }

  /**
   * The last slot of r links to the next node of the same chain, which is the
   * big node of the same owner with the least index after Pos(r); a last slot
   * that is not a link ends the chain: no later big node has r's owner.
   */
  ghost predicate LinkOk(t: Table, r: NodeRef)
  {
    var s := t.SlotsOf(r);
    |s| > 0 &&
    var last := s[|s| - 1];
    if last.isOffs then
      Pos(r) < last.key < |t.olist|
      && t.OwnerOf(Overflow(last.key)) == t.OwnerOf(r)
      && forall j | Pos(r) < j < last.key :: t.OwnerOf(Overflow(j)) != t.OwnerOf(r)
    else
      forall j | Pos(r) < j < |t.olist| :: t.OwnerOf(Overflow(j)) != t.OwnerOf(r)
  }

  ghost predicate NodeOk(sh: Shape, t: Table, r: NodeRef)
    requires sh.Ok()
  {
    var s := t.SlotsOf(r);
    && |s| == Width(sh, r)
    && t.OwnerOf(r) < sh.size
    // slots fill in order: occupied slots form a prefix
    && (forall i, i' | 0 <= i <= i' < |s| && !s[i].occupied :: !s[i'].occupied)
    // `is_offs` is set only on an occupied last slot
    && (forall i | 0 <= i < |s| && s[i].isOffs :: s[i].occupied && i == |s| - 1)
    && (forall i {:trigger KeyHome(sh, t, r, i)} | 0 <= i < |s| && IsKey(s[i]) :: KeyHome(sh, t, r, i))
    && LinkOk(t, r)
  }

  /**
   * The structural invariant of the hash set. Among its consequences: no two key
   * slots hold the same key (both would be `loc[k]`), every key sits in the
   * chain of its bucket, and links point strictly forward, so a chain walk ends.
   */
  ghost predicate Inv(sh: Shape, t: Table)
  {
    && sh.Ok()
    && |t.ha| == sh.size
    && |t.owner| == |t.olist|
    && |t.olist| <= |t.loc|
    && (forall r {:trigger NodeOk(sh, t, r)} | t.Has(r) :: NodeOk(sh, t, r))
    && (forall k {:trigger Located(t, k)} | k in t.loc :: Located(t, k))
  }

  /*
   * The two layout changes of `insert`.
   */

  /** `new_key(key, slot)`: store key in slot l. */
  function AddKey(t: Table, key: nat, l: Loc): (t': Table)
    requires t.Has(l.r) && l.i < |t.SlotsOf(l.r)|
    ensures t'.Contents() == t.Contents() + {key}
  {
    t.Put(l, Slot(key, false, true)).(loc := t.loc[key := l])
  }

  /**
   * The first half of `allocate_big(key, last)` on the last slot of node r:
   * append the big node {key0, key}, where key0 is the key the last slot holds,
   * to the overflow list; key0 and key now live there.
   */
  function Appended(sh: Shape, t: Table, key: nat, r: NodeRef): (t': Table)
    requires sh.Ok() && t.Has(r) && |t.SlotsOf(r)| > 0
    ensures t'.Has(r) && t'.SlotsOf(r) == t.SlotsOf(r) && |t'.olist| == |t.olist| + 1
  {
    var n := |t.olist|;
    var key0 := t.SlotsOf(r)[|t.SlotsOf(r)| - 1].key;
    t.(olist := t.olist + [NewBigNode(sh, key0, key)],
       owner := t.owner + [t.OwnerOf(r)],
       loc := t.loc[key0 := Loc(Overflow(n), 0)][key := Loc(Overflow(n), 1)])
  }

  /**
   * `allocate_big(key, last)` on the last slot of node r: append the big node
   * {key0, key} and turn the last slot into a link to it.
   */
  function Overflowed(sh: Shape, t: Table, key: nat, r: NodeRef): (t': Table)
    requires sh.Ok() && t.Has(r) && |t.SlotsOf(r)| > 0
    ensures t'.Contents() == t.Contents() + {t.SlotsOf(r)[|t.SlotsOf(r)| - 1].key, key}
  {
    Appended(sh, t, key, r).Put(Loc(r, |t.SlotsOf(r)| - 1), Slot(|t.olist|, true, true))
  }

  /** Overflowed, spelled out: the grown table with the link written into the last slot of r. */
  lemma OverflowedIs(sh: Shape, t: Table, key: nat, r: NodeRef)
    requires sh.Ok() && t.Has(r) && |t.SlotsOf(r)| > 0
    ensures Overflowed(sh, t, key, r)
         == Appended(sh, t, key, r).Put(Loc(r, |t.SlotsOf(r)| - 1), Slot(|t.olist|, true, true))
  {
  }

  /**
   * `allocate_big` as written in fast_hashsetimpl: `uint32_t key0 = last_k.key`
   * keeps only the low 32 bits of the moved key, so the big node receives
   * key0 modulo 2^32. Otherwise the same as Overflowed.
   */
  function OverflowedAsWritten(sh: Shape, t: Table, key: nat, r: NodeRef): (t': Table)
    requires sh.Ok() && t.Has(r) && |t.SlotsOf(r)| > 0
    ensures t'.loc == Overflowed(sh, t, key, r).loc
  {
    var t1 := Overflowed(sh, t, key, r);
    var key0 := t.SlotsOf(r)[|t.SlotsOf(r)| - 1].key;
    t1.(olist := t1.olist[|t.olist| := NewBigNode(sh, key0 % WordLimit, key)])
  }

  /**
   * With 62-bit keys, a moved key of 2^32 or more is recorded in the new big
   * node but no longer stored there: the invariant breaks and the key is lost.
   */
  lemma TruncatedKeyLost(sh: Shape, t: Table, key: nat, r: NodeRef)
    requires sh.Ok() && t.Has(r) && |t.SlotsOf(r)| > 0
    requires t.SlotsOf(r)[|t.SlotsOf(r)| - 1].key >= WordLimit
    requires key != t.SlotsOf(r)[|t.SlotsOf(r)| - 1].key
    ensures var k0 := t.SlotsOf(r)[|t.SlotsOf(r)| - 1].key;
      var t' := OverflowedAsWritten(sh, t, key, r);
      k0 in t'.Contents() && !Located(t', k0) && !Inv(sh, t')
  {
    var k0 := t.SlotsOf(r)[|t.SlotsOf(r)| - 1].key;
    var t' := OverflowedAsWritten(sh, t, key, r);
    var n := |t.olist|;
    assert t'.loc[k0] == Loc(Overflow(n), 0);
    assert t'.SlotsOf(Overflow(n))[0].key == k0 % WordLimit;
  }

  /** An empty table: every slot as `memset` leaves it, no overflow node, no key. */
  function EmptyTable(sh: Shape): (t: Table)
    requires sh.Ok()
    ensures Inv(sh, t) && t.Contents() == {} && t.olist == []
  {
    var t := Table(seq(sh.size, _ => EmptyNode(sh.nodeKeys)), [], [], map[]);
    assert forall r | t.Has(r) :: NodeOk(sh, t, r) by {
      forall r | t.Has(r) ensures NodeOk(sh, t, r) {
        assert t.SlotsOf(r) == EmptyNode(sh.nodeKeys).keys;
      }
    }
    t
  }

  /**
   * A table whose buckets hold only free slots (whatever their key words), with
   * no overflow node and no key, keeps the invariant.
   */
  lemma FreeTableInv(sh: Shape, t: Table)
    requires sh.Ok() && |t.ha| == sh.size && t.olist == [] && t.owner == [] && t.loc == map[]
    requires forall h | 0 <= h < |t.ha| :: |t.ha[h].keys| == sh.nodeKeys
    requires forall h, i | 0 <= h < |t.ha| && 0 <= i < |t.ha[h].keys| ::
      !t.ha[h].keys[i].occupied && !t.ha[h].keys[i].isOffs
    ensures Inv(sh, t)
  {
    forall r | t.Has(r) ensures NodeOk(sh, t, r) {
      assert t.SlotsOf(r) == t.ha[r.h].keys;
    }
  }

  /*
   * What a scan of the chain learns.
   */

  /** The slots before i of node r are occupied and none holds key as a key. */
  ghost predicate Scanned(t: Table, key: nat, r: NodeRef, i: nat)
  {
    var s := t.SlotsOf(r);
    i <= |s| && forall i' | 0 <= i' < i :: s[i'].occupied && !(IsKey(s[i']) && s[i'].key == key)
  }

  /** If key is present at all, it is in node r or a later node (of its chain). */
  ghost predicate NotBefore(t: Table, key: nat, r: NodeRef)
  {
    key in t.loc ==> Pos(t.loc[key].r) >= Pos(r)
  }

  /** Two nodes of one owner at the same position are the same node. */
  lemma SamePosSameNode(t: Table, r: NodeRef, r': NodeRef)
    requires t.OwnerOf(r) == t.OwnerOf(r') && Pos(r) == Pos(r')
    ensures r == r'
  {
  }

  /** A key slot that holds key proves key present. */
  lemma FoundKey(sh: Shape, t: Table, key: nat, r: NodeRef, i: nat)
    requires Inv(sh, t) && t.Has(r) && i < |t.SlotsOf(r)|
    requires IsKey(t.SlotsOf(r)[i]) && t.SlotsOf(r)[i].key == key
    ensures key in t.Contents()
  {
    assert NodeOk(sh, t, r);
    assert KeyHome(sh, t, r, i);
  }

  /** A present key sits, as a key, in a node of its bucket's chain. */
  lemma KeyLocated(sh: Shape, t: Table, key: nat)
    requires Inv(sh, t) && key in t.Contents()
    ensures var l := t.loc[key];
      t.Has(l.r) && l.i < |t.SlotsOf(l.r)| && t.SlotsOf(l.r)[l.i] == Slot(key, false, true)
      && t.OwnerOf(l.r) == sh.Bucket(key)
  {
    var l := t.loc[key];
    assert Located(t, key);
    assert NodeOk(sh, t, l.r);
    assert KeyHome(sh, t, l.r, l.i);
  }

  /**
   * A scan of node r of key's chain that met a free slot at i, or met no
   * free slot and no link, proves key absent.
   */
  lemma ScanMissAbsent(sh: Shape, t: Table, key: nat, r: NodeRef, i: nat)
    requires Inv(sh, t) && t.Has(r) && t.OwnerOf(r) == sh.Bucket(key) && NotBefore(t, key, r)
    requires Scanned(t, key, r, i)
    requires i < |t.SlotsOf(r)| ==> !t.SlotsOf(r)[i].occupied
    requires 0 < i == |t.SlotsOf(r)| ==> !t.SlotsOf(r)[i - 1].isOffs
    ensures key !in t.Contents()
  {
    var s := t.SlotsOf(r);
    assert NodeOk(sh, t, r);
    var w := |s|;
    assert !s[w - 1].isOffs;
    if key in t.loc {
      var l := t.loc[key];
      KeyLocated(sh, t, key);
      if Pos(l.r) == Pos(r) {
        SamePosSameNode(t, r, l.r);
      }
    }
  }

  /**
   * A scan of node r of key's chain that met neither a free slot nor the key,
   * and found a link in the last slot: the key is not before the linked node,
   * which belongs to the same chain.
   */
  lemma ScanMissFollow(sh: Shape, t: Table, key: nat, r: NodeRef)
    requires Inv(sh, t) && t.Has(r) && t.OwnerOf(r) == sh.Bucket(key) && NotBefore(t, key, r)
    requires Scanned(t, key, r, |t.SlotsOf(r)|)
    requires |t.SlotsOf(r)| > 0 && t.SlotsOf(r)[|t.SlotsOf(r)| - 1].isOffs
    ensures var next := Overflow(t.SlotsOf(r)[|t.SlotsOf(r)| - 1].key);
      t.Has(next) && Pos(r) < Pos(next) && t.OwnerOf(next) == sh.Bucket(key) && NotBefore(t, key, next)
  {
    var s := t.SlotsOf(r);
    assert NodeOk(sh, t, r);
    if key in t.loc {
      var l := t.loc[key];
      KeyLocated(sh, t, key);
      if Pos(l.r) == Pos(r) {
        SamePosSameNode(t, r, l.r);
      }
    }
  }

  /*
   * Both layout changes keep the invariant.
   */

  /** Every key the table holds fits the key field, so there are at most KeyLimit of them. */
  lemma ContentsBounded(sh: Shape, t: Table)
    requires Inv(sh, t)
    ensures forall k | k in t.Contents() :: k < sh.KeyLimit()
  {
    forall k | k in t.Contents() ensures k < sh.KeyLimit() {
      var l := t.loc[k];
      assert Located(t, k);
      assert NodeOk(sh, t, l.r);
      assert KeyHome(sh, t, l.r, l.i);
    }
  }

  /** A set of naturals below n has at most n elements. */
  lemma {:induction false} BoundedSetSize(s: set<nat>, n: nat)
    requires forall x | x in s :: x < n
    ensures |s| <= n
  {
    if n > 0 {
      var s' := s - {n - 1};
      BoundedSetSize(s', n - 1);
      assert s <= s' + {n - 1};
    } else {
      assert s == {};
    }
  }

  /** new_key changes slot l and loc[key], and nothing else. */
  lemma AddKeyFrame(t: Table, key: nat, l: Loc, r: NodeRef)
    requires t.Has(l.r) && l.i < |t.SlotsOf(l.r)|
    ensures var t' := AddKey(t, key, l);
      && t'.owner == t.owner && |t'.olist| == |t.olist| && |t'.ha| == |t.ha|
      && t'.loc == t.loc[key := l]
      && t'.Has(r) == t.Has(r)
      && t'.SlotsOf(r) == if r == l.r then t.SlotsOf(r)[l.i := Slot(key, false, true)] else t.SlotsOf(r)
  {
  }

  /** The node new_key writes to stays well formed. */
  lemma AddKeyKeepsWritten(sh: Shape, t: Table, key: nat, l: Loc)
    requires Inv(sh, t) && key < sh.KeyLimit() && key !in t.Contents()
    requires t.Has(l.r) && t.OwnerOf(l.r) == sh.Bucket(key)
    requires l.i < |t.SlotsOf(l.r)| && !t.SlotsOf(l.r)[l.i].occupied
    requires Scanned(t, key, l.r, l.i)
    ensures NodeOk(sh, AddKey(t, key, l), l.r)
  {
    var t' := AddKey(t, key, l);
    var r := l.r;
    AddKeyFrame(t, key, l, r);
    assert NodeOk(sh, t, r);
    var s, s' := t.SlotsOf(r), t'.SlotsOf(r);
    forall i | 0 <= i < |s'| && IsKey(s'[i]) ensures KeyHome(sh, t', r, i) {
      if i != l.i {
        assert KeyHome(sh, t, r, i);
      }
    }
    assert LinkOk(t', r) by {
      if l.i < |s| - 1 {
        assert !s[|s| - 1].occupied;
      }
      assert LinkOk(t, r);
    }
  }

  /**
   * A well-formed node stays well formed in a table where its slots, the owners
   * and the number of big nodes are the same, and each of its keys is located
   * where it was.
   */
  lemma NodeOkTransfer(sh: Shape, t: Table, t': Table, r: NodeRef)
    requires sh.Ok() && NodeOk(sh, t, r)
    requires t'.SlotsOf(r) == t.SlotsOf(r) && t'.owner == t.owner && |t'.olist| == |t.olist|
    requires forall k | k in t.loc :: k in t'.loc && t'.loc[k] == t.loc[k]
    ensures NodeOk(sh, t', r)
  {
    var s := t.SlotsOf(r);
    assert t'.OwnerOf(r) == t.OwnerOf(r);
    forall i | 0 <= i < |s| && IsKey(s[i]) ensures KeyHome(sh, t', r, i) {
      assert KeyHome(sh, t, r, i);
    }
    assert LinkOk(t, r);
  }

  /** Every node new_key does not write to stays well formed. */
  lemma AddKeyKeepsOther(sh: Shape, t: Table, key: nat, l: Loc, r: NodeRef)
    requires Inv(sh, t) && key !in t.Contents()
    requires t.Has(l.r) && l.i < |t.SlotsOf(l.r)|
    requires t.Has(r) && r != l.r
    ensures NodeOk(sh, AddKey(t, key, l), r)
  {
    AddKeyFrame(t, key, l, r);
    assert NodeOk(sh, t, r);
    NodeOkTransfer(sh, t, AddKey(t, key, l), r);
  }

  /** After new_key every key is located: key in slot l, the others where they were. */
  lemma AddKeyKeepsLocated(sh: Shape, t: Table, key: nat, l: Loc, k: nat)
    requires Inv(sh, t)
    requires t.Has(l.r) && l.i < |t.SlotsOf(l.r)| && !t.SlotsOf(l.r)[l.i].occupied
    requires k in AddKey(t, key, l).loc
    ensures Located(AddKey(t, key, l), k)
  {
    if k != key {
      assert Located(t, k);
      AddKeyFrame(t, key, l, t.loc[k].r);
    } else {
      AddKeyFrame(t, key, l, l.r);
    }
  }

  /** new_key in the first free slot of a node of key's chain keeps the invariant. */
  lemma AddKeyKeepsInv(sh: Shape, t: Table, key: nat, l: Loc)
    requires Inv(sh, t) && key < sh.KeyLimit() && key !in t.Contents()
    requires t.Has(l.r) && t.OwnerOf(l.r) == sh.Bucket(key)
    requires l.i < |t.SlotsOf(l.r)| && !t.SlotsOf(l.r)[l.i].occupied
    requires Scanned(t, key, l.r, l.i)
    ensures Inv(sh, AddKey(t, key, l))
    ensures |AddKey(t, key, l).loc| == |t.loc| + 1
  {
    var t' := AddKey(t, key, l);
    AddKeyFrame(t, key, l, l.r);
    assert |t'.loc| == |t.loc| + 1;
    forall r | t'.Has(r) ensures NodeOk(sh, t', r) {
      AddKeyFrame(t, key, l, r);
      if r == l.r {
        AddKeyKeepsWritten(sh, t, key, l);
      } else {
        AddKeyKeepsOther(sh, t, key, l, r);
      }
    }
    forall k | k in t'.loc ensures Located(t', k) {
      AddKeyKeepsLocated(sh, t, key, l, k);
    }
  }

  /** Every node has the width its kind prescribes. */
  lemma NodeWidth(sh: Shape, t: Table, r: NodeRef)
    requires Inv(sh, t) && t.Has(r)
    ensures |t.SlotsOf(r)| == Width(sh, r)
  {
    assert NodeOk(sh, t, r);
  }

  /** Every node has a last slot, and it links within its chain or ends it. */
  lemma NodeLink(sh: Shape, t: Table, r: NodeRef)
    requires Inv(sh, t) && t.Has(r)
    ensures |t.SlotsOf(r)| > 0 && LinkOk(t, r)
  {
    assert NodeOk(sh, t, r);
  }

  /** The only node of a chain whose last slot is not a link is the chain's end. */
  lemma ChainEndUnique(sh: Shape, t: Table, r: NodeRef, r': NodeRef)
    requires Inv(sh, t) && t.Has(r) && t.Has(r') && t.OwnerOf(r) == t.OwnerOf(r')
    requires |t.SlotsOf(r)| > 0 && !t.SlotsOf(r)[|t.SlotsOf(r)| - 1].isOffs
    requires |t.SlotsOf(r')| > 0 && !t.SlotsOf(r')[|t.SlotsOf(r')| - 1].isOffs
    ensures r == r'
  {
    NodeLink(sh, t, r);
    NodeLink(sh, t, r');
    if Pos(r) == Pos(r') {
      SamePosSameNode(t, r, r');
    }
  }

  /** Node r exists and its last slot holds a key rather than a link: `allocate_big` runs there. */
  ghost predicate ChainEnd(t: Table, r: NodeRef)
  {
    t.Has(r) && |t.SlotsOf(r)| > 0 && !t.SlotsOf(r)[|t.SlotsOf(r)| - 1].isOffs
  }

  /** Following the links from node r reaches the end of r's chain. */
  lemma {:induction false} ChainEndReached(sh: Shape, t: Table, r: NodeRef)
    requires Inv(sh, t) && t.Has(r)
    ensures exists e :: ChainEnd(t, e) && t.OwnerOf(e) == t.OwnerOf(r) && Pos(r) <= Pos(e)
    decreases |t.olist| - Pos(r)
  {
    NodeLink(sh, t, r);
    var s := t.SlotsOf(r);
    if s[|s| - 1].isOffs {
      var next := Overflow(s[|s| - 1].key);
      ChainEndReached(sh, t, next);
      var e :| ChainEnd(t, e) && t.OwnerOf(e) == t.OwnerOf(next) && Pos(next) <= Pos(e);
      assert t.OwnerOf(e) == t.OwnerOf(r) && Pos(r) <= Pos(e);
    } else {
      assert ChainEnd(t, r);
    }
  }

  /** Every bucket's chain has an end (and by ChainEndUnique, only one). */
  lemma ChainEndExists(sh: Shape, t: Table, h: nat)
    requires Inv(sh, t) && h < sh.size
    ensures exists e :: ChainEnd(t, e) && t.OwnerOf(e) == h
  {
    ChainEndReached(sh, t, Inline(h));
  }

  /*
   * When `insert` grows the overflow list.
   */

  /** Every slot of node r is occupied. */
  ghost predicate Full(t: Table, r: NodeRef)
  {
    forall i | 0 <= i < |t.SlotsOf(r)| :: t.SlotsOf(r)[i].occupied
  }

  /** Every node of bucket h's chain at position p or later is full. */
  ghost predicate FullFrom(t: Table, h: nat, p: int)
  {
    forall r | t.Has(r) && t.OwnerOf(r) == h && Pos(r) >= p :: Full(t, r)
  }

  /** Every slot of bucket h's chain is occupied: a new key of h needs a new big node. */
  ghost predicate ChainFull(t: Table, h: nat)
  {
    FullFrom(t, h, -1)
  }

  /**
   * Past a full node r whose last slot links on, the chain is full from r on
   * exactly when it is full from the linked node on.
   */
  lemma FullFromLink(sh: Shape, t: Table, r: NodeRef)
    requires Inv(sh, t) && t.Has(r) && Full(t, r)
    requires |t.SlotsOf(r)| > 0 && t.SlotsOf(r)[|t.SlotsOf(r)| - 1].isOffs
    ensures var next := Overflow(t.SlotsOf(r)[|t.SlotsOf(r)| - 1].key);
      FullFrom(t, t.OwnerOf(r), Pos(r)) <==> FullFrom(t, t.OwnerOf(r), Pos(next))
  {
    NodeLink(sh, t, r);
    var h := t.OwnerOf(r);
    var n := t.SlotsOf(r)[|t.SlotsOf(r)| - 1].key;
    if FullFrom(t, h, n) {
      forall r' | t.Has(r') && t.OwnerOf(r') == h && Pos(r') >= Pos(r)
        ensures Full(t, r')
      {
        if Pos(r') == Pos(r) {
          SamePosSameNode(t, r, r');
        }
      }
    }
  }

  /** A free slot in node r: the chain is not full from r on. */
  lemma FreeSlotNotFull(t: Table, r: NodeRef, i: nat)
    requires t.Has(r) && i < |t.SlotsOf(r)| && !t.SlotsOf(r)[i].occupied
    ensures !FullFrom(t, t.OwnerOf(r), Pos(r))
  {
    assert !Full(t, r);
  }

  /** A scan that passed every slot of r without meeting a free one: r is full. */
  lemma ScannedFull(t: Table, key: nat, r: NodeRef)
    requires Scanned(t, key, r, |t.SlotsOf(r)|)
    ensures Full(t, r)
  {
  }

  /** A full node that ends its chain leaves the chain full from it on. */
  lemma FullFromEnd(sh: Shape, t: Table, r: NodeRef)
    requires Inv(sh, t) && ChainEnd(t, r) && Full(t, r)
    ensures FullFrom(t, t.OwnerOf(r), Pos(r))
  {
    NodeLink(sh, t, r);
    forall r' | t.Has(r') && t.OwnerOf(r') == t.OwnerOf(r) && Pos(r') >= Pos(r)
      ensures Full(t, r')
    {
      if Pos(r') == Pos(r) {
        SamePosSameNode(t, r, r');
      }
    }
  }

  /**
   * A chain is full exactly when the last slot of its end is occupied: the
   * slot that `insert` and `traverse` find occupied before `allocate_big`.
   */
  lemma ChainFullAtEnd(sh: Shape, t: Table, h: nat)
    requires Inv(sh, t)
    ensures ChainFull(t, h) <==>
      forall e | ChainEnd(t, e) && t.OwnerOf(e) == h :: t.SlotsOf(e)[|t.SlotsOf(e)| - 1].occupied
  {
    if forall e | ChainEnd(t, e) && t.OwnerOf(e) == h :: t.SlotsOf(e)[|t.SlotsOf(e)| - 1].occupied {
      forall r | t.Has(r) && t.OwnerOf(r) == h && Pos(r) >= -1
        ensures Full(t, r)
      {
        assert NodeOk(sh, t, r);
        var s := t.SlotsOf(r);
        assert s[|s| - 1].occupied by {
          if !s[|s| - 1].isOffs {
            assert ChainEnd(t, r);
          }
        }
      }
    }
  }

  /** No two key slots hold the same key: a key is stored once. */
  lemma KeyStoredOnce(sh: Shape, t: Table, r: NodeRef, i: nat, r': NodeRef, i': nat)
    requires Inv(sh, t) && t.Has(r) && t.Has(r')
    requires i < |t.SlotsOf(r)| && i' < |t.SlotsOf(r')|
    requires IsKey(t.SlotsOf(r)[i]) && IsKey(t.SlotsOf(r')[i'])
    requires t.SlotsOf(r)[i].key == t.SlotsOf(r')[i'].key
    ensures r == r' && i == i'
  {
    assert NodeOk(sh, t, r) && NodeOk(sh, t, r');
    assert KeyHome(sh, t, r, i) && KeyHome(sh, t, r', i');
  }

  /**
   * allocate_big appends big node n = |olist| owned by r's bucket, turns the last
   * slot of r into a link to it and moves key0 and key there; nothing else changes.
   */
  lemma OverflowFrame(sh: Shape, t: Table, key: nat, r: NodeRef, r': NodeRef)
    requires sh.Ok() && t.Has(r) && |t.SlotsOf(r)| > 0 && |t.owner| == |t.olist|
    ensures var t', s, n := Overflowed(sh, t, key, r), t.SlotsOf(r), |t.olist|;
      && |t'.olist| == n + 1 && |t'.owner| == n + 1 && |t'.ha| == |t.ha|
      && t'.loc == t.loc[s[|s| - 1].key := Loc(Overflow(n), 0)][key := Loc(Overflow(n), 1)]
      && (forall j: nat | j < n :: t'.OwnerOf(Overflow(j)) == t.OwnerOf(Overflow(j)))
      && t'.OwnerOf(Overflow(n)) == t.OwnerOf(r)
      && t'.Has(r') == (t.Has(r') || r' == Overflow(n))
      && (r' != Overflow(n) ==> t'.OwnerOf(r') == t.OwnerOf(r'))
      && t'.SlotsOf(r') == if r' == r then s[|s| - 1 := Slot(n, true, true)]
                           else if r' == Overflow(n) then NewBigNode(sh, s[|s| - 1].key, key).keys
                           else t.SlotsOf(r')
  {
  }

  /** The new big node is well formed: both keys belong to the chain's bucket. */
  lemma OverflowKeepsNew(sh: Shape, t: Table, key: nat, r: NodeRef)
    requires Inv(sh, t) && key < sh.KeyLimit() && key !in t.Contents()
    requires t.Has(r) && t.OwnerOf(r) == sh.Bucket(key)
    requires |t.SlotsOf(r)| > 0 && !t.SlotsOf(r)[|t.SlotsOf(r)| - 1].isOffs
    requires t.SlotsOf(r)[|t.SlotsOf(r)| - 1].occupied
    ensures NodeOk(sh, Overflowed(sh, t, key, r), Overflow(|t.olist|))
  {
    var n := |t.olist|;
    var s := t.SlotsOf(r);
    var r' := Overflow(n);
    var t' := Overflowed(sh, t, key, r);
    OverflowFrame(sh, t, key, r, r');
    assert NodeOk(sh, t, r);
    assert KeyHome(sh, t, r, |s| - 1);
    assert KeyHome(sh, t', r', 0) && KeyHome(sh, t', r', 1);
    FreshNodeOk(sh, t', n, s[|s| - 1].key, key);
  }

  /** A big node just built from two keys at home is well formed when it is the last one. */
  lemma FreshNodeOk(sh: Shape, t: Table, n: nat, key0: nat, key1: nat)
    requires sh.Ok() && |t.olist| == n + 1 && t.OwnerOf(Overflow(n)) < sh.size
    requires t.SlotsOf(Overflow(n)) == NewBigNode(sh, key0, key1).keys
    requires KeyHome(sh, t, Overflow(n), 0) && KeyHome(sh, t, Overflow(n), 1)
    ensures NodeOk(sh, t, Overflow(n))
  {
    var nb := t.SlotsOf(Overflow(n));
    forall i | 0 <= i < |nb| && IsKey(nb[i]) ensures KeyHome(sh, t, Overflow(n), i) {
      assert i < 2;
    }
  }

  /** The node that gets the link stays well formed: the link names the next node of its chain. */
  lemma OverflowKeepsWritten(sh: Shape, t: Table, key: nat, r: NodeRef)
    requires Inv(sh, t) && key !in t.Contents()
    requires t.Has(r) && |t.SlotsOf(r)| > 0 && !t.SlotsOf(r)[|t.SlotsOf(r)| - 1].isOffs
    requires t.SlotsOf(r)[|t.SlotsOf(r)| - 1].occupied
    ensures NodeOk(sh, Overflowed(sh, t, key, r), r)
  {
    var t' := Overflowed(sh, t, key, r);
    var s := t.SlotsOf(r);
    var w := |s|;
    OverflowFrame(sh, t, key, r, r);
    assert NodeOk(sh, t, r);
    EndKeyHome(sh, t, r);
    forall i | 0 <= i < w && IsKey(t'.SlotsOf(r)[i]) ensures KeyHome(sh, t', r, i) {
      assert KeyHome(sh, t, r, i);
    }
    assert LinkOk(t, r);
  }

  /** A key slot of a node allocate_big does not write to keeps its key at home. */
  lemma OverflowKeepsKeyHome(sh: Shape, t: Table, key: nat, r: NodeRef, r': NodeRef, i: nat)
    requires Inv(sh, t) && key !in t.Contents()
    requires t.Has(r) && |t.SlotsOf(r)| > 0 && IsKey(t.SlotsOf(r)[|t.SlotsOf(r)| - 1])
    requires t.Has(r') && r' != r && i < |t.SlotsOf(r')| && IsKey(t.SlotsOf(r')[i])
    ensures i < |Overflowed(sh, t, key, r).SlotsOf(r')| && KeyHome(sh, Overflowed(sh, t, key, r), r', i)
  {
    OverflowFrame(sh, t, key, r, r');
    EndKeyHome(sh, t, r);
    assert NodeOk(sh, t, r');
    assert KeyHome(sh, t, r', i);
  }

  /**
   * The link (or chain end) of a node allocate_big does not write to keeps its
   * meaning: the new big node belongs to r's chain, which r ended, not to r''s.
   */
  lemma OverflowKeepsLink(sh: Shape, t: Table, key: nat, r: NodeRef, r': NodeRef)
    requires Inv(sh, t)
    requires t.Has(r) && |t.SlotsOf(r)| > 0 && !t.SlotsOf(r)[|t.SlotsOf(r)| - 1].isOffs
    requires t.Has(r') && r' != r
    ensures LinkOk(Overflowed(sh, t, key, r), r')
  {
    var t' := Overflowed(sh, t, key, r);
    var n := |t.olist|;
    OverflowFrame(sh, t, key, r, r');
    NodeLink(sh, t, r');
    var s' := t.SlotsOf(r');
    if !s'[|s'| - 1].isOffs {
      assert t.OwnerOf(r') != t.OwnerOf(r) by {
        if t.OwnerOf(r') == t.OwnerOf(r) {
          ChainEndUnique(sh, t, r, r');
        }
      }
      assert forall j | Pos(r') < j < n + 1 :: t'.OwnerOf(Overflow(j)) != t'.OwnerOf(r');
    }
  }

  /** Every other node stays well formed; only the end of r's chain could have changed meaning. */
  lemma OverflowKeepsOther(sh: Shape, t: Table, key: nat, r: NodeRef, r': NodeRef)
    requires Inv(sh, t) && key !in t.Contents()
    requires t.Has(r) && |t.SlotsOf(r)| > 0 && IsKey(t.SlotsOf(r)[|t.SlotsOf(r)| - 1])
    requires t.Has(r') && r' != r
    ensures NodeOk(sh, Overflowed(sh, t, key, r), r')
  {
    var t' := Overflowed(sh, t, key, r);
    OverflowFrame(sh, t, key, r, r');
    assert NodeOk(sh, t, r');
    var s' := t.SlotsOf(r');
    forall i | 0 <= i < |s'| && IsKey(s'[i]) ensures KeyHome(sh, t', r', i) {
      OverflowKeepsKeyHome(sh, t, key, r, r', i);
    }
    OverflowKeepsLink(sh, t, key, r, r');
  }

  /** The last slot of a node, occupied and not a link, holds a key located there. */
  lemma EndKeyHome(sh: Shape, t: Table, r: NodeRef)
    requires Inv(sh, t) && t.Has(r) && |t.SlotsOf(r)| > 0
    requires IsKey(t.SlotsOf(r)[|t.SlotsOf(r)| - 1])
    ensures KeyHome(sh, t, r, |t.SlotsOf(r)| - 1)
  {
    assert NodeOk(sh, t, r);
  }

  /** After allocate_big every key is still located: key0 and key in the new node, the rest where they were. */
  lemma OverflowKeepsLocated(sh: Shape, t: Table, key: nat, r: NodeRef, k: nat)
    requires Inv(sh, t) && key !in t.Contents()
    requires t.Has(r) && |t.SlotsOf(r)| > 0 && IsKey(t.SlotsOf(r)[|t.SlotsOf(r)| - 1])
    requires k in Overflowed(sh, t, key, r).loc
    ensures Located(Overflowed(sh, t, key, r), k)
  {
    var s := t.SlotsOf(r);
    var w := |s|;
    var key0 := s[w - 1].key;
    EndKeyHome(sh, t, r);
    if k != key && k != key0 {
      assert Located(t, k);
      var lk := t.loc[k];
      OverflowFrame(sh, t, key, r, lk.r);
      assert lk != Loc(r, w - 1);
    } else {
      OverflowFrame(sh, t, key, r, Overflow(|t.olist|));
    }
  }

  /** Every node of the table after allocate_big is well formed. */
  lemma OverflowKeepsNode(sh: Shape, t: Table, key: nat, r: NodeRef, r': NodeRef)
    requires Inv(sh, t) && key < sh.KeyLimit() && key !in t.Contents()
    requires t.Has(r) && t.OwnerOf(r) == sh.Bucket(key)
    requires |t.SlotsOf(r)| > 0 && IsKey(t.SlotsOf(r)[|t.SlotsOf(r)| - 1])
    requires Overflowed(sh, t, key, r).Has(r')
    ensures NodeOk(sh, Overflowed(sh, t, key, r), r')
  {
    OverflowFrame(sh, t, key, r, r');
    if r' == Overflow(|t.olist|) {
      OverflowKeepsNew(sh, t, key, r);
    } else if r' == r {
      OverflowKeepsWritten(sh, t, key, r);
    } else {
      OverflowKeepsOther(sh, t, key, r, r');
    }
  }

  /** The index of the new big node fits the key field: |olist| <= |Contents| < KeyLimit. */
  lemma OverflowIndexFits(sh: Shape, t: Table, key: nat)
    requires Inv(sh, t) && key < sh.KeyLimit() && key !in t.Contents()
    ensures |t.olist| < sh.KeyLimit()
  {
    ContentsBounded(sh, t);
    BoundedSetSize(t.Contents() + {key}, sh.KeyLimit());
  }

  /**
   * allocate_big on the end node r of key's chain, all of whose slots hold keys,
   * keeps the invariant; the new index fits the key field of the link slot.
   */
  lemma OverflowKeepsInv(sh: Shape, t: Table, key: nat, r: NodeRef)
    requires Inv(sh, t) && key < sh.KeyLimit() && key !in t.Contents()
    requires t.Has(r) && t.OwnerOf(r) == sh.Bucket(key)
    requires Scanned(t, key, r, |t.SlotsOf(r)|)
    requires |t.SlotsOf(r)| > 0 && !t.SlotsOf(r)[|t.SlotsOf(r)| - 1].isOffs
    ensures |t.olist| < sh.KeyLimit()
    ensures Inv(sh, Overflowed(sh, t, key, r))
    ensures |Overflowed(sh, t, key, r).loc| == |t.loc| + 1
  {
    var s := t.SlotsOf(r);
    assert s[|s| - 1].occupied;
    OverflowIndexFits(sh, t, key);
    var t' := Overflowed(sh, t, key, r);
    OverflowFrame(sh, t, key, r, r);
    EndKeyHome(sh, t, r);
    assert t'.loc.Keys == t.loc.Keys + {key};
    assert |t'.loc| == |t.loc| + 1;
    forall r' | t'.Has(r') ensures NodeOk(sh, t', r') {
      OverflowKeepsNode(sh, t, key, r, r');
    }
    forall k | k in t'.loc ensures Located(t', k) {
      OverflowKeepsLocated(sh, t, key, r, k);
    }
  }
}
