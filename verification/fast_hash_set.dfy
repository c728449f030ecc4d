/**
 * `fast_hashsetimpl` of fast_hashmap.hpp (and so `fast_hashset30` and
 * `fast_hashset62`): a fixed bucket table `ha` whose slots overflow into big
 * nodes appended to `olist`, with a 32-bit insertion counter.
 *
 * The class keeps the real state of the C++ object (`ha`, `olist`, `count_`)
 * and four ghost fields: `owner` and `loc` (see module Layout), `cleared`,
 * the number of keys inserted before the last `clear`, which `count_` still
 * counts, and `wraps`, the number of times `count_` went past 2^32 - 1.
 */
module FastHashSet {
  import opened Layout

  class HashSet {
    /** `size_`, `node_keys`, `big_node_keys` and the word width. */
    const shape: Shape
    /** The bucket table `ha`. */
    const ha: array<Node>
    /** The overflow list `olist`. */
    var olist: seq<BigNode>
    /** `count_`, a `uint32_t`. */
    var count: nat
    ghost var owner: seq<nat>
    ghost var loc: map<nat, Loc>
    ghost var cleared: nat
    ghost var wraps: nat

    ghost function View(): Table
      reads this`olist, this`owner, this`loc, ha
    {
      Table(ha[..], olist, owner, loc)
    }

    /** The keys inserted since construction or the last `clear`. */
    ghost function Contents(): set<nat>
      reads this`loc
    {
      loc.Keys
    }

    ghost predicate Valid()
      reads this, ha
    {
      && ha.Length == shape.size
      && Inv(shape, View())
      && count < WordLimit && count + wraps * WordLimit == cleared + |loc|
    }

    /**
     * `fast_hashsetimpl(max_set)`: `max_set` empty buckets, no big node, a zero
     * counter. The C++ `new node[max_set]` does not zero the slots; the model
     * starts from empty slots, which is what every operation relies on.
     */
    constructor (maxSet: nat, nodeKeys: nat, bigNodeKeys: nat, wide: bool)
      requires Shape(maxSet, nodeKeys, bigNodeKeys, wide).Ok()
      ensures Valid() && fresh(ha)
      ensures shape == Shape(maxSet, nodeKeys, bigNodeKeys, wide)
      ensures Contents() == {} && olist == [] && count == 0
    {
      shape := Shape(maxSet, nodeKeys, bigNodeKeys, wide);
      ha := new Node[maxSet](_ => EmptyNode(nodeKeys));
      olist := [];
      count := 0;
      owner := [];
      loc := map[];
      cleared := 0;
      wraps := 0;
      new;
      assert View() == EmptyTable(shape);
    }

    /**
     * Overwrite slot l (through a reference in the C++); every other slot,
     * and the ghost state, stay as they are.
     */
    method Store(l: Loc, s: Slot)
      requires ha.Length == shape.size && |ha[..]| == shape.size
      requires View().Has(l.r) && l.i < |View().SlotsOf(l.r)|
      modifies this, ha
      ensures View() == old(View()).Put(l, s)
      ensures count == old(count) && cleared == old(cleared) && wraps == old(wraps)
    {
      match l.r
      case Inline(h) =>
        ha[h] := Node(ha[h].keys[l.i := s]);
      case Overflow(j) =>
        olist := olist[j := BigNode(olist[j].keys[l.i := s])];
    }

    /** `++count_` on the `uint32_t` counter; `wraps` counts the wrap-arounds. */
    method Tally()
      requires count < WordLimit
      modifies this`count, this`wraps
      ensures count == Inc32(old(count)) && count < WordLimit
      ensures count + wraps * WordLimit == old(count) + old(wraps) * WordLimit + 1
    {
      count := Inc32(count);
      if count == 0 {
        wraps := wraps + 1;
      }
    }

    /** `new_key(key, kn)`: store key in the free slot l and count it. */
    method NewKey(key: nat, l: Loc)
      requires Valid() && key < shape.KeyLimit() && key !in Contents()
      requires View().Has(l.r) && View().OwnerOf(l.r) == shape.Bucket(key)
      requires l.i < |View().SlotsOf(l.r)| && !View().SlotsOf(l.r)[l.i].occupied
      requires Scanned(View(), key, l.r, l.i)
      modifies this, ha
      ensures Valid() && View() == AddKey(old(View()), key, l) && |olist| == old(|olist|)
      ensures Contents() == old(Contents()) + {key}
      ensures count == Inc32(old(count)) && cleared == old(cleared)
    {
      ghost var t := View();
      ghost var t' := AddKey(t, key, l);
      AddKeyKeepsInv(shape, t, key, l);
      Store(l, Slot(key, false, true));
      loc := t'.loc;
      assert View() == t';
      Tally();
    }

    /**
     * The `olist.emplace_back(key0, key)` step of `allocate_big`: the big node
     * {key0, key}, key0 being the key in the last slot of node r, goes to the
     * end of `olist`, and both keys are located in it.
     */
    method AppendBig(key: nat, r: NodeRef)
      requires shape.Ok() && ha.Length == shape.size
      requires View().Has(r) && |View().SlotsOf(r)| == Width(shape, r) > 0
      modifies this
      ensures View() == Appended(shape, old(View()), key, r)
      ensures count == old(count) && cleared == old(cleared) && wraps == old(wraps)
    {
      ghost var grown := Appended(shape, View(), key, r);
      var last := Width(shape, r) - 1;
      var key0 := if r.Inline? then ha[r.h].keys[last].key else olist[r.j].keys[last].key;
      olist := olist + [NewBigNode(shape, key0, key)];
      owner := grown.owner;
      loc := grown.loc;
    }

    /**
     * The table part of `allocate_big`: append the big node, then make the
     * last slot of r a link to it (index `olist.size()` before the append).
     */
    method Spill(key: nat, r: NodeRef)
      requires shape.Ok() && ha.Length == shape.size && |ha[..]| == shape.size
      requires View().Has(r) && |View().SlotsOf(r)| == Width(shape, r) > 0
      modifies this, ha
      ensures View() == Overflowed(shape, old(View()), key, r)
      ensures count == old(count) && cleared == old(cleared) && wraps == old(wraps)
    {
      ghost var t := View();
      OverflowedIs(shape, t, key, r);
      var last := Width(shape, r) - 1;
      var offs := |olist|;
      AppendBig(key, r);
      Store(Loc(r, last), Slot(offs, true, true));
    }

    /**
     * `allocate_big(key, last_k)` on the last slot of node r: append the big
     * node {key0, key} at index `olist.size()`, turn the last slot into a link
     * to it, and count the key. It runs once a scan of r met neither a free slot
     * nor key and r ends its chain: key was absent, and the chain was full from
     * r on.
     */
    method AllocateBig(key: nat, r: NodeRef)
      requires Valid() && key < shape.KeyLimit()
      requires View().Has(r) && View().OwnerOf(r) == shape.Bucket(key) && NotBefore(View(), key, r)
      requires Scanned(View(), key, r, |View().SlotsOf(r)|) && ChainEnd(View(), r)
      modifies this, ha
      ensures Valid() && View() == Overflowed(shape, old(View()), key, r)
      ensures key !in old(Contents()) && Contents() == old(Contents()) + {key}
      ensures |olist| == old(|olist|) + 1 && FullFrom(old(View()), old(View()).OwnerOf(r), Pos(r))
      ensures count == Inc32(old(count)) && cleared == old(cleared)
    {
      ghost var t := View();
      ScanMissAbsent(shape, t, key, r, |t.SlotsOf(r)|);
      ScannedFull(t, key, r);
      FullFromEnd(shape, t, r);
      // the new index |olist| stays below KeyLimit, so the link fits the key field
      OverflowKeepsInv(shape, t, key, r);
      NodeWidth(shape, t, r);
      Spill(key, r);
      Tally();
    }

    /**
     * The slot loop that `insert` runs over a bucket node and `traverse` over a
     * big node: the index of the first slot that is free or holds key, or the
     * width of the node when there is none; `found` tells which of the two.
     */
    method Probe(key: nat, r: NodeRef) returns (i: nat, found: bool)
      requires Valid() && View().Has(r)
      ensures Scanned(View(), key, r, i) && i <= |View().SlotsOf(r)| == Width(shape, r)
      ensures i < |View().SlotsOf(r)| ==> var s := View().SlotsOf(r)[i];
        !s.occupied || (IsKey(s) && s.key == key)
      ensures found <==> i < |View().SlotsOf(r)| && View().SlotsOf(r)[i].occupied
    {
      NodeWidth(shape, View(), r);
      var slots := if r.Inline? then ha[r.h].keys else olist[r.j].keys;
      assert slots == View().SlotsOf(r);
      i := 0;
      while i < |slots|
        invariant i <= |slots| && Scanned(View(), key, r, i)
      {
        if !slots[i].occupied {
          return i, false;
        }
        if !slots[i].isOffs && key == slots[i].key {
          return i, true;
        }
        i := i + 1;
      }
      return i, false;
    }

    /**
     * `traverse(key, n)` on node r of key's chain; on the bucket node itself
     * this is the first-level part of `insert`, which runs the same loop.
     * Report key present if a slot before the first free one holds it.
     */
    method Traverse(key: nat, r: NodeRef) returns (inserted: bool)
      requires Valid() && key < shape.KeyLimit() && |olist| + 1 < WordLimit
      requires View().Has(r) && View().OwnerOf(r) == shape.Bucket(key) && NotBefore(View(), key, r)
      modifies this, ha
      decreases |olist| - Pos(r), 1
      ensures Valid() && cleared == old(cleared)
      ensures inserted <==> key !in old(Contents())
      ensures Contents() == old(Contents()) + {key}
      ensures !inserted ==> View() == old(View()) && count == old(count)
      ensures inserted ==> count == Inc32(old(count))
      ensures |olist| == old(|olist|) + if inserted && FullFrom(old(View()), old(View()).OwnerOf(r), Pos(r)) then 1 else 0
    {
      var i, found := Probe(key, r);
      if found {
        FoundKey(shape, View(), key, r, i);
        return false;
      }
      inserted := Extend(key, r, i);
    }

    /**
     * The rest of `traverse(key, n)` once the scan of node r stopped at slot i
     * without meeting key: store key in the free slot i, or follow the link in
     * the last slot, or move the last key into a new big node.
     */
    method Extend(key: nat, r: NodeRef, i: nat) returns (inserted: bool)
      requires Valid() && key < shape.KeyLimit() && |olist| + 1 < WordLimit
      requires View().Has(r) && View().OwnerOf(r) == shape.Bucket(key) && NotBefore(View(), key, r)
      requires Scanned(View(), key, r, i) && i <= |View().SlotsOf(r)|
      requires i < |View().SlotsOf(r)| ==> !View().SlotsOf(r)[i].occupied
      modifies this, ha
      decreases |olist| - Pos(r), 0
      ensures Valid() && cleared == old(cleared)
      ensures inserted <==> key !in old(Contents())
      ensures Contents() == old(Contents()) + {key}
      ensures !inserted ==> View() == old(View()) && count == old(count)
      ensures inserted ==> count == Inc32(old(count))
      ensures |olist| == old(|olist|) + if inserted && FullFrom(old(View()), old(View()).OwnerOf(r), Pos(r)) then 1 else 0
    {
      ghost var t := View();
      var width := Width(shape, r);
      NodeWidth(shape, t, r);
      if i < width {
        FreeSlotNotFull(t, r, i);
        ScanMissAbsent(shape, t, key, r, i);
        NewKey(key, Loc(r, i));
        return true;
      }
      var last := if r.Inline? then ha[r.h].keys[width - 1] else olist[r.j].keys[width - 1];
      assert last == t.SlotsOf(r)[width - 1];
      if last.isOffs {
        ScanMissFollow(shape, t, key, r);
        inserted := Traverse(key, Overflow(last.key));
        FullFromLink(shape, t, r);
        return;
      }
      assert Scanned(t, key, r, |t.SlotsOf(r)|) && ChainEnd(t, r);
      AllocateBig(key, r);
      inserted := true;
    }

    /** `insert(key)`: the chain of bucket `hash(key) % size_` starts at that bucket's node. */
    method Insert(key: nat) returns (inserted: bool)
      requires Valid() && key < shape.KeyLimit() && |olist| + 1 < WordLimit
      modifies this, ha
      ensures Valid() && cleared == old(cleared)
      ensures inserted <==> key !in old(Contents())
      ensures Contents() == old(Contents()) + {key}
      ensures !inserted ==> ha[..] == old(ha[..]) && olist == old(olist) && count == old(count)
      ensures inserted ==> count == Inc32(old(count))
      ensures |olist| == old(|olist|) + if inserted && ChainFull(old(View()), shape.Bucket(key)) then 1 else 0
    {
      var h := shape.Bucket(key);
      inserted := Traverse(key, Inline(h));
    }

    /**
     * `clear()`: zero every slot of the table and empty `olist`. `count_` is
     * left as it was.
     */
    method Clear()
      requires Valid()
      modifies this, ha
      ensures Valid() && Contents() == {} && olist == []
      ensures forall h | 0 <= h < ha.Length :: ha[h] == EmptyNode(shape.nodeKeys)
      ensures count == old(count) && cleared == old(cleared) + old(|Contents()|)
    {
      forall h | 0 <= h < ha.Length {
        ha[h] := EmptyNode(shape.nodeKeys);
      }
      olist := [];
      owner := [];
      cleared := cleared + |loc|;
      loc := map[];
      assert View() == EmptyTable(shape);
    }

    /** `count()`: the keys inserted since construction, across clears, modulo 2^32. */
    function Count(): (c: nat)
      requires Valid()
      reads this, ha
      ensures c < WordLimit && c == (cleared + |Contents()|) % WordLimit
    {
      count
    }

    /** `overdrawn_size()`: the number of big nodes, at most the number of keys. */
    function OverdrawnSize(): (n: nat)
      requires Valid()
      reads this, ha
      ensures n <= |Contents()|
    {
      |olist|
    }
  }
}
