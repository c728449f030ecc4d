/**
 * `fast_hashset_fclear` of fast_hashmap.hpp: the bucket table and overflow list
 * of `fast_hashsetimpl`, but a bucket node holds bare `uint32_t` words, and the
 * `occupied` and `is_offs` bits of its slots live apart, in the two
 * `vector<bool>`s `flags_occupied` and `flags_is_offs`, at index
 * `h32 * node_keys + i`. Big nodes keep their `KeyFlags` slots.
 *
 * The `static_assert` on `sizeof(KeyFlags)` makes the key type 32 bits wide,
 * so keys are `uint32_t`, hashed by the `uint32_t` overload of `hash32`: the
 * layout is that of a `Shape` with `wide == false`. The class keeps the
 * invariant of module Layout on the table it stands for, where bucket slot i of
 * node h is the word `ha[h].keys[i]` together with its two flags.
 */
module FlagHashSet {
  import opened Layout
  import NatBits

  /** A bucket `node` of this variant: `node_keys` bare words, each a key or a link. */
  datatype Words = Words(keys: seq<nat>)

  /**
   * `h32 * node_keys + i`, the index of the flags of slot i of bucket h in the
   * two flag vectors, computed as the C++ computes it: in `uint32_t`, so
   * modulo 2^32.
   */
  function FlagIndex(h: nat, i: nat, nk: nat): nat
  {
    (h * nk + i) % WordLimit
  }

  /** Every flag index of a table of n buckets is below n * node_keys, the length of both flag vectors. */
  lemma FlagIndexInRange(h: nat, i: nat, n: nat, nk: nat)
    requires h < n && i < nk
    ensures FlagIndex(h, i, nk) < n * nk
  {
    NatBits.MulMono(h + 1, n, nk);
  }

  /** While the flag vectors hold at most 2^32 entries, the `uint32_t` index does not wrap. */
  lemma FlagIndexNoWrap(h: nat, i: nat, n: nat, nk: nat)
    requires h < n && i < nk && n * nk <= WordLimit
    ensures FlagIndex(h, i, nk) == h * nk + i
  {
    NatBits.MulMono(h + 1, n, nk);
  }

  /**
   * Within that bound, distinct slots have distinct flag indexes: each flag
   * belongs to one slot.
   */
  lemma FlagIndexInjective(h: nat, i: nat, h': nat, i': nat, n: nat, nk: nat)
    requires h < n && h' < n && i < nk && i' < nk && n * nk <= WordLimit
    requires FlagIndex(h, i, nk) == FlagIndex(h', i', nk)
    ensures h == h' && i == i'
  {
    FlagIndexNoWrap(h, i, n, nk);
    FlagIndexNoWrap(h', i', n, nk);
    if h < h' {
      NatBits.MulMono(h + 1, h', nk);
    } else if h' < h {
      NatBits.MulMono(h' + 1, h, nk);
    }
  }

  /**
   * Beyond that bound the index wraps, and two slots share their flags: slot
   * `2^32 % node_keys` of bucket `2^32 / node_keys` reads and writes the flags
   * of slot 0 of bucket 0.
   */
  lemma FlagIndexWraps(n: nat, nk: nat)
    requires 0 < nk && WordLimit < n * nk
    ensures WordLimit / nk < n && WordLimit % nk < nk && 0 < WordLimit / nk + WordLimit % nk
    ensures FlagIndex(WordLimit / nk, WordLimit % nk, nk) == FlagIndex(0, 0, nk)
  {
    var q, m := WordLimit / nk, WordLimit % nk;
    assert q * nk + m == WordLimit;
    if n <= q {
      NatBits.MulMono(n, q, nk);
    }
  }

  /** A `vector<bool>` element; an index past the end reads as a clear bit. */
  function Flag(v: seq<bool>, k: nat): bool
  {
    k < |v| && v[k]
  }

  /** Slot i of bucket h: its word from the node, its two bits from the flag vectors. */
  function MergedSlot(w: Words, occ: seq<bool>, offs: seq<bool>, h: nat, i: nat, nk: nat): Slot
  {
    Slot(if i < |w.keys| then w.keys[i] else 0, Flag(offs, FlagIndex(h, i, nk)), Flag(occ, FlagIndex(h, i, nk)))
  }

  /** The bucket nodes, as `KeyFlags` slots, that the words and the flag vectors stand for. */
  function Merge(raw: seq<Words>, occ: seq<bool>, offs: seq<bool>, nk: nat): (ns: seq<Node>)
    ensures |ns| == |raw|
    ensures forall h | 0 <= h < |raw| :: |ns[h].keys| == nk
    ensures forall h, i | 0 <= h < |raw| && 0 <= i < nk ::
      ns[h].keys[i] == MergedSlot(raw[h], occ, offs, h, i, nk)
  {
    seq(|raw|, h requires 0 <= h < |raw| =>
      Node(seq(nk, (i: nat) => MergedSlot(raw[h], occ, offs, h, i, nk))))
  }

  /**
   * Writing slot i of bucket h through the words and the flags (the word at
   * `ha[h].keys[i]`, the bits at `FlagIndex(h, i)`) writes that one slot of the
   * merged table and no other.
   */
  lemma MergeWrite(raw: seq<Words>, occ: seq<bool>, offs: seq<bool>, nk: nat, h: nat, i: nat, s: Slot)
    requires h < |raw| && i < nk && |raw[h].keys| == nk && |occ| == |offs| == |raw| * nk <= WordLimit
    ensures FlagIndex(h, i, nk) < |occ|
    ensures Merge(raw[h := Words(raw[h].keys[i := s.key])],
                  occ[FlagIndex(h, i, nk) := s.occupied], offs[FlagIndex(h, i, nk) := s.isOffs], nk)
         == Merge(raw, occ, offs, nk)[h := Node(Merge(raw, occ, offs, nk)[h].keys[i := s])]
  {
    FlagIndexInRange(h, i, |raw|, nk);
    var k := FlagIndex(h, i, nk);
    var raw' := raw[h := Words(raw[h].keys[i := s.key])];
    var occ' := occ[k := s.occupied];
    var offs' := offs[k := s.isOffs];
    var ns := Merge(raw, occ, offs, nk);
    var ns' := Merge(raw', occ', offs', nk);
    var want := ns[h := Node(ns[h].keys[i := s])];
    forall h' | 0 <= h' < |raw| ensures ns'[h'] == want[h'] {
      forall i' | 0 <= i' < nk ensures ns'[h'].keys[i'] == want[h'].keys[i'] {
        if h' != h || i' != i {
          if FlagIndex(h', i', nk) == k {
            FlagIndexInjective(h', i', h, i, |raw|, nk);
          }
        }
      }
    }
  }

  class FlagHashSet {
    /** `size_`, `node_keys`, `big_node_keys`; never `wide`. */
    const shape: Shape
    /** The bucket table `ha`: bare words. */
    const ha: array<Words>
    /** `flags_occupied` and `flags_is_offs`, `size_ * node_keys` bits each. */
    var flagsOccupied: seq<bool>
    var flagsIsOffs: seq<bool>
    /** The overflow list `olist`. */
    var olist: seq<BigNode>
    /** `count_`, a `uint32_t`. */
    var count: nat
    ghost var owner: seq<nat>
    ghost var loc: map<nat, Loc>
    ghost var cleared: nat
    ghost var wraps: nat

    /** The table of module Layout that the words, the flags and `olist` stand for. */
    ghost function View(): Table
      reads this`flagsOccupied, this`flagsIsOffs, this`olist, this`owner, this`loc, ha
    {
      Table(Merge(ha[..], flagsOccupied, flagsIsOffs, shape.nodeKeys), olist, owner, loc)
    }

    /** The keys inserted since construction or the last `clear`. */
    ghost function Contents(): set<nat>
      reads this`loc
    {
      loc.Keys
    }

    /**
     * The words of every node and both flag vectors have the sizes the
     * constructor gives them; the flag vectors hold at most 2^32 entries, so
     * no flag index wraps.
     */
    ghost predicate Sized()
      reads this`flagsOccupied, this`flagsIsOffs, ha
    {
      && ha.Length == shape.size
      && |flagsOccupied| == |flagsIsOffs| == shape.size * shape.nodeKeys <= WordLimit
      && forall h | 0 <= h < ha.Length :: |ha[h].keys| == shape.nodeKeys
    }

    ghost predicate Valid()
      reads this, ha
    {
      && !shape.wide
      && Sized()
      && Inv(shape, View())
      && count < WordLimit && count + wraps * WordLimit == cleared + |loc|
    }

    /**
     * `fast_hashset_fclear(max_set)`: both flag vectors hold `max_set * node_keys`
     * clear bits, no big node, a zero counter. Beyond 2^32 flags the
     * `uint32_t` index wraps (FlagIndexWraps), so the model stops there. The
     * C++ leaves the words of `new node[max_set]` indeterminate; no word is
     * read before its slot is occupied, and the model starts them at 0.
     */
    constructor (maxSet: nat, nodeKeys: nat, bigNodeKeys: nat)
      requires Shape(maxSet, nodeKeys, bigNodeKeys, false).Ok() && maxSet * nodeKeys <= WordLimit
      ensures Valid() && fresh(ha)
      ensures shape == Shape(maxSet, nodeKeys, bigNodeKeys, false)
      ensures Contents() == {} && olist == [] && count == 0
      ensures flagsOccupied == flagsIsOffs == seq(maxSet * nodeKeys, _ => false)
    {
      shape := Shape(maxSet, nodeKeys, bigNodeKeys, false);
      ha := new Words[maxSet](_ => Words(seq(nodeKeys, _ => 0)));
      flagsOccupied := seq(maxSet * nodeKeys, _ => false);
      flagsIsOffs := seq(maxSet * nodeKeys, _ => false);
      olist := [];
      count := 0;
      owner := [];
      loc := map[];
      cleared := 0;
      wraps := 0;
      new;
      FreeTableInv(shape, View());
    }

    /** `flags_occupied[h32 * node_keys + i] = 1; n.keys[i] = key;`: slot i of bucket h takes key. */
    method ClaimFirst(h: nat, i: nat, key: nat)
      requires shape.Ok() && Sized() && h < shape.size && i < shape.nodeKeys
      requires !View().SlotsOf(Inline(h))[i].isOffs
      modifies this`flagsOccupied, ha
      ensures Sized() && View() == old(View()).Put(Loc(Inline(h), i), Slot(key, false, true))
    {
      ghost var k := FlagIndex(h, i, shape.nodeKeys);
      MergeWrite(ha[..], flagsOccupied, flagsIsOffs, shape.nodeKeys, h, i, Slot(key, false, true));
      assert flagsIsOffs[k := false] == flagsIsOffs;
      flagsOccupied := flagsOccupied[FlagIndex(h, i, shape.nodeKeys) := true];
      ha[h] := Words(ha[h].keys[i := key]);
    }

    /**
     * `n.keys[node_keys - 1] = offs;` and both flags of that slot set: the last
     * slot of bucket h becomes a link to big node offs.
     */
    method LinkFirst(h: nat, offs: nat)
      requires shape.Ok() && Sized() && h < shape.size
      modifies this`flagsOccupied, this`flagsIsOffs, ha
      ensures Sized()
      ensures View() == old(View()).Put(Loc(Inline(h), shape.nodeKeys - 1), Slot(offs, true, true))
    {
      var last := shape.nodeKeys - 1;
      MergeWrite(ha[..], flagsOccupied, flagsIsOffs, shape.nodeKeys, h, last, Slot(offs, true, true));
      ha[h] := Words(ha[h].keys[last := offs]);
      flagsOccupied := flagsOccupied[FlagIndex(h, last, shape.nodeKeys) := true];
      flagsIsOffs := flagsIsOffs[FlagIndex(h, last, shape.nodeKeys) := true];
    }

    /** Overwrite slot i of big node j (through a `KeyFlags &` in the C++). */
    method StoreBig(j: nat, i: nat, s: Slot)
      requires j < |olist| && i < |olist[j].keys|
      modifies this`olist
      ensures View() == old(View()).Put(Loc(Overflow(j), i), s)
    {
      olist := olist[j := BigNode(olist[j].keys[i := s])];
    }

    /** `++count_` on the `uint32_t` counter; `wraps` counts the wrap-arounds. */
    method Tally()
      requires count < WordLimit
      modifies this`count, this`wraps
      ensures count == Inc32(old(count)) && count < WordLimit
      ensures count + wraps * WordLimit == old(count) + old(wraps) * WordLimit + 1
    {
      count := Inc32(count);
      if count == 0 {
        wraps := wraps + 1;
      }
    }

    /** Write key into slot l, through the flags for a bucket node. */
    method PutKey(key: nat, l: Loc)
      requires shape.Ok() && Sized()
      requires View().Has(l.r) && l.i < |View().SlotsOf(l.r)| && !View().SlotsOf(l.r)[l.i].isOffs
      modifies this`flagsOccupied, this`olist, ha
      ensures Sized() && View() == old(View()).Put(l, Slot(key, false, true))
    {
      match l.r
      case Inline(h) =>
        ClaimFirst(h, l.i, key);
      case Overflow(j) =>
        StoreBig(j, l.i, Slot(key, false, true));
    }

    /**
     * `new_key(key, kn)` on a big node slot, and the free-cell case of the
     * first-level loop of `insert`, which does the same through the flags: store
     * key in the free slot l and count it.
     */
    method NewKey(key: nat, l: Loc)
      requires Valid() && key < shape.KeyLimit() && key !in Contents()
      requires View().Has(l.r) && View().OwnerOf(l.r) == shape.Bucket(key)
      requires l.i < |View().SlotsOf(l.r)| && !View().SlotsOf(l.r)[l.i].occupied
      requires Scanned(View(), key, l.r, l.i)
      modifies this, ha
      ensures Valid() && View() == AddKey(old(View()), key, l)
      ensures Contents() == old(Contents()) + {key}
      ensures count == Inc32(old(count)) && cleared == old(cleared)
    {
      ghost var t := View();
      ghost var t' := AddKey(t, key, l);
      AddKeyKeepsInv(shape, t, key, l);
      assert NodeOk(shape, t, l.r);
      PutKey(key, l);
      loc := t'.loc;
      assert View() == t';
      Tally();
    }

    /**
     * The `olist.emplace_back(key0, key)` step: the big node {key0, key}, key0
     * being the word or key in the last slot of node r, goes to the end of
     * `olist`, and both keys are located in it.
     */
    method AppendBig(key: nat, r: NodeRef)
      requires shape.Ok() && Sized()
      requires View().Has(r) && |View().SlotsOf(r)| == Width(shape, r) > 0
      modifies this`olist, this`owner, this`loc
      ensures View() == Appended(shape, old(View()), key, r)
    {
      ghost var grown := Appended(shape, View(), key, r);
      var last := Width(shape, r) - 1;
      var key0 := if r.Inline? then ha[r.h].keys[last] else olist[r.j].keys[last].key;
      olist := olist + [NewBigNode(shape, key0, key)];
      owner := grown.owner;
      loc := grown.loc;
    }

    /**
     * The table part of the overflow step, in `allocate_big` for a big node and
     * inline in `insert` for a bucket node: append the big node, then make the
     * last slot of r a link to it (index `olist.size()` before the append).
     */
    method Spill(key: nat, r: NodeRef)
      requires shape.Ok() && Sized()
      requires View().Has(r) && |View().SlotsOf(r)| == Width(shape, r) > 0
      modifies this`flagsOccupied, this`flagsIsOffs, this`olist, this`owner, this`loc, ha
      ensures Sized() && View() == Overflowed(shape, old(View()), key, r)
    {
      ghost var t := View();
      OverflowedIs(shape, t, key, r);
      var offs := |olist|;
      AppendBig(key, r);
      match r
      case Inline(h) =>
        LinkFirst(h, offs);
      case Overflow(j) =>
        StoreBig(j, shape.bigNodeKeys - 1, Slot(offs, true, true));
    }

    /**
     * `allocate_big(key, last_k)`, and the overflow case of the first-level part
     * of `insert` (the same steps through the flags): append the big node
     * {key0, key} at index `olist.size()`, turn the last slot of r into a link
     * to it, and count the key. It runs once a scan of r met neither a free slot
     * nor key and r ends its chain: key was absent, and the chain was full from
     * r on.
     */
    method AllocateBig(key: nat, r: NodeRef)
      requires Valid() && key < shape.KeyLimit()
      requires View().Has(r) && View().OwnerOf(r) == shape.Bucket(key) && NotBefore(View(), key, r)
      requires Scanned(View(), key, r, |View().SlotsOf(r)|) && ChainEnd(View(), r)
      modifies this, ha
      ensures Valid() && View() == Overflowed(shape, old(View()), key, r)
      ensures key !in old(Contents()) && Contents() == old(Contents()) + {key}
      ensures |olist| == old(|olist|) + 1 && FullFrom(old(View()), old(View()).OwnerOf(r), Pos(r))
      ensures count == Inc32(old(count)) && cleared == old(cleared)
    {
      ghost var t := View();
      ScanMissAbsent(shape, t, key, r, |t.SlotsOf(r)|);
      ScannedFull(t, key, r);
      FullFromEnd(shape, t, r);
      // the new index |olist| stays below KeyLimit, so the link fits the key field
      OverflowKeepsInv(shape, t, key, r);
      NodeWidth(shape, t, r);
      Spill(key, r);
      Tally();
    }

    /**
     * The slot loop of `insert` over a bucket node (reading the flags) and of
     * `traverse` over a big node: the index of the first slot that is free or
     * holds key, or the width of the node when there is none; `found` tells
     * which of the two.
     */
    method Probe(key: nat, r: NodeRef) returns (i: nat, found: bool)
      requires Valid() && View().Has(r)
      ensures Scanned(View(), key, r, i) && i <= |View().SlotsOf(r)| == Width(shape, r)
      ensures i < |View().SlotsOf(r)| ==> var s := View().SlotsOf(r)[i];
        !s.occupied || (IsKey(s) && s.key == key)
      ensures found <==> i < |View().SlotsOf(r)| && View().SlotsOf(r)[i].occupied
    {
      NodeWidth(shape, View(), r);
      var width := Width(shape, r);
      i := 0;
      while i < width
        invariant i <= width && Scanned(View(), key, r, i)
      {
        var occupied, isOffs, word;
        if r.Inline? {
          FlagIndexInRange(r.h, i, shape.size, shape.nodeKeys);
          var k := FlagIndex(r.h, i, shape.nodeKeys);
          occupied, isOffs, word := flagsOccupied[k], flagsIsOffs[k], ha[r.h].keys[i];
        } else {
          var s := olist[r.j].keys[i];
          occupied, isOffs, word := s.occupied, s.isOffs, s.key;
        }
        assert View().SlotsOf(r)[i] == Slot(word, isOffs, occupied);
        if !occupied {
          return i, false;
        }
        if !isOffs && key == word {
          return i, true;
        }
        i := i + 1;
      }
      return i, false;
    }

    /**
     * `traverse(key, n)` on node r of key's chain; on the bucket node itself
     * this is the first-level part of `insert`, which runs the same loop through
     * the flags. Report key present if a slot before the first free one holds it.
     */
    method Traverse(key: nat, r: NodeRef) returns (inserted: bool)
      requires Valid() && key < shape.KeyLimit() && |olist| + 1 < WordLimit
      requires View().Has(r) && View().OwnerOf(r) == shape.Bucket(key) && NotBefore(View(), key, r)
      modifies this, ha
      decreases |olist| - Pos(r), 1
      ensures Valid() && cleared == old(cleared)
      ensures inserted <==> key !in old(Contents())
      ensures Contents() == old(Contents()) + {key}
      ensures !inserted ==> View() == old(View()) && count == old(count)
      ensures inserted ==> count == Inc32(old(count))
      ensures |olist| == old(|olist|) + if inserted && FullFrom(old(View()), old(View()).OwnerOf(r), Pos(r)) then 1 else 0
    {
      var i, found := Probe(key, r);
      if found {
        FoundKey(shape, View(), key, r, i);
        return false;
      }
      inserted := Extend(key, r, i);
    }

    /**
     * The rest of the walk once the scan of node r stopped at slot i without
     * meeting key: store key in the free slot i, or follow the link in the last
     * slot, or move the last key into a new big node.
     */
    method Extend(key: nat, r: NodeRef, i: nat) returns (inserted: bool)
      requires Valid() && key < shape.KeyLimit() && |olist| + 1 < WordLimit
      requires View().Has(r) && View().OwnerOf(r) == shape.Bucket(key) && NotBefore(View(), key, r)
      requires Scanned(View(), key, r, i) && i <= |View().SlotsOf(r)|
      requires i < |View().SlotsOf(r)| ==> !View().SlotsOf(r)[i].occupied
      modifies this, ha
      decreases |olist| - Pos(r), 0
      ensures Valid() && cleared == old(cleared)
      ensures inserted <==> key !in old(Contents())
      ensures Contents() == old(Contents()) + {key}
      ensures !inserted ==> View() == old(View()) && count == old(count)
      ensures inserted ==> count == Inc32(old(count))
      ensures |olist| == old(|olist|) + if inserted && FullFrom(old(View()), old(View()).OwnerOf(r), Pos(r)) then 1 else 0
    {
      ghost var t := View();
      var width := Width(shape, r);
      NodeWidth(shape, t, r);
      if i < width {
        FreeSlotNotFull(t, r, i);
        ScanMissAbsent(shape, t, key, r, i);
        NewKey(key, Loc(r, i));
        return true;
      }
      var isOffs, word;
      if r.Inline? {
        FlagIndexInRange(r.h, width - 1, shape.size, shape.nodeKeys);
        var k := FlagIndex(r.h, width - 1, shape.nodeKeys);
        isOffs, word := flagsIsOffs[k], ha[r.h].keys[width - 1];
      } else {
        var s := olist[r.j].keys[width - 1];
        isOffs, word := s.isOffs, s.key;
      }
      assert isOffs == t.SlotsOf(r)[width - 1].isOffs && word == t.SlotsOf(r)[width - 1].key;
      if isOffs {
        ScanMissFollow(shape, t, key, r);
        inserted := Traverse(key, Overflow(word));
        FullFromLink(shape, t, r);
        return;
      }
      assert Scanned(t, key, r, |t.SlotsOf(r)|) && ChainEnd(t, r);
      AllocateBig(key, r);
      inserted := true;
    }

    /** `insert(key)`: the walk starts at the node of bucket `hash32(key) % size_`. */
    method Insert(key: nat) returns (inserted: bool)
      requires Valid() && key < shape.KeyLimit() && |olist| + 1 < WordLimit
      modifies this, ha
      ensures Valid() && cleared == old(cleared)
      ensures inserted <==> key !in old(Contents())
      ensures Contents() == old(Contents()) + {key}
      ensures !inserted ==> View() == old(View()) && count == old(count)
      ensures inserted ==> count == Inc32(old(count))
      ensures |olist| == old(|olist|) + if inserted && ChainFull(old(View()), shape.Bucket(key)) then 1 else 0
    {
      var h := shape.Bucket(key);
      inserted := Traverse(key, Inline(h));
    }

    /**
     * `clear()` as fast_hashmap.hpp writes it: `flags_occupied.clear()` leaves
     * an empty vector and `flags_is_offs` keeps every bit, so the next `insert`
     * reads `flags_occupied` past its end: the object no longer has the sizes
     * its operations rely on.
     */
    method ClearAsWritten()
      requires Valid()
      modifies this`flagsOccupied, this`olist
      ensures flagsOccupied == [] && flagsIsOffs == old(flagsIsOffs) && olist == []
      ensures !Sized() && !Valid()
    {
      flagsOccupied := [];
      olist := [];
    }

    /**
     * `clear()` as intended: both flag vectors back to `size_ * node_keys` clear
     * bits and `olist` emptied; the words stay, unread; `count_` is kept.
     */
    method Clear()
      requires Valid()
      modifies this
      ensures Valid() && Contents() == {} && olist == []
      ensures flagsOccupied == flagsIsOffs == seq(shape.size * shape.nodeKeys, _ => false)
      ensures count == old(count) && cleared == old(cleared) + old(|Contents()|)
    {
      flagsOccupied := seq(shape.size * shape.nodeKeys, _ => false);
      flagsIsOffs := seq(shape.size * shape.nodeKeys, _ => false);
      olist := [];
      owner := [];
      cleared := cleared + |loc|;
      loc := map[];
      FreeTableInv(shape, View());
    }

    /** `count()`: the keys inserted since construction, across clears, modulo 2^32. */
    function Count(): (c: nat)
      requires Valid()
      reads this, ha
      ensures c < WordLimit && c == (cleared + |Contents()|) % WordLimit
    {
      count
    }

    /** `overdrawn_size()`: the number of big nodes, at most the number of keys. */
    function OverdrawnSize(): (n: nat)
      requires Valid()
      reads this, ha
      ensures n <= |Contents()|
    {
      |olist|
    }
  }
}
