/** The intrusive free lists of the buddy allocator (rust/kernel/src/memory.rs): one doubly linked list per
    order, threaded through per-frame `next`/`prev` arrays, with the per-frame flags telling which frames
    are list members. */
module BuddyLists {
  import opened BuddyBlocks
  import opened Options

  /** `u32::MAX`, the null link. */
  const NONE: nat := 0xFFFF_FFFF

  const MAX_SUPPORTED_FRAMES: nat := 16_777_216

  /** The per-frame status byte: order in bits 0-3, then ALLOCATED, FREE and RESERVED in bits 4, 5 and 6. */
  datatype Flags = Flags(order: nat, inUse: bool, free: bool, reserved: bool)

  ghost predicate NoDup(l: seq<nat>) {
    forall i, j :: 0 <= i < j < |l| ==> l[i] != l[j]
  }

  ghost function After(l: seq<nat>, i: nat): nat
    requires i < |l|
  {
    if i + 1 < |l| then l[i + 1] else NONE
  }

  ghost function Before(l: seq<nat>, i: nat): nat
    requires i < |l|
  {
    if i > 0 then l[i - 1] else NONE
  }

  /** `l` is the list found by following `next` from `head`, and `prev` mirrors it. */
  ghost predicate Chain(l: seq<nat>, head: Option<nat>, next: seq<nat>, prev: seq<nat>)
    requires |next| == |prev|
  {
    && NoDup(l)
    && head == (if l == [] then None else Some(l[0]))
    && (forall i :: 0 <= i < |l| ==> l[i] < |next|)
    && (forall i {:trigger next[l[i]]} :: 0 <= i < |l| ==> next[l[i]] == After(l, i))
    && (forall i {:trigger prev[l[i]]} :: 0 <= i < |l| ==> prev[l[i]] == Before(l, i))
  }

  /** All the lists at once: they are well linked, and a frame is flagged free exactly when it is on the list
      of the order its flags hold. */
  ghost predicate Linked(heads: seq<Option<nat>>, next: seq<nat>, prev: seq<nat>, flags: seq<Flags>,
                         lists: seq<seq<nat>>) {
    && |heads| == |lists| == MAX_ORDER
    && |next| == |prev| == |flags| <= MAX_SUPPORTED_FRAMES
    && (forall o :: 0 <= o < MAX_ORDER ==> Chain(lists[o], heads[o], next, prev))
    && FlagsMatch(flags, lists)
  }

  /** The blocks on the lists. */
  ghost function BlocksIn(lists: seq<seq<nat>>): set<Block> {
    set o, i | 0 <= o < |lists| && 0 <= i < |lists[o]| :: Block(lists[o][i], o)
  }

  lemma InBlocks(lists: seq<seq<nat>>, b: Block)
    ensures b in BlocksIn(lists) <==> b.order < |lists| && b.head in lists[b.order]
  {
  }

  ghost function Pushed(lists: seq<seq<nat>>, order: nat, pfn: nat): seq<seq<nat>>
    requires order < |lists|
  {
    lists[order := [pfn] + lists[order]]
  }

  ghost function Without(l: seq<nat>, k: nat): seq<nat>
    requires k < |l|
  {
    l[..k] + l[k + 1..]
  }

  lemma BlocksAfterPush(lists: seq<seq<nat>>, order: nat, pfn: nat)
    requires order < |lists|
    ensures BlocksIn(Pushed(lists, order, pfn)) == BlocksIn(lists) + {Block(pfn, order)}
  {
    var l' := [pfn] + lists[order];
    forall b ensures b in BlocksIn(Pushed(lists, order, pfn)) <==> b in BlocksIn(lists) + {Block(pfn, order)} {
      InBlocks(lists, b);
      InBlocks(Pushed(lists, order, pfn), b);
      assert b.head in l' <==> b.head == pfn || b.head in lists[order];
    }
  }

  lemma BlocksAfterRemove(lists: seq<seq<nat>>, order: nat, k: nat)
    requires order < |lists| && k < |lists[order]| && NoDup(lists[order])
    ensures BlocksIn(lists[order := Without(lists[order], k)]) == BlocksIn(lists) - {Block(lists[order][k], order)}
  {
    var l := lists[order];
    var l' := Without(l, k);
    forall x ensures x in l' <==> x in l && x != l[k] { WithoutMembers(l, k, x); }
    forall b ensures b in BlocksIn(lists[order := l']) <==> b in BlocksIn(lists) - {Block(l[k], order)} {
      InBlocks(lists, b);
      InBlocks(lists[order := l'], b);
    }
  }

  lemma WithoutMembers(l: seq<nat>, k: nat, x: nat)
    requires k < |l| && NoDup(l)
    ensures x in Without(l, k) <==> x in l && x != l[k]
  {
    var l' := Without(l, k);
    if x in l && x != l[k] {
      var i :| 0 <= i < |l| && l[i] == x;
      assert l'[if i < k then i else i - 1] == x;
    }
    if x in l' {
      var i :| 0 <= i < |l'| && l'[i] == x;
      assert x == l[if i < k then i else i + 1];
    }
  }

  /** A list whose members' links did not change is still linked. */
  lemma ChainFrame(l: seq<nat>, head: Option<nat>, next: seq<nat>, prev: seq<nat>, next': seq<nat>, prev': seq<nat>)
    requires |next| == |prev| == |next'| == |prev'| && Chain(l, head, next, prev)
    requires forall i :: 0 <= i < |l| ==> next'[l[i]] == next[l[i]] && prev'[l[i]] == prev[l[i]]
    ensures Chain(l, head, next', prev')
  {
  }

  lemma ChainPush(l: seq<nat>, head: Option<nat>, next: seq<nat>, prev: seq<nat>, pfn: nat)
    requires |next| == |prev| && Chain(l, head, next, prev) && pfn < |next| && pfn !in l
    ensures head.Some? ==> head.value < |prev|
    ensures var next' := next[pfn := if head.Some? then head.value else NONE];
            var prev' := if head.Some? then prev[pfn := NONE][head.value := pfn] else prev[pfn := NONE];
            Chain([pfn] + l, Some(pfn), next', prev')
  {
    var next' := next[pfn := if head.Some? then head.value else NONE];
    var prev' := if head.Some? then prev[pfn := NONE][head.value := pfn] else prev[pfn := NONE];
    var l' := [pfn] + l;
    forall i | 0 <= i < |l'| ensures next'[l'[i]] == After(l', i) && prev'[l'[i]] == Before(l', i) {
      if i > 0 {
        assert l'[i] == l[i - 1] && After(l', i) == After(l, i - 1);
        assert i > 1 ==> l[i - 1] != l[0] && Before(l', i) == Before(l, i - 1);
      }
    }
  }

  ghost function NextWithout(l: seq<nat>, next: seq<nat>, k: nat): seq<nat>
    requires k < |l| && forall i :: 0 <= i < |l| ==> l[i] < |next|
  {
    (if k > 0 then next[l[k - 1] := next[l[k]]] else next)[l[k] := NONE]
  }

  ghost function PrevWithout(l: seq<nat>, prev: seq<nat>, k: nat): seq<nat>
    requires k < |l| && forall i :: 0 <= i < |l| ==> l[i] < |prev|
  {
    (if k + 1 < |l| then prev[l[k + 1] := prev[l[k]]] else prev)[l[k] := NONE]
  }

  lemma LinksWithout(l: seq<nat>, head: Option<nat>, next: seq<nat>, prev: seq<nat>, k: nat, j: nat)
    requires |next| == |prev| && Chain(l, head, next, prev) && k < |l| && j < |l| && j != k
    ensures NextWithout(l, next, k)[l[j]] == if j + 1 == k then After(l, k) else After(l, j)
    ensures PrevWithout(l, prev, k)[l[j]] == if j == k + 1 then Before(l, k) else Before(l, j)
  {
  }

  lemma ChainRemove(l: seq<nat>, head: Option<nat>, next: seq<nat>, prev: seq<nat>, k: nat)
    requires |next| == |prev| && Chain(l, head, next, prev) && k < |l|
    ensures var head' := if k > 0 then head else if |l| > 1 then Some(l[1]) else None;
            Chain(Without(l, k), head', NextWithout(l, next, k), PrevWithout(l, prev, k))
  {
    var l' := Without(l, k);
    var next', prev' := NextWithout(l, next, k), PrevWithout(l, prev, k);
    assert forall i :: 0 <= i < |l'| ==> l'[i] == l[if i < k then i else i + 1];
    forall i | 0 <= i < |l'| ensures next'[l'[i]] == After(l', i) && prev'[l'[i]] == Before(l', i) {
      LinksWithout(l, head, next, prev, k, if i < k then i else i + 1);
    }
  }

  /** Lists of different orders have no member in common. */
  lemma ListsApart(flags: seq<Flags>, lists: seq<seq<nat>>, o: nat, q: nat, i: nat, j: nat)
    requires |lists| == MAX_ORDER && o < MAX_ORDER && q < MAX_ORDER && o != q && i < |lists[o]| && j < |lists[q]|
    requires forall o, i :: 0 <= o < MAX_ORDER && 0 <= i < |lists[o]| ==> lists[o][i] < |flags|
    requires forall o, i :: 0 <= o < MAX_ORDER && 0 <= i < |lists[o]| ==> flags[lists[o][i]].order == o
    ensures lists[o][i] != lists[q][j]
  {
    assert flags[lists[o][i]].order == o;
  }

  /** Pushing a frame that is on no list. */
  lemma PushKeepsLinked(heads: seq<Option<nat>>, next: seq<nat>, prev: seq<nat>, flags: seq<Flags>,
                        lists: seq<seq<nat>>,
                        order: nat, pfn: nat, f: Flags,
                        heads': seq<Option<nat>>, next': seq<nat>, prev': seq<nat>)
    requires Linked(heads, next, prev, flags, lists)
    requires order < MAX_ORDER && pfn < |flags| && !flags[pfn].free && f.free && f.order == order
    requires heads' == heads[order := Some(pfn)]
    requires heads[order].Some? ==> heads[order].value < |flags|
    requires next' == next[pfn := if heads[order].Some? then heads[order].value else NONE]
    requires prev' == if heads[order].Some? then prev[pfn := NONE][heads[order].value := pfn] else prev[pfn := NONE]
    ensures Linked(heads', next', prev', flags[pfn := f], Pushed(lists, order, pfn))
  {
    hide NoDup, After;
    var lists' := Pushed(lists, order, pfn);
    forall o | 0 <= o < MAX_ORDER ensures Chain(lists'[o], heads'[o], next', prev') {
      if o == order {
        ChainPush(lists[o], heads[o], next, prev, pfn);
      } else {
        forall i | 0 <= i < |lists[o]|
          ensures next'[lists[o][i]] == next[lists[o][i]] && prev'[lists[o][i]] == prev[lists[o][i]]
        {
          if heads[order].Some? { ListsApart(flags, lists, o, order, i, 0); }
        }
        ChainFrame(lists[o], heads[o], next, prev, next', prev');
      }
    }
    var flags' := flags[pfn := f];
    forall p | 0 <= p < |flags'| && flags'[p].free ensures flags'[p].order < MAX_ORDER && p in lists'[flags'[p].order] {
      if p == pfn { assert lists'[order][0] == p; }
      else if flags[p].order == order {
        var i :| 0 <= i < |lists[order]| && lists[order][i] == p;
        assert lists'[order][i + 1] == p;
      }
    }
    forall o, i | 0 <= o < MAX_ORDER && 0 <= i < |lists'[o]|
      ensures flags'[lists'[o][i]].free && flags'[lists'[o][i]].order == o
    {
      if o == order && i > 0 { assert lists'[o][i] == lists[o][i - 1]; }
    }
  }

  /** Unlinking the `k`-th member of a list. */
  lemma RemoveKeepsLinked(heads: seq<Option<nat>>, next: seq<nat>, prev: seq<nat>, flags: seq<Flags>,
                          lists: seq<seq<nat>>,
                          order: nat, k: nat,
                          heads': seq<Option<nat>>, next': seq<nat>, prev': seq<nat>)
    requires Linked(heads, next, prev, flags, lists)
    requires order < MAX_ORDER && k < |lists[order]|
    requires heads' == if k > 0 then heads
                       else heads[order := if |lists[order]| > 1 then Some(lists[order][1]) else None]
    requires next' == NextWithout(lists[order], next, k) && prev' == PrevWithout(lists[order], prev, k)
    ensures var pfn := lists[order][k];
            Linked(heads', next', prev', flags[pfn := flags[pfn].(free := false)],
                   lists[order := Without(lists[order], k)])
  {
    var l := lists[order];
    var lists' := lists[order := Without(l, k)];
    forall o | 0 <= o < MAX_ORDER ensures Chain(lists'[o], heads'[o], next', prev') {
      if o == order {
        ChainRemove(l, heads[o], next, prev, k);
      } else {
        OtherChainAfterRemove(heads, next, prev, flags, lists, order, k, o);
      }
    }
    RemoveKeepsFlags(flags, lists, order, k);
  }

  lemma OtherChainAfterRemove(heads: seq<Option<nat>>, next: seq<nat>, prev: seq<nat>, flags: seq<Flags>,
                              lists: seq<seq<nat>>, order: nat, k: nat, o: nat)
    requires Linked(heads, next, prev, flags, lists)
    requires order < MAX_ORDER && k < |lists[order]| && o < MAX_ORDER && o != order
    ensures Chain(lists[o], heads[o], NextWithout(lists[order], next, k), PrevWithout(lists[order], prev, k))
  {
    var next', prev' := NextWithout(lists[order], next, k), PrevWithout(lists[order], prev, k);
    forall i | 0 <= i < |lists[o]|
      ensures next'[lists[o][i]] == next[lists[o][i]] && prev'[lists[o][i]] == prev[lists[o][i]]
    {
      ListsApart(flags, lists, o, order, i, k);
      if k > 0 { ListsApart(flags, lists, o, order, i, k - 1); }
      if k + 1 < |lists[order]| { ListsApart(flags, lists, o, order, i, k + 1); }
    }
    ChainFrame(lists[o], heads[o], next, prev, next', prev');
  }

  ghost predicate FlagsMatch(flags: seq<Flags>, lists: seq<seq<nat>>) {
    && |lists| == MAX_ORDER
    && (forall o, i :: 0 <= o < MAX_ORDER && 0 <= i < |lists[o]| ==> lists[o][i] < |flags|)
    && (forall o, i :: 0 <= o < MAX_ORDER && 0 <= i < |lists[o]| ==>
      flags[lists[o][i]].free && flags[lists[o][i]].order == o)
    && (forall p :: 0 <= p < |flags| && flags[p].free ==> flags[p].order < MAX_ORDER && p in lists[flags[p].order])
  }

  lemma RemoveKeepsFlags(flags: seq<Flags>, lists: seq<seq<nat>>, order: nat, k: nat)
    requires FlagsMatch(flags, lists) && order < MAX_ORDER && k < |lists[order]| && NoDup(lists[order])
    ensures var pfn := lists[order][k];
            FlagsMatch(flags[pfn := flags[pfn].(free := false)], lists[order := Without(lists[order], k)])
  {
    var l := lists[order];
    var pfn := l[k];
    var lists' := lists[order := Without(l, k)];
    var flags' := flags[pfn := flags[pfn].(free := false)];
    forall p | 0 <= p < |flags'| && flags'[p].free ensures flags'[p].order < MAX_ORDER && p in lists'[flags'[p].order] {
      if flags[p].order == order { WithoutMembers(l, k, p); }
    }
    forall o, i | 0 <= o < MAX_ORDER && 0 <= i < |lists'[o]|
      ensures lists'[o][i] < |flags'| && flags'[lists'[o][i]].free && flags'[lists'[o][i]].order == o
    {
      if o == order {
        assert lists'[o][i] == l[if i < k then i else i + 1];
      } else {
        ListsApart(flags, lists, o, order, i, k);
      }
    }
  }
}
