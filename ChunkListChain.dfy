/** The usage-tier lists of one arena and the chunks linked into them.

    Each tier index t stands for one `PoolChunkList` object: its nextList is tier
    t + 1, its prevList is `prevLists[t]` and its head is `heads[t]`. The chunks
    are the slots of a table, and a chunk's `prev`, `next` and `parent` fields
    hold slot and tier indices, with Null for `null`. */
module PoolChunkLists {
  import opened JavaInt
  import opened Tiers

  datatype Option<T> = None | Some(value: T)

  /** The fields of `PoolChunk` that PoolChunkList reads and writes. */
  datatype Chunk = Chunk(freeBytes: int, prev: int, next: int, parent: int)

  predicate SameLinks(a: Chunk, b: Chunk)
  {
    a.prev == b.prev && a.next == b.next && a.parent == b.parent
  }

  predicate Distinct(l: seq<int>)
  {
    forall i, j | 0 <= i < j < |l| :: l[i] != l[j]
  }

  /** l is the head-to-tail sequence of the list of tier t whose head is h in the
      chunk table cs: the head is l's first chunk, each chunk's next and prev are
      its neighbours in l (Null at the ends), each chunk's parent is t, and no
      chunk appears twice. */
  ghost predicate LinkedAs(l: seq<int>, t: int, h: int, cs: seq<Chunk>)
  {
    h == (if l == [] then Null else l[0]) &&
    (forall x | x in l :: 0 <= x < |cs| && cs[x].parent == t) &&
    (forall k | 0 <= k < |l| :: 0 <= l[k] < |cs|) &&
    (forall k | 0 <= k < |l| :: LinkAt(l, k, cs)) &&
    Distinct(l)
  }

  /** The chunk at position k of l links to its neighbours in l. */
  ghost predicate LinkAt(l: seq<int>, k: int, cs: seq<Chunk>)
    requires 0 <= k < |l|
  {
    0 <= l[k] < |cs| &&
    cs[l[k]].next == (if k + 1 < |l| then l[k + 1] else Null) &&
    cs[l[k]].prev == (if k > 0 then l[k - 1] else Null)
  }

  /** The neighbours of the chunk at position k of a linked list. */
  lemma Neighbours(l: seq<int>, t: int, h: int, cs: seq<Chunk>, k: int)
    requires LinkedAs(l, t, h, cs) && 0 <= k < |l|
    ensures 0 <= l[k] < |cs| && cs[l[k]].parent == t
    ensures cs[l[k]].next == (if k + 1 < |l| then l[k + 1] else Null)
    ensures cs[l[k]].prev == (if k > 0 then l[k - 1] else Null)
  {
    assert LinkAt(l, k, cs);
    assert l[k] in l;
  }

  /** l with the first occurrence of c taken out; the others keep their order. */
  function Without(l: seq<int>, c: int): (r: seq<int>)
    ensures |r| == if c in l then |l| - 1 else |l|
    ensures forall x | x in r :: x in l
    ensures forall x | x in l && x != c :: x in r
  {
    if l == [] then []
    else if l[0] == c then l[1..]
    else [l[0]] + Without(l[1..], c)
  }

  /** The position of the first occurrence of c in l. */
  function IndexOf(l: seq<int>, c: int): (k: nat)
    requires c in l
    ensures k < |l| && l[k] == c && c !in l[..k]
  {
    if l[0] == c then 0 else 1 + IndexOf(l[1..], c)
  }

  /** In a list without repetitions, taking out the chunk at position k closes
      the gap at k. */
  lemma {:induction false} WithoutAt(l: seq<int>, k: nat)
    requires k < |l| && Distinct(l)
    ensures Without(l, l[k]) == l[..k] + l[k + 1..]
    ensures l[k] !in Without(l, l[k])
  {
    if k > 0 {
      assert l[0] != l[k];
      var tail := l[1..];
      assert tail[k - 1] == l[k];
      assert Distinct(tail);
      WithoutAt(tail, k - 1);
      assert l[..k] == [l[0]] + tail[..k - 1];
      assert l[k + 1..] == tail[k..];
    }
  }

  /** The position of the first chunk of l that serves the request, or |l| when
      none does: the order in which `allocate` tries them (lines 118-127). */
  function FirstServed(l: seq<int>, grant: int -> Option<nat>): (i: nat)
    ensures i <= |l|
    ensures forall j | 0 <= j < i :: grant(l[j]).None?
    ensures i < |l| ==> grant(l[i]).Some?
  {
    if l == [] then 0
    else if grant(l[0]).Some? then 0
    else 1 + FirstServed(l[1..], grant)
  }

  /** A list is not disturbed by changes to chunks outside it. */
  lemma LinkedAsFrame(l: seq<int>, t: int, h: int, cs: seq<Chunk>, cs': seq<Chunk>)
    requires LinkedAs(l, t, h, cs) && |cs'| == |cs|
    requires forall x | x in l && 0 <= x < |cs| :: SameLinks(cs[x], cs'[x])
    ensures LinkedAs(l, t, h, cs')
  {
    forall k | 0 <= k < |l| ensures 0 <= l[k] < |cs'| && LinkAt(l, k, cs') {
      assert l[k] in l;
      assert LinkAt(l, k, cs);
    }
  }

  /** c is in none of the lists ls. */
  ghost predicate InNoList(ls: seq<seq<int>>, c: int)
  {
    forall u | 0 <= u < |ls| :: c !in ls[u]
  }

  /** Changing only chunks of tier t, or chunks in no list, leaves every other
      tier's list linked. */
  lemma OtherTiersKeepLinks(ls: seq<seq<int>>, hs: seq<int>, t: int, cs: seq<Chunk>, cs': seq<Chunk>)
    requires |ls| == |hs| && |cs| == |cs'|
    requires forall u | 0 <= u < |ls| && u != t :: LinkedAs(ls[u], u, hs[u], cs)
    requires forall x | 0 <= x < |cs| && !SameLinks(cs[x], cs'[x]) :: cs[x].parent == t || InNoList(ls, x)
    ensures forall u | 0 <= u < |ls| && u != t :: LinkedAs(ls[u], u, hs[u], cs')
  {
    forall u | 0 <= u < |ls| && u != t ensures LinkedAs(ls[u], u, hs[u], cs') {
      LinkedAsFrame(ls[u], u, hs[u], cs, cs');
    }
  }

  /** The chunk table after `remove` takes the chunk at position k out of l:
      its predecessor's next and its successor's prev bridge the gap, and no other
      chunk changes. */
  ghost predicate UnlinkedAt(l: seq<int>, cs: seq<Chunk>, k: nat, cs': seq<Chunk>)
    requires k < |l| && forall i | 0 <= i < |l| :: 0 <= l[i] < |cs|
  {
    |cs'| == |cs| &&
    (k > 0 ==> cs'[l[k - 1]] == cs[l[k - 1]].(next := cs[l[k]].next)) &&
    (k + 1 < |l| ==> cs'[l[k + 1]] == cs[l[k + 1]].(prev := cs[l[k]].prev)) &&
    forall x | 0 <= x < |cs| && (k == 0 || x != l[k - 1]) && (k + 1 >= |l| || x != l[k + 1]) ::
      cs'[x] == cs[x]
  }

  /** The chunk table after `remove` takes the chunk at position k out of l. */
  function Unlink(l: seq<int>, cs: seq<Chunk>, k: nat): (cs': seq<Chunk>)
    requires k < |l| && Distinct(l) && forall i | 0 <= i < |l| :: 0 <= l[i] < |cs|
    ensures UnlinkedAt(l, cs, k, cs')
    ensures forall x | 0 <= x < |cs| :: cs'[x].freeBytes == cs[x].freeBytes
  {
    assert k > 0 && k + 1 < |l| ==> l[k - 1] != l[k + 1];
    var c := cs[l[k]];
    var cs1 := if k > 0 then cs[l[k - 1] := cs[l[k - 1]].(next := c.next)] else cs;
    if k + 1 < |l| then cs1[l[k + 1] := cs1[l[k + 1]].(prev := c.prev)] else cs1
  }

  lemma UnlinkLinkAt(l: seq<int>, t: int, h: int, cs: seq<Chunk>, k: nat, cs': seq<Chunk>, l': seq<int>, j: nat)
    requires LinkedAs(l, t, h, cs) && k < |l| && UnlinkedAt(l, cs, k, cs')
    requires l' == l[..k] + l[k + 1..] && j < |l'|
    ensures 0 <= l'[j] < |cs'| && LinkAt(l', j, cs')
  {
    var j0 := if j < k then j else j + 1;
    assert l'[j] == l[j0];
    assert j + 1 < |l'| ==> l'[j + 1] == l[if j + 1 < k then j + 1 else j + 2];
    assert j > 0 ==> l'[j - 1] == l[if j - 1 < k then j - 1 else j];
    assert LinkAt(l, j0, cs);
    assert LinkAt(l, k, cs);
    if j0 != k - 1 && j0 != k + 1 {
      assert k == 0 || l[j0] != l[k - 1];
      assert k + 1 >= |l| || l[j0] != l[k + 1];
    }
  }

  /** What `remove` does to a list: the chunk at position k leaves and the rest
      stays linked, in the same order. */
  lemma UnlinkKeepsLinks(l: seq<int>, t: int, h: int, cs: seq<Chunk>, k: nat, h': int, cs': seq<Chunk>)
    requires LinkedAs(l, t, h, cs) && k < |l| && UnlinkedAt(l, cs, k, cs')
    requires h' == if k == 0 then cs[l[k]].next else h
    ensures LinkedAs(l[..k] + l[k + 1..], t, h', cs')
  {
    var l' := l[..k] + l[k + 1..];
    assert LinkAt(l, k, cs);
    forall x | x in l' ensures 0 <= x < |cs'| && cs'[x].parent == t {
      assert x in l;
    }
    forall i, j | 0 <= i < j < |l'| ensures l'[i] != l'[j] {
      var i0, j0 := if i < k then i else i + 1, if j < k then j else j + 1;
      assert l'[i] == l[i0] && l'[j] == l[j0] && i0 < j0;
    }
    forall j | 0 <= j < |l'| ensures 0 <= l'[j] < |cs'| && LinkAt(l', j, cs') {
      UnlinkLinkAt(l, t, h, cs, k, cs', l', j);
    }
  }

  /** ls[t] is the list of tier t with head hs[t], for every tier t. */
  ghost predicate ChainLinked(ls: seq<seq<int>>, hs: seq<int>, cs: seq<Chunk>)
  {
    |ls| == |hs| && forall t | 0 <= t < |ls| :: LinkedAs(ls[t], t, hs[t], cs)
  }

  /** A chunk is linked into at most one tier: its parent names the tier. */
  lemma AtMostOneTier(ls: seq<seq<int>>, hs: seq<int>, cs: seq<Chunk>, c: int, u: nat, v: nat)
    requires ChainLinked(ls, hs, cs) && u < |ls| && v < |ls| && c in ls[u] && c in ls[v]
    ensures u == v
  {
    assert LinkedAs(ls[u], u, hs[u], cs);
    assert LinkedAs(ls[v], v, hs[v], cs);
  }

  /** Every chunk other than e that is linked into tier t has its free bytes in
      t's band: above freeMinThreshold and at most freeMaxThreshold. */
  ghost predicate InBands(tiers: seq<Tier>, ls: seq<seq<int>>, cs: seq<Chunk>, e: int)
  {
    |ls| <= |tiers| &&
    forall t, c | 0 <= t < |ls| && c in ls[t] && c != e && 0 <= c < |cs| ::
      tiers[t].freeMinThreshold < cs[c].freeBytes <= tiers[t].freeMaxThreshold
  }

  /** Taking the chunk at position k out of tier t, with no change to free bytes,
      leaves every remaining chunk in its band. */
  lemma BandsAfterRemove(tiers: seq<Tier>, ls: seq<seq<int>>, cs: seq<Chunk>, cs': seq<Chunk>, t: nat, k: nat)
    requires t < |ls| && k < |ls[t]| && InBands(tiers, ls, cs, ls[t][k])
    requires InNoList(ls[t := ls[t][..k] + ls[t][k + 1..]], ls[t][k])
    requires |cs'| == |cs| && forall x | 0 <= x < |cs| :: cs'[x].freeBytes == cs[x].freeBytes
    ensures InBands(tiers, ls[t := ls[t][..k] + ls[t][k + 1..]], cs', Null)
  {
    var l := ls[t];
    var ls' := ls[t := l[..k] + l[k + 1..]];
    forall u, c | 0 <= u < |ls'| && c in ls'[u] && 0 <= c < |cs'|
      ensures tiers[u].freeMinThreshold < cs'[c].freeBytes <= tiers[u].freeMaxThreshold
    {
      assert c != l[k];
      if u == t {
        assert c in l;
      }
    }
  }

  /** Changing the free bytes of chunk e alone keeps every other chunk in its band. */
  lemma BandsFrame(tiers: seq<Tier>, ls: seq<seq<int>>, cs: seq<Chunk>, cs': seq<Chunk>, e: int)
    requires InBands(tiers, ls, cs, e) && |cs'| == |cs|
    requires forall x | 0 <= x < |cs| && x != e :: cs'[x].freeBytes == cs[x].freeBytes
    ensures InBands(tiers, ls, cs', e)
  {
  }

  /** When chunk e is in the band of every tier that holds it, all chunks are. */
  lemma BandsRestored(tiers: seq<Tier>, ls: seq<seq<int>>, cs: seq<Chunk>, e: int)
    requires InBands(tiers, ls, cs, e) && 0 <= e < |cs|
    requires forall u | 0 <= u < |ls| && e in ls[u] ::
      tiers[u].freeMinThreshold < cs[e].freeBytes <= tiers[u].freeMaxThreshold
    ensures InBands(tiers, ls, cs, Null)
  {
  }

  /** `remove` on the whole chain: the chunk at position k of tier t leaves that
      list, every list stays linked, and the chunk is then in no list. */
  lemma RemoveKeepsChain(ls: seq<seq<int>>, hs: seq<int>, cs: seq<Chunk>, t: nat, k: nat, hs': seq<int>, cs': seq<Chunk>)
    requires ChainLinked(ls, hs, cs) && t < |ls| && k < |ls[t]| && UnlinkedAt(ls[t], cs, k, cs')
    requires hs' == hs[t := if k == 0 then cs[ls[t][k]].next else hs[t]]
    ensures ChainLinked(ls[t := ls[t][..k] + ls[t][k + 1..]], hs', cs')
    ensures InNoList(ls[t := ls[t][..k] + ls[t][k + 1..]], ls[t][k])
  {
    var l := ls[t];
    var ls' := ls[t := l[..k] + l[k + 1..]];
    assert LinkedAs(l, t, hs[t], cs);
    UnlinkKeepsLinks(l, t, hs[t], cs, k, hs'[t], cs');
    if k > 0 { assert l[k - 1] in l; }
    if k + 1 < |l| { assert l[k + 1] in l; }
    OtherTiersKeepLinks(ls, hs, t, cs, cs');
    WithoutAt(l, k);
    assert l[k] in l;
    forall u | 0 <= u < |ls'| ensures l[k] !in ls'[u] {
      if u != t {
        assert LinkedAs(ls[u], u, hs[u], cs);
      }
    }
  }

  /** The chunk table after `add0` links c in front of the list l of tier t: c
      takes t as parent, no prev and l's head as next, and the old head's prev
      points back to c. */
  function Link(l: seq<int>, cs: seq<Chunk>, c: int, t: int): (cs': seq<Chunk>)
    requires 0 <= c < |cs| && (l != [] ==> 0 <= l[0] < |cs|)
    ensures |cs'| == |cs| && forall x | 0 <= x < |cs| :: cs'[x].freeBytes == cs[x].freeBytes
  {
    var h := if l == [] then Null else l[0];
    var cs1 := cs[c := cs[c].(parent := t, prev := Null, next := h)];
    if h == Null then cs1 else cs1[h := cs1[h].(prev := c)]
  }

  lemma PushLinkAt(l: seq<int>, t: int, h: int, cs: seq<Chunk>, c: int, j: nat)
    requires LinkedAs(l, t, h, cs) && 0 <= c < |cs| && c !in l && j <= |l|
    ensures LinkAt([c] + l, j, Link(l, cs, c, t))
  {
    var l', cs' := [c] + l, Link(l, cs, c, t);
    if j > 0 {
      var x := l[j - 1];
      assert l'[j] == x && x in l;
      Neighbours(l, t, h, cs, j - 1);
      if j > 1 {
        assert x != l[0];
      }
    }
  }

  /** What `add0` does to a list: c becomes its head and the rest keep their
      order. */
  lemma PushKeepsLinks(l: seq<int>, t: int, h: int, cs: seq<Chunk>, c: int)
    requires LinkedAs(l, t, h, cs) && 0 <= c < |cs| && c !in l
    ensures LinkedAs([c] + l, t, c, Link(l, cs, c, t))
  {
    var l', cs' := [c] + l, Link(l, cs, c, t);
    forall x | x in l' ensures 0 <= x < |cs'| && cs'[x].parent == t {
      if x != c {
        assert x in l;
      }
    }
    forall j | 0 <= j < |l'| ensures LinkAt(l', j, cs') {
      PushLinkAt(l, t, h, cs, c, j);
    }
    forall i, j | 0 <= i < j < |l'| ensures l'[i] != l'[j] {
      if i > 0 {
        assert l'[i] == l[i - 1] && l'[j] == l[j - 1];
      } else {
        assert l'[j] in l;
      }
    }
  }

  /** `add0` on the whole chain: every list stays linked, tier t now starts
      with c. */
  lemma PushKeepsChain(ls: seq<seq<int>>, hs: seq<int>, cs: seq<Chunk>, t: nat, c: int)
    requires ChainLinked(ls, hs, cs) && t < |ls| && 0 <= c < |cs| && InNoList(ls, c)
    ensures ls[t] != [] ==> 0 <= ls[t][0] < |cs|
    ensures ChainLinked(ls[t := [c] + ls[t]], hs[t := c], Link(ls[t], cs, c, t))
  {
    var l := ls[t];
    assert LinkedAs(l, t, hs[t], cs);
    if l != [] {
      Neighbours(l, t, hs[t], cs, 0);
    }
    PushKeepsLinks(l, t, hs[t], cs, c);
    OtherTiersKeepLinks(ls, hs, t, cs, Link(l, cs, c, t));
  }

  /** `add0` of a chunk whose free bytes lie in tier t's band keeps every chunk
      in its band. */
  lemma BandsAfterPush(tiers: seq<Tier>, ls: seq<seq<int>>, cs: seq<Chunk>, cs': seq<Chunk>, t: nat, c: int)
    requires InBands(tiers, ls, cs, Null) && t < |ls| && 0 <= c < |cs|
    requires |cs'| == |cs| && forall x | 0 <= x < |cs| :: cs'[x].freeBytes == cs[x].freeBytes
    requires tiers[t].freeMinThreshold < cs[c].freeBytes <= tiers[t].freeMaxThreshold
    ensures InBands(tiers, ls[t := [c] + ls[t]], cs', Null)
  {
    var ls' := ls[t := [c] + ls[t]];
    forall u, x | 0 <= u < |ls'| && x in ls'[u] && 0 <= x < |cs'|
      ensures tiers[u].freeMinThreshold < cs'[x].freeBytes <= tiers[u].freeMaxThreshold
    {
      if u == t && x != c {
        assert x in ls[t];
      }
    }
  }

  class ChunkListChain {
    const chunkSize: Int32
    /** tiers[t + 1] is the nextList of tiers[t]; the last tier has none. */
    const tiers: seq<Tier>
    const chunks: array<Chunk>
    /** heads[t]: the `head` field of tier t. */
    var heads: seq<int>
    /** prevLists[t]: the `prevList` field of tier t. */
    var prevLists: seq<int>
    /** lists[t]: the chunks of tier t, head to tail. */
    ghost var lists: seq<seq<int>>

    /** The lists are well formed, every chunk's free bytes lie in [0, chunkSize],
        the prevList links keep the descent finite, and the last tier never hands
        a chunk on (its freeMinThreshold is negative). A linked chunk's parent is
        its tier, so no chunk is in two tiers. */
    ghost predicate Valid()
      reads this, chunks
    {
      0 < chunkSize &&
      |tiers| > 0 && |heads| == |tiers| && |lists| == |tiers| &&
      tiers[|tiers| - 1].freeMinThreshold < 0 &&
      PrevListsLegal(tiers, prevLists, chunkSize) &&
      (forall c | 0 <= c < chunks.Length :: 0 <= chunks[c].freeBytes <= chunkSize) &&
      ChainLinked(lists, heads, chunks[..])
    }

    /** c is in no tier's list. */
    ghost predicate Unlinked(c: int)
      reads this
    {
      InNoList(lists, c)
    }

    /** Every linked chunk's free bytes lie in its tier's band: above
        freeMinThreshold and at most freeMaxThreshold. */
    ghost predicate Banded()
      reads this, chunks
    {
      BandedExcept(Null)
    }

    /** Banded, except perhaps for chunk e. */
    ghost predicate BandedExcept(e: int)
      reads this, chunks
    {
      InBands(tiers, lists, chunks[..], e)
    }

    /** The arena's set-up: one `PoolChunkList` per (minUsage, maxUsage) band, in
        nextList order, every list empty and every prevList unset; `slots` chunk
        slots, each completely free. */
    constructor (chunkSize: Int32, bands: seq<(Int32, Int32)>, slots: nat)
      requires 0 < chunkSize && |bands| > 0
      requires forall i | 0 <= i < |bands| :: bands[i].0 <= bands[i].1
      requires FreeThreshold(bands[|bands| - 1].1, chunkSize) < 0
      ensures Valid() && Banded() && fresh(chunks)
      ensures this.chunkSize == chunkSize && |tiers| == |bands|
      ensures forall i | 0 <= i < |bands| :: tiers[i] == NewTier(bands[i].0, bands[i].1, chunkSize)
      ensures chunks.Length == slots
      ensures forall c | 0 <= c < slots :: chunks[c] == Chunk(chunkSize, Null, Null, Null)
      ensures forall t | 0 <= t < |bands| :: lists[t] == [] && prevLists[t] == Null
    {
      this.chunkSize := chunkSize;
      tiers := seq(|bands|, i requires 0 <= i < |bands| => NewTier(bands[i].0, bands[i].1, chunkSize));
      chunks := new Chunk[slots](_ => Chunk(chunkSize, Null, Null, Null));
      heads := seq(|bands|, _ => Null);
      prevLists := seq(|bands|, _ => Null);
      lists := seq(|bands|, _ => []);
    }

    /** `prevList(prevList)`: set once (the assertion of line 105). */
    method SetPrevList(t: nat, p: int)
      requires Valid() && t < |tiers|
      requires prevLists[t] == Null
      requires LegalPrev(tiers, chunkSize, t, p)
      modifies this
      ensures Valid() && prevLists == old(prevLists)[t := p]
      ensures lists == old(lists) && heads == old(heads)
      ensures Banded() == old(Banded())
    {
      prevLists := prevLists[t := p];
    }

    /** `remove`: unlink a member of tier t in O(1). The others keep their order. */
    method Remove(t: nat, c: int)
      requires Valid() && t < |tiers| && c in lists[t]
      modifies this, chunks
      ensures Valid() && Unlinked(c)
      ensures lists == old(lists)[t := Without(old(lists[t]), c)]
      ensures prevLists == old(prevLists)
      ensures forall d | 0 <= d < chunks.Length :: chunks[d].freeBytes == old(chunks[d].freeBytes)
      ensures old(BandedExcept(c)) ==> Banded()
    {
      ghost var l := lists[t];
      ghost var k := IndexOf(l, c);
      ghost var before := chunks[..];
      ghost var wasBanded := BandedExcept(c);
      WithoutAt(l, k);
      Neighbours(l, t, heads[t], before, k);
      Bridge(t, c, l, k);
      RemoveKeepsChain(lists, old(heads), before, t, k, heads, chunks[..]);
      if wasBanded {
        BandsAfterRemove(tiers, lists, before, chunks[..], t, k);
      }
      lists := lists[t := l[..k] + l[k + 1..]];
    }

    /** The pointer updates of `remove` (lines 203-216): c's neighbours, or the
        head, skip over c, which sits at position k of the list l of tier t. */
    method Bridge(t: nat, c: int, ghost l: seq<int>, ghost k: nat)
      requires t < |heads| && LinkedAs(l, t, heads[t], chunks[..]) && k < |l| && l[k] == c
      modifies this`heads, chunks
      ensures chunks[..] == Unlink(l, old(chunks[..]), k)
      ensures forall d | 0 <= d < chunks.Length :: chunks[d].freeBytes == old(chunks[d].freeBytes)
      ensures heads == old(heads)[t := if k == 0 then old(chunks[c].next) else old(heads[t])]
    {
      Neighbours(l, t, heads[t], chunks[..], k);
      var cur := chunks[c];
      if c == heads[t] {
        assert k == 0;
        heads := heads[t := cur.next];
        if cur.next != Null {
          chunks[cur.next] := chunks[cur.next].(prev := Null);
        }
      } else {
        assert k > 0;
        var next := cur.next;
        chunks[cur.prev] := chunks[cur.prev].(next := next);
        if next != Null {
          chunks[next] := chunks[next].(prev := cur.prev);
        }
      }
    }

    /** `add0`: make c the head of tier t. */
    method Add0(t: nat, c: int)
      requires Valid() && t < |tiers| && 0 <= c < chunks.Length && Unlinked(c)
      modifies this, chunks
      ensures Valid()
      ensures lists == old(lists)[t := [c] + old(lists[t])]
      ensures heads == old(heads)[t := c]
      ensures chunks[c].parent == t && chunks[c].prev == Null && chunks[c].next == old(heads[t])
      ensures prevLists == old(prevLists)
      ensures forall d | 0 <= d < chunks.Length :: chunks[d].freeBytes == old(chunks[d].freeBytes)
      ensures old(Banded()) && tiers[t].freeMinThreshold < chunks[c].freeBytes <= tiers[t].freeMaxThreshold
        ==> Banded()
    {
      ghost var before := chunks[..];
      ghost var wasBanded := Banded();
      PushKeepsChain(lists, heads, before, t, c);
      chunks[c] := chunks[c].(parent := t);
      var head := heads[t];
      if head == Null {
        heads := heads[t := c];
        chunks[c] := chunks[c].(prev := Null, next := Null);
      } else {
        chunks[c] := chunks[c].(prev := Null, next := head);
        chunks[head] := chunks[head].(prev := c);
        heads := heads[t := c];
      }
      assert chunks[..] == Link(lists[t], before, c, t);
      if wasBanded && tiers[t].freeMinThreshold < chunks[c].freeBytes <= tiers[t].freeMaxThreshold {
        BandsAfterPush(tiers, lists, before, chunks[..], t, c);
      }
      lists := lists[t := [c] + lists[t]];
    }

    /** `add`: link c into the first tier from t upwards that does not find it too
        full (`freeBytes <= freeMinThreshold` forwards it to nextList). */
    method Add(t: nat, c: int)
      requires Valid() && t < |tiers| && 0 <= c < chunks.Length && Unlinked(c)
      modifies this, chunks
      decreases |tiers| - t
      ensures Valid() && prevLists == old(prevLists)
      ensures var j := PromotionTarget(tiers, t, chunks[c].freeBytes);
        lists == old(lists)[j := [c] + old(lists[j])] && heads[j] == c
      ensures forall d | 0 <= d < chunks.Length :: chunks[d].freeBytes == old(chunks[d].freeBytes)
      ensures old(Banded()) && PromotionsOverlap(tiers) && chunks[c].freeBytes <= tiers[t].freeMaxThreshold
        ==> Banded()
    {
      if chunks[c].freeBytes <= tiers[t].freeMinThreshold {
        Add(t + 1, c);
        return;
      }
      Add0(t, c);
    }

    /** `allocate`: refuse a request larger than maxCapacity; otherwise try the
        chunks head to tail and stop at the first that serves it, promoting that
        chunk when its free bytes fell to freeMinThreshold or below. `grant(c)`
        is what chunk c's own allocator takes for the request, None when it
        cannot serve it. */
    method Allocate(t: nat, normCapacity: int, grant: int -> Option<nat>) returns (r: bool)
      requires Valid() && t < |tiers|
      requires forall c | 0 <= c < chunks.Length :: grant(c).Some? ==> grant(c).value <= chunks[c].freeBytes
      modifies this, chunks
      ensures Valid() && prevLists == old(prevLists)
      ensures r <==> normCapacity <= tiers[t].maxCapacity && FirstServed(old(lists[t]), grant) < |old(lists[t])|
      ensures !r ==> lists == old(lists) && heads == old(heads) && chunks[..] == old(chunks[..])
      ensures r ==>
        var c := old(lists[t])[FirstServed(old(lists[t]), grant)];
        var fb := old(chunks[c].freeBytes) - grant(c).value;
        chunks[c].freeBytes == fb &&
        (forall d | 0 <= d < chunks.Length && d != c :: chunks[d].freeBytes == old(chunks[d].freeBytes)) &&
        (fb > tiers[t].freeMinThreshold ==> lists == old(lists)) &&
        (fb <= tiers[t].freeMinThreshold ==>
          t + 1 < |tiers| &&
          var j := PromotionTarget(tiers, t + 1, fb);
          lists == old(lists)[t := Without(old(lists[t]), c)][j := [c] + old(lists[j])])
      ensures old(Banded()) && PromotionsOverlap(tiers) ==> Banded()
    {
      if normCapacity > tiers[t].maxCapacity {
        return false;
      }
      var cur := FirstServing(t, grant);
      if cur == Null {
        return false;
      }
      Charge(t, cur, grant(cur).value);
      return true;
    }

    /** The walk of lines 118-119: the first chunk of tier t, head to tail, that
        serves the request, or Null when none does. */
    method FirstServing(t: nat, grant: int -> Option<nat>) returns (cur: int)
      requires Valid() && t < |tiers|
      ensures var l, i := lists[t], FirstServed(lists[t], grant);
        if i < |l| then cur == l[i] && 0 <= cur < chunks.Length else cur == Null
    {
      ghost var l := lists[t];
      assert LinkedAs(l, t, heads[t], chunks[..]);
      cur := heads[t];
      ghost var i := 0;
      while cur != Null && grant(cur).None?
        invariant 0 <= i <= |l| && cur == (if i < |l| then l[i] else Null)
        invariant forall j | 0 <= j < i :: grant(l[j]).None?
        decreases |l| - i
      {
        Neighbours(l, t, heads[t], chunks[..], i);
        cur := chunks[cur].next;
        i := i + 1;
      }
      if cur == Null {
        assert FirstServed(l, grant) == |l|;
      } else {
        assert FirstServed(l, grant) == i;
        Neighbours(l, t, heads[t], chunks[..], i);
      }
    }

    /** The successful iteration of `allocate` (lines 120-125): chunk c of tier t
        has handed out `taken` bytes; when that leaves it at or below
        freeMinThreshold it moves up through nextList. */
    method Charge(t: nat, c: int, taken: nat)
      requires Valid() && t < |tiers| && c in lists[t] && 0 <= c < chunks.Length
      requires taken <= chunks[c].freeBytes
      modifies this, chunks
      ensures Valid() && prevLists == old(prevLists)
      ensures chunks[c].freeBytes == old(chunks[c].freeBytes) - taken
      ensures forall d | 0 <= d < chunks.Length && d != c :: chunks[d].freeBytes == old(chunks[d].freeBytes)
      ensures chunks[c].freeBytes > tiers[t].freeMinThreshold ==> lists == old(lists)
      ensures chunks[c].freeBytes <= tiers[t].freeMinThreshold ==>
        t + 1 < |tiers| &&
        var j := PromotionTarget(tiers, t + 1, chunks[c].freeBytes);
        lists == old(lists)[t := Without(old(lists[t]), c)][j := [c] + old(lists[j])]
      ensures old(Banded()) && PromotionsOverlap(tiers) ==> Banded()
    {
      ghost var wasBanded := Banded();
      SetFreeBytes(c, chunks[c].freeBytes - taken);
      if chunks[c].freeBytes <= tiers[t].freeMinThreshold {
        Promote(t, c);
      } else if wasBanded {
        Rebanded(t, c);
      }
    }

    /** Lines 122-123: `remove(cur); nextList.add(cur);` for a chunk that is too
        full for tier t. */
    method Promote(t: nat, c: int)
      requires Valid() && t < |tiers| && c in lists[t] && 0 <= c < chunks.Length
      requires chunks[c].freeBytes <= tiers[t].freeMinThreshold
      modifies this, chunks
      ensures Valid() && prevLists == old(prevLists) && t + 1 < |tiers|
      ensures forall d | 0 <= d < chunks.Length :: chunks[d].freeBytes == old(chunks[d].freeBytes)
      ensures var j := PromotionTarget(tiers, t + 1, chunks[c].freeBytes);
        lists == old(lists)[t := Without(old(lists[t]), c)][j := [c] + old(lists[j])]
      ensures old(BandedExcept(c)) && PromotionsOverlap(tiers) ==> Banded()
    {
      Remove(t, c);
      Add(t + 1, c);
    }

    /** `free`: give bytes back to c (its own allocator raises freeBytes by
        `released`); when c is now too empty for tier t, unlink it and descend
        through `move0`. False means that no tier took c and it is to be
        destroyed. */
    method Free(t: nat, c: int, released: nat) returns (r: bool)
      requires Valid() && t < |tiers| && c in lists[t]
      requires chunks[c].freeBytes + released <= chunkSize
      modifies this, chunks
      ensures Valid() && prevLists == old(prevLists)
      ensures chunks[c].freeBytes == old(chunks[c].freeBytes) + released
      ensures forall d | 0 <= d < chunks.Length && d != c :: chunks[d].freeBytes == old(chunks[d].freeBytes)
      ensures chunks[c].freeBytes <= tiers[t].freeMaxThreshold ==> r && lists == old(lists)
      ensures chunks[c].freeBytes > tiers[t].freeMaxThreshold ==>
        var d := DemotionTarget(tiers, prevLists, chunkSize, t, chunks[c].freeBytes);
        r == (d != Null) &&
        lists == if d == Null then old(lists)[t := Without(old(lists[t]), c)]
                 else old(lists)[t := Without(old(lists[t]), c)][d := [c] + old(lists[d])]
      ensures old(Banded()) && DemotionsOverlap(tiers, prevLists) ==> Banded()
    {
      ghost var wasBanded := Banded();
      SetFreeBytes(c, chunks[c].freeBytes + released);
      if chunks[c].freeBytes > tiers[t].freeMaxThreshold {
        Remove(t, c);
        r := Move0(t, c);
        return;
      }
      if wasBanded {
        Rebanded(t, c);
      }
      r := true;
    }

    /** What the chunk's own `allocate` or `free` does to the state this model
        tracks: chunk c now has fb free bytes. */
    method SetFreeBytes(c: int, fb: int)
      requires Valid() && 0 <= c < chunks.Length && 0 <= fb <= chunkSize
      modifies chunks
      ensures Valid()
      ensures chunks[c] == old(chunks[c]).(freeBytes := fb)
      ensures forall d | 0 <= d < chunks.Length && d != c :: chunks[d] == old(chunks[d])
      ensures old(Banded()) ==> BandedExcept(c)
    {
      chunks[c] := chunks[c].(freeBytes := fb);
      LinkedAsAfterFreeBytes(old(chunks[..]));
      if old(Banded()) {
        BandsFrame(tiers, lists, old(chunks[..]), chunks[..], c);
      }
    }

    /** `move`: link c here if it is not too empty for tier p, else keep
        descending. The assertion of line 145 is kept in threshold form: where
        demotions overlap, c is not too full for p. */
    method Move(p: nat, c: int) returns (r: bool)
      requires Valid() && p < |tiers| && 0 <= c < chunks.Length && Unlinked(c)
      requires DemotionsOverlap(tiers, prevLists) ==> chunks[c].freeBytes > tiers[p].freeMinThreshold
      modifies this, chunks
      decreases p, 2
      ensures Valid() && prevLists == old(prevLists)
      ensures forall d | 0 <= d < chunks.Length :: chunks[d].freeBytes == old(chunks[d].freeBytes)
      ensures chunks[c].freeBytes <= tiers[p].freeMaxThreshold ==>
        r && lists == old(lists)[p := [c] + old(lists[p])]
      ensures chunks[c].freeBytes > tiers[p].freeMaxThreshold ==>
        var d := DemotionTarget(tiers, prevLists, chunkSize, p, chunks[c].freeBytes);
        r == (d != Null) && lists == if d == Null then old(lists) else old(lists)[d := [c] + old(lists[d])]
      ensures old(Banded()) && DemotionsOverlap(tiers, prevLists) && chunks[c].freeBytes > tiers[p].freeMinThreshold
        ==> Banded()
    {
      if chunks[c].freeBytes > tiers[p].freeMaxThreshold {
        r := Move0(p, c);
        return;
      }
      Add0(p, c);
      r := true;
    }

    /** `move0`: hand c, too empty for tier t, to t's prevList; with no prevList
        report false so that the caller destroys c. */
    method Move0(t: nat, c: int) returns (r: bool)
      requires Valid() && t < |tiers| && 0 <= c < chunks.Length && Unlinked(c)
      requires chunks[c].freeBytes > tiers[t].freeMaxThreshold
      modifies this, chunks
      decreases t, 1
      ensures Valid() && prevLists == old(prevLists)
      ensures forall d | 0 <= d < chunks.Length :: chunks[d].freeBytes == old(chunks[d].freeBytes)
      ensures var d := DemotionTarget(tiers, prevLists, chunkSize, t, chunks[c].freeBytes);
        r == (d != Null) && lists == if d == Null then old(lists) else old(lists)[d := [c] + old(lists[d])]
      ensures old(Banded()) && DemotionsOverlap(tiers, prevLists) ==> Banded()
    {
      var p := prevLists[t];
      if p == Null {
        return false;
      }
      if DemotionsOverlap(tiers, prevLists) {
        DemotionArrivesBelowMax(tiers, prevLists, chunkSize, t, chunks[c].freeBytes);
      }
      r := Move(p, c);
    }

    /** `iterator`: the chunks of tier t, head to tail. */
    method Iterator(t: nat) returns (metrics: seq<int>)
      requires Valid() && t < |tiers|
      ensures metrics == lists[t]
    {
      metrics := [];
      if heads[t] == Null {
        return;
      }
      ghost var l := lists[t];
      var cur := heads[t];
      ghost var i := 0;
      while true
        invariant 0 <= i < |l| && cur == l[i] && metrics == l[..i]
        decreases |l| - i
      {
        metrics := metrics + [cur];
        Neighbours(l, t, heads[t], chunks[..], i);
        cur := chunks[cur].next;
        i := i + 1;
        if cur == Null {
          assert i == |l|;
          break;
        }
      }
      assert l[..i] == l;
    }

    /** `destroy`: hand every chunk of tier t to the arena's `destroyChunk`, head
        to tail (the result lists those calls in order), and empty the list. */
    method Destroy(t: nat) returns (destroyed: seq<int>)
      requires Valid() && t < |tiers|
      modifies this
      ensures Valid() && destroyed == old(lists[t])
      ensures lists == old(lists)[t := []] && heads[t] == Null
      ensures prevLists == old(prevLists)
      ensures old(Banded()) ==> Banded()
    {
      ghost var l := lists[t];
      var chunk := heads[t];
      destroyed := [];
      ghost var i := 0;
      while chunk != Null
        invariant unchanged(this)
        invariant 0 <= i <= |l| && chunk == (if i < |l| then l[i] else Null) && destroyed == l[..i]
        decreases |l| - i
      {
        destroyed := destroyed + [chunk];
        Neighbours(l, t, heads[t], chunks[..], i);
        chunk := chunks[chunk].next;
        i := i + 1;
      }
      assert destroyed == l;
      heads := heads[t := Null];
      lists := lists[t := []];
    }

    // ---- proof helpers ----

    /** A chunk of tier t back inside t's band makes the whole chain banded. */
    lemma Rebanded(t: nat, c: int)
      requires Valid() && BandedExcept(c) && t < |tiers| && c in lists[t] && 0 <= c < chunks.Length
      requires tiers[t].freeMinThreshold < chunks[c].freeBytes <= tiers[t].freeMaxThreshold
      ensures Banded()
    {
      forall u | 0 <= u < |lists| && c in lists[u]
        ensures tiers[u].freeMinThreshold < chunks[..][c].freeBytes <= tiers[u].freeMaxThreshold
      {
        AtMostOneTier(lists, heads, chunks[..], c, t, u);
      }
      BandsRestored(tiers, lists, chunks[..], c);
    }

    /** After a change to free bytes only, every list is still linked. */
    lemma LinkedAsAfterFreeBytes(before: seq<Chunk>)
      requires |before| == chunks.Length && ChainLinked(lists, heads, before)
      requires forall d | 0 <= d < chunks.Length :: SameLinks(before[d], chunks[d])
      ensures ChainLinked(lists, heads, chunks[..])
    {
      forall t | 0 <= t < |lists| ensures LinkedAs(lists[t], t, heads[t], chunks[..]) {
        LinkedAsFrame(lists[t], t, heads[t], before, chunks[..]);
      }
    }
  }
}
