/**
 * A skip list of integer keys.
 *
 * Nodes live in an arena `nodes`, addressed by position; `nodes[0]` is the
 * header, which has a forward pointer at every level up to `maxLevel` and
 * whose key is never compared.  A data node of height h has forward
 * pointers at levels 0..h.  Unlinked nodes stay in the arena.
 *
 * The ghost sequence `Chain` lists the data nodes in level-0 order, each
 * with its key and height.  The forward pointer at level l of the header,
 * or of the node at chain position k, leads to the first later node of
 * height at least l (see `Linked`): so the level-l list is exactly the
 * chain restricted to the nodes of height at least l.
 */
module SkipLists {

  /** A forward pointer: none, or the arena position of a node. */
  datatype Link = Nil | Ptr(id: nat)

  /** A node: its key and one forward pointer per level it takes part in. */
  datatype SkipNode = SkipNode(key: int, forward: seq<Link>)

  /** A data node as it appears in the level-0 chain. */
  datatype Entry = Entry(id: nat, key: int, height: nat)

  /* ---------------------------------------------------------------------
   * The chain and its levels
   * ------------------------------------------------------------------- */

  /** Position of the first entry at or after `from` whose height reaches
      level l, or |c| when there is none. */
  function FirstAt(c: seq<Entry>, from: nat, l: nat): (r: nat)
    requires from <= |c|
    ensures from <= r <= |c|
    ensures r < |c| ==> c[r].height >= l
    ensures forall m :: from <= m < r ==> c[m].height < l
    decreases |c| - from
  {
    if from == |c| then |c|
    else if c[from].height >= l then from
    else FirstAt(c, from + 1, l)
  }

  lemma FirstAtIs(c: seq<Entry>, from: nat, l: nat, r: nat)
    requires from <= r <= |c|
    requires r < |c| ==> c[r].height >= l
    requires forall m :: from <= m < r ==> c[m].height < l
    ensures FirstAt(c, from, l) == r
  {
  }

  /** The pointer to chain position r, none past the end. */
  function LinkTo(c: seq<Entry>, r: nat): Link
    requires r <= |c|
  {
    if r == |c| then Nil else Ptr(c[r].id)
  }

  /** The arena position of chain position p, the header for p == -1. */
  function IdAt(c: seq<Entry>, p: int): nat
    requires -1 <= p < |c|
  {
    if p < 0 then 0 else c[p].id
  }

  /** u is the level-l predecessor of chain position q: the last position
      before q (the header, -1, if none) whose height reaches l. */
  predicate IsPred(c: seq<Entry>, q: nat, l: nat, u: int)
  {
    && -1 <= u < q <= |c|
    && (u >= 0 ==> c[u].height >= l)
    && (forall m :: u < m < q ==> c[m].height < l)
  }

  lemma PredUnique(c: seq<Entry>, q: nat, l: nat, u: int, v: int)
    requires IsPred(c, q, l, u) && IsPred(c, q, l, v)
    ensures u == v
  {
  }

  /** c with e inserted at position q. */
  function Inserted(c: seq<Entry>, q: nat, e: Entry): (r: seq<Entry>)
    requires q <= |c|
    ensures |r| == |c| + 1 && r[q] == e
    ensures forall m :: 0 <= m < q ==> r[m] == c[m]
    ensures forall m :: q < m < |r| ==> r[m] == c[m - 1]
  {
    c[..q] + [e] + c[q..]
  }

  /** c without its entry at position q. */
  function Removed(c: seq<Entry>, q: nat): (r: seq<Entry>)
    requires q < |c|
    ensures |r| == |c| - 1
    ensures forall m :: 0 <= m < q ==> r[m] == c[m]
    ensures forall m :: q <= m < |r| ==> r[m] == c[m + 1]
  {
    c[..q] + c[q + 1..]
  }

  /** The keys along the chain. */
  function KeysOf(c: seq<Entry>): (ks: seq<int>)
    ensures |ks| == |c| && forall m :: 0 <= m < |c| ==> ks[m] == c[m].key
  {
    seq(|c|, m requires 0 <= m < |c| => c[m].key)
  }

  predicate Sorted(s: seq<int>)
  {
    forall i, j :: 0 <= i < j < |s| ==> s[i] <= s[j]
  }

  /** The number of leading keys smaller than key: where a descent that
      moves on while the next key is smaller stops. */
  function Rank(s: seq<int>, key: int): (r: nat)
    ensures r <= |s|
    ensures forall m :: 0 <= m < r ==> s[m] < key
    ensures r < |s| ==> s[r] >= key
  {
    if s == [] || s[0] >= key then 0 else 1 + Rank(s[1..], key)
  }

  /** The height the trials draws give a new node: the number of leading
      successful trials, capped at maxLevel; trials that run out count as
      failures. */
  function TrialHeight(draws: seq<bool>, maxLevel: nat): (h: nat)
    ensures h <= maxLevel && h <= |draws|
    ensures forall j :: 0 <= j < h ==> draws[j]
    ensures h < maxLevel && h < |draws| ==> !draws[h]
  {
    if maxLevel == 0 || draws == [] || !draws[0] then 0
    else 1 + TrialHeight(draws[1..], maxLevel - 1)
  }

  /** In a sorted sequence every key from position Rank on is at least key,
      so key occurs iff it sits at position Rank. */
  lemma RankOfSorted(s: seq<int>, key: int)
    requires Sorted(s)
    ensures forall m :: Rank(s, key) <= m < |s| ==> s[m] >= key
    ensures key in s <==> Rank(s, key) < |s| && s[Rank(s, key)] == key
  {
  }

  /* ---------------------------------------------------------------------
   * The pointer invariant
   * ------------------------------------------------------------------- */

  /** The arena realises the chain: chain entries are distinct data nodes
      with the recorded key and height, and every forward pointer of the
      header and of the chain's nodes leads to the next node of the chain
      tall enough for that level. */
  ghost predicate Linked(nodes: seq<SkipNode>, c: seq<Entry>, maxLevel: nat)
  {
    && |nodes| > 0
    && |nodes[0].forward| == maxLevel + 1
    && (forall k :: 0 <= k < |c| ==>
          && 0 < c[k].id < |nodes|
          && c[k].height <= maxLevel
          && nodes[c[k].id].key == c[k].key
          && |nodes[c[k].id].forward| == c[k].height + 1)
    && (forall i, j :: 0 <= i < j < |c| ==> c[i].id != c[j].id)
    && (forall l :: 0 <= l <= maxLevel ==> nodes[0].forward[l] == LinkTo(c, FirstAt(c, 0, l)))
    && (forall k, l :: 0 <= k < |c| && 0 <= l <= c[k].height ==>
          nodes[c[k].id].forward[l] == LinkTo(c, FirstAt(c, k + 1, l)))
  }

  /** The height of chain position p, the header's for p == -1. */
  function HeightAt(c: seq<Entry>, p: int, maxLevel: nat): nat
    requires -1 <= p < |c|
  {
    if p < 0 then maxLevel else c[p].height
  }

  /** The forward pointer at level l of the header or of a chain node. */
  lemma ForwardAt(nodes: seq<SkipNode>, c: seq<Entry>, maxLevel: nat, p: int, l: nat)
    requires Linked(nodes, c, maxLevel)
    requires -1 <= p < |c| && l <= HeightAt(c, p, maxLevel)
    ensures IdAt(c, p) < |nodes| && l < |nodes[IdAt(c, p)].forward|
    ensures nodes[IdAt(c, p)].forward[l] == LinkTo(c, FirstAt(c, p + 1, l))
  {
  }

  /** The bound on levels: no node is taller than `level`, and unless
      `level` is 0 some node reaches it. */
  ghost predicate LevelOk(c: seq<Entry>, level: nat, maxLevel: nat)
  {
    && level <= maxLevel
    && (forall k :: 0 <= k < |c| ==> c[k].height <= level)
    && (level == 0 || FirstAt(c, 0, level) < |c|)
  }

  /** Distinct positions (the header included) hold distinct nodes. */
  lemma IdAtInjective(nodes: seq<SkipNode>, c: seq<Entry>, maxLevel: nat, u: int, v: int)
    requires Linked(nodes, c, maxLevel)
    requires -1 <= u < |c| && -1 <= v < |c|
    ensures IdAt(c, u) == IdAt(c, v) ==> u == v
  {
  }

  /** update[l] is the node at upos[l], the level-l predecessor of chain
      position q, for every level up to h. */
  predicate Predecessors(c: seq<Entry>, q: nat, h: nat, update: seq<nat>, upos: seq<int>)
  {
    && |update| > h && |upos| > h
    && forall l :: 0 <= l <= h ==> IsPred(c, q, l, upos[l]) && update[l] == IdAt(c, upos[l])
  }

  /* ---------------------------------------------------------------------
   * Splicing a node in
   * ------------------------------------------------------------------- */

  /** `after` is `before` plus node id == |before|, of key `key` and height
      h, spliced in at the levels below `upto`: at such a level l its
      pointer takes over the one of update[l], which now leads to it.  Its
      pointers at the other levels are still none, and every other pointer
      is as before. */
  ghost predicate SplicedBelow(before: seq<SkipNode>, after: seq<SkipNode>, id: nat, key: int, h: nat,
                               update: seq<nat>, upto: nat)
  {
    && |after| == |before| + 1 && id == |before|
    && |update| > h && upto <= h + 1
    && (forall x :: 0 <= x < |before| ==>
          after[x].key == before[x].key && |after[x].forward| == |before[x].forward|)
    && (forall l :: 0 <= l <= h ==> update[l] < |before| && l < |before[update[l]].forward|)
    && after[id].key == key && |after[id].forward| == h + 1
    && (forall l :: 0 <= l < upto ==> after[id].forward[l] == before[update[l]].forward[l])
    && (forall l :: upto <= l <= h ==> after[id].forward[l] == Nil)
    && (forall l :: 0 <= l < upto ==> after[update[l]].forward[l] == Ptr(id))
    && (forall x, l {:trigger after[x].forward[l]} ::
          0 <= x < |before| && 0 <= l < |before[x].forward| && !(l < upto && x == update[l]) ==>
          after[x].forward[l] == before[x].forward[l])
  }

  /** In the chain with e inserted at q, the level-l successor of the
      header or of an earlier position p is e when e reaches level l and
      p's successor was not before q, and otherwise the node it was before. */
  lemma InsertedEarlierSuccessor(c: seq<Entry>, q: nat, e: Entry, p: int, l: nat)
    requires -1 <= p < q <= |c|
    ensures FirstAt(c, p + 1, l) >= q && l <= e.height ==>
      LinkTo(Inserted(c, q, e), FirstAt(Inserted(c, q, e), p + 1, l)) == Ptr(e.id)
    ensures !(FirstAt(c, p + 1, l) >= q && l <= e.height) ==>
      LinkTo(Inserted(c, q, e), FirstAt(Inserted(c, q, e), p + 1, l)) == LinkTo(c, FirstAt(c, p + 1, l))
  {
    var r := FirstAt(c, p + 1, l);
    if r >= q && l <= e.height {
      InsertedNewSuccessor(c, q, e, p, l);
    } else if r < q {
      InsertedCloseSuccessor(c, q, e, p, l);
    } else {
      InsertedFarSuccessor(c, q, e, p, l);
    }
  }

  /** p's successor was not before q and e reaches level l: e becomes it. */
  lemma InsertedNewSuccessor(c: seq<Entry>, q: nat, e: Entry, p: int, l: nat)
    requires -1 <= p < q <= |c| && FirstAt(c, p + 1, l) >= q && l <= e.height
    ensures LinkTo(Inserted(c, q, e), FirstAt(Inserted(c, q, e), p + 1, l)) == Ptr(e.id)
  {
    var c' := Inserted(c, q, e);
    forall m | p + 1 <= m < q
      ensures c'[m].height < l
    {
      assert c'[m] == c[m];
    }
    FirstAtIs(c', p + 1, l, q);
  }

  /** p's successor comes before q: it stays. */
  lemma InsertedCloseSuccessor(c: seq<Entry>, q: nat, e: Entry, p: int, l: nat)
    requires -1 <= p < q <= |c| && FirstAt(c, p + 1, l) < q
    ensures LinkTo(Inserted(c, q, e), FirstAt(Inserted(c, q, e), p + 1, l)) == LinkTo(c, FirstAt(c, p + 1, l))
  {
    var c' := Inserted(c, q, e);
    var r := FirstAt(c, p + 1, l);
    assert c'[r] == c[r];
    FirstAtIs(c', p + 1, l, r);
  }

  /** p's successor comes at or after q and e is too short for level l: it
      stays, one position later. */
  lemma InsertedFarSuccessor(c: seq<Entry>, q: nat, e: Entry, p: int, l: nat)
    requires -1 <= p < q <= |c| && FirstAt(c, p + 1, l) >= q && e.height < l
    ensures LinkTo(Inserted(c, q, e), FirstAt(Inserted(c, q, e), p + 1, l)) == LinkTo(c, FirstAt(c, p + 1, l))
  {
    var c' := Inserted(c, q, e);
    var r := FirstAt(c, p + 1, l);
    forall m | p + 1 <= m < r + 1
      ensures c'[m].height < l
    {
      if m < q {
        assert c'[m] == c[m];
      } else if m > q {
        assert c'[m] == c[m - 1];
      }
    }
    FirstAtIs(c', p + 1, l, r + 1);
    if r < |c| {
      assert c'[r + 1] == c[r];
    }
  }

  /** p, of height at least l, is the level-l predecessor of position q
      exactly when its level-l successor is not before q. */
  lemma PredIsLastBefore(c: seq<Entry>, q: nat, p: int, l: nat)
    requires -1 <= p < q <= |c| && (p >= 0 ==> c[p].height >= l)
    ensures IsPred(c, q, l, p) <==> FirstAt(c, p + 1, l) >= q
  {
  }

  /** After the insertion point, successors are unchanged: position k of
      the new chain holds the entry at position k - 1 of the old one. */
  lemma InsertedLaterSuccessor(c: seq<Entry>, q: nat, e: Entry, k: nat, l: nat)
    requires q < k <= |c|
    ensures LinkTo(Inserted(c, q, e), FirstAt(Inserted(c, q, e), k + 1, l)) == LinkTo(c, FirstAt(c, k, l))
  {
    FirstAtIs(Inserted(c, q, e), k + 1, l, FirstAt(c, k, l) + 1);
  }

  /** The inserted entry's level-l successor is that of its predecessor. */
  lemma InsertedOwnSuccessor(c: seq<Entry>, q: nat, e: Entry, u: int, l: nat)
    requires IsPred(c, q, l, u) && l <= e.height
    ensures LinkTo(Inserted(c, q, e), FirstAt(Inserted(c, q, e), q + 1, l)) == LinkTo(c, FirstAt(c, u + 1, l))
  {
    var c' := Inserted(c, q, e);
    var r := FirstAt(c, q, l);
    FirstAtIs(c, u + 1, l, r);
    forall m | q + 1 <= m < r + 1
      ensures c'[m].height < l
    {
      assert c'[m] == c[m - 1];
    }
    FirstAtIs(c', q + 1, l, r + 1);
    if r < |c| {
      assert c'[r + 1] == c[r];
    }
  }

  /** A pointer of the header or of a node before the insertion point. */
  lemma SpliceKeepsEarlierLink(before: seq<SkipNode>, after: seq<SkipNode>, c: seq<Entry>, maxLevel: nat,
                               q: nat, e: Entry, update: seq<nat>, upos: seq<int>, p: int, l: nat)
    requires Linked(before, c, maxLevel) && q <= |c| && e.height <= maxLevel
    requires Predecessors(c, q, e.height, update, upos)
    requires SplicedBelow(before, after, e.id, e.key, e.height, update, e.height + 1)
    requires -1 <= p < q && l <= HeightAt(c, p, maxLevel)
    ensures IdAt(c, p) < |after| && l < |after[IdAt(c, p)].forward|
    ensures after[IdAt(c, p)].forward[l] == LinkTo(Inserted(c, q, e), FirstAt(Inserted(c, q, e), p + 1, l))
  {
    ForwardAt(before, c, maxLevel, p, l);
    InsertedEarlierSuccessor(c, q, e, p, l);
    PredIsLastBefore(c, q, p, l);
    if l <= e.height && IsPred(c, q, l, p) {
      PredUnique(c, q, l, p, upos[l]);
    } else if l <= e.height {
      IdAtInjective(before, c, maxLevel, upos[l], p);
    }
  }

  /** A pointer of a node after the insertion point, at position k of the
      new chain. */
  lemma SpliceKeepsLaterLink(before: seq<SkipNode>, after: seq<SkipNode>, c: seq<Entry>, maxLevel: nat,
                             q: nat, e: Entry, update: seq<nat>, upos: seq<int>, k: nat, l: nat)
    requires Linked(before, c, maxLevel) && q <= |c| && e.height <= maxLevel
    requires Predecessors(c, q, e.height, update, upos)
    requires SplicedBelow(before, after, e.id, e.key, e.height, update, e.height + 1)
    requires q < k <= |c| && l <= c[k - 1].height
    ensures after[c[k - 1].id].forward[l] == LinkTo(Inserted(c, q, e), FirstAt(Inserted(c, q, e), k + 1, l))
  {
    var p := k - 1;
    ForwardAt(before, c, maxLevel, p, l);
    assert before[c[p].id].forward[l] == LinkTo(c, FirstAt(c, k, l));
    InsertedLaterSuccessor(c, q, e, k, l);
    if l <= e.height && update[l] == c[p].id {
      assert false;
    }
    assert after[c[p].id].forward[l] == before[c[p].id].forward[l];
  }

  /** A pointer of the new node. */
  lemma SpliceLinksNewNode(before: seq<SkipNode>, after: seq<SkipNode>, c: seq<Entry>, maxLevel: nat,
                           q: nat, e: Entry, update: seq<nat>, upos: seq<int>, l: nat)
    requires Linked(before, c, maxLevel) && q <= |c| && e.height <= maxLevel
    requires Predecessors(c, q, e.height, update, upos)
    requires SplicedBelow(before, after, e.id, e.key, e.height, update, e.height + 1)
    requires l <= e.height
    ensures after[e.id].forward[l] == LinkTo(Inserted(c, q, e), FirstAt(Inserted(c, q, e), q + 1, l))
  {
    ForwardAt(before, c, maxLevel, upos[l], l);
    InsertedOwnSuccessor(c, q, e, upos[l], l);
  }

  /** Splicing keeps every chain entry's node, and the new node is one. */
  lemma SpliceKeepsEntries(before: seq<SkipNode>, after: seq<SkipNode>, c: seq<Entry>, maxLevel: nat,
                           q: nat, e: Entry, update: seq<nat>)
    requires Linked(before, c, maxLevel) && q <= |c| && e.height <= maxLevel
    requires SplicedBelow(before, after, e.id, e.key, e.height, update, e.height + 1)
    ensures |after| > 0 && |after[0].forward| == maxLevel + 1
    ensures var c' := Inserted(c, q, e);
      && (forall k :: 0 <= k < |c'| ==>
            && 0 < c'[k].id < |after|
            && c'[k].height <= maxLevel
            && after[c'[k].id].key == c'[k].key
            && |after[c'[k].id].forward| == c'[k].height + 1)
      && (forall i, j :: 0 <= i < j < |c'| ==> c'[i].id != c'[j].id)
  {
  }

  /** The pointer at level l of the node at position k of the new chain. */
  lemma SpliceLink(before: seq<SkipNode>, after: seq<SkipNode>, c: seq<Entry>, maxLevel: nat,
                   q: nat, e: Entry, update: seq<nat>, upos: seq<int>, k: nat, l: nat)
    requires Linked(before, c, maxLevel) && q <= |c| && e.height <= maxLevel
    requires Predecessors(c, q, e.height, update, upos)
    requires SplicedBelow(before, after, e.id, e.key, e.height, update, e.height + 1)
    requires k < |Inserted(c, q, e)| && l <= Inserted(c, q, e)[k].height
    ensures after[Inserted(c, q, e)[k].id].forward[l] ==
              LinkTo(Inserted(c, q, e), FirstAt(Inserted(c, q, e), k + 1, l))
  {
    var c' := Inserted(c, q, e);
    if k < q {
      assert c'[k] == c[k];
      SpliceKeepsEarlierLink(before, after, c, maxLevel, q, e, update, upos, k, l);
    } else if k == q {
      assert c'[k] == e;
      SpliceLinksNewNode(before, after, c, maxLevel, q, e, update, upos, l);
    } else {
      assert c'[k] == c[k - 1];
      SpliceKeepsLaterLink(before, after, c, maxLevel, q, e, update, upos, k, l);
    }
  }

  /** Splicing gives every chain node its successors in the new chain. */
  lemma SpliceLinksChain(before: seq<SkipNode>, after: seq<SkipNode>, c: seq<Entry>, maxLevel: nat,
                         q: nat, e: Entry, update: seq<nat>, upos: seq<int>)
    requires Linked(before, c, maxLevel) && q <= |c| && e.height <= maxLevel
    requires Predecessors(c, q, e.height, update, upos)
    requires SplicedBelow(before, after, e.id, e.key, e.height, update, e.height + 1)
    ensures var c' := Inserted(c, q, e);
      forall k, l :: 0 <= k < |c'| && 0 <= l <= c'[k].height ==>
        after[c'[k].id].forward[l] == LinkTo(c', FirstAt(c', k + 1, l))
  {
    var c' := Inserted(c, q, e);
    forall k, l | 0 <= k < |c'| && 0 <= l <= c'[k].height
      ensures after[c'[k].id].forward[l] == LinkTo(c', FirstAt(c', k + 1, l))
    {
      SpliceLink(before, after, c, maxLevel, q, e, update, upos, k, l);
    }
  }

  /** Splicing a fresh node in at every level up to its height, behind the
      predecessors of chain position q, yields an arena that realises the
      chain with the node inserted at q. */
  lemma SpliceIsInsertion(before: seq<SkipNode>, after: seq<SkipNode>, c: seq<Entry>, maxLevel: nat,
                          q: nat, e: Entry, update: seq<nat>, upos: seq<int>)
    requires Linked(before, c, maxLevel) && q <= |c| && e.height <= maxLevel
    requires Predecessors(c, q, e.height, update, upos)
    requires SplicedBelow(before, after, e.id, e.key, e.height, update, e.height + 1)
    ensures Linked(after, Inserted(c, q, e), maxLevel)
  {
    var c' := Inserted(c, q, e);
    SpliceKeepsEntries(before, after, c, maxLevel, q, e, update);
    forall l | 0 <= l <= maxLevel
      ensures after[0].forward[l] == LinkTo(c', FirstAt(c', 0, l))
    {
      SpliceKeepsEarlierLink(before, after, c, maxLevel, q, e, update, upos, -1, l);
    }
    SpliceLinksChain(before, after, c, maxLevel, q, e, update, upos);
  }

  /* ---------------------------------------------------------------------
   * Bypassing a node
   * ------------------------------------------------------------------- */

  /** `after` is `before` with node t bypassed at the levels below `upto`:
      at such a level l the pointer of update[l] takes over the one of t;
      every other pointer is as before. */
  ghost predicate BypassedBelow(before: seq<SkipNode>, after: seq<SkipNode>, t: nat, update: seq<nat>, upto: nat)
  {
    && |after| == |before|
    && t < |before| && upto <= |before[t].forward| && upto <= |update|
    && (forall x :: 0 <= x < |before| ==>
          after[x].key == before[x].key && |after[x].forward| == |before[x].forward|)
    && (forall l :: 0 <= l < upto ==> update[l] < |before| && l < |before[update[l]].forward|)
    && (forall l :: 0 <= l < upto ==> after[update[l]].forward[l] == before[t].forward[l])
    && (forall x, l {:trigger after[x].forward[l]} ::
          0 <= x < |before| && 0 <= l < |before[x].forward| && !(l < upto && x == update[l]) ==>
          after[x].forward[l] == before[x].forward[l])
  }

  /** p's level-l successor is position q exactly when p is q's level-l
      predecessor and q reaches level l. */
  lemma SuccessorIsTarget(c: seq<Entry>, q: nat, p: int, l: nat)
    requires -1 <= p < q < |c| && (p >= 0 ==> c[p].height >= l)
    ensures FirstAt(c, p + 1, l) == q <==> l <= c[q].height && IsPred(c, q, l, p)
  {
    if l <= c[q].height && IsPred(c, q, l, p) {
      FirstAtIs(c, p + 1, l, q);
    }
  }

  /** In the chain without position q, the level-l successor of the header
      or of an earlier position p is the removed entry's successor when p's
      successor was the removed entry, and otherwise the node it was before. */
  lemma RemovedEarlierSuccessor(c: seq<Entry>, q: nat, p: int, l: nat)
    requires -1 <= p < q < |c|
    ensures FirstAt(c, p + 1, l) == q ==>
      LinkTo(Removed(c, q), FirstAt(Removed(c, q), p + 1, l)) == LinkTo(c, FirstAt(c, q + 1, l))
    ensures FirstAt(c, p + 1, l) != q ==>
      LinkTo(Removed(c, q), FirstAt(Removed(c, q), p + 1, l)) == LinkTo(c, FirstAt(c, p + 1, l))
  {
    var r := FirstAt(c, p + 1, l);
    if r == q {
      RemovedTargetSuccessor(c, q, p, l);
    } else if r < q {
      RemovedCloseSuccessor(c, q, p, l);
    } else {
      RemovedFarSuccessor(c, q, p, l);
    }
  }

  /** p's successor was the removed entry: it becomes the removed entry's
      successor. */
  lemma RemovedTargetSuccessor(c: seq<Entry>, q: nat, p: int, l: nat)
    requires -1 <= p < q < |c| && FirstAt(c, p + 1, l) == q
    ensures LinkTo(Removed(c, q), FirstAt(Removed(c, q), p + 1, l)) == LinkTo(c, FirstAt(c, q + 1, l))
  {
    var c' := Removed(c, q);
    var s := FirstAt(c, q + 1, l);
    forall m | p + 1 <= m < s - 1
      ensures c'[m].height < l
    {
      if m < q {
        assert c'[m] == c[m];
      } else {
        assert c'[m] == c[m + 1];
      }
    }
    FirstAtIs(c', p + 1, l, s - 1);
    if s < |c| {
      assert c'[s - 1] == c[s];
    }
  }

  /** p's successor comes before the removed entry: it stays. */
  lemma RemovedCloseSuccessor(c: seq<Entry>, q: nat, p: int, l: nat)
    requires -1 <= p < q < |c| && FirstAt(c, p + 1, l) < q
    ensures LinkTo(Removed(c, q), FirstAt(Removed(c, q), p + 1, l)) == LinkTo(c, FirstAt(c, p + 1, l))
  {
    var c' := Removed(c, q);
    var r := FirstAt(c, p + 1, l);
    assert c'[r] == c[r];
    FirstAtIs(c', p + 1, l, r);
  }

  /** p's successor comes after the removed entry: it stays, one position
      earlier. */
  lemma RemovedFarSuccessor(c: seq<Entry>, q: nat, p: int, l: nat)
    requires -1 <= p < q < |c| && FirstAt(c, p + 1, l) > q
    ensures LinkTo(Removed(c, q), FirstAt(Removed(c, q), p + 1, l)) == LinkTo(c, FirstAt(c, p + 1, l))
  {
    var c' := Removed(c, q);
    var r := FirstAt(c, p + 1, l);
    forall m | p + 1 <= m < r - 1
      ensures c'[m].height < l
    {
      if m < q {
        assert c'[m] == c[m];
      } else {
        assert c'[m] == c[m + 1];
      }
    }
    FirstAtIs(c', p + 1, l, r - 1);
    if r < |c| {
      assert c'[r - 1] == c[r];
    }
  }

  /** After the removed position, successors are unchanged. */
  lemma RemovedLaterSuccessor(c: seq<Entry>, q: nat, p: nat, l: nat)
    requires q < p < |c|
    ensures LinkTo(Removed(c, q), FirstAt(Removed(c, q), p, l)) == LinkTo(c, FirstAt(c, p + 1, l))
  {
    FirstAtIs(Removed(c, q), p, l, FirstAt(c, p + 1, l) - 1);
  }

  /** A pointer of the header or of a node before the removed one. */
  lemma BypassKeepsEarlierLink(before: seq<SkipNode>, after: seq<SkipNode>, c: seq<Entry>, maxLevel: nat,
                               q: nat, update: seq<nat>, upos: seq<int>, p: int, l: nat)
    requires Linked(before, c, maxLevel) && q < |c|
    requires Predecessors(c, q, c[q].height, update, upos)
    requires BypassedBelow(before, after, c[q].id, update, c[q].height + 1)
    requires -1 <= p < q && l <= HeightAt(c, p, maxLevel)
    ensures IdAt(c, p) < |after| && l < |after[IdAt(c, p)].forward|
    ensures after[IdAt(c, p)].forward[l] == LinkTo(Removed(c, q), FirstAt(Removed(c, q), p + 1, l))
  {
    ForwardAt(before, c, maxLevel, p, l);
    RemovedEarlierSuccessor(c, q, p, l);
    SuccessorIsTarget(c, q, p, l);
    if l <= c[q].height && IsPred(c, q, l, p) {
      PredUnique(c, q, l, p, upos[l]);
      ForwardAt(before, c, maxLevel, q, l);
    } else {
      if l <= c[q].height {
        IdAtInjective(before, c, maxLevel, upos[l], p);
      }
      assert after[IdAt(c, p)].forward[l] == before[IdAt(c, p)].forward[l];
    }
  }

  /** A pointer of a node after the removed one. */
  lemma BypassKeepsLaterLink(before: seq<SkipNode>, after: seq<SkipNode>, c: seq<Entry>, maxLevel: nat,
                             q: nat, update: seq<nat>, upos: seq<int>, p: nat, l: nat)
    requires Linked(before, c, maxLevel) && q < |c|
    requires Predecessors(c, q, c[q].height, update, upos)
    requires BypassedBelow(before, after, c[q].id, update, c[q].height + 1)
    requires q < p < |c| && l <= c[p].height
    ensures after[c[p].id].forward[l] == LinkTo(Removed(c, q), FirstAt(Removed(c, q), p, l))
  {
    ForwardAt(before, c, maxLevel, p, l);
    RemovedLaterSuccessor(c, q, p, l);
    if l <= c[q].height && update[l] == c[p].id {
      assert false;
    }
    assert after[c[p].id].forward[l] == before[c[p].id].forward[l];
  }

  /** Bypassing the node at chain position q at every level up to its
      height, from its predecessors, yields an arena that realises the
      chain without it. */
  lemma BypassIsRemoval(before: seq<SkipNode>, after: seq<SkipNode>, c: seq<Entry>, maxLevel: nat,
                        q: nat, update: seq<nat>, upos: seq<int>)
    requires Linked(before, c, maxLevel) && q < |c|
    requires Predecessors(c, q, c[q].height, update, upos)
    requires BypassedBelow(before, after, c[q].id, update, c[q].height + 1)
    ensures Linked(after, Removed(c, q), maxLevel)
  {
    var c' := Removed(c, q);
    forall l | 0 <= l <= maxLevel
      ensures after[0].forward[l] == LinkTo(c', FirstAt(c', 0, l))
    {
      BypassKeepsEarlierLink(before, after, c, maxLevel, q, update, upos, -1, l);
    }
    forall k, l | 0 <= k < |c'| && 0 <= l <= c'[k].height
      ensures after[c'[k].id].forward[l] == LinkTo(c', FirstAt(c', k + 1, l))
    {
      if k < q {
        BypassKeepsEarlierLink(before, after, c, maxLevel, q, update, upos, k, l);
      } else {
        BypassKeepsLaterLink(before, after, c, maxLevel, q, update, upos, k + 1, l);
      }
    }
  }

  /** At a level up to the list's height, the predecessor of position q
      points at q's node exactly when q's node takes part in that level. */
  lemma PredPointsAtTarget(nodes: seq<SkipNode>, c: seq<Entry>, maxLevel: nat,
                           q: nat, update: seq<nat>, upos: seq<int>, l: nat)
    requires Linked(nodes, c, maxLevel) && q < |c| && l <= maxLevel
    requires Predecessors(c, q, maxLevel, update, upos)
    ensures update[l] < |nodes| && l < |nodes[update[l]].forward|
    ensures update[l] != c[q].id
    ensures nodes[update[l]].forward[l] == Ptr(c[q].id) <==> l <= c[q].height
  {
    ForwardAt(nodes, c, maxLevel, upos[l], l);
    var r := FirstAt(c, upos[l] + 1, l);
    if l <= c[q].height {
      FirstAtIs(c, upos[l] + 1, l, q);
    } else if r < |c| && c[r].id == c[q].id {
      assert false;
    }
  }

  /** PredPointsAtTarget at every level up to `top`. */
  lemma PredsPointAtTarget(nodes: seq<SkipNode>, c: seq<Entry>, maxLevel: nat,
                           q: nat, update: seq<nat>, upos: seq<int>, top: nat)
    requires Linked(nodes, c, maxLevel) && q < |c| && top <= maxLevel
    requires Predecessors(c, q, maxLevel, update, upos)
    ensures forall l :: 0 <= l <= top ==>
      && update[l] < |nodes| && l < |nodes[update[l]].forward| && update[l] != c[q].id
      && (nodes[update[l]].forward[l] == Ptr(c[q].id) <==> l <= c[q].height)
  {
    forall l | 0 <= l <= top
      ensures update[l] < |nodes| && l < |nodes[update[l]].forward| && update[l] != c[q].id
      ensures nodes[update[l]].forward[l] == Ptr(c[q].id) <==> l <= c[q].height
    {
      PredPointsAtTarget(nodes, c, maxLevel, q, update, upos, l);
    }
  }

  /** The predecessors up to level h are nodes that take part in their level. */
  lemma PredecessorsInArena(nodes: seq<SkipNode>, c: seq<Entry>, maxLevel: nat,
                            q: nat, update: seq<nat>, upos: seq<int>, h: nat)
    requires Linked(nodes, c, maxLevel) && h <= maxLevel
    requires Predecessors(c, q, h, update, upos)
    ensures forall l :: 0 <= l <= h ==> update[l] < |nodes| && l < |nodes[update[l]].forward|
  {
    forall l | 0 <= l <= h
      ensures update[l] < |nodes| && l < |nodes[update[l]].forward|
    {
      ForwardAt(nodes, c, maxLevel, upos[l], l);
    }
  }

  /** One more level of a bypass. */
  lemma BypassStep(before: seq<SkipNode>, mid: seq<SkipNode>, t: nat, update: seq<nat>, i: nat)
    requires BypassedBelow(before, mid, t, update, i)
    requires i < |before[t].forward| && i < |update|
    requires update[i] < |before| && i < |before[update[i]].forward|
    requires forall l :: 0 <= l <= i ==> update[l] != t
    ensures var pred := update[i];
      BypassedBelow(before, mid[pred := mid[pred].(forward := mid[pred].forward[i := mid[t].forward[i]])], t, update, i + 1)
  {
  }

  /** The level-0 successor of q's predecessor is q itself. */
  lemma BottomSuccessor(c: seq<Entry>, q: nat, u: int)
    requires IsPred(c, q, 0, u)
    ensures FirstAt(c, u + 1, 0) == q
  {
    FirstAtIs(c, u + 1, 0, q);
  }

  /** After a descent for key, the level-0 pointer of the last
      predecessor leads to a node of that key exactly when key is stored,
      and then to the node at chain position Rank. */
  lemma BottomTarget(nodes: seq<SkipNode>, c: seq<Entry>, maxLevel: nat, key: int, update: seq<nat>, upos: seq<int>)
    requires Linked(nodes, c, maxLevel) && Sorted(KeysOf(c))
    requires Predecessors(c, Rank(KeysOf(c), key), maxLevel, update, upos)
    ensures update[0] < |nodes| && 0 < |nodes[update[0]].forward|
    ensures var t := nodes[update[0]].forward[0];
      && (t.Ptr? ==> t.id < |nodes|)
      && (key in KeysOf(c) <==> t.Ptr? && nodes[t.id].key == key)
    ensures key in KeysOf(c) ==> var q := Rank(KeysOf(c), key);
      q < |c| && nodes[update[0]].forward[0] == Ptr(c[q].id)
  {
    var q := Rank(KeysOf(c), key);
    RankOfSorted(KeysOf(c), key);
    ForwardAt(nodes, c, maxLevel, upos[0], 0);
    BottomSuccessor(c, q, upos[0]);
  }

  /* ---------------------------------------------------------------------
   * Keys, order and level bound under insertion and removal
   * ------------------------------------------------------------------- */

  lemma KeysOfInserted(c: seq<Entry>, q: nat, e: Entry)
    requires q <= |c|
    ensures KeysOf(Inserted(c, q, e)) == KeysOf(c)[..q] + [e.key] + KeysOf(c)[q..]
  {
    var ks := KeysOf(c);
    var t := ks[..q] + [e.key] + ks[q..];
    var c' := Inserted(c, q, e);
    forall m | 0 <= m < |t|
      ensures KeysOf(c')[m] == t[m]
    {
      if m < q {
        assert t[m] == ks[m];
      } else if m > q {
        assert t[m] == ks[m - 1];
      }
    }
  }

  lemma KeysOfRemoved(c: seq<Entry>, q: nat)
    requires q < |c|
    ensures KeysOf(Removed(c, q)) == KeysOf(c)[..q] + KeysOf(c)[q + 1..]
  {
  }

  /** Inserting a key at its rank keeps a sorted sequence sorted and adds
      exactly that key. */
  lemma InsertAtRankKeepsOrder(s: seq<int>, key: int)
    requires Sorted(s)
    ensures var q := Rank(s, key);
      && Sorted(s[..q] + [key] + s[q..])
      && multiset(s[..q] + [key] + s[q..]) == multiset(s) + multiset{key}
  {
    var q := Rank(s, key);
    RankOfSorted(s, key);
    InsertKeepsSorted(s, q, key);
    InsertAddsOne(s, q, key);
  }

  /** Putting key at any position adds one occurrence of it. */
  lemma InsertAddsOne(s: seq<int>, q: nat, key: int)
    requires q <= |s|
    ensures multiset(s[..q] + [key] + s[q..]) == multiset(s) + multiset{key}
  {
    assert s == s[..q] + s[q..];
  }

  /** A key no smaller than the keys before position q and no larger than
      those from q on can be put at q without breaking the order. */
  lemma InsertKeepsSorted(s: seq<int>, q: nat, key: int)
    requires Sorted(s) && q <= |s|
    requires forall m :: 0 <= m < q ==> s[m] < key
    requires forall m :: q <= m < |s| ==> s[m] >= key
    ensures Sorted(s[..q] + [key] + s[q..])
  {
    var t := s[..q] + [key] + s[q..];
    forall i, j | 0 <= i < j < |t|
      ensures t[i] <= t[j]
    {
      var a := if i < q then s[i] else if i == q then key else s[i - 1];
      var b := if j < q then s[j] else if j == q then key else s[j - 1];
      assert t[i] == a && t[j] == b;
    }
  }

  /** Removing a position keeps a sorted sequence sorted and removes
      exactly that position's key. */
  lemma RemoveKeepsOrder(s: seq<int>, q: nat)
    requires Sorted(s) && q < |s|
    ensures Sorted(s[..q] + s[q + 1..])
    ensures multiset(s[..q] + s[q + 1..]) == multiset(s) - multiset{s[q]}
  {
    var t := s[..q] + s[q + 1..];
    forall i, j | 0 <= i < j < |t|
      ensures t[i] <= t[j]
    {
      assert t[i] == (if i < q then s[i] else s[i + 1]);
      assert t[j] == (if j < q then s[j] else s[j + 1]);
    }
    assert s == s[..q] + [s[q]] + s[q + 1..];
  }

  /** A node of height h inserted anywhere leaves the level bound met once
      the level is raised to h when h exceeds it. */
  lemma InsertKeepsLevel(c: seq<Entry>, level: nat, maxLevel: nat, q: nat, e: Entry)
    requires LevelOk(c, level, maxLevel) && q <= |c| && e.height <= maxLevel
    ensures LevelOk(Inserted(c, q, e), if e.height > level then e.height else level, maxLevel)
  {
    var c' := Inserted(c, q, e);
    if e.height > level {
      assert c'[q].height >= e.height;
    } else if level > 0 {
      var r := FirstAt(c, 0, level);
      var r' := if r < q then r else r + 1;
      assert c'[r'].height >= level;
    }
  }

  /** While the header has no successor at the top level, no node reaches
      that level. */
  lemma EmptyTopLevel(nodes: seq<SkipNode>, c: seq<Entry>, maxLevel: nat, level: nat)
    requires Linked(nodes, c, maxLevel) && 0 < level <= maxLevel
    requires nodes[0].forward[level] == Nil
    ensures forall k :: 0 <= k < |c| ==> c[k].height < level
  {
    ForwardAt(nodes, c, maxLevel, -1, level);
  }

  /* ---------------------------------------------------------------------
   * Walking a level
   * ------------------------------------------------------------------- */

  /** The nodes met by following level-l pointers from node x, for at most
      `fuel` steps. */
  function Walk(nodes: seq<SkipNode>, x: nat, l: nat, fuel: nat): seq<nat>
    decreases fuel
  {
    if fuel == 0 || x >= |nodes| || l >= |nodes[x].forward| then []
    else match nodes[x].forward[l]
      case Nil => []
      case Ptr(y) => [y] + Walk(nodes, y, l, fuel - 1)
  }

  /** The nodes at chain positions from on whose height reaches l, in
      chain order. */
  function LevelIds(c: seq<Entry>, l: nat, from: nat): seq<nat>
    requires from <= |c|
    decreases |c| - from
  {
    if from == |c| then []
    else (if c[from].height >= l then [c[from].id] else []) + LevelIds(c, l, from + 1)
  }

  lemma {:induction false} LevelIdsSkip(c: seq<Entry>, l: nat, from: nat, r: nat)
    requires from <= r <= |c|
    requires forall m :: from <= m < r ==> c[m].height < l
    ensures LevelIds(c, l, from) == LevelIds(c, l, r)
    decreases r - from
  {
    if from < r {
      assert LevelIds(c, l, from) == LevelIds(c, l, from + 1);
      LevelIdsSkip(c, l, from + 1, r);
    }
  }

  /** Following the level-l pointers from the header, or from a node on
      level l, visits exactly the later nodes of height at least l, in
      chain order, and then stops. */
  lemma {:induction false} WalkIsLevel(nodes: seq<SkipNode>, c: seq<Entry>, maxLevel: nat, l: nat, p: int, fuel: nat)
    requires Linked(nodes, c, maxLevel)
    requires -1 <= p < |c| && l <= HeightAt(c, p, maxLevel)
    requires fuel >= |c| - (p + 1)
    ensures Walk(nodes, IdAt(c, p), l, fuel) == LevelIds(c, l, p + 1)
    decreases |c| - p
  {
    ForwardAt(nodes, c, maxLevel, p, l);
    var r := FirstAt(c, p + 1, l);
    LevelIdsSkip(c, l, p + 1, r);
    if r < |c| {
      WalkIsLevel(nodes, c, maxLevel, l, r, fuel - 1);
    }
  }

  lemma {:induction false} LevelZeroIds(c: seq<Entry>, from: nat)
    requires from <= |c|
    ensures |LevelIds(c, 0, from)| == |c| - from
    ensures forall k :: 0 <= k < |c| - from ==> LevelIds(c, 0, from)[k] == c[from + k].id
    decreases |c| - from
  {
    if from < |c| {
      LevelZeroIds(c, from + 1);
    }
  }

  /** a is a subsequence of b. */
  predicate Subseq(a: seq<nat>, b: seq<nat>)
    decreases |b|
  {
    if a == [] then true
    else if b == [] then false
    else (a[0] == b[0] && Subseq(a[1..], b[1..])) || Subseq(a, b[1..])
  }

  /** Each level is a subsequence of the level below it. */
  lemma {:induction false} LevelsNest(c: seq<Entry>, l: nat, from: nat)
    requires from <= |c|
    ensures Subseq(LevelIds(c, l + 1, from), LevelIds(c, l, from))
    decreases |c| - from
  {
    if from < |c| {
      LevelsNest(c, l, from + 1);
      var a, b := LevelIds(c, l + 1, from + 1), LevelIds(c, l, from + 1);
      var x := c[from].id;
      if c[from].height >= l + 1 {
        assert ([x] + a)[1..] == a && ([x] + b)[1..] == b;
      } else if c[from].height == l {
        assert LevelIds(c, l + 1, from) == a;
        assert LevelIds(c, l, from) == [x] + b && ([x] + b)[1..] == b;
      } else {
        assert LevelIds(c, l + 1, from) == a && LevelIds(c, l, from) == b;
      }
    }
  }

  /** A node is on level l exactly when its height reaches l. */
  lemma {:induction false} LevelMembership(c: seq<Entry>, l: nat, from: nat, x: nat)
    requires from <= |c|
    ensures x in LevelIds(c, l, from) <==> exists k :: from <= k < |c| && c[k].id == x && c[k].height >= l
    decreases |c| - from
  {
    if from < |c| {
      LevelMembership(c, l, from + 1, x);
      var head := if c[from].height >= l then [c[from].id] else [];
      var rest := LevelIds(c, l, from + 1);
      assert LevelIds(c, l, from) == head + rest;
      assert x in head + rest <==> x in head || x in rest;
      if exists k :: from <= k < |c| && c[k].id == x && c[k].height >= l {
        var k :| from <= k < |c| && c[k].id == x && c[k].height >= l;
        if k == from {
          assert x in head;
        } else {
          assert x in rest;
        }
      }
    }
  }

  /* ---------------------------------------------------------------------
   * Insertion and removal, whole
   * ------------------------------------------------------------------- */

  /** The arena realises the chain, whose keys are sorted, the level bound
      holds, and the size is the chain's length. */
  ghost predicate Consistent(nodes: seq<SkipNode>, c: seq<Entry>, level: nat, maxLevel: nat, size: nat)
  {
    && Linked(nodes, c, maxLevel)
    && Sorted(KeysOf(c))
    && LevelOk(c, level, maxLevel)
    && size == |c|
  }

  /** In a consistent list, walking level 0 from the header, with any step
      budget of at least `size`, meets exactly `size` nodes, whose keys are
      the stored keys in non-decreasing order. */
  lemma BottomWalk(nodes: seq<SkipNode>, c: seq<Entry>, level: nat, maxLevel: nat, size: nat, fuel: nat)
    requires Consistent(nodes, c, level, maxLevel, size) && fuel >= size
    ensures var w := Walk(nodes, 0, 0, fuel);
      && |w| == size
      && (forall k :: 0 <= k < |w| ==> w[k] < |nodes| && nodes[w[k]].key == KeysOf(c)[k])
      && (forall i, j :: 0 <= i < j < |w| ==> nodes[w[i]].key <= nodes[w[j]].key)
  {
    var w := Walk(nodes, 0, 0, fuel);
    WalkIsLevel(nodes, c, maxLevel, 0, -1, fuel);
    LevelZeroIds(c, 0);
    assert w == LevelIds(c, 0, 0);
    var ks := KeysOf(c);
    forall k | 0 <= k < |w|
      ensures w[k] < |nodes| && nodes[w[k]].key == ks[k]
    {
      assert w[k] == c[k].id;
    }
    forall i, j | 0 <= i < j < |w|
      ensures nodes[w[i]].key <= nodes[w[j]].key
    {
      assert nodes[w[i]].key == ks[i] && nodes[w[j]].key == ks[j];
    }
  }

  /** Walked from the header, each level below maxLevel is a subsequence
      of the level below it. */
  lemma LevelWalks(nodes: seq<SkipNode>, c: seq<Entry>, maxLevel: nat, l: nat, fuel: nat)
    requires Linked(nodes, c, maxLevel) && l < maxLevel && fuel >= |c|
    ensures Subseq(Walk(nodes, 0, l + 1, fuel), Walk(nodes, 0, l, fuel))
  {
    WalkIsLevel(nodes, c, maxLevel, l, -1, fuel);
    WalkIsLevel(nodes, c, maxLevel, l + 1, -1, fuel);
    LevelsNest(c, l, 0);
  }

  /** Walked from the header, every level up to maxLevel holds exactly the
      nodes whose height reaches it. */
  lemma LevelHolds(nodes: seq<SkipNode>, c: seq<Entry>, maxLevel: nat, l: nat, fuel: nat)
    requires Linked(nodes, c, maxLevel) && l <= maxLevel && fuel >= |c|
    ensures forall x :: x in Walk(nodes, 0, l, fuel) <==>
      exists k :: 0 <= k < |c| && c[k].id == x && c[k].height >= l
  {
    WalkIsLevel(nodes, c, maxLevel, l, -1, fuel);
    forall x
      ensures x in LevelIds(c, l, 0) <==> exists k :: 0 <= k < |c| && c[k].id == x && c[k].height >= l
    {
      LevelMembership(c, l, 0, x);
    }
  }

  /** Unless the level is 0, the header has a successor at the top level. */
  lemma TopLevelOccupied(nodes: seq<SkipNode>, c: seq<Entry>, level: nat, maxLevel: nat, size: nat)
    requires Consistent(nodes, c, level, maxLevel, size)
    ensures level <= maxLevel
    ensures level == 0 || nodes[0].forward[level] != Nil
  {
    if level > 0 {
      ForwardAt(nodes, c, maxLevel, -1, level);
    }
  }

  /** Splicing a node of height h in behind the predecessors of the key's
      rank inserts its key there, keeps the keys sorted, and keeps the list
      consistent once the level is raised to h. */
  lemma InsertionKeepsConsistent(before: seq<SkipNode>, after: seq<SkipNode>, c: seq<Entry>, level: nat, level': nat,
                                 maxLevel: nat, size: nat, q: nat, e: Entry, update: seq<nat>, upos: seq<int>)
    requires Consistent(before, c, level, maxLevel, size) && e.height <= maxLevel
    requires q == Rank(KeysOf(c), e.key) && level' == if e.height > level then e.height else level
    requires Predecessors(c, q, e.height, update, upos)
    requires SplicedBelow(before, after, e.id, e.key, e.height, update, e.height + 1)
    ensures Consistent(after, Inserted(c, q, e), level', maxLevel, size + 1)
    ensures KeysOf(Inserted(c, q, e)) == KeysOf(c)[..q] + [e.key] + KeysOf(c)[q..]
    ensures multiset(KeysOf(Inserted(c, q, e))) == multiset(KeysOf(c)) + multiset{e.key}
  {
    SpliceIsInsertion(before, after, c, maxLevel, q, e, update, upos);
    InsertKeepsLevel(c, level, maxLevel, q, e);
    KeysOfInserted(c, q, e);
    InsertAtRankKeepsOrder(KeysOf(c), e.key);
  }

  /** Bypassing the node at chain position q from its predecessors removes
      its key from there and keeps the keys sorted and the arena realising
      the shorter chain. */
  lemma RemovalKeepsOrder(before: seq<SkipNode>, after: seq<SkipNode>, c: seq<Entry>, level: nat,
                          maxLevel: nat, size: nat, q: nat, update: seq<nat>, upos: seq<int>)
    requires Consistent(before, c, level, maxLevel, size) && q < |c|
    requires Predecessors(c, q, c[q].height, update, upos)
    requires BypassedBelow(before, after, c[q].id, update, c[q].height + 1)
    ensures Linked(after, Removed(c, q), maxLevel) && Sorted(KeysOf(Removed(c, q)))
    ensures forall k :: 0 <= k < |Removed(c, q)| ==> Removed(c, q)[k].height <= level
    ensures KeysOf(Removed(c, q)) == KeysOf(c)[..q] + KeysOf(c)[q + 1..]
    ensures multiset(KeysOf(Removed(c, q))) == multiset(KeysOf(c)) - multiset{c[q].key}
  {
    BypassIsRemoval(before, after, c, maxLevel, q, update, upos);
    RemoveKeepsOrder(KeysOf(c), q);
    KeysOfRemoved(c, q);
  }

  /* ---------------------------------------------------------------------
   * The skip list
   * ------------------------------------------------------------------- */

  class SkipList {
    const maxLevel: nat
    /** The highest level in use. */
    var level: nat
    var size: nat
    /** The node arena; nodes[0] is the header. */
    var nodes: seq<SkipNode>
    ghost var Chain: seq<Entry>

    ghost predicate Valid()
      reads this
    {
      Consistent(nodes, Chain, level, maxLevel, size)
    }

    /** The stored keys in level-0 order (repetitions included). */
    ghost function Keys(): seq<int>
      reads this
    {
      KeysOf(Chain)
    }

    /** An empty list whose header has a pointer at each of the levels
        0..maxLevel. */
    constructor(maxLevel: nat)
      ensures Valid() && this.maxLevel == maxLevel
      ensures Keys() == [] && level == 0 && size == 0
    {
      this.maxLevel := maxLevel;
      level := 0;
      size := 0;
      nodes := [SkipNode(0, seq(maxLevel + 1, _ => Nil))];
      Chain := [];
    }

    /** The height of a new node: one more level for every successful
        trial in a row, up to maxLevel.  draws[j] is the outcome of the
        (j+1)-th trial; draws that run out count as a failure. */
    method RandomLevel(draws: seq<bool>) returns (lvl: nat)
      ensures lvl <= maxLevel
      ensures forall j :: 0 <= j < lvl ==> j < |draws| && draws[j]
      ensures lvl < maxLevel && lvl < |draws| ==> !draws[lvl]
      ensures lvl == TrialHeight(draws, maxLevel)
    {
      lvl := 0;
      while lvl < |draws| && draws[lvl] && lvl < maxLevel
        invariant lvl <= maxLevel && lvl <= |draws|
        invariant forall j :: 0 <= j < lvl ==> draws[j]
        invariant TrialHeight(draws, maxLevel) == lvl + TrialHeight(draws[lvl..], maxLevel - lvl)
      {
        assert draws[lvl..][1..] == draws[lvl + 1..];
        lvl := lvl + 1;
      }
    }

    /** One level of the descent: move right along level i while the next
        node's key is below key.  It stops at the level-i predecessor of
        the key's rank. */
    method Advance(key: int, i: nat, current: nat, ghost cpos: int) returns (next: nat, ghost npos: int)
      requires Valid() && i <= maxLevel
      requires -1 <= cpos < Rank(Keys(), key) && current == IdAt(Chain, cpos) && i <= HeightAt(Chain, cpos, maxLevel)
      requires forall m :: cpos < m < Rank(Keys(), key) ==> Chain[m].height <= i
      ensures IsPred(Chain, Rank(Keys(), key), i, npos) && next == IdAt(Chain, npos)
    {
      ghost var q := Rank(Keys(), key);
      RankOfSorted(Keys(), key);
      next, npos := current, cpos;
      ForwardAt(nodes, Chain, maxLevel, npos, i);
      while nodes[next].forward[i] != Nil && nodes[nodes[next].forward[i].id].key < key
        invariant -1 <= npos < q && next == IdAt(Chain, npos) && i <= HeightAt(Chain, npos, maxLevel)
        invariant forall m :: npos < m < q ==> Chain[m].height <= i
        invariant next < |nodes| && i < |nodes[next].forward|
        invariant nodes[next].forward[i] == LinkTo(Chain, FirstAt(Chain, npos + 1, i))
        decreases |Chain| - npos
      {
        npos := FirstAt(Chain, npos + 1, i);
        next := nodes[next].forward[i].id;
        ForwardAt(nodes, Chain, maxLevel, npos, i);
      }
    }

    /** The top-down descent shared by insertion and deletion: at every
        level, the last node whose successor's key is not below `key`. */
    method FindPredecessors(key: int) returns (update: seq<nat>, ghost upos: seq<int>)
      requires Valid()
      ensures Predecessors(Chain, Rank(Keys(), key), maxLevel, update, upos)
    {
      ghost var q := Rank(Keys(), key);
      RankOfSorted(Keys(), key);
      update := seq(maxLevel + 1, _ => 0);
      upos := seq(maxLevel + 1, _ => -1);
      var current := 0;
      ghost var cpos: int := -1;
      var i: int := level;
      while i >= 0
        invariant -1 <= i <= level
        invariant |update| == maxLevel + 1 && |upos| == maxLevel + 1
        invariant -1 <= cpos < q && current == IdAt(Chain, cpos) && i <= HeightAt(Chain, cpos, maxLevel)
        invariant forall m :: cpos < m < q ==> Chain[m].height <= i
        invariant forall l :: i < l <= maxLevel ==> IsPred(Chain, q, l, upos[l]) && update[l] == IdAt(Chain, upos[l])
      {
        current, cpos := Advance(key, i, current, cpos);
        update := update[i := current];
        upos := upos[i := cpos];
        i := i - 1;
      }
    }

    /** Whether key is stored. */
    method Search(key: int) returns (found: bool)
      requires Valid()
      ensures found == (key in Keys())
    {
      ghost var q := Rank(Keys(), key);
      RankOfSorted(Keys(), key);
      var current := 0;
      ghost var cpos: int := -1;
      var i: int := level;
      while i >= 0
        invariant -1 <= i <= level
        invariant -1 <= cpos < q && current == IdAt(Chain, cpos) && i <= HeightAt(Chain, cpos, maxLevel)
        invariant forall m :: cpos < m < q ==> Chain[m].height <= i
      {
        current, cpos := Advance(key, i, current, cpos);
        i := i - 1;
      }
      ForwardAt(nodes, Chain, maxLevel, cpos, 0);
      BottomSuccessor(Chain, q, cpos);
      var next := nodes[current].forward[0];
      found := next != Nil && nodes[next.id].key == key;
    }
  
    /** Appends a node of key `key` and height h to the arena and links it
        in after update[l] at each level l up to h. */
    method SpliceNode(key: int, h: nat, update: seq<nat>) returns (id: nat)
      requires |update| > h
      requires forall l :: 0 <= l <= h ==> update[l] < |nodes| && l < |nodes[update[l]].forward|
      modifies this
      ensures SplicedBelow(old(nodes), nodes, id, key, h, update, h + 1)
      ensures Chain == old(Chain) && level == old(level) && size == old(size)
    {
      ghost var before := nodes;
      id := |nodes|;
      nodes := nodes + [SkipNode(key, seq(h + 1, _ => Nil))];
      for l := 0 to h + 1
        invariant SplicedBelow(before, nodes, id, key, h, update, l)
        invariant Chain == old(Chain) && level == old(level) && size == old(size)
      {
        var pred := update[l];
        nodes := nodes[id := nodes[id].(forward := nodes[id].forward[l := nodes[pred].forward[l]])];
        nodes := nodes[pred := nodes[pred].(forward := nodes[pred].forward[l := Ptr(id)])];
      }
    }

    /** Splices a node of key `key` and height h in behind its
        predecessors update[0..h] and records it at chain position q,
        the rank of key; the level has already been raised to cover h. */
    method Link(key: int, h: nat, update: seq<nat>, ghost q: nat, ghost upos: seq<int>, ghost oldLevel: nat)
      requires Consistent(nodes, Chain, oldLevel, maxLevel, size) && h <= maxLevel
      requires level == if h > oldLevel then h else oldLevel
      requires q == Rank(Keys(), key) && Predecessors(Chain, q, h, update, upos)
      modifies this
      ensures Valid() && level == old(level) && size == old(size) + 1
      ensures q < |Chain| && Chain[q].key == key && Chain[q].height == h
      ensures Chain == Inserted(old(Chain), q, Chain[q])
      ensures Keys() == old(Keys())[..q] + [key] + old(Keys())[q..]
      ensures multiset(Keys()) == multiset(old(Keys())) + multiset{key}
    {
      PredecessorsInArena(nodes, Chain, maxLevel, q, update, upos, h);
      ghost var before := nodes;
      var id := SpliceNode(key, h, update);
      ghost var e := Entry(id, key, h);
      InsertionKeepsConsistent(before, nodes, Chain, oldLevel, level, maxLevel, size, q, e, update, upos);
      Chain := Inserted(Chain, q, e);
      size := size + 1;
    }

    /** Adds key, in front of any equal keys, as a node whose height the
        trials in draws decide. */
    method Insert(key: int, draws: seq<bool>)
      requires Valid()
      modifies this
      ensures Valid()
      ensures var q := Rank(old(Keys()), key);
        Keys() == old(Keys())[..q] + [key] + old(Keys())[q..]
      ensures multiset(Keys()) == multiset(old(Keys())) + multiset{key}
      ensures size == old(size) + 1
      ensures old(level) <= level <= maxLevel
      ensures var q, h := Rank(old(Keys()), key), TrialHeight(draws, maxLevel);
        && q < |Chain| && Chain[q].key == key && Chain[q].height == h
        && Chain == Inserted(old(Chain), q, Chain[q])
        && level == if h > old(level) then h else old(level)
    {
      ghost var q := Rank(Keys(), key);
      var update: seq<nat>;
      ghost var upos: seq<int>;
      update, upos := FindPredecessors(key);
      var newLevel := RandomLevel(draws);
      ghost var oldLevel := level;
      if newLevel > level {
        for l := level + 1 to newLevel + 1
          invariant Predecessors(Chain, q, maxLevel, update, upos)
        {
          update := update[l := 0];
        }
        level := newLevel;
      }
      Link(key, newLevel, update, q, upos, oldLevel);
    }

    /** Unlinks node t, of height h, from its predecessors update[l] level
        by level, starting at level 0 and stopping at the first level whose
        predecessor does not point at it. */
    method BypassNode(t: nat, ghost h: nat, update: seq<nat>)
      requires h <= level < |update|
      requires t < |nodes| && |nodes[t].forward| == h + 1
      requires forall l :: 0 <= l <= level ==>
        && update[l] < |nodes| && l < |nodes[update[l]].forward| && update[l] != t
        && (nodes[update[l]].forward[l] == Ptr(t) <==> l <= h)
      modifies this
      ensures Chain == old(Chain) && level == old(level) && size == old(size)
      ensures BypassedBelow(old(nodes), nodes, t, update, h + 1)
    {
      ghost var before := nodes;
      var i := 0;
      while i <= level
        invariant Chain == old(Chain) && level == old(level) && size == old(size)
        invariant i <= h + 1
        invariant BypassedBelow(before, nodes, t, update, i)
      {
        assert nodes[update[i]].forward[i] == before[update[i]].forward[i];
        if nodes[update[i]].forward[i] != Ptr(t) {
          break;
        }
        ghost var mid := nodes;
        var pred := update[i];
        nodes := nodes[pred := nodes[pred].(forward := nodes[pred].forward[i := nodes[t].forward[i]])];
        BypassStep(before, mid, t, update, i);
        i := i + 1;
      }
    }

    /** Lowers the level while the header has no successor at it. */
    method LowerLevel()
      requires Linked(nodes, Chain, maxLevel) && level <= maxLevel
      requires forall k :: 0 <= k < |Chain| ==> Chain[k].height <= level
      modifies this
      ensures LevelOk(Chain, level, maxLevel) && level <= old(level)
      ensures nodes == old(nodes) && Chain == old(Chain) && size == old(size)
    {
      while level > 0 && nodes[0].forward[level] == Nil
        invariant nodes == old(nodes) && Chain == old(Chain) && size == old(size)
        invariant level <= old(level) && forall k :: 0 <= k < |Chain| ==> Chain[k].height <= level
      {
        EmptyTopLevel(nodes, Chain, maxLevel, level);
        level := level - 1;
      }
    }

    /** Takes the node at chain position q out of every level it is on,
        given its predecessors; the level is left as it was. */
    method Detach(t: nat, update: seq<nat>, ghost q: nat, ghost upos: seq<int>)
      requires Valid() && q < |Chain| && t == Chain[q].id
      requires Predecessors(Chain, q, maxLevel, update, upos)
      modifies this
      ensures Linked(nodes, Chain, maxLevel) && Sorted(Keys()) && level == old(level) && level <= maxLevel
      ensures forall k :: 0 <= k < |Chain| ==> Chain[k].height <= level
      ensures Chain == Removed(old(Chain), q) && size == old(size) - 1
      ensures Keys() == old(Keys())[..q] + old(Keys())[q + 1..]
      ensures multiset(Keys()) == multiset(old(Keys())) - multiset{old(Chain)[q].key}
    {
      PredsPointAtTarget(nodes, Chain, maxLevel, q, update, upos, level);
      ghost var before := nodes;
      BypassNode(t, Chain[q].height, update);
      RemovalKeepsOrder(before, nodes, Chain, level, maxLevel, size, q, update, upos);
      Chain := Removed(Chain, q);
      size := size - 1;
    }

    /** Takes the node at chain position q out of every level it is on and
        lowers the level as far as possible. */
    method Unlink(t: nat, update: seq<nat>, ghost q: nat, ghost upos: seq<int>)
      requires Valid() && q < |Chain| && t == Chain[q].id
      requires Predecessors(Chain, q, maxLevel, update, upos)
      modifies this
      ensures Valid()
      ensures Chain == Removed(old(Chain), q) && size == old(size) - 1 && level <= old(level)
      ensures Keys() == old(Keys())[..q] + old(Keys())[q + 1..]
      ensures multiset(Keys()) == multiset(old(Keys())) - multiset{old(Chain)[q].key}
    {
      Detach(t, update, q, upos);
      LowerLevel();
    }

    /** Removes the first occurrence of key, if any, and reports whether
        there was one; then lowers the level past levels left empty. */
    method Delete(key: int) returns (deleted: bool)
      requires Valid()
      modifies this
      ensures Valid()
      ensures deleted == (key in old(Keys()))
      ensures !deleted ==> nodes == old(nodes) && Chain == old(Chain) && level == old(level) && size == old(size)
      ensures deleted ==> var q := Rank(old(Keys()), key);
        && q < |old(Chain)| && Chain == Removed(old(Chain), q)
        && Keys() == old(Keys())[..q] + old(Keys())[q + 1..]
      ensures multiset(Keys()) == multiset(old(Keys())) - multiset{key}
      ensures deleted ==> size == old(size) - 1
      ensures level <= old(level)
    {
      ghost var q := Rank(Keys(), key);
      var update: seq<nat>;
      ghost var upos: seq<int>;
      update, upos := FindPredecessors(key);
      BottomTarget(nodes, Chain, maxLevel, key, update, upos);
      var target := nodes[update[0]].forward[0];
      if target == Nil || nodes[target.id].key != key {
        assert multiset(Keys()) - multiset{key} == multiset(Keys());
        return false;
      }
      ghost var removed := Chain[q].key;
      assert removed == key;
      Unlink(target.id, update, q, upos);
      assert multiset(Keys()) == multiset(old(Keys())) - multiset{removed};
      return true;
    }
  }
  /** A fresh list is empty; a first insertion stores its key. */
  method FirstInsertExample()
  {
    var s := new SkipList(4);
    assert s.Keys() == [];
    s.Insert(3, [true, true]);
    assert s.Keys() == [3] && s.size == 1 && s.level == 2;
  }

  /** A smaller key goes in front. */
  method InsertSmallerExample(s: SkipList)
    requires s.Valid() && s.Keys() == [3]
    modifies s
  {
    s.Insert(1, []);
    assert s.Keys() == [1, 3];
  }

  /** A repeated key is kept: equal keys sit side by side. */
  method InsertRepeatedExample(s: SkipList)
    requires s.Valid() && s.Keys() == [1, 3]
    modifies s
  {
    s.Insert(3, [false]);
    assert Rank([1, 3], 3) == 1 by {
      assert [1, 3][1..] == [3];
    }
    assert s.Keys() == [1, 3, 3];
  }

  /** Deleting a repeated key removes one occurrence only. */
  method DeleteRepeatedExample(s: SkipList)
    requires s.Valid() && s.Keys() == [1, 3, 3]
    modifies s
  {
    var found := s.Search(3);
    assert found;
    var deleted := s.Delete(3);
    assert Rank([1, 3, 3], 3) == 1 by {
      assert [1, 3, 3][1..] == [3, 3];
    }
    assert deleted && s.Keys() == [1, 3];
  }

  /** Deleting the only tall node lowers the level back to 0: the short
      node left behind keeps its height. */
  method DeleteLowersLevelExample(s: SkipList)
    requires s.Valid() && s.Keys() == [1, 3]
    requires s.Chain[0].height == 0 && s.Chain[1].height == 2
    modifies s
  {
    var deleted := s.Delete(3);
    assert Rank([1, 3], 3) == 1 by {
      assert [1, 3][1..] == [3];
    }
    assert deleted && s.Keys() == [1] && s.level == 0;
  }

  /** A stored key is found; deleting its last occurrence makes it
      unfindable; deleting an absent key reports false and changes
      nothing. */
  method DeleteLastExample(s: SkipList)
    requires s.Valid() && s.Keys() == [1, 3]
    modifies s
  {
    var found := s.Search(3);
    assert found;
    var deleted := s.Delete(3);
    assert Rank([1, 3], 3) == 1 by {
      assert [1, 3][1..] == [3];
    }
    assert deleted && s.Keys() == [1];
    found := s.Search(3);
    assert !found;
    deleted := s.Delete(7);
    assert !deleted && s.size == 1 && s.Keys() == [1];
  }
}
