/**
 * A character-keyed prefix tree with a count of stored words.
 *
 * Nodes live in an arena `nodes`, addressed by position; `nodes[0]` is the
 * root.  Each node maps characters to the positions of its children and
 * carries an end-of-word flag.  Nodes are created on first use and never
 * removed: deleting a word only clears its flag.
 *
 * The ghost map `Loc` sends every path spelled from the root to the node
 * it reaches; its keys are the paths that exist.  The ghost set `Stored`
 * holds the stored words: the paths whose node is flagged.
 */
module Tries {

  datatype TrieNode = TrieNode(children: map<char, nat>, isEnd: bool)

  /** The node arena and the path map agree: the root is the empty path,
      distinct paths reach distinct nodes, every child edge extends a path
      by its character, and every non-empty path is reached through an edge
      from the path one character shorter. */
  ghost predicate WellFormed(nodes: seq<TrieNode>, loc: map<string, nat>, spelling: seq<string>)
  {
    && |nodes| > 0
    && "" in loc && loc[""] == 0
    && |spelling| == |nodes|
    && (forall p :: p in loc ==> loc[p] < |nodes| && spelling[loc[p]] == p)
    && (forall p, c {:trigger c in nodes[loc[p]].children} :: p in loc && loc[p] < |nodes| && c in nodes[loc[p]].children ==>
          p + [c] in loc && nodes[loc[p]].children[c] == loc[p + [c]])
    && (forall p, c {:trigger p + [c] in loc} :: p + [c] in loc ==>
          p in loc && loc[p] < |nodes| && c in nodes[loc[p]].children)
  }

  /** p is a stored word: a path whose node is flagged as a word end. */
  ghost predicate IsWord(nodes: seq<TrieNode>, loc: map<string, nat>, p: string)
  {
    p in loc && loc[p] < |nodes| && nodes[loc[p]].isEnd
  }

  /** The existing paths that extend p. */
  ghost function Below(loc: map<string, nat>, p: string): set<string>
  {
    set q | q in loc && p <= q
  }

  predicate Distinct(s: seq<string>)
  {
    forall i, j :: 0 <= i < j < |s| ==> s[i] != s[j]
  }

  /** The paths are closed under taking prefixes. */
  lemma {:induction false} PathsArePrefixClosed(nodes: seq<TrieNode>, loc: map<string, nat>, spelling: seq<string>, p: string, k: nat)
    requires WellFormed(nodes, loc, spelling)
    requires p in loc && k <= |p|
    ensures p[..k] in loc
    decreases |p|
  {
    if k < |p| {
      var parent := p[..|p| - 1];
      assert parent + [p[|p| - 1]] == p;
      PathsArePrefixClosed(nodes, loc, spelling, parent, k);
      assert parent[..k] == p[..k];
    } else {
      assert p[..k] == p;
    }
  }

  /** Every prefix of a stored word is a path, so a prefix test succeeds on
      it whether or not the prefix is itself flagged. */
  lemma StoredWordPrefixesArePaths(nodes: seq<TrieNode>, loc: map<string, nat>, spelling: seq<string>, w: string, k: nat)
    requires WellFormed(nodes, loc, spelling)
    requires IsWord(nodes, loc, w) && k <= |w|
    ensures w[..k] in loc
  {
    PathsArePrefixClosed(nodes, loc, spelling, w, k);
  }

  /** A path and the next character of a longer path lead to the child on
      that character. */
  lemma {:induction false} PathStep(nodes: seq<TrieNode>, loc: map<string, nat>, spelling: seq<string>, w: string, i: nat)
    requires WellFormed(nodes, loc, spelling)
    requires i < |w| && w[..i] in loc
    ensures w[i] in nodes[loc[w[..i]]].children <==> w[..i + 1] in loc
    ensures w[i] in nodes[loc[w[..i]]].children ==>
              nodes[loc[w[..i]]].children[w[i]] == loc[w[..i + 1]]
  {
    assert w[..i] + [w[i]] == w[..i + 1];
  }

  /** A missing edge on the walk of w means w is not a path. */
  lemma MissingStepMeansAbsent(nodes: seq<TrieNode>, loc: map<string, nat>, spelling: seq<string>, w: string, i: nat)
    requires WellFormed(nodes, loc, spelling)
    requires i < |w| && w[..i] in loc && w[i] !in nodes[loc[w[..i]]].children
    ensures w !in loc
  {
    PathStep(nodes, loc, spelling, w, i);
    if w in loc {
      PathsArePrefixClosed(nodes, loc, spelling, w, i + 1);
    }
  }

  /** A path strictly below p passes through the child of p on its next character. */
  lemma DescendantThroughChild(nodes: seq<TrieNode>, loc: map<string, nat>, spelling: seq<string>, p: string, w: string)
    requires WellFormed(nodes, loc, spelling)
    requires p in loc && w in loc && p <= w && p != w
    ensures w[|p|] in nodes[loc[p]].children && p + [w[|p|]] <= w
  {
    PathsArePrefixClosed(nodes, loc, spelling, w, |p| + 1);
    assert w[..|p|] == p;
    PathStep(nodes, loc, spelling, w, |p|);
    assert p + [w[|p|]] == w[..|p| + 1];
  }

  /** The paths below a child are strictly fewer than those below its parent. */
  lemma BelowChildShrinks(loc: map<string, nat>, p: string, c: char)
    requires p in loc
    ensures |Below(loc, p + [c])| < |Below(loc, p)|
  {
    var big, small := Below(loc, p), Below(loc, p + [c]);
    assert small <= big;
    assert p in big - small;
    assert big == small + (big - small);
  }

  /** The arena after hanging a fresh, unflagged node under node on character c. */
  function WithChild(nodes: seq<TrieNode>, node: nat, c: char): seq<TrieNode>
    requires node < |nodes|
  {
    nodes[node := nodes[node].(children := nodes[node].children[c := |nodes|])] + [TrieNode(map[], false)]
  }

  lemma AddChildKeepsChildEdges(nodes: seq<TrieNode>, loc: map<string, nat>, spelling: seq<string>, node: nat, p: string, c: char)
    requires WellFormed(nodes, loc, spelling)
    requires p in loc && loc[p] == node && c !in nodes[node].children
    ensures var nodes', loc' := WithChild(nodes, node, c), loc[p + [c] := |nodes|];
            forall q, d :: q in loc' && loc'[q] < |nodes'| && d in nodes'[loc'[q]].children ==>
              q + [d] in loc' && nodes'[loc'[q]].children[d] == loc'[q + [d]]
  {
    var nodes', loc' := WithChild(nodes, node, c), loc[p + [c] := |nodes|];
    forall q, d | q in loc' && loc'[q] < |nodes'| && d in nodes'[loc'[q]].children
      ensures q + [d] in loc' && nodes'[loc'[q]].children[d] == loc'[q + [d]]
    {
      if q != p + [c] && (q != p || d != c) {
        assert q in loc && loc'[q] == loc[q] && loc[q] < |nodes|;
        assert nodes'[loc'[q]].children == if q == p then nodes[node].children[c := |nodes|] else nodes[loc[q]].children;
        assert q + [d] != p + [c];
      }
    }
  }

  lemma AddChildKeepsParentEdges(nodes: seq<TrieNode>, loc: map<string, nat>, spelling: seq<string>, node: nat, p: string, c: char)
    requires WellFormed(nodes, loc, spelling)
    requires p in loc && loc[p] == node && c !in nodes[node].children
    ensures var nodes', loc' := WithChild(nodes, node, c), loc[p + [c] := |nodes|];
            forall q, d :: q + [d] in loc' ==> q in loc' && loc'[q] < |nodes'| && d in nodes'[loc'[q]].children
  {
    var nodes', loc' := WithChild(nodes, node, c), loc[p + [c] := |nodes|];
    forall q, d | q + [d] in loc'
      ensures q in loc' && loc'[q] < |nodes'| && d in nodes'[loc'[q]].children
    {
      if q + [d] == p + [c] {
        assert q == (q + [d])[..|q|] == p && d == c;
      } else {
        assert q + [d] in loc;
      }
    }
  }

  /** Hanging a fresh, unflagged node under path p on character c keeps the
      arena well formed, adds exactly the path p + [c] and stores no new word. */
  lemma AddChildPreserves(nodes: seq<TrieNode>, loc: map<string, nat>, spelling: seq<string>, node: nat, p: string, c: char)
    requires WellFormed(nodes, loc, spelling)
    requires p in loc && loc[p] == node && c !in nodes[node].children
    ensures p + [c] !in loc
    ensures WellFormed(WithChild(nodes, node, c), loc[p + [c] := |nodes|], spelling + [p + [c]])
    ensures forall w :: IsWord(WithChild(nodes, node, c), loc[p + [c] := |nodes|], w) <==> IsWord(nodes, loc, w)
  {
    var nodes', loc', spelling' := WithChild(nodes, node, c), loc[p + [c] := |nodes|], spelling + [p + [c]];
    AddChildKeepsChildEdges(nodes, loc, spelling, node, p, c);
    AddChildKeepsParentEdges(nodes, loc, spelling, node, p, c);
    AddChildKeepsSpelling(nodes, loc, spelling, node, p, c);
  }

  lemma AddChildKeepsSpelling(nodes: seq<TrieNode>, loc: map<string, nat>, spelling: seq<string>, node: nat, p: string, c: char)
    requires WellFormed(nodes, loc, spelling)
    requires p in loc && loc[p] == node && p + [c] !in loc
    ensures var nodes', loc', spelling' := WithChild(nodes, node, c), loc[p + [c] := |nodes|], spelling + [p + [c]];
            && |spelling'| == |nodes'|
            && (forall w :: w in loc' ==> loc'[w] < |nodes'| && spelling'[loc'[w]] == w)
            && (forall w :: IsWord(nodes', loc', w) <==> IsWord(nodes, loc, w))
  {
    var nodes', loc', spelling' := WithChild(nodes, node, c), loc[p + [c] := |nodes|], spelling + [p + [c]];
    forall w | w in loc'
      ensures loc'[w] < |nodes'| && spelling'[loc'[w]] == w
      ensures IsWord(nodes', loc', w) <==> IsWord(nodes, loc, w)
    {
      if w != p + [c] {
        assert loc'[w] == loc[w] < |nodes|;
        assert nodes'[loc'[w]].isEnd == nodes[loc[w]].isEnd;
      }
    }
  }

  lemma DistinctConcat(a: seq<string>, b: seq<string>)
    requires Distinct(a) && Distinct(b)
    requires forall w :: w in a ==> w !in b
    ensures Distinct(a + b)
  {
    forall i, j | 0 <= i < j < |a + b|
      ensures (a + b)[i] != (a + b)[j]
    {
      if j >= |a| && i < |a| {
        assert (a + b)[j] in b;
      }
    }
  }

  /** Appending the words below child c to the words collected so far keeps
      them distinct and accounts for every stored word through c. */
  lemma ChildBlockStep(nodes: seq<TrieNode>, loc: map<string, nat>, spelling: seq<string>, words: set<string>, p: string, c: char,
                       remaining: set<char>, block: seq<string>, childBlock: seq<string>)
    requires WellFormed(nodes, loc, spelling) && p in loc && c in remaining
    requires forall w :: w in words ==> w in loc
    requires forall w :: w in block <==>
      w in words && p <= w && (w == p || w[|p|] !in remaining)
    requires forall w :: w in childBlock <==> w in words && p + [c] <= w
    requires Distinct(block) && Distinct(childBlock)
    ensures forall w :: w in block + childBlock <==>
      w in words && p <= w && (w == p || w[|p|] !in remaining - {c})
    ensures Distinct(block + childBlock)
  {
    forall w | w in block
      ensures w !in childBlock
    {
      if w != p {
        assert w[|p|] != c;
      }
    }
    DistinctConcat(block, childBlock);
    forall w | w in words && p <= w && w != p
      ensures w in block + childBlock <==> w[|p|] !in remaining - {c}
    {
      DescendantThroughChild(nodes, loc, spelling, p, w);
      if w[|p|] == c {
        assert p + [c] <= w;
      }
    }
  }

  /** Well-formedness depends on the children of the nodes only, not on their flags. */
  lemma SameShape(nodes: seq<TrieNode>, nodes': seq<TrieNode>, loc: map<string, nat>, spelling: seq<string>)
    requires WellFormed(nodes, loc, spelling) && |nodes'| == |nodes|
    requires forall i :: 0 <= i < |nodes| ==> nodes'[i].children == nodes[i].children
    ensures WellFormed(nodes', loc, spelling)
  {
  }

  /** The arena is well formed, the stored words are exactly the flagged
      paths, and the count is their number. */
  ghost predicate Consistent(nodes: seq<TrieNode>, loc: map<string, nat>, spelling: seq<string>, stored: set<string>, count: nat)
  {
    && WellFormed(nodes, loc, spelling)
    && (forall w :: w in stored <==> IsWord(nodes, loc, w))
    && count == |stored|
  }

  /** Flagging an unstored word, or unflagging a stored one, adds it to or
      removes it from the stored words and moves the count by one. */
  lemma FlagKeepsConsistent(nodes: seq<TrieNode>, loc: map<string, nat>, spelling: seq<string>, stored: set<string>, count: nat,
                            w: string, node: nat, flag: bool)
    requires Consistent(nodes, loc, spelling, stored, count) && w in loc && loc[w] == node
    requires (w in stored) != flag
    ensures count + (if flag then 1 else -1) >= 0
    ensures Consistent(nodes[node := nodes[node].(isEnd := flag)], loc, spelling,
                       if flag then stored + {w} else stored - {w},
                       count + (if flag then 1 else -1))
  {
    var nodes' := nodes[node := nodes[node].(isEnd := flag)];
    var stored' := if flag then stored + {w} else stored - {w};
    SameShape(nodes, nodes', loc, spelling);
    FlagChangesOneWord(nodes, loc, w, node, flag);
    assert forall x :: x in stored' <==> IsWord(nodes', loc, x);
    assert |stored'| == count + (if flag then 1 else -1);
  }

  /** The flag of the node reached by w decides whether w is a word and no
      other path's, since distinct paths reach distinct nodes. */
  lemma FlagChangesOneWord(nodes: seq<TrieNode>, loc: map<string, nat>, w: string, node: nat, flag: bool)
    requires w in loc && loc[w] == node
    requires forall x :: x in loc ==> loc[x] < |nodes|
    requires forall x :: x in loc && x != w ==> loc[x] != node
    ensures forall x :: IsWord(nodes[node := nodes[node].(isEnd := flag)], loc, x) <==>
              if x == w then flag else IsWord(nodes, loc, x)
  {
    var nodes' := nodes[node := nodes[node].(isEnd := flag)];
    assert node < |nodes| && nodes'[node].isEnd == flag;
    forall x | x in loc && x != w
      ensures IsWord(nodes', loc, x) == IsWord(nodes, loc, x)
    {
      assert loc[x] != node && nodes'[loc[x]] == nodes[loc[x]];
    }
  }

  class Trie {
    /** The node arena; nodes[0] is the root. */
    var nodes: seq<TrieNode>
    var wordCount: nat
    /** Each existing path from the root and the node it reaches. */
    ghost var Loc: map<string, nat>
    /** The path that reaches each node: the inverse of Loc. */
    ghost var Spelling: seq<string>
    /** The stored words. */
    ghost var Stored: set<string>

    ghost predicate Valid()
      reads this
    {
      Consistent(nodes, Loc, Spelling, Stored, wordCount)
    }

    ghost function Words(): set<string>
      reads this
    {
      Stored
    }

    ghost function Paths(): set<string>
      reads this
    {
      Loc.Keys
    }

    /** An empty trie: a root with no children that is not a word end. */
    constructor ()
      ensures Valid()
      ensures Words() == {} && Paths() == {[]} && wordCount == 0
    {
      nodes := [TrieNode(map[], false)];
      wordCount := 0;
      Loc := map[[] := 0];
      Spelling := [[]];
      Stored := {};
      new;
    }

    /** Walks word, creating missing children, then flags the last node;
        the count grows only if that node was not flagged already. */
    method Insert(word: string)
      requires Valid()
      modifies this
      ensures Valid()
      ensures Words() == old(Words()) + {word}
      ensures forall q :: q in Paths() <==> q in old(Paths()) || q <= word
      ensures wordCount == old(wordCount) + (if word in old(Words()) then 0 else 1)
    {
      var node := MakePath(word);
      if !nodes[node].isEnd {
        SetEnd(node, word, true);
      } else {
        assert word in Stored;
        assert Stored + {word} == Stored;
      }
    }

    /** The walk of Insert: follows word from the root, creating each
        missing child, and returns the node reached. */
    method MakePath(word: string) returns (node: nat)
      requires Valid()
      modifies this
      ensures Valid()
      ensures word in Loc && Loc[word] == node
      ensures forall q :: q in Loc <==> q in old(Loc) || q <= word
      ensures wordCount == old(wordCount) && Stored == old(Stored)
    {
      node := 0;
      for i := 0 to |word|
        invariant Valid()
        invariant word[..i] in Loc && Loc[word[..i]] == node
        invariant forall q :: q in Loc <==> q in old(Loc) || (|q| <= i && q == word[..|q|])
        invariant wordCount == old(wordCount) && Stored == old(Stored)
      {
        node := Descend(node, word, i);
      }
      assert word[..|word|] == word;
    }

    /** One step of the walk: moves from the node of word[..i] to its child
        on word[i], creating that child first when it is missing. */
    method Descend(node: nat, word: string, i: nat) returns (child: nat)
      requires Valid()
      requires i < |word| && word[..i] in Loc && Loc[word[..i]] == node
      modifies this
      ensures Valid()
      ensures word[..i + 1] in Loc && Loc[word[..i + 1]] == child
      ensures Loc.Keys == old(Loc.Keys) + {word[..i + 1]}
      ensures wordCount == old(wordCount) && Stored == old(Stored)
    {
      var c := word[i];
      assert word[..i] + [c] == word[..i + 1];
      if c !in nodes[node].children {
        AddChild(node, word[..i], c);
      } else {
        PathStep(nodes, Loc, Spelling, word, i);
      }
      child := nodes[node].children[c];
    }

    /** Appends a fresh, unflagged node as the child of `node` on character c. */
    method AddChild(node: nat, p: string, c: char)
      requires Valid()
      requires p in Loc && Loc[p] == node && c !in nodes[node].children
      modifies this
      ensures Valid()
      ensures Loc == old(Loc)[p + [c] := old(|nodes|)] && p + [c] !in old(Loc)
      ensures |nodes| == old(|nodes|) + 1
      ensures c in nodes[node].children && nodes[node].children[c] == Loc[p + [c]]
      ensures wordCount == old(wordCount) && Stored == old(Stored)
    {
      var id := |nodes|;
      AddChildPreserves(nodes, Loc, Spelling, node, p, c);
      nodes := WithChild(nodes, node, c);
      Loc := Loc[p + [c] := id];
      Spelling := Spelling + [p + [c]];
    }

    /** Sets or clears the end-of-word flag of the node reached by path w,
        which changes whether w is stored, and adjusts the count by one. */
    method SetEnd(node: nat, w: string, flag: bool)
      requires Valid()
      requires w in Loc && Loc[w] == node
      requires (w in Stored) != flag
      modifies this
      ensures Valid() && Loc == old(Loc)
      ensures Stored == if flag then old(Stored) + {w} else old(Stored) - {w}
      ensures wordCount == old(wordCount) + (if flag then 1 else -1)
    {
      FlagKeepsConsistent(nodes, Loc, Spelling, Stored, wordCount, w, node, flag);
      nodes := nodes[node := nodes[node].(isEnd := flag)];
      Stored := if flag then Stored + {w} else Stored - {w};
      wordCount := wordCount + (if flag then 1 else -1);
    }

    /** Follows the characters of s from the root; reports whether the
        whole path exists and, if so, the node it reaches. */
    method Walk(s: string) returns (found: bool, node: nat)
      requires Valid()
      ensures found == (s in Paths())
      ensures found ==> Loc[s] == node
    {
      node := 0;
      for i := 0 to |s|
        invariant s[..i] in Loc && Loc[s[..i]] == node
      {
        PathStep(nodes, Loc, Spelling, s, i);
        if s[i] !in nodes[node].children {
          MissingStepMeansAbsent(nodes, Loc, Spelling, s, i);
          return false, node;
        }
        node := nodes[node].children[s[i]];
      }
      assert s[..|s|] == s;
      found := true;
    }

    /** True iff word is stored: its whole path exists and ends at a flagged node. */
    method Search(word: string) returns (found: bool)
      requires Valid()
      ensures found == (word in Words())
    {
      var present, node := Walk(word);
      if !present {
        return false;
      }
      found := nodes[node].isEnd;
    }

    /** True iff prefix is a path of the trie, whether or not it is flagged. */
    method StartsWith(prefix: string) returns (found: bool)
      requires Valid()
      ensures found == (prefix in Paths())
    {
      var node;
      found, node := Walk(prefix);
    }

    /** Clears the flag of a stored word; nodes are never pruned. */
    method Delete(word: string) returns (deleted: bool)
      requires Valid()
      modifies this
      ensures Valid()
      ensures deleted == (word in old(Words()))
      ensures Words() == old(Words()) - {word}
      ensures Paths() == old(Paths())
      ensures wordCount == old(wordCount) - (if deleted then 1 else 0)
      ensures !deleted ==> nodes == old(nodes)
    {
      var present, node := Walk(word);
      if !present || !nodes[node].isEnd {
        return false;
      }
      SetEnd(node, word, false);
      return true;
    }

    /** Every stored word that starts with prefix, each exactly once; none
        when prefix is not a path. */
    method GetAllWordsWithPrefix(prefix: string) returns (results: seq<string>)
      requires Valid()
      ensures forall w :: w in results <==> w in Words() && prefix <= w
      ensures Distinct(results)
      ensures prefix !in Paths() ==> results == []
    {
      var present, node := Walk(prefix);
      if !present {
        forall w | w in Words() && prefix <= w
          ensures w[..|prefix|] == prefix && w[..|prefix|] in Loc
        {
          PathsArePrefixClosed(nodes, Loc, Spelling, w, |prefix|);
        }
        return [];
      }
      results := DfsCollect(node, prefix, []);
      assert results[0..] == results;
    }

    /** Appends to results every stored word below the node reached by
        currentWord: the word itself when flagged, then each child's words. */
    method DfsCollect(node: nat, currentWord: string, results: seq<string>) returns (out: seq<string>)
      requires Valid()
      requires currentWord in Loc && Loc[currentWord] == node
      ensures |results| <= |out| && out[..|results|] == results
      ensures forall w :: w in out[|results|..] <==> w in Words() && currentWord <= w
      ensures Distinct(out[|results|..])
      decreases |Below(Loc, currentWord)|
    {
      out := results;
      if nodes[node].isEnd {
        out := out + [currentWord];
      }
      var children := nodes[node].children;
      var remaining := children.Keys;
      forall w | w in Words() && currentWord <= w && w != currentWord
        ensures w[|currentWord|] in remaining
      {
        DescendantThroughChild(nodes, Loc, Spelling, currentWord, w);
      }
      while remaining != {}
        invariant remaining <= children.Keys
        invariant |results| <= |out| && out[..|results|] == results
        invariant forall w :: w in out[|results|..] <==>
          w in Words() && currentWord <= w && (w == currentWord || w[|currentWord|] !in remaining)
        invariant Distinct(out[|results|..])
        decreases remaining
      {
        var c :| c in remaining;
        var child := currentWord + [c];
        assert child in Loc && children[c] == Loc[child];
        BelowChildShrinks(Loc, currentWord, c);
        var before := out;
        out := DfsCollect(children[c], child, out);
        assert out[|results|..] == before[|results|..] + out[|before|..];
        ChildBlockStep(nodes, Loc, Spelling, Stored, currentWord, c, remaining, before[|results|..], out[|before|..]);
        remaining := remaining - {c};
      }
    }
  }

  /** Insertion, duplicate insertion, search and prefix test. */
  method InsertSearchExample()
  {
    var t := new Trie();
    t.Insert("hello");
    assert "hell" <= "hello";
    var c := t.StartsWith("hell");
    assert c;
    var b := t.Search("hell");
    assert !b;
    t.Insert("help");
    t.Insert("hello");
    assert t.wordCount == 2;
    var a := t.Search("hello");
    assert a;
  }

  /** Deletion clears one word, keeps the others, and fails the second time. */
  method DeleteExample()
  {
    var t := new Trie();
    t.Insert("hello");
    t.Insert("help");
    var d := t.Delete("hello");
    assert d && t.wordCount == 1;
    var e := t.Search("help");
    assert e;
    var f := t.Delete("hello");
    assert !f;
  }
}
