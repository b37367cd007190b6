/**
  The dictionary index: a prefix tree from codes (one character per tone)
  to words, with the flat dictionary `daftarKata` kept beside it for direct
  access by code.
 */
module PrefixTree {
  import opened Wrappers

  /** The words of every inserted code that extends `p`, `p` itself included. */
  function WordsWithPrefix(m: map<string, string>, p: string): map<string, string>
  {
    map k | k in m && p <= k :: m[k]
  }

  /** The word of the longest code among `s[..1]`, ..., `s[..n]` that is a key of `m`. */
  function LongestUpTo(m: map<string, string>, s: string, n: nat): Option<string>
    requires n <= |s|
  {
    if n == 0 then None
    else if s[..n] in m then Some(m[s[..n]])
    else LongestUpTo(m, s, n - 1)
  }

  /** The word of the longest non-empty prefix of `s` that is a key of `m`. */
  function LongestPrefixWord(m: map<string, string>, s: string): Option<string>
  {
    LongestUpTo(m, s, |s|)
  }

  /** `s[..j]` is a non-empty key of `m` and no longer prefix of `s` is one. */
  ghost predicate IsLongestPrefix(m: map<string, string>, s: string, j: int)
  {
    && 1 <= j <= |s|
    && s[..j] in m
    && forall j' :: j < j' <= |s| ==> s[..j'] !in m
  }

  lemma {:induction false} LongestUpToMeaning(m: map<string, string>, s: string, n: nat)
    requires n <= |s|
    ensures LongestUpTo(m, s, n).None? <==> forall j :: 1 <= j <= n ==> s[..j] !in m
    ensures LongestUpTo(m, s, n).Some? ==>
      exists j :: 1 <= j <= n && s[..j] in m && LongestUpTo(m, s, n).value == m[s[..j]]
        && forall j' :: j < j' <= n ==> s[..j'] !in m
  {
    if n > 0 && s[..n] !in m {
      LongestUpToMeaning(m, s, n - 1);
    }
  }

  /** The longest-prefix lookup finds the longest inserted non-empty prefix, or nothing. */
  lemma LongestPrefixWordMeaning(m: map<string, string>, s: string)
    ensures LongestPrefixWord(m, s).None? <==> forall j :: 1 <= j <= |s| ==> s[..j] !in m
    ensures LongestPrefixWord(m, s).Some? ==>
      exists j :: IsLongestPrefix(m, s, j) && LongestPrefixWord(m, s).value == m[s[..j]]
  {
    LongestUpToMeaning(m, s, |s|);
  }

  /** An inserted empty code is never reported by the longest-prefix lookup. */
  lemma {:induction false} EmptyCodeNeverReported(m: map<string, string>, s: string, w: string, n: nat)
    requires n <= |s|
    ensures LongestUpTo(m["" := w], s, n) == LongestUpTo(m - {""}, s, n)
  {
    if n > 0 {
      assert s[..n] != "";
      EmptyCodeNeverReported(m, s, w, n - 1);
    }
  }

  /** Once no key of `m` is among `s[..i+1]`, ..., `s[..n]`, the answer stays that of `s[..i]`. */
  lemma {:induction false} LongestUpToStable(m: map<string, string>, s: string, i: nat, n: nat)
    requires i <= n <= |s|
    requires forall j :: i < j <= n ==> s[..j] !in m
    ensures LongestUpTo(m, s, n) == LongestUpTo(m, s, i)
  {
    if i < n {
      LongestUpToStable(m, s, i, n - 1);
    }
  }

  /** The words below a node whose own word counts, and whose children `cs` have been visited. */
  function WordsThrough(m: map<string, string>, p: string, cs: set<char>): map<string, string>
  {
    map k | k in m && p <= k && (k == p || k[|p|] in cs) :: m[k]
  }

  lemma WordsThroughChild(m: map<string, string>, p: string, cs: set<char>, c: char)
    ensures WordsThrough(m, p, cs) + WordsWithPrefix(m, p + [c]) == WordsThrough(m, p, cs + {c})
  {
    var lhs := WordsThrough(m, p, cs) + WordsWithPrefix(m, p + [c]);
    var rhs := WordsThrough(m, p, cs + {c});
    forall k | k in m
      ensures (p + [c] <= k) <==> (p <= k && k != p && k[|p|] == c)
    {
      if p <= k && k != p && k[|p|] == c {
        assert k[..|p| + 1] == p + [c];
      }
    }
    assert lhs.Keys == rhs.Keys;
  }

  /** With no child visited yet, only the node's own word is collected. */
  lemma OwnWordOnly(m: map<string, string>, p: string)
    ensures WordsThrough(m, p, {}) == if p in m then map[p := m[p]] else map[]
  {
    assert WordsThrough(m, p, {}).Keys == if p in m then {p} else {};
  }

  lemma MapUnionAssoc<K, V>(a: map<K, V>, b: map<K, V>, c: map<K, V>)
    ensures (a + b) + c == a + (b + c)
  {
  }

  /** A node of the tree. Python's `kata = None` before the node is marked is the empty string here. */
  class TrieNode {
    var children: map<char, TrieNode>
    var isEndOfWord: bool
    var kata: string
    /** The code spelled by the edges from the root down to this node. */
    ghost const path: string

    constructor (ghost path: string)
      ensures children == map[] && !isEndOfWord && kata == ""
      ensures this.path == path
    {
      children := map[];
      isEndOfWord := false;
      kata := "";
      this.path := path;
    }
  }

  class Trie {
    var root: TrieNode
    /** The flat mirror of the tree: code to word. */
    var daftarKata: map<string, string>
    /** The node reached from the root along each path of the tree. */
    ghost var nodeOf: map<string, TrieNode>
    ghost var Repr: set<TrieNode>

    /**
      The tree is closed under prefixes, its edges are exactly the one-character
      extensions between paths, and the mirror holds exactly the marked nodes.
     */
    ghost predicate Valid()
      reads this, Repr
    {
      && "" in nodeOf && nodeOf[""] == root
      && (forall p :: p in nodeOf ==> nodeOf[p] in Repr && nodeOf[p].path == p)
      && (forall p, j :: p in nodeOf && 0 <= j <= |p| ==> p[..j] in nodeOf)
      && (forall p, c {:trigger nodeOf[p].children[c]} :: p in nodeOf && c in nodeOf[p].children ==>
            p + [c] in nodeOf && nodeOf[p].children[c] == nodeOf[p + [c]])
      && (forall p, c {:trigger p + [c]} :: p in nodeOf && p + [c] in nodeOf ==> c in nodeOf[p].children)
      && (forall p :: p in daftarKata <==> p in nodeOf && nodeOf[p].isEndOfWord)
      && (forall p :: p in daftarKata ==> nodeOf[p].kata == daftarKata[p])
    }

    /** The paths at or below `p`. */
    ghost function Subtree(p: string): set<string>
      reads this
    {
      set q | q in nodeOf && p <= q
    }

    /** Descending to a child leaves strictly fewer paths below. */
    lemma SubtreeShrinks(p: string, c: char)
      requires p in nodeOf
      ensures Subtree(p + [c]) < Subtree(p)
    {
      forall q | q in Subtree(p + [c])
        ensures q in Subtree(p)
      {
        assert q[..|p| + 1] == p + [c];
        assert q[..|p|] == (p + [c])[..|p|] == p;
      }
      assert p in Subtree(p);
    }

    constructor ()
      ensures Valid() && fresh(Repr)
      ensures daftarKata == map[]
    {
      var r := new TrieNode("");
      root := r;
      daftarKata := map[];
      nodeOf := map["" := r];
      Repr := {r};
    }

    /** A missing edge at `s[..i]` means no path of the tree passes through `s[..i+1]`. */
    lemma NoPathThrough(s: string, i: nat)
      requires Valid()
      requires i < |s| && s[..i] in nodeOf && s[i] !in nodeOf[s[..i]].children
      ensures forall k :: k in nodeOf ==> !(s[..i + 1] <= k)
    {
      assert s[..i] + [s[i]] == s[..i + 1];
      forall k | k in nodeOf && i < |k|
        ensures k[..i + 1] != s[..i + 1]
      {
      }
    }

    /** Create the missing child `ch` of the node at path `p` (trie.py:16-17). */
    method AddChild(node: TrieNode, ghost p: string, ch: char) returns (child: TrieNode)
      requires Valid()
      requires p in nodeOf && nodeOf[p] == node && ch !in node.children
      modifies this, node
      ensures Valid() && fresh(child) && Repr == old(Repr) + {child}
      ensures nodeOf == old(nodeOf)[p + [ch] := child]
      ensures root == old(root) && daftarKata == old(daftarKata)
    {
      ghost var q := p + [ch];
      assert q[..|p|] == p;
      assert q !in nodeOf;
      NoPathThrough(q, |p|);
      child := new TrieNode(q);
      node.children := node.children[ch := child];
      nodeOf := nodeOf[q := child];
      Repr := Repr + {child};
      assert node.path == p && child.path[|child.path| - 1] == ch;
      ValidAfterAdd(node, child);
    }

    /** The state change of AddChild: one fresh, unmarked leaf at `p + [ch]`, nothing else changed. */
    twostate predicate GrewBy(parentNode: TrieNode, atPath: string, edgeChar: char, new newLeaf: TrieNode)
      reads this, Repr
    {
      && Repr == old(Repr) + {newLeaf} && root == old(root)
      && old(Valid()) && atPath in old(nodeOf) && old(nodeOf[atPath]) == parentNode
      && atPath + [edgeChar] !in old(nodeOf)
      && nodeOf == old(nodeOf)[atPath + [edgeChar] := newLeaf] && newLeaf != parentNode
      && newLeaf.children == map[] && !newLeaf.isEndOfWord && newLeaf.path == atPath + [edgeChar]
      && parentNode.children == old(parentNode.children)[edgeChar := newLeaf]
      && daftarKata == old(daftarKata)
      && (forall n :: n in old(Repr) && n != parentNode ==> n.children == old(n.children))
      && (forall n :: n in old(Repr) ==> n.isEndOfWord == old(n.isEndOfWord) && n.kata == old(n.kata))
    }

    /** GrewBy, with the path and the edge read off the two nodes. */
    twostate predicate Grew(parent: TrieNode, new leaf: TrieNode)
      reads this, Repr
    {
      |leaf.path| > 0 && GrewBy(parent, parent.path, leaf.path[|leaf.path| - 1], leaf)
    }

    /** Adding a fresh unmarked leaf below a node of a valid tree keeps it valid. */
    twostate lemma ValidAfterAdd(parent: TrieNode, new leaf: TrieNode)
      requires Grew(parent, leaf)
      ensures Valid()
    {
      PrefixClosedAfterAdd(parent, leaf);
      ChildLinksAfterAdd(parent, leaf);
      ParentLinksAfterAdd(parent, leaf);
      MarksAfterAdd(parent, leaf);
    }

    twostate lemma PrefixClosedAfterAdd(node: TrieNode, new child: TrieNode)
      requires Grew(node, child)
      ensures forall r, j :: r in nodeOf && 0 <= j <= |r| ==> r[..j] in nodeOf
    {
      ghost var p, ch := node.path, child.path[|child.path| - 1];
      ghost var q := p + [ch];
      forall j | 0 <= j <= |q|
        ensures q[..j] in nodeOf
      {
        if j <= |p| {
          assert q[..j] == p[..j];
        } else {
          assert q[..j] == q;
        }
      }
    }

    twostate lemma ChildLinksAfterAdd(node: TrieNode, new child: TrieNode)
      requires Grew(node, child)
      ensures forall r, c {:trigger nodeOf[r].children[c]} :: r in nodeOf && c in nodeOf[r].children ==>
            r + [c] in nodeOf && nodeOf[r].children[c] == nodeOf[r + [c]]
    {
      ghost var p, ch := node.path, child.path[|child.path| - 1];
      ghost var q := p + [ch];
      forall r, c {:trigger nodeOf[r].children[c]} | r in nodeOf && c in nodeOf[r].children
        ensures r + [c] in nodeOf && nodeOf[r].children[c] == nodeOf[r + [c]]
      {
        if r != q && r != p {
          assert nodeOf[r] == old(nodeOf[r]) && nodeOf[r] != node;
          assert r + [c] in old(nodeOf);
        } else if r == p && c != ch {
          assert r + [c] in old(nodeOf);
        }
      }
    }

    twostate lemma ParentLinksAfterAdd(node: TrieNode, new child: TrieNode)
      requires Grew(node, child)
      ensures forall r, c {:trigger r + [c]} :: r in nodeOf && r + [c] in nodeOf ==> c in nodeOf[r].children
    {
      ghost var p, ch := node.path, child.path[|child.path| - 1];
      ghost var q := p + [ch];
      forall r, c {:trigger r + [c]} | r in nodeOf && r + [c] in nodeOf
        ensures c in nodeOf[r].children
      {
        if r + [c] == q {
          assert (r + [c])[..|r|] == r;
        } else if r != q {
          assert nodeOf[r] == old(nodeOf[r]);
        }
      }
    }

    twostate lemma MarksAfterAdd(node: TrieNode, new child: TrieNode)
      requires Grew(node, child)
      ensures forall r :: r in daftarKata <==> r in nodeOf && nodeOf[r].isEndOfWord
      ensures forall r :: r in daftarKata ==> nodeOf[r].kata == daftarKata[r]
    {
      ghost var p, ch := node.path, child.path[|child.path| - 1];
      ghost var q := p + [ch];
      forall r | r in nodeOf
        ensures (r in daftarKata <==> nodeOf[r].isEndOfWord)
        ensures r in daftarKata ==> nodeOf[r].kata == daftarKata[r]
      {
        if r != q {
          assert nodeOf[r] == old(nodeOf[r]);
        }
      }
    }

    /** tambah: walk down from the root creating missing children, then mark the last node. */
    method Tambah(kode: string, kata: string)
      requires Valid()
      modifies this, Repr
      ensures Valid() && fresh(Repr - old(Repr))
      ensures root == old(root)
      ensures daftarKata == old(daftarKata)[kode := kata]
    {
      var node := root;
      for i := 0 to |kode|
        invariant Valid() && fresh(Repr - old(Repr)) && root == old(root)
        invariant kode[..i] in nodeOf && nodeOf[kode[..i]] == node
        invariant daftarKata == old(daftarKata)
      {
        var ch := kode[i];
        assert kode[..i] + [ch] == kode[..i + 1];
        if ch !in node.children {
          var child := AddChild(node, kode[..i], ch);
        }
        node := node.children[ch];
      }
      assert kode[..|kode|] == kode;
      Mark(node, kode, kata);
    }

    /** Mark the node at path `kode` as the end of a code with word `kata` (trie.py:20-22). */
    method Mark(node: TrieNode, kode: string, kata: string)
      requires Valid() && kode in nodeOf && nodeOf[kode] == node
      modifies this, node
      ensures Valid() && Repr == old(Repr) && nodeOf == old(nodeOf) && root == old(root)
      ensures daftarKata == old(daftarKata)[kode := kata]
    {
      node.isEndOfWord := true;
      node.kata := kata;
      daftarKata := daftarKata[kode := kata];
      MarksAfterMark(node);
    }

    twostate lemma MarksAfterMark(target: TrieNode)
      requires old(Valid()) && target.path in old(nodeOf) && old(nodeOf[target.path]) == target
      requires nodeOf == old(nodeOf) && Repr == old(Repr)
      requires target.isEndOfWord && daftarKata == old(daftarKata)[target.path := target.kata]
      requires forall n :: n in old(Repr) && n != target ==> n.isEndOfWord == old(n.isEndOfWord) && n.kata == old(n.kata)
      ensures forall r :: r in daftarKata <==> r in nodeOf && nodeOf[r].isEndOfWord
      ensures forall r :: r in daftarKata ==> nodeOf[r].kata == daftarKata[r]
    {
      forall r | r in nodeOf
        ensures (r in daftarKata <==> nodeOf[r].isEndOfWord)
        ensures r in daftarKata ==> nodeOf[r].kata == daftarKata[r]
      {
        if r != target.path {
          assert nodeOf[r] != target;
        }
      }
    }

    /** cari: the word of exactly `kode`, or None. */
    method Cari(kode: string) returns (r: Option<string>)
      requires Valid()
      ensures r == if kode in daftarKata then Some(daftarKata[kode]) else None
    {
      var node := root;
      for i := 0 to |kode|
        invariant kode[..i] in nodeOf && nodeOf[kode[..i]] == node
      {
        var ch := kode[i];
        if ch !in node.children {
          NoPathThrough(kode, i);
          return None;
        }
        assert kode[..i] + [ch] == kode[..i + 1];
        node := node.children[ch];
      }
      assert kode[..|kode|] == kode;
      r := if node.isEndOfWord then Some(node.kata) else None;
    }

    /** cari_prefix: every inserted code that extends `prefix`, with its word. */
    method CariPrefix(prefix: string) returns (result: map<string, string>)
      requires Valid()
      ensures result == WordsWithPrefix(daftarKata, prefix)
    {
      var node := root;
      result := map[];
      for i := 0 to |prefix|
        invariant prefix[..i] in nodeOf && nodeOf[prefix[..i]] == node
      {
        var ch := prefix[i];
        if ch !in node.children {
          NoPathThrough(prefix, i);
          forall k | k in daftarKata
            ensures !(prefix <= k)
          {
            assert prefix[..i + 1] <= prefix;
          }
          assert WordsWithPrefix(daftarKata, prefix).Keys == {};
          return;
        }
        assert prefix[..i] + [ch] == prefix[..i + 1];
        node := node.children[ch];
      }
      assert prefix[..|prefix|] == prefix;
      result := CollectWords(node, prefix, result);
    }

    /** _collect_words: add the word of every marked node at or below `node` to `result`. */
    method CollectWords(node: TrieNode, currentPrefix: string, result: map<string, string>)
      returns (r: map<string, string>)
      requires Valid()
      requires currentPrefix in nodeOf && nodeOf[currentPrefix] == node
      ensures r == result + WordsWithPrefix(daftarKata, currentPrefix)
      decreases Subtree(currentPrefix)
    {
      r := result;
      if node.isEndOfWord {
        r := r[currentPrefix := node.kata];
      }
      OwnWordOnly(daftarKata, currentPrefix);
      var pending := node.children.Keys;
      ghost var done: set<char> := {};
      while pending != {}
        invariant pending <= node.children.Keys && done == node.children.Keys - pending
        invariant r == result + WordsThrough(daftarKata, currentPrefix, done)
        decreases pending
      {
        var ch :| ch in pending;
        var child := node.children[ch];
        SubtreeShrinks(currentPrefix, ch);
        r := CollectWords(child, currentPrefix + [ch], r);
        WordsThroughChild(daftarKata, currentPrefix, done, ch);
        MapUnionAssoc(result, WordsThrough(daftarKata, currentPrefix, done),
          WordsWithPrefix(daftarKata, currentPrefix + [ch]));
        pending := pending - {ch};
        done := done + {ch};
      }
      assert done == node.children.Keys;
      ChildrenCoverWords(currentPrefix);
    }

    /** Every inserted code strictly below `p` continues along one of the children of its node. */
    lemma ChildrenCoverWords(p: string)
      requires Valid() && p in nodeOf
      ensures WordsThrough(daftarKata, p, nodeOf[p].children.Keys) == WordsWithPrefix(daftarKata, p)
    {
      forall k | k in daftarKata && p <= k && k != p
        ensures k[|p|] in nodeOf[p].children
      {
        var q := k[..|p| + 1];
        assert q in nodeOf;
        assert q == p + [k[|p|]];
      }
      assert WordsThrough(daftarKata, p, nodeOf[p].children.Keys).Keys == WordsWithPrefix(daftarKata, p).Keys;
    }

    /** cari_terpanjang: the word of the longest inserted non-empty prefix of `rangkaian`. */
    method CariTerpanjang(rangkaian: string) returns (lastFound: Option<string>)
      requires Valid()
      ensures lastFound == LongestPrefixWord(daftarKata, rangkaian)
    {
      var node := root;
      lastFound := None;
      var currentPrefix := "";
      for i := 0 to |rangkaian|
        invariant currentPrefix == rangkaian[..i]
        invariant currentPrefix in nodeOf && nodeOf[currentPrefix] == node
        invariant lastFound == LongestUpTo(daftarKata, rangkaian, i)
      {
        var ch := rangkaian[i];
        if ch !in node.children {
          NoPathThrough(rangkaian, i);
          forall j | i < j <= |rangkaian|
            ensures rangkaian[..j] !in daftarKata
          {
            assert rangkaian[..i + 1] <= rangkaian[..j];
          }
          LongestUpToStable(daftarKata, rangkaian, i, |rangkaian|);
          break;
        }
        node := node.children[ch];
        currentPrefix := currentPrefix + [ch];
        assert currentPrefix == rangkaian[..i + 1];
        if node.isEndOfWord {
          lastFound := Some(node.kata);
        }
      }
    }
  }
}
