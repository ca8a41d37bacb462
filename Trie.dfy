/** The prefix-tree dictionary used by both word games. The same four
    operations (create a node, insert, prefix test, word test) and `buildTrie`
    appear verbatim in the two workers and in the grid game's page script; they
    are modelled once here. */
module Trie {

  /** Some word of `words` starts with `s`. */
  ghost predicate HasWordWithPrefix(words: set<string>, s: string)
  {
    exists w :: w in words && s <= w
  }

  lemma PrefixOfPrefix(words: set<string>, s: string, k: nat)
    requires HasWordWithPrefix(words, s) && k <= |s|
    ensures HasWordWithPrefix(words, s[..k])
  {
    var w :| w in words && s <= w;
    assert s[..k] <= w;
  }

  /** A node: a map from one character to the child node, and a terminal flag. */
  class TrieNode {
    var children: map<char, TrieNode>
    var isWord: bool

    /** `createTrieNode`: no children, not terminal. */
    constructor ()
      ensures children == map[] && !isWord
    {
      children := map[];
      isWord := false;
    }
  }

  /** The dictionary held by `TRIE_ROOT`. `Words` is the set of inserted words;
      `Nodes` maps every spelling that the tree can walk to the node it reaches. */
  class Trie {
    var root: TrieNode
    ghost var Words: set<string>
    ghost var Nodes: map<string, TrieNode>
    ghost var Repr: set<TrieNode>

    /** The tree is laid out by the spellings in `Nodes`: the root spells "",
        distinct spellings have distinct nodes, every child edge extends the
        spelling by its character, and every non-empty spelling hangs off the
        node of its prefix. */
    ghost predicate Shape()
      reads this, Repr
    {
      && "" in Nodes && Nodes[""] == root
      && (forall s :: s in Nodes ==> Nodes[s] in Repr)
      && Injective() && DownClosed() && UpClosed()
    }

    ghost predicate Injective()
      reads this
    {
      forall s1, s2 :: s1 in Nodes && s2 in Nodes && s1 != s2 ==> Nodes[s1] != Nodes[s2]
    }

    ghost predicate DownClosed()
      reads this, Nodes.Values
    {
      forall s, c :: s in Nodes && c in Nodes[s].children ==>
        s + [c] in Nodes && Nodes[s + [c]] == Nodes[s].children[c]
    }

    ghost predicate UpClosed()
      reads this, Nodes.Values
    {
      forall s, c {:trigger s + [c] in Nodes} :: s + [c] in Nodes ==> s in Nodes && c in Nodes[s].children
    }

    /** Terminal flags mark exactly the spellings that are in `words`. */
    ghost predicate Marks(words: set<string>)
      reads this, Repr
      requires Shape()
    {
      forall s :: s in Nodes ==> (Nodes[s].isWord <==> s in words)
    }

    /** Every spelling other than the root's is a prefix of a word. */
    ghost predicate Sound(words: set<string>)
      reads this
    {
      forall s :: s in Nodes ==> s == [] || HasWordWithPrefix(words, s)
    }

    /** Every prefix of a word has a node. */
    ghost predicate Complete(words: set<string>)
      reads this
    {
      forall s :: HasWordWithPrefix(words, s) ==> s in Nodes
    }

    ghost predicate Valid()
      reads this, Repr
    {
      Shape() && Marks(Words) && Sound(Words) && Complete(Words)
    }

    /** An empty dictionary: a lone root node. */
    constructor ()
      ensures Valid() && fresh(Repr)
      ensures Words == {}
    {
      var r := new TrieNode();
      root := r;
      Words := {};
      Nodes := map["" := r];
      Repr := {r};
    }

    /** `insertWord`: walks `w`, creating each missing child, and marks the
        node reached as terminal. Inserting a word that is already a prefix of
        a stored word creates no node, so a repeated insertion changes nothing. */
    method Insert(w: string)
      requires Valid()
      modifies this, Repr
      ensures Valid() && fresh(Repr - old(Repr))
      ensures Words == old(Words) + {w} && root == old(root)
      ensures old(HasWordWithPrefix(Words, w)) ==> Nodes == old(Nodes)
    {
      var node := root;
      var i := 0;
      assert w[..0] == [];
      while i < |w|
        invariant 0 <= i <= |w|
        invariant Shape() && Marks(Words) && Sound(Words + {w}) && Complete(Words)
        invariant Words == old(Words) && root == old(root)
        invariant old(Repr) <= Repr && fresh(Repr - old(Repr))
        invariant w[..i] in Nodes && Nodes[w[..i]] == node
        invariant old(HasWordWithPrefix(Words, w)) ==> Nodes == old(Nodes)
      {
        node := Descend(node, w, i);
        i := i + 1;
      }
      assert w[..|w|] == w;
      MarkWord(node, w);
    }

    /** One iteration of the walk in `Insert`: from the node spelling
        `w[..i]`, follows the edge labelled `w[i]`, creating it first when it
        is missing. */
    method Descend(node: TrieNode, w: string, i: nat) returns (next: TrieNode)
      requires i < |w|
      requires Shape() && Marks(Words) && Sound(Words + {w}) && Complete(Words)
      requires w[..i] in Nodes && Nodes[w[..i]] == node
      modifies this, node
      ensures Shape() && Marks(Words) && Sound(Words + {w}) && Complete(Words)
      ensures Words == old(Words) && root == old(root)
      ensures old(Repr) <= Repr && fresh(Repr - old(Repr))
      ensures w[..i + 1] in Nodes && Nodes[w[..i + 1]] == next
      ensures HasWordWithPrefix(Words, w) ==> Nodes == old(Nodes)
    {
      var c := w[i];
      assert w[..i + 1] == w[..i] + [c];
      if c !in node.children {
        assert w[..i + 1] !in Nodes;
        if HasWordWithPrefix(Words, w) {
          PrefixOfPrefix(Words, w, i + 1);
          assert false;
        }
        var m := new TrieNode();
        AddChild(node, c, m, w[..i], w);
      }
      assert w[..i + 1] in Nodes && Nodes[w[..i + 1]] == node.children[c];
      next := node.children[c];
    }

    /** One step of `Insert`: hangs the fresh node `m` below `node`, which spells
        `s`, under the character `c`, and records it under the spelling `s + [c]`,
        a prefix of the word `w` being inserted. */
    method AddChild(node: TrieNode, c: char, m: TrieNode, ghost s: string, ghost w: string)
      requires Shape() && Marks(Words) && Sound(Words + {w}) && Complete(Words)
      requires s in Nodes && Nodes[s] == node && c !in node.children
      requires s + [c] !in Nodes && m !in Repr && m.children == map[] && !m.isWord
      requires s + [c] <= w
      modifies this, node
      ensures Shape() && Marks(Words) && Sound(Words + {w}) && Complete(Words)
      ensures Words == old(Words) && root == old(root)
      ensures Repr == old(Repr) + {m} && Nodes == old(Nodes)[s + [c] := m]
      ensures node.children == old(node.children)[c := m]
    {
      node.children := node.children[c := m];
      Nodes := Nodes[s + [c] := m];
      Repr := Repr + {m};
      assert UpClosed() by {
      forall s', c' | s' + [c'] in Nodes ensures s' in Nodes && c' in Nodes[s'].children {
        if s' + [c'] == s + [c] {
          assert s' == (s' + [c'])[..|s'|] == (s + [c])[..|s|] == s;
          assert c' == (s' + [c'])[|s'|] == (s + [c])[|s|] == c;
        } else {
          assert s' + [c'] in old(Nodes);
        }
      }
      }
      assert Injective() by {
      forall s1, s2 | s1 in Nodes && s2 in Nodes && s1 != s2 ensures Nodes[s1] != Nodes[s2] {
        if s1 != s + [c] && s2 != s + [c] {
          assert old(Nodes)[s1] != old(Nodes)[s2];
        }
      }
      }
      assert DownClosed() by {
      forall s', c' | s' in Nodes && c' in Nodes[s'].children
        ensures s' + [c'] in Nodes && Nodes[s' + [c']] == Nodes[s'].children[c']
      {
        if s' == s {
          if c' != c {
            assert c' in old(node.children);
          }
        } else if s' != s + [c] {
          assert old(Nodes)[s'] != node;
          assert c' in old(Nodes[s'].children);
        }
      }
      }
      assert HasWordWithPrefix(Words + {w}, s + [c]);
      assert s + [c] !in Words by {
        if s + [c] in Words {
          WordIsPrefix(Words, s + [c]);
        }
      }
    }

    /** The end of `Insert`: sets the terminal flag of the node that spells `w`. */
    method MarkWord(node: TrieNode, w: string)
      requires Shape() && Marks(Words) && Sound(Words + {w}) && Complete(Words)
      requires w in Nodes && Nodes[w] == node
      modifies this, node
      ensures Valid() && Words == old(Words) + {w}
      ensures root == old(root) && Nodes == old(Nodes) && Repr == old(Repr)
    {
      CompleteWith(w);
      node.isWord := true;
      Words := Words + {w};
      assert Marks(Words) by {
        forall s | s in Nodes ensures Nodes[s].isWord <==> s in Words {
          if s != w {
            assert Nodes[s] != node;
          }
        }
      }
    }

    /** Adding a word whose whole spelling is in the tree keeps `Complete`. */
    lemma CompleteWith(w: string)
      requires Shape() && Complete(Words) && w in Nodes
      ensures Complete(Words + {w})
    {
      forall s | HasWordWithPrefix(Words + {w}, s) ensures s in Nodes {
        var v :| v in Words + {w} && s <= v;
        if v == w {
          assert s == w[..|s|];
          AncestorIn(w, |s|);
        } else {
          assert HasWordWithPrefix(Words, s);
        }
      }
    }

    /** `isPrefix`: walks `p` and answers whether every step found a child. */
    method IsPrefix(p: string) returns (b: bool)
      requires Valid()
      ensures b <==> p == [] || HasWordWithPrefix(Words, p)
    {
      var node := root;
      var i := 0;
      while i < |p|
        invariant 0 <= i <= |p|
        invariant p[..i] in Nodes && Nodes[p[..i]] == node
      {
        assert p[..i + 1] == p[..i] + [p[i]];
        if p[i] !in node.children {
          PrefixHasChild(p, i);
          return false;
        }
        node := node.children[p[i]];
        i := i + 1;
      }
      assert p[..|p|] == p;
      return true;
    }

    /** `isWord`: walks `s` and answers the terminal flag of the node reached. */
    method IsWord(s: string) returns (b: bool)
      requires Valid()
      ensures b <==> s in Words
    {
      var node := root;
      var i := 0;
      while i < |s|
        invariant 0 <= i <= |s|
        invariant s[..i] in Nodes && Nodes[s[..i]] == node
      {
        assert s[..i + 1] == s[..i] + [s[i]];
        if s[i] !in node.children {
          PrefixHasChild(s, i);
          assert s <= s;
          return false;
        }
        node := node.children[s[i]];
        i := i + 1;
      }
      assert s[..|s|] == s;
      return node.isWord;
    }

    /** Every prefix of a spelling in the tree is in the tree. */
    lemma {:induction false} AncestorIn(t: string, k: nat)
      requires Shape() && t in Nodes && k <= |t|
      ensures t[..k] in Nodes
      decreases |t| - k
    {
      if k < |t| {
        var p := t[..|t| - 1];
        assert t == p + [t[|t| - 1]];
        assert p + [t[|t| - 1]] in Nodes;
        AncestorIn(p, k);
        assert p[..k] == t[..k];
      } else {
        assert t[..k] == t;
      }
    }

    /** Along a walk, every prefix of a stored word finds its next child. */
    lemma PrefixHasChild(p: string, i: nat)
      requires Valid() && i < |p| && p[..i] in Nodes
      ensures HasWordWithPrefix(Words, p) ==> p[i] in Nodes[p[..i]].children
    {
      if HasWordWithPrefix(Words, p) {
        PrefixOfPrefix(Words, p, i + 1);
        assert p[..i + 1] == p[..i] + [p[i]];
      }
    }
  }

  /** `buildTrie`: a fresh trie holding exactly the words of `words`. */
  method BuildTrie(words: seq<string>) returns (t: Trie)
    ensures fresh(t) && fresh(t.Repr) && t.Valid()
    ensures t.Words == set w | w in words
  {
    t := new Trie();
    for i := 0 to |words|
      invariant t.Valid() && fresh(t) && fresh(t.Repr)
      invariant t.Words == set w | w in words[..i]
    {
      t.Insert(words[i]);
      assert words[..i + 1] == words[..i] + [words[i]];
    }
    assert words[..|words|] == words;
  }

  /** A word is a prefix of itself, so whatever `IsWord` accepts, `IsPrefix`
      accepts too. */
  lemma WordIsPrefix(words: set<string>, s: string)
    requires s in words
    ensures HasWordWithPrefix(words, s)
  {
    assert s <= s;
  }
}
