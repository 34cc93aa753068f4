/** The trie of strace-4.6/cde.c: nodes with 128 child slots, shared by reference and filled in place. It
    stands for a set of ASCII strings. */
module Tries {
  import opened Machine

  predicate IsAscii(s: seq<byte>) { forall i :: 0 <= i < |s| ==> s[i] < 128 }

  /** The strings that name nodes: with each of them all its prefixes. */
  ghost predicate PrefixClosed(keys: set<seq<byte>>)
  {
    [] in keys && forall p, k :: p in keys && 0 <= k <= |p| ==> p[..k] in keys
  }

  lemma StillPrefixClosed(keys: set<seq<byte>>, p: seq<byte>, c: byte)
    requires PrefixClosed(keys) && p in keys
    ensures PrefixClosed(keys + {p + [c]}) && [] in keys
  {
    var q := p + [c];
    forall k | 0 <= k <= |q| ensures q[..k] in keys + {q} {
      assert q[..k] == if k == |q| then q else p[..k];
    }
  }

  class TrieNode {
    var children: seq<TrieNode?>
    var present: bool
    ghost const path: seq<byte>

    /** TrieNew */
    constructor (ghost path: seq<byte>)
      ensures this.path == path && !present && children == seq(128, _ => null)
    {
      this.path := path;
      children := seq(128, _ => null);
      present := false;
    }

    /** The children are exactly the nodes one character further on. */
    ghost predicate Linked(nodes: map<seq<byte>, TrieNode>)
      reads this`children
    {
      |children| == 128 && forall c :: 0 <= c < 128 ==> children[c] == Child(nodes, path, c)
    }
  }

  ghost function Child(nodes: map<seq<byte>, TrieNode>, p: seq<byte>, c: byte): TrieNode?
  {
    if p + [c] in nodes then nodes[p + [c]] else null
  }

  /** Adding one node changes one slot: the one of its last character below its prefix. */
  lemma ChildAdded(nodes: map<seq<byte>, TrieNode>, p: seq<byte>, c: byte, child: TrieNode, q: seq<byte>, d: byte)
    ensures Child(nodes[p + [c] := child], q, d) == if q == p && d == c then child else Child(nodes, q, d)
  {
    if q + [d] == p + [c] {
      assert (q + [d])[..|q|] == q && (p + [c])[..|p|] == p;
      assert (q + [d])[|q|] == d && (p + [c])[|p|] == c;
    }
  }

  lemma NoNodeBelow(nodes: map<seq<byte>, TrieNode>, q: seq<byte>, d: byte)
    requires PrefixClosed(nodes.Keys) && q !in nodes
    ensures Child(nodes, q, d) == null
  {
    assert (q + [d])[..|q|] == q;
  }

  class Trie {
    const root: TrieNode
    ghost var nodes: map<seq<byte>, TrieNode>
    ghost var repr: set<TrieNode>

    ghost predicate Valid()
      reads this, repr
    {
      && PrefixClosed(nodes.Keys) && nodes[[]] == root
      && (forall p :: p in nodes ==> nodes[p] in repr)
      && (forall p :: p in nodes ==> nodes[p].path == p && IsAscii(p))
      && (forall p :: p in nodes ==> nodes[p].Linked(nodes))
    }

    ghost function Contents(): set<seq<byte>>
      reads this, repr
      requires Valid()
    {
      set p | p in nodes && nodes[p].present
    }

    constructor ()
      ensures Valid() && fresh(repr) && Contents() == {}
    {
      root := new TrieNode([]);
      new;
      nodes := map[[] := root];
      repr := {root};
    }

    /** The branch of TrieInsert that hangs a fresh node below t. */
    method AddChild(t: TrieNode, c: byte)
      requires Valid() && t.path in nodes && nodes[t.path] == t && c < 128 && t.path + [c] !in nodes
      modifies this, t`children
      ensures Valid() && fresh(repr - old(repr))
      ensures nodes.Keys == old(nodes.Keys) + {t.path + [c]}
      ensures forall p :: p in old(nodes) ==> nodes[p] == old(nodes[p])
      ensures Contents() == old(Contents())
    {
      hide PrefixClosed, Child;
      ghost var before := nodes;
      var child := new TrieNode(t.path + [c]);
      t.children := t.children[c := child];
      nodes := nodes[t.path + [c] := child];
      repr := repr + {child};
      StillPrefixClosed(before.Keys, t.path, c);
      assert nodes.Keys == before.Keys + {t.path + [c]};
      forall p | p in nodes ensures nodes[p].Linked(nodes) {
        forall d | 0 <= d < 128 ensures nodes[p].children[d] == Child(nodes, p, d) {
          ChildAdded(before, t.path, c, child, p, d);
          if p == child.path { NoNodeBelow(before, p, d); }
        }
      }
    }

    /** TrieInsert; false is the failed assertion on a character above 127. */
    method Insert(s: seq<byte>) returns (ok: bool)
      requires Valid()
      modifies this, repr
      ensures Valid() && fresh(repr - old(repr))
      ensures ok <==> IsAscii(s)
      ensures Contents() == old(Contents()) + if ok then {s} else {}
    {
      var t := root;
      assert s[..0] == [];
      for i := 0 to |s|
        invariant Valid() && fresh(repr - old(repr))
        invariant s[..i] in nodes && nodes[s[..i]] == t
        invariant Contents() == old(Contents()) && IsAscii(s[..i])
      {
        hide PrefixClosed;
        if s[i] >= 128 { return false; }
        assert s[..i + 1] == s[..i] + [s[i]];
        if t.children[s[i]] == null { AddChild(t, s[i]); }
        t := t.children[s[i]];
      }
      assert s[..|s|] == s;
      t.present := true;
      return true;
    }

    /** TrieContains; None is the read past the 128 child slots. */
    method Contains(s: seq<byte>) returns (r: Option<bool>)
      requires Valid()
      ensures IsAscii(s) ==> r.Some?
      ensures r.Some? ==> (r.value <==> s in Contents())
    {
      var t := root;
      assert s[..0] == [];
      for i := 0 to |s|
        invariant s[..i] in nodes && nodes[s[..i]] == t
      {
        if s[i] >= 128 { return None; }
        assert s[..i + 1] == s[..i] + [s[i]];
        if t.children[s[i]] == null { return Some(false); }
        t := t.children[s[i]];
      }
      assert s[..|s|] == s;
      return Some(t.present);
    }
  }
}
