/** Dictionary-of-children string trie (string_trie.py). In a trie every node is reached
    from the root by exactly one string, so the model stores the node reached by u under
    the key u: `nodes[u]` holds the characters of its children and its terminal flag, the
    child of u by c is `nodes[u + [c]]`, and the parent of u is the node under u without
    its last character. */
module Tries {
  import opened Wrappers

  datatype Node = Node(children: set<char>, terminal: bool)

  /** The parent link: the root (the empty path) has none. */
  function Parent(u: string): (r: Option<string>)
    ensures r.None? <==> |u| == 0
    ensures r.Some? ==> r.value + [u[|u| - 1]] == u
  {
    if |u| == 0 then None else Some(u[..|u| - 1])
  }

  /** The shape every trie keeps: the root exists and is never a word, each listed child
      exists, and each node other than the root is listed as a child of its parent. */
  ghost predicate Shaped(nodes: map<string, Node>)
  {
    [] in nodes && !nodes[[]].terminal &&
    (forall u, c {:trigger c in nodes[u].children} :: u in nodes && c in nodes[u].children ==> u + [c] in nodes) &&
    (forall u, c {:trigger u + [c] in nodes} :: u + [c] in nodes ==> u in nodes && c in nodes[u].children)
  }

  /** The words the trie holds: find(t) answers whether t is one. */
  predicate Accepts(nodes: map<string, Node>, t: string)
  {
    t in nodes && nodes[t].terminal
  }

  predicate IsPrefix(t: string, s: string)
  {
    |t| <= |s| && t == s[..|t|]
  }

  /** The paths from the root to the node of s[..i]. */
  ghost function PrefixesUpTo(s: string, i: nat): (r: set<string>)
    requires i <= |s|
    ensures forall t :: t in r <==> |t| <= i && IsPrefix(t, s)
  {
    set k | 0 <= k <= i :: s[..k]
  }

  lemma PrefixesStep(s: string, i: nat)
    requires i < |s|
    ensures PrefixesUpTo(s, i + 1) == PrefixesUpTo(s, i) + {s[..i + 1]}
  {
  }

  /** The paths from the root to the node of s. */
  ghost function Prefixes(s: string): (r: set<string>)
    ensures forall t :: t in r <==> IsPrefix(t, s)
  {
    PrefixesUpTo(s, |s|)
  }

  lemma AppendInjective(u: string, a: char, v: string, b: char)
    requires u + [a] == v + [b]
    ensures u == v && a == b
  {
    assert u == (u + [a])[..|u|];
    assert v == (v + [b])[..|v|];
  }

  /** Every prefix of a node's path is a node. */
  lemma {:induction false} PrefixIn(nodes: map<string, Node>, t: string, k: nat)
    requires Shaped(nodes) && t in nodes && k <= |t|
    ensures t[..k] in nodes
    decreases |t|
  {
    if k < |t| {
      var u := t[..|t| - 1];
      assert u + [t[|t| - 1]] == t;
      assert u[..k] == t[..k];
      PrefixIn(nodes, u, k);
    } else {
      assert t[..k] == t;
    }
  }

  /** The empty string is never a word. */
  lemma EmptyNotFound(nodes: map<string, Node>)
    requires Shaped(nodes)
    ensures !Accepts(nodes, [])
  {
  }

  /** The arena after `curr.children.setdefault(c, Node(parent=curr))` creates the child. */
  function AddChild(nodes: map<string, Node>, p: string, c: char): (r: map<string, Node>)
    requires p in nodes
    ensures r.Keys == nodes.Keys + {p + [c]}
  {
    nodes[p := nodes[p].(children := nodes[p].children + {c})][p + [c] := Node({}, false)]
  }

  /** Creating a missing child keeps the shape and the words. */
  lemma AddChildFacts(nodes: map<string, Node>, p: string, c: char)
    requires Shaped(nodes) && p in nodes && c !in nodes[p].children
    ensures p + [c] !in nodes
    ensures Shaped(AddChild(nodes, p, c))
    ensures forall t :: Accepts(AddChild(nodes, p, c), t) <==> Accepts(nodes, t)
  {
    var r := AddChild(nodes, p, c);
    forall u, d | u in r && d in r[u].children
      ensures u + [d] in r
    {
      if u == p + [c] {
      } else if u == p {
      } else {
        assert u in nodes && d in nodes[u].children;
      }
    }
    forall u, d | u + [d] in r
      ensures u in r && d in r[u].children
    {
      if u + [d] == p + [c] {
        AppendInjective(u, d, p, c);
      } else {
        assert u + [d] in nodes;
        if u == p + [c] {
          assert false;
        }
      }
    }
  }

  /** Changing the terminal flag of the node of x changes whether x is a word, and
      nothing else. */
  lemma SetTerminalFacts(nodes: map<string, Node>, x: string, b: bool)
    requires Shaped(nodes) && x in nodes && (|x| == 0 ==> !b)
    ensures Shaped(nodes[x := nodes[x].(terminal := b)])
    ensures forall t :: Accepts(nodes[x := nodes[x].(terminal := b)], t) <==> if t == x then b else Accepts(nodes, t)
  {
    var r := nodes[x := nodes[x].(terminal := b)];
    assert r.Keys == nodes.Keys;
    assert forall u :: u in r ==> r[u].children == nodes[u].children;
    assert [] in r && !r[[]].terminal;
    forall t
      ensures Accepts(r, t) <==> if t == x then b else Accepts(nodes, t)
    {
      if t == x {
        assert r[t].terminal == b;
      }
    }
  }

  /** The arena after `del curr.children[c]`: the link and the child it led to are gone. */
  function Unlink(nodes: map<string, Node>, p: string, c: char): (r: map<string, Node>)
    requires p in nodes
    ensures r.Keys == nodes.Keys - {p + [c]}
    ensures r[p].children == nodes[p].children - {c}
  {
    assert p != p + [c];
    (nodes - {p + [c]})[p := nodes[p].(children := nodes[p].children - {c})]
  }

  /** Unlinking a childless node keeps the shape and loses exactly the word p + [c], if
      it was one. */
  lemma UnlinkFacts(nodes: map<string, Node>, p: string, c: char)
    requires Shaped(nodes) && p + [c] in nodes && nodes[p + [c]].children == {}
    ensures p in nodes
    ensures Shaped(Unlink(nodes, p, c))
    ensures forall t :: Accepts(Unlink(nodes, p, c), t) <==> Accepts(nodes, t) && t != p + [c]
  {
    var r := Unlink(nodes, p, c);
    forall u, d | u in r && d in r[u].children
      ensures u + [d] in r
    {
      assert u + [d] in nodes;
      if u + [d] == p + [c] {
        AppendInjective(u, d, p, c);
      }
    }
    forall u, d | u + [d] in r
      ensures u in r && d in r[u].children
    {
      assert u in nodes && d in nodes[u].children;
      if u == p {
        assert d != c;
      }
    }
  }

  /** The state at the head of delete's upward loop with i characters of s left: cur is the
      node of s[..i-1], and its child by s[i-1] has no children. */
  ghost predicate PruneReady(nodes: map<string, Node>, s: string, i: nat, cur: Option<string>)
  {
    i <= |s| && Shaped(nodes) &&
    (i > 0 ==> cur == Some(s[..i - 1]) && s[..i] in nodes && nodes[s[..i]].children == {})
  }

  /** The upward loop of delete as written: unlink the current character, stop when the
      node still has children, otherwise continue from its parent. */
  function PruneAsWritten(nodes: map<string, Node>, s: string, i: nat, cur: Option<string>): (r: map<string, Node>)
    requires i <= |s|
    ensures r.Keys <= nodes.Keys
    decreases i
  {
    if i == 0 || cur.None? || cur.value !in nodes then nodes
    else
      var p := cur.value;
      var n' := Unlink(nodes, p, s[i - 1]);
      if |n'[p].children| > 0 then n' else PruneAsWritten(n', s, i - 1, Parent(p))
  }

  /** One iteration of the upward loop loses only the word s[..i], and when it continues
      the loop state holds for the parent. */
  lemma PruneStep(nodes: map<string, Node>, s: string, i: nat, cur: Option<string>)
    requires PruneReady(nodes, s, i, cur) && i > 0
    ensures cur.Some? && cur.value in nodes
    ensures Shaped(Unlink(nodes, cur.value, s[i - 1]))
    ensures forall t :: Accepts(Unlink(nodes, cur.value, s[i - 1]), t) <==> Accepts(nodes, t) && t != s[..i]
    ensures Unlink(nodes, cur.value, s[i - 1])[cur.value].children == {} ==>
              PruneReady(Unlink(nodes, cur.value, s[i - 1]), s, i - 1, Parent(cur.value))
  {
    var p := s[..i - 1];
    assert p + [s[i - 1]] == s[..i];
    UnlinkFacts(nodes, p, s[i - 1]);
    if i > 1 {
      assert p[..i - 2] == s[..i - 2];
    }
  }

  /** The upward loop keeps the shape, adds no word, and loses only words that are
      prefixes of s. */
  lemma {:induction false} PruneAsWrittenFacts(nodes: map<string, Node>, s: string, i: nat, cur: Option<string>)
    requires PruneReady(nodes, s, i, cur)
    ensures var r := PruneAsWritten(nodes, s, i, cur);
            Shaped(r) &&
            (forall t :: Accepts(r, t) ==> Accepts(nodes, t)) &&
            (forall t :: Accepts(nodes, t) && !IsPrefix(t, s) ==> Accepts(r, t))
    decreases i
  {
    if i > 0 {
      PruneStep(nodes, s, i, cur);
      var p := cur.value;
      var n' := Unlink(nodes, p, s[i - 1]);
      if |n'[p].children| == 0 {
        PruneAsWrittenFacts(n', s, i - 1, Parent(p));
      }
    }
  }

  /** delete(s) as written: follow s (an absent path changes nothing), clear the terminal
      flag of its node, and when that node has no children prune upwards. */
  function DeleteAsWritten(nodes: map<string, Node>, s: string): (r: map<string, Node>)
    ensures r.Keys <= nodes.Keys
  {
    if s !in nodes then nodes
    else
      var n1 := nodes[s := nodes[s].(terminal := false)];
      if |n1[s].children| > 0 then n1 else PruneAsWritten(n1, s, |s|, Parent(s))
  }

  /** After delete(s) as written: the trie keeps its shape, s is no word, no word is added,
      every word that is not a prefix of s survives, and an absent path changes nothing. */
  lemma DeleteAsWrittenFacts(nodes: map<string, Node>, s: string)
    requires Shaped(nodes)
    ensures var r := DeleteAsWritten(nodes, s);
            Shaped(r) && !Accepts(r, s) &&
            (forall t :: Accepts(r, t) ==> Accepts(nodes, t)) &&
            (forall t :: Accepts(nodes, t) && !IsPrefix(t, s) ==> Accepts(r, t)) &&
            (s !in nodes ==> r == nodes)
  {
    if s in nodes {
      SetTerminalFacts(nodes, s, false);
      var n1 := nodes[s := nodes[s].(terminal := false)];
      if |n1[s].children| == 0 {
        assert s[..|s|] == s;
        PruneAsWrittenFacts(n1, s, |s|, Parent(s));
      }
    }
  }

  /** The upward loop with the check the source leaves out: it also stops at a node that
      is itself a word. */
  function PruneKeepingWords(nodes: map<string, Node>, s: string, i: nat, cur: Option<string>): (r: map<string, Node>)
    requires i <= |s|
    ensures r.Keys <= nodes.Keys
    decreases i
  {
    if i == 0 || cur.None? || cur.value !in nodes then nodes
    else
      var p := cur.value;
      var n' := Unlink(nodes, p, s[i - 1]);
      if |n'[p].children| > 0 || n'[p].terminal then n' else PruneKeepingWords(n', s, i - 1, Parent(p))
  }

  /** The corrected upward loop keeps the shape and loses no word, given that the childless
      node it unlinks first is not a word. */
  lemma {:induction false} PruneKeepingWordsFacts(nodes: map<string, Node>, s: string, i: nat, cur: Option<string>)
    requires PruneReady(nodes, s, i, cur) && (i > 0 ==> !Accepts(nodes, s[..i]))
    ensures Shaped(PruneKeepingWords(nodes, s, i, cur))
    ensures forall t :: Accepts(PruneKeepingWords(nodes, s, i, cur), t) <==> Accepts(nodes, t)
    decreases i
  {
    if i > 0 {
      PruneStep(nodes, s, i, cur);
      var p := cur.value;
      var n' := Unlink(nodes, p, s[i - 1]);
      if |n'[p].children| == 0 && !n'[p].terminal {
        PruneKeepingWordsFacts(n', s, i - 1, Parent(p));
      }
    }
  }

  /** delete(s) with the corrected upward loop. */
  function DeleteKeepingWords(nodes: map<string, Node>, s: string): (r: map<string, Node>)
    ensures r.Keys <= nodes.Keys
  {
    if s !in nodes then nodes
    else
      var n1 := nodes[s := nodes[s].(terminal := false)];
      if |n1[s].children| > 0 then n1 else PruneKeepingWords(n1, s, |s|, Parent(s))
  }

  /** The corrected delete keeps the shape and removes exactly the word s. */
  lemma DeleteKeepingWordsExact(nodes: map<string, Node>, s: string)
    requires Shaped(nodes)
    ensures Shaped(DeleteKeepingWords(nodes, s))
    ensures forall t :: Accepts(DeleteKeepingWords(nodes, s), t) <==> Accepts(nodes, t) && t != s
  {
    if s in nodes {
      SetTerminalFacts(nodes, s, false);
      var n1 := nodes[s := nodes[s].(terminal := false)];
      if |n1[s].children| == 0 {
        assert s[..|s|] == s;
        PruneKeepingWordsFacts(n1, s, |s|, Parent(s));
      }
    }
  }

  /** The trie holding exactly "a" and "ab": what insert("a") then insert("ab") build. */
  function TrieAAb(): map<string, Node>
  {
    map["" := Node({'a'}, false), "a" := Node({'b'}, true), "ab" := Node({}, true)]
  }

  /** The trie after inserting "a" and "ab" is well formed and holds both words. */
  lemma TrieAAbShaped()
    ensures Shaped(TrieAAb()) && Accepts(TrieAAb(), "a") && Accepts(TrieAAb(), "ab")
  {
    var n := TrieAAb();
    assert "a" + ['b'] == "ab" && "" + ['a'] == "a";
    forall u, c | u in n && c in n[u].children
      ensures u + [c] in n
    {
      if u == "" {
        assert c == 'a';
      } else {
        assert u == "a" && c == 'b';
      }
    }
    forall u, c | u + [c] in n
      ensures u in n && c in n[u].children
    {
      if u + [c] == "a" {
        AppendInjective(u, c, "", 'a');
      } else {
        assert u + [c] == "ab";
        AppendInjective(u, c, "a", 'b');
      }
    }
  }

  /** Deleting "ab" as written also loses the word "a": the upward loop unlinks the node of
      "a" because it checks for children only, not for the terminal flag. */
  lemma DeleteLosesPrefix()
    ensures Shaped(TrieAAb()) && Accepts(TrieAAb(), "a") && Accepts(TrieAAb(), "ab")
    ensures !Accepts(DeleteAsWritten(TrieAAb(), "ab"), "a")
  {
    TrieAAbShaped();
    var n := TrieAAb();
    assert "ab"[..1] == "a" && "a"[..0] == "";
    var n1 := n["ab" := n["ab"].(terminal := false)];
    assert "a" + ['b'] == "ab" && "" + ['a'] == "a";
    var n2 := Unlink(n1, "a", 'b');
    assert PruneAsWritten(n1, "ab", 2, Some("a")) == PruneAsWritten(n2, "ab", 1, Some(""));
    assert "a" !in Unlink(n2, "", 'a');
  }

  /** The corrected delete keeps "a" on the same input. */
  lemma DeleteKeepingWordsKeepsPrefix()
    ensures Accepts(DeleteKeepingWords(TrieAAb(), "ab"), "a")
  {
    var n := TrieAAb();
    assert "ab"[..1] == "a" && "a"[..0] == "";
    var n1 := n["ab" := n["ab"].(terminal := false)];
    assert "a" + ['b'] == "ab";
    var n2 := Unlink(n1, "a", 'b');
    assert PruneKeepingWords(n1, "ab", 2, Some("a")) == n2;
  }


  class StringTrie {
    var nodes: map<string, Node>
    /** The strings passed to insert so far. */
    ghost var inserted: set<string>

    ghost predicate Valid()
      reads this
    {
      Shaped(nodes) && forall t {:trigger Accepts(nodes, t)} :: Accepts(nodes, t) ==> t in inserted
    }

    /** A trie with only its root. */
    constructor()
      ensures Valid() && inserted == {}
      ensures nodes == map[[] := Node({}, false)]
    {
      nodes := map[[] := Node({}, false)];
      inserted := {};
    }

    /** find(s): follows s from the root and answers whether its node is terminal. */
    method Find(s: string) returns (b: bool)
      requires Valid()
      ensures b <==> Accepts(nodes, s)
      ensures b ==> s in inserted
    {
      var cur: string := [];
      for i := 0 to |s|
        invariant cur == s[..i] && cur in nodes
      {
        if s[i] !in nodes[cur].children {
          assert cur + [s[i]] == s[..i + 1];
          if s in nodes {
            PrefixIn(nodes, s, i + 1);
          }
          return false;
        }
        assert cur + [s[i]] == s[..i + 1];
        cur := cur + [s[i]];
      }
      assert s[..|s|] == s;
      return nodes[cur].terminal;
    }

    /** insert(s): the empty string is ignored; otherwise follows s from the root, creating
        each missing child, and marks the last node terminal. */
    method Insert(s: string)
      requires Valid()
      modifies this
      ensures Valid() && inserted == old(inserted) + (if |s| == 0 then {} else {s})
      ensures forall t :: Accepts(nodes, t) <==> Accepts(old(nodes), t) || (t == s && |s| > 0)
      ensures nodes.Keys == old(nodes.Keys) + (if |s| == 0 then {} else Prefixes(s))
      ensures |s| == 0 ==> nodes == old(nodes)
    {
      if |s| == 0 {
        return;
      }
      var cur: string := [];
      for i := 0 to |s|
        invariant Shaped(nodes) && cur == s[..i] && cur in nodes
        invariant forall t :: Accepts(nodes, t) <==> Accepts(old(nodes), t)
        invariant nodes.Keys == old(nodes.Keys) + PrefixesUpTo(s, i)
        invariant inserted == old(inserted)
      {
        assert cur + [s[i]] == s[..i + 1];
        PrefixesStep(s, i);
        if s[i] !in nodes[cur].children {
          AddChildFacts(nodes, cur, s[i]);
          nodes := AddChild(nodes, cur, s[i]);
        }
        cur := cur + [s[i]];
      }
      assert s[..|s|] == s;
      SetTerminalFacts(nodes, s, true);
      nodes := nodes[cur := nodes[cur].(terminal := true)];
      inserted := inserted + {s};
      forall t | Accepts(nodes, t)
        ensures t in inserted
      {
        if t != s {
          assert Accepts(old(nodes), t);
        }
      }
    }

    /** delete(s) as the source writes it: DeleteAsWritten, whose properties
        DeleteAsWrittenFacts states. */
    method Delete(s: string)
      requires Valid()
      modifies this
      ensures Valid() && inserted == old(inserted)
      ensures nodes == DeleteAsWritten(old(nodes), s)
      ensures !Accepts(nodes, s)
    {
      ghost var n0 := nodes;
      ghost var target := DeleteAsWritten(nodes, s);
      var cur: string := [];
      for i := 0 to |s|
        invariant nodes == old(nodes) && inserted == old(inserted)
        invariant cur == s[..i] && cur in nodes
      {
        assert cur + [s[i]] == s[..i + 1];
        if s[i] !in nodes[cur].children {
          if s in nodes {
            PrefixIn(nodes, s, i + 1);
          }
          DeleteAsWrittenFacts(n0, s);
          return;
        }
        cur := cur + [s[i]];
      }
      assert s[..|s|] == s;
      SetTerminalFacts(nodes, s, false);
      nodes := nodes[cur := nodes[cur].(terminal := false)];
      if |nodes[cur].children| > 0 {
        DeleteAsWrittenFacts(n0, s);
        return;
      }
      var up := Parent(cur);
      var i: nat := |s|;
      while i > 0
        invariant PruneReady(nodes, s, i, up)
        invariant PruneAsWritten(nodes, s, i, up) == target
        invariant inserted == old(inserted)
      {
        PruneStep(nodes, s, i, up);
        var p := up.value;
        nodes := Unlink(nodes, p, s[i - 1]);
        if |nodes[p].children| > 0 {
          DeleteAsWrittenFacts(n0, s);
          return;
        }
        up := Parent(p);
        i := i - 1;
      }
      DeleteAsWrittenFacts(n0, s);
    }
  }

  /** A well-formed trie whose nodes are the paths "", "a" and "ab", with "a" and "ab"
      words, is TrieAAb: the shape fixes every children set. */
  lemma ShapedIsTrieAAb(nodes: map<string, Node>)
    requires Shaped(nodes) && nodes.Keys == {"", "a", "ab"}
    requires Accepts(nodes, "a") && Accepts(nodes, "ab")
    ensures nodes == TrieAAb()
  {
    assert "" + ['a'] == "a" && "a" + ['b'] == "ab";
    forall c | c in nodes[""].children
      ensures c == 'a'
    {
      assert "" + [c] in nodes;
      assert ("" + [c])[0] == c;
    }
    forall c | c in nodes["a"].children
      ensures c == 'b'
    {
      assert "a" + [c] in nodes;
      assert |"a" + [c]| == 2 && ("a" + [c])[1] == c;
    }
    assert nodes[""] == Node({'a'}, false);
    assert nodes["a"] == Node({'b'}, true);
    assert nodes["ab"] == Node({}, true);
  }

  /** insert("a") and insert("ab") on a new trie build TrieAAb, which finds "a"; after
      delete("ab") as written, find("a") answers False. */
  method DeleteAfterInserts() returns (before: bool, after: bool)
    ensures before && !after
  {
    var t := new StringTrie();
    t.Insert("a");
    t.Insert("ab");
    assert Prefixes("a") == {"", "a"} by {
      assert "a"[..0] == "" && "a"[..1] == "a";
    }
    assert Prefixes("ab") == {"", "a", "ab"} by {
      assert "ab"[..0] == "" && "ab"[..1] == "a" && "ab"[..2] == "ab";
    }
    ShapedIsTrieAAb(t.nodes);
    before := t.Find("a");
    t.Delete("ab");
    DeleteLosesPrefix();
    after := t.Find("a");
  }
}
