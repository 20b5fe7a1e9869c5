/**
 * The prefix trie over message identifiers (localization/tree.go).
 *
 * The Go trie links heap nodes with pointers. Here the nodes live in an arena,
 * a sequence owned by the Trie object, and a child "pointer" is an index into
 * that sequence. A node created by insert is appended at the end, so a child's
 * index is always larger than its parent's; that is what makes the recursive
 * key collection terminate.
 *
 * Keys are sequences of runes (Dafny chars), as the Go loops range over runes.
 */
module Tree {
  import opened Wrappers

  /** One node: the child reached by each character, and whether a key ends here. */
  datatype TrieNode = TrieNode(children: map<char, nat>, endOfKey: bool)

  /** The root node's index in the arena. */
  const Root: nat := 0

  /** The node reached from node `i` by following the characters of `s`, if any. */
  function Walk(nodes: seq<TrieNode>, i: nat, s: string): (r: Option<nat>)
    ensures r.Some? ==> r.value < |nodes|
    ensures s == [] ==> (r.Some? <==> i < |nodes|)
    ensures s == [] && i < |nodes| ==> r == Some(i)
    decreases |s|
  {
    if i >= |nodes| then None
    else if s == [] then Some(i)
    else if s[0] in nodes[i].children then Walk(nodes, nodes[i].children[s[0]], s[1..])
    else None
  }

  /**
   * The shape every trie keeps. `paths[j]` is the string that leads from the
   * root to node `j`: the root's is empty, every edge extends its parent's
   * string by the edge's character and points forward in the arena, and every
   * node is reached from the root by its own string.
   */
  ghost predicate WellFormed(nodes: seq<TrieNode>, paths: seq<string>) {
    && |nodes| == |paths| > 0
    && paths[Root] == []
    && EdgesForward(nodes, paths)
    && AllReachable(nodes, paths)
  }

  /** Every edge points forward in the arena and extends its parent's string by the edge's character. */
  ghost predicate EdgesForward(nodes: seq<TrieNode>, paths: seq<string>)
    requires |nodes| == |paths|
  {
    forall i, c :: 0 <= i < |nodes| && c in nodes[i].children ==>
      i < nodes[i].children[c] < |nodes| && paths[nodes[i].children[c]] == paths[i] + [c]
  }

  /** Every node is reached from the root by its own string. */
  ghost predicate AllReachable(nodes: seq<TrieNode>, paths: seq<string>)
    requires |nodes| == |paths|
  {
    forall j :: 0 <= j < |nodes| ==> Walk(nodes, Root, paths[j]) == Some(j)
  }

  /** The keys a trie stores: the strings of its marked nodes. */
  function StoredKeys(nodes: seq<TrieNode>, paths: seq<string>): set<string>
    requires |paths| == |nodes|
  {
    set j | 0 <= j < |nodes| && nodes[j].endOfKey :: paths[j]
  }

  /** The members of `keys` that start with `prefix`. */
  function Matches(keys: set<string>, prefix: string): set<string> {
    set k | k in keys && prefix <= k
  }

  /** The members of `keys` strictly longer than `prefix` whose next character is in `cs`. */
  function Below(keys: set<string>, prefix: string, cs: set<char>): set<string> {
    set k | k in keys && |prefix| < |k| && prefix <= k && k[|prefix|] in cs
  }

  predicate NoDuplicates(s: seq<string>) {
    forall i, j :: 0 <= i < j < |s| ==> s[i] != s[j]
  }

  function Elements(s: seq<string>): set<string> {
    set x | x in s
  }

  /** `nodes2` keeps every node of `nodes` and every edge of those nodes. */
  ghost predicate Grows(nodes: seq<TrieNode>, nodes2: seq<TrieNode>) {
    && |nodes| <= |nodes2|
    && (forall i, c :: 0 <= i < |nodes| && c in nodes[i].children ==>
          c in nodes2[i].children && nodes2[i].children[c] == nodes[i].children[c])
  }

  // ---------------------------------------------------------------------------
  // Walking

  /** Walking `s + t` is walking `s`, then `t` from where `s` ended. */
  lemma {:induction false} WalkSplit(nodes: seq<TrieNode>, i: nat, s: string, t: string)
    ensures Walk(nodes, i, s + t) ==
            (if Walk(nodes, i, s).Some? then Walk(nodes, Walk(nodes, i, s).value, t) else None)
    decreases |s|
  {
    if i >= |nodes| {
    } else if s == [] {
      assert s + t == t;
    } else {
      assert (s + t)[0] == s[0];
      assert (s + t)[1..] == s[1..] + t;
      if s[0] in nodes[i].children {
        WalkSplit(nodes, nodes[i].children[s[0]], s[1..], t);
      }
    }
  }

  /** In a well-formed trie, the node a walk reaches is labelled by the walk's start label and the walked string. */
  lemma {:induction false} WalkLabel(nodes: seq<TrieNode>, paths: seq<string>, i: nat, s: string)
    requires WellFormed(nodes, paths) && i < |nodes|
    ensures Walk(nodes, i, s).Some? ==> paths[Walk(nodes, i, s).value] == paths[i] + s
    decreases |s|
  {
    if s != [] && s[0] in nodes[i].children {
      var m := nodes[i].children[s[0]];
      WalkLabel(nodes, paths, m, s[1..]);
      assert paths[i] + [s[0]] + s[1..] == paths[i] + s by {
        assert [s[0]] + s[1..] == s;
      }
    }
  }

  /** A walk that succeeds keeps succeeding, to the same node, once nodes and edges are only added. */
  lemma {:induction false} WalkGrows(nodes: seq<TrieNode>, nodes2: seq<TrieNode>, i: nat, s: string)
    requires Grows(nodes, nodes2)
    ensures Walk(nodes, i, s).Some? ==> Walk(nodes2, i, s) == Walk(nodes, i, s)
    decreases |s|
  {
    if i < |nodes| && s != [] && s[0] in nodes[i].children {
      WalkGrows(nodes, nodes2, nodes[i].children[s[0]], s[1..]);
    }
  }

  /** Reference definition of the stored keys: a string is stored iff walking it from the root ends on a marked node. */
  lemma StoredIffWalk(nodes: seq<TrieNode>, paths: seq<string>, s: string)
    requires WellFormed(nodes, paths)
    ensures s in StoredKeys(nodes, paths) <==>
            (Walk(nodes, Root, s).Some? && nodes[Walk(nodes, Root, s).value].endOfKey)
  {
    if Walk(nodes, Root, s).Some? {
      WalkLabel(nodes, paths, Root, s);
      assert paths[Root] + s == s;
    }
  }

  /** Following a stored key from the node of one of its prefixes always finds the next character's edge. */
  lemma ChildOnKeyPath(nodes: seq<TrieNode>, paths: seq<string>, k: string, n: nat, i: nat)
    requires WellFormed(nodes, paths)
    requires k in StoredKeys(nodes, paths)
    requires n < |nodes| && i < |k| && paths[n] == k[..i]
    ensures k[i] in nodes[n].children
  {
    var j :| 0 <= j < |nodes| && nodes[j].endOfKey && paths[j] == k;
    assert k == k[..i] + k[i..];
    WalkSplit(nodes, Root, k[..i], k[i..]);
    assert Walk(nodes, Root, k[..i]) == Some(n);
    assert Walk(nodes, n, k[i..]).Some?;
    assert k[i..][0] == k[i];
  }

  /** Following the next character of `key` from the node of its first `i` characters reaches the node of its first `i + 1`. */
  lemma StepDown(nodes: seq<TrieNode>, paths: seq<string>, n: nat, key: string, i: nat)
    requires |nodes| == |paths| && EdgesForward(nodes, paths)
    requires n < |nodes| && i < |key| && paths[n] == key[..i] && key[i] in nodes[n].children
    ensures nodes[n].children[key[i]] < |nodes| && paths[nodes[n].children[key[i]]] == key[..i + 1]
  {
    assert key[..i + 1] == key[..i] + [key[i]];
  }

  /** A node whose label is a stored key is marked. */
  lemma MarkedWhenStored(nodes: seq<TrieNode>, paths: seq<string>, n: nat)
    requires WellFormed(nodes, paths) && n < |nodes|
    requires paths[n] in StoredKeys(nodes, paths)
    ensures nodes[n].endOfKey
  {
    var j :| 0 <= j < |nodes| && nodes[j].endOfKey && paths[j] == paths[n];
    assert Walk(nodes, Root, paths[j]) == Some(j);
  }

  // ---------------------------------------------------------------------------
  // The two changes insert makes

  /** The arena after a new unmarked leaf is hung under node `n` by character `c`; the leaf is appended at the end. */
  function AddLeaf(nodes: seq<TrieNode>, n: nat, c: char): (nodes2: seq<TrieNode>)
    requires n < |nodes|
    ensures |nodes2| == |nodes| + 1 && c in nodes2[n].children && nodes2[n].children[c] == |nodes|
  {
    nodes[n := TrieNode(nodes[n].children[c := |nodes|], nodes[n].endOfKey)] + [TrieNode(map[], false)]
  }

  /** Hanging a new unmarked leaf under node `n` by character `c` keeps the shape and the stored keys. */
  lemma AddLeafKeepsKeys(nodes: seq<TrieNode>, paths: seq<string>, n: nat, c: char)
    requires WellFormed(nodes, paths) && n < |nodes| && c !in nodes[n].children
    ensures var paths2 := paths + [paths[n] + [c]];
            WellFormed(AddLeaf(nodes, n, c), paths2) && StoredKeys(AddLeaf(nodes, n, c), paths2) == StoredKeys(nodes, paths)
  {
    AddLeafEdges(nodes, paths, n, c);
    AddLeafReachable(nodes, paths, n, c);
    AddLeafStored(nodes, paths, n, c);
  }

  lemma AddLeafEdges(nodes: seq<TrieNode>, paths: seq<string>, n: nat, c: char)
    requires |nodes| == |paths| && EdgesForward(nodes, paths) && n < |nodes| && c !in nodes[n].children
    ensures EdgesForward(AddLeaf(nodes, n, c), paths + [paths[n] + [c]])
  {
    var nodes2 := AddLeaf(nodes, n, c);
    var paths2 := paths + [paths[n] + [c]];
    forall i, d | 0 <= i < |nodes2| && d in nodes2[i].children
      ensures i < nodes2[i].children[d] < |nodes2| && paths2[nodes2[i].children[d]] == paths2[i] + [d]
    {
      if i != n || d != c {
        assert d in nodes[i].children;
      }
    }
  }

  lemma AddLeafReachable(nodes: seq<TrieNode>, paths: seq<string>, n: nat, c: char)
    requires |nodes| == |paths| && AllReachable(nodes, paths) && n < |nodes| && c !in nodes[n].children
    ensures AllReachable(AddLeaf(nodes, n, c), paths + [paths[n] + [c]])
  {
    var nodes2 := AddLeaf(nodes, n, c);
    var paths2 := paths + [paths[n] + [c]];
    assert Grows(nodes, nodes2);
    forall j | 0 <= j < |nodes2|
      ensures Walk(nodes2, Root, paths2[j]) == Some(j)
    {
      if j < |nodes| {
        WalkGrows(nodes, nodes2, Root, paths[j]);
      } else {
        WalkGrows(nodes, nodes2, Root, paths[n]);
        WalkSplit(nodes2, Root, paths[n], [c]);
      }
    }
  }

  lemma AddLeafStored(nodes: seq<TrieNode>, paths: seq<string>, n: nat, c: char)
    requires |nodes| == |paths| && n < |nodes|
    ensures StoredKeys(AddLeaf(nodes, n, c), paths + [paths[n] + [c]]) == StoredKeys(nodes, paths)
  {
    var nodes2 := AddLeaf(nodes, n, c);
    var paths2 := paths + [paths[n] + [c]];
    forall k | k in StoredKeys(nodes2, paths2) ensures k in StoredKeys(nodes, paths) {
      var j :| 0 <= j < |nodes2| && nodes2[j].endOfKey && paths2[j] == k;
      assert j < |nodes|;
    }
    forall k | k in StoredKeys(nodes, paths) ensures k in StoredKeys(nodes2, paths2) {
      var j :| 0 <= j < |nodes| && nodes[j].endOfKey && paths[j] == k;
      assert nodes2[j].endOfKey && paths2[j] == k;
    }
  }

  /** Marking node `n` keeps the shape and adds exactly that node's string to the stored keys. */
  lemma MarkAddsKey(nodes: seq<TrieNode>, paths: seq<string>, n: nat)
    requires WellFormed(nodes, paths) && n < |nodes|
    ensures var nodes2 := nodes[n := TrieNode(nodes[n].children, true)];
            WellFormed(nodes2, paths) && StoredKeys(nodes2, paths) == StoredKeys(nodes, paths) + {paths[n]}
  {
    var nodes2 := nodes[n := TrieNode(nodes[n].children, true)];
    assert Grows(nodes, nodes2);
    forall j | 0 <= j < |nodes2|
      ensures Walk(nodes2, Root, paths[j]) == Some(j)
    {
      WalkGrows(nodes, nodes2, Root, paths[j]);
    }
    forall i, d | 0 <= i < |nodes2| && d in nodes2[i].children
      ensures i < nodes2[i].children[d] < |nodes2| && paths[nodes2[i].children[d]] == paths[i] + [d]
    {
      assert d in nodes[i].children;
    }
    assert StoredKeys(nodes2, paths) == StoredKeys(nodes, paths) + {paths[n]} by {
      forall k | k in StoredKeys(nodes2, paths) ensures k in StoredKeys(nodes, paths) + {paths[n]} {
        var j :| 0 <= j < |nodes2| && nodes2[j].endOfKey && paths[j] == k;
        if j != n {
          assert nodes[j].endOfKey;
        }
      }
      forall k | k in StoredKeys(nodes, paths) ensures k in StoredKeys(nodes2, paths) {
        var j :| 0 <= j < |nodes| && nodes[j].endOfKey && paths[j] == k;
        assert nodes2[j].endOfKey;
      }
      assert nodes2[n].endOfKey;
    }
  }

  // ---------------------------------------------------------------------------
  // Decomposing a prefix search along the children of a node

  /** The keys starting with `prefix + [c]` are those strictly below `prefix` whose next character is `c`. */
  lemma MatchesChild(keys: set<string>, prefix: string, c: char)
    ensures Matches(keys, prefix + [c]) == Below(keys, prefix, {c})
  {
    forall k | k in Matches(keys, prefix + [c]) ensures k in Below(keys, prefix, {c}) {
      assert k[..|prefix|] == (prefix + [c])[..|prefix|] == prefix;
      assert k[|prefix|] == (prefix + [c])[|prefix|];
    }
    forall k | k in Below(keys, prefix, {c}) ensures k in Matches(keys, prefix + [c]) {
      assert k[..|prefix| + 1] == k[..|prefix|] + [k[|prefix|]];
    }
  }

  /** `Below` over a set of characters is the union of its parts. */
  lemma BelowUnion(keys: set<string>, prefix: string, cs: set<char>, c: char)
    ensures Below(keys, prefix, cs + {c}) == Below(keys, prefix, cs) + Below(keys, prefix, {c})
  {
  }

  /** In a well-formed trie, the keys under node `n` are its own label when marked, and the keys under its children. */
  lemma MatchesAtNode(nodes: seq<TrieNode>, paths: seq<string>, n: nat)
    requires WellFormed(nodes, paths) && n < |nodes|
    ensures var keys := StoredKeys(nodes, paths);
            Matches(keys, paths[n]) ==
              (if nodes[n].endOfKey then {paths[n]} else {}) + Below(keys, paths[n], nodes[n].children.Keys)
  {
    var keys := StoredKeys(nodes, paths);
    var p := paths[n];
    forall k | k in Matches(keys, p)
      ensures k in (if nodes[n].endOfKey then {p} else {}) + Below(keys, p, nodes[n].children.Keys)
    {
      if k == p {
        MarkedWhenStored(nodes, paths, n);
      } else {
        assert |p| < |k| && k[..|p|] == p;
        ChildOnKeyPath(nodes, paths, k, n, |p|);
      }
    }
    if nodes[n].endOfKey {
      assert p in keys;
    }
  }

  /**
   * How one insert changes every search: the inserted key is added to the
   * results of each of its prefixes, and nothing else changes; in particular
   * earlier keys stay, and inserting a stored key changes no result.
   */
  lemma MatchesAfterInsert(keys: set<string>, key: string, prefix: string)
    ensures Matches(keys + {key}, prefix) == Matches(keys, prefix) + (if prefix <= key then {key} else {})
  {
  }

  lemma NoDuplicatesConcat(a: seq<string>, b: seq<string>)
    requires NoDuplicates(a) && NoDuplicates(b) && Elements(a) !! Elements(b)
    ensures NoDuplicates(a + b) && Elements(a + b) == Elements(a) + Elements(b)
  {
    forall i, j | 0 <= i < j < |a + b| ensures (a + b)[i] != (a + b)[j] {
      if i < |a| && |a| <= j {
        assert (a + b)[i] in Elements(a);
        assert (a + b)[j] == b[j - |a|];
        assert b[j - |a|] in Elements(b);
      }
    }
  }

  /**
   * One step of collecting under a node: appending the keys found under child
   * `c` to what was collected for the children `done` gives, without
   * duplicates, what is collected for `done + {c}`.
   */
  lemma CollectStep(keys: set<string>, prefix: string, own: set<string>, done: set<char>, c: char,
                    results: seq<string>, before: seq<string>, out: seq<string>)
    requires own <= {prefix} && c !in done
    requires |results| <= |before| <= |out| && out[..|before|] == before
    requires NoDuplicates(before[|results|..]) && Elements(before[|results|..]) == own + Below(keys, prefix, done)
    requires NoDuplicates(out[|before|..]) && Elements(out[|before|..]) == Matches(keys, prefix + [c])
    ensures NoDuplicates(out[|results|..]) && Elements(out[|results|..]) == own + Below(keys, prefix, done + {c})
  {
    var found := out[|before|..];
    assert out == before + found;
    assert out[|results|..] == before[|results|..] + found;
    MatchesChild(keys, prefix, c);
    BelowUnion(keys, prefix, done, c);
    assert Elements(before[|results|..]) !! Elements(found);
    NoDuplicatesConcat(before[|results|..], found);
  }

  // ---------------------------------------------------------------------------
  // The trie object

  class Trie {
    var nodes: seq<TrieNode>
    /** The string leading from the root to each node. */
    ghost var paths: seq<string>
    /** The keys inserted so far. */
    ghost var Keys: set<string>

    ghost predicate Valid()
      reads this
    {
      WellFormed(nodes, paths) && Keys == StoredKeys(nodes, paths)
    }

    /** A trie whose root has no children and no key. */
    constructor ()
      ensures Valid() && Keys == {}
    {
      nodes := [TrieNode(map[], false)];
      paths := [[]];
      Keys := {};
    }

    /**
     * Walks `key` rune by rune, creating a missing child on the way, and marks
     * the node it ends on. Inserting a key that is already there changes no node.
     */
    method Insert(key: string)
      requires Valid()
      modifies this
      ensures Valid()
      ensures Keys == old(Keys) + {key}
      ensures key in old(Keys) ==> nodes == old(nodes)
    {
      var node: nat := Root;
      var i := 0;
      while i < |key|
        invariant 0 <= i <= |key|
        invariant Valid() && Keys == old(Keys)
        invariant node < |nodes| && paths[node] == key[..i]
        invariant key in old(Keys) ==> nodes == old(nodes)
      {
        var c := key[i];
        if c !in nodes[node].children {
          if key in old(Keys) {
            ChildOnKeyPath(nodes, paths, key, node, i);
          }
          AddLeafKeepsKeys(nodes, paths, node, c);
          nodes := AddLeaf(nodes, node, c);
          paths := paths + [paths[node] + [c]];
        }
        StepDown(nodes, paths, node, key, i);
        node := nodes[node].children[c];
        i := i + 1;
      }
      assert paths[node] == key;
      if key in old(Keys) {
        MarkedWhenStored(nodes, paths, node);
      }
      MarkAddsKey(nodes, paths, node);
      nodes := nodes[node := TrieNode(nodes[node].children, true)];
      Keys := Keys + {key};
    }

    /**
     * Walks down to the node for `prefix` and collects every key below it.
     * A missing edge on the way gives the empty result.
     */
    method SearchPrefix(prefix: string) returns (results: seq<string>)
      requires Valid()
      ensures NoDuplicates(results)
      ensures Elements(results) == Matches(Keys, prefix)
      ensures Walk(nodes, Root, prefix).None? ==> results == []
    {
      var node: nat := Root;
      var i := 0;
      while i < |prefix|
        invariant 0 <= i <= |prefix|
        invariant node < |nodes| && paths[node] == prefix[..i]
        invariant Walk(nodes, Root, prefix[..i]) == Some(node)
      {
        var c := prefix[i];
        if c !in nodes[node].children {
          forall k | k in Keys ensures !(prefix <= k) {
            if prefix <= k {
              assert k[..i] == prefix[..i];
              ChildOnKeyPath(nodes, paths, k, node, i);
            }
          }
          return [];
        }
        assert prefix[..i + 1] == prefix[..i] + [c];
        WalkSplit(nodes, Root, prefix[..i], [c]);
        node := nodes[node].children[c];
        i := i + 1;
      }
      assert prefix[..i] == prefix;
      results := CollectAllKeys(node, prefix, []);
      assert results[0..] == results;
    }

    /**
     * Appends to `results` every key at or below `node`, whose string is
     * `prefix`: the node's own key first when it is marked, then the keys under
     * each child, the children taken in an unspecified order.
     */
    method CollectAllKeys(node: nat, prefix: string, results: seq<string>) returns (out: seq<string>)
      requires Valid() && node < |nodes| && prefix == paths[node]
      ensures |results| <= |out| && out[..|results|] == results
      ensures NoDuplicates(out[|results|..])
      ensures Elements(out[|results|..]) == Matches(Keys, prefix)
      decreases |nodes| - node
    {
      var children := nodes[node].children;
      var own: set<string> := if nodes[node].endOfKey then {prefix} else {};
      out := results;
      if nodes[node].endOfKey {
        out := out + [prefix];
      }
      assert out[|results|..] == if nodes[node].endOfKey then [prefix] else [];
      var remaining := children.Keys;
      while remaining != {}
        invariant remaining <= children.Keys
        invariant |results| <= |out| && out[..|results|] == results
        invariant NoDuplicates(out[|results|..])
        invariant Elements(out[|results|..]) == own + Below(Keys, prefix, children.Keys - remaining)
        decreases remaining
      {
        var c :| c in remaining;
        var before := out;
        out := CollectAllKeys(children[c], prefix + [c], out);
        CollectStep(Keys, prefix, own, children.Keys - remaining, c, results, before, out);
        assert children.Keys - (remaining - {c}) == (children.Keys - remaining) + {c};
        remaining := remaining - {c};
      }
      MatchesAtNode(nodes, paths, node);
    }
  }
}
