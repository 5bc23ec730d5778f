/**
 * `Trie.equals`, `Trie.matchNodes` and `Trie.hashCode`.
 *
 * `matchNodes` as written returns the result for the FIRST slot where both
 * nodes have a child, so later slots are never compared. `MatchNodes`
 * models that literally; `MatchAll` is the comparison of every slot that
 * the method evidently intends, and `EqualsIntended` the `equals` built on it.
 */
module TrieEquality {
  import opened Wrappers
  import opened Letters
  import opened Tries

  /** `matchNodes(n1, n2)` as written. */
  function MatchNodes(n1: Node, n2: Node): (r: bool)
    requires Valid(n1) && Valid(n2)
    ensures r ==> n1.frequency == n2.frequency
    decreases n1, Width + 1
  {
    if n1.frequency != n2.frequency then false else MatchSlots(n1, n2, 0)
  }

  /** The `for` loop of `matchNodes` from slot `i`: the first pair of present children decides. */
  function MatchSlots(n1: Node, n2: Node, i: nat): (r: bool)
    requires Valid(n1) && Valid(n2) && i <= Width
    ensures r && i < Width ==> (n1.nodes[i].None? <==> n2.nodes[i].None?)
    ensures (forall j :: i <= j < Width ==> n1.nodes[j].None? && n2.nodes[j].None?) ==> r
    decreases n1, Width - i
  {
    if i == Width then true
    else if n1.nodes[i].Some? && n2.nodes[i].Some? then MatchNodes(n1.nodes[i].value, n2.nodes[i].value)
    else if n1.nodes[i].None? && n2.nodes[i].None? then MatchSlots(n1, n2, i + 1)
    else false
  }

  /** The `for` loop of `equals` over the root slots from `i`: every pair of present children must match. */
  function RootSlotsMatch(r1: Node, r2: Node, i: nat): (r: bool)
    requires Valid(r1) && Valid(r2) && i <= Width
    ensures r ==> forall j :: i <= j < Width ==> (r1.nodes[j].None? <==> r2.nodes[j].None?)
    ensures r ==> forall j :: i <= j < Width && r1.nodes[j].Some? ==> MatchNodes(r1.nodes[j].value, r2.nodes[j].value)
    decreases Width - i
  {
    if i == Width then true
    else if r1.nodes[i].Some? && r2.nodes[i].Some? then
      MatchNodes(r1.nodes[i].value, r2.nodes[i].value) && RootSlotsMatch(r1, r2, i + 1)
    else if r1.nodes[i].None? && r2.nodes[i].None? then RootSlotsMatch(r1, r2, i + 1)
    else false
  }

  /** `equals(o)` for another `Trie`; identity, null and class checks have no value counterpart. */
  function Equals(t1: Trie, t2: Trie): (r: bool)
    requires ValidTrie(t1) && ValidTrie(t2)
    ensures r ==> t1.wordCount == t2.wordCount && t1.nodeCount == t2.nodeCount
  {
    && t2.wordCount == t1.wordCount
    && t2.nodeCount == t1.nodeCount
    && RootSlotsMatch(Top(t1), Top(t2), 0)
  }

  /** Java's `int` arithmetic: the value modulo 2^32, read as a signed 32-bit number. */
  function Int32(x: int): (r: int)
    ensures -0x8000_0000 <= r < 0x8000_0000
    ensures (r - x) % 0x1_0000_0000 == 0
  {
    (x + 0x8000_0000) % 0x1_0000_0000 - 0x8000_0000
  }

  /** `hashCode()`: `nodeCount * 13 + wordCount * 31` in 32-bit arithmetic. */
  function HashCode(t: Trie): (r: int)
    ensures -0x8000_0000 <= r < 0x8000_0000
  {
    Int32(t.nodeCount * 13 + t.wordCount * 31)
  }

  /** Tries that are `equals` have the same `hashCode`, as Java's contract for the pair demands. */
  lemma EqualsHashCode(t1: Trie, t2: Trie)
    requires ValidTrie(t1) && ValidTrie(t2) && Equals(t1, t2)
    ensures HashCode(t1) == HashCode(t2)
  {
  }

  lemma {:induction false} MatchNodesReflexive(n: Node)
    requires Valid(n)
    ensures MatchNodes(n, n)
    decreases n, Width + 1
  {
    MatchSlotsReflexive(n, 0);
  }

  lemma {:induction false} MatchSlotsReflexive(n: Node, i: nat)
    requires Valid(n) && i <= Width
    ensures MatchSlots(n, n, i)
    decreases n, Width - i
  {
    if i < Width {
      if n.nodes[i].Some? {
        MatchNodesReflexive(n.nodes[i].value);
      } else {
        MatchSlotsReflexive(n, i + 1);
      }
    }
  }

  lemma {:induction false} RootSlotsReflexive(r: Node, i: nat)
    requires Valid(r) && i <= Width
    ensures RootSlotsMatch(r, r, i)
    decreases Width - i
  {
    if i < Width {
      if r.nodes[i].Some? {
        MatchNodesReflexive(r.nodes[i].value);
      }
      RootSlotsReflexive(r, i + 1);
    }
  }

  /** `equals` is reflexive, early return notwithstanding. */
  lemma EqualsReflexive(t: Trie)
    requires ValidTrie(t)
    ensures Equals(t, t)
  {
    RootSlotsReflexive(Top(t), 0);
  }

  /** The intended `matchNodes`: equal frequencies and every slot matching. */
  function MatchAll(n1: Node, n2: Node): (r: bool)
    requires Valid(n1) && Valid(n2)
    ensures r ==> n1.frequency == n2.frequency
    decreases n1, Width + 1
  {
    n1.frequency == n2.frequency && MatchAllFrom(n1, n2, 0)
  }

  function MatchAllFrom(n1: Node, n2: Node, i: nat): bool
    requires Valid(n1) && Valid(n2) && i <= Width
    decreases n1, Width - i
  {
    if i == Width then true
    else if n1.nodes[i].Some? && n2.nodes[i].Some? then
      MatchAll(n1.nodes[i].value, n2.nodes[i].value) && MatchAllFrom(n1, n2, i + 1)
    else if n1.nodes[i].None? && n2.nodes[i].None? then MatchAllFrom(n1, n2, i + 1)
    else false
  }

  /** The intended `equals`: equal counters and every root slot matching with `MatchAll`. */
  function EqualsIntended(t1: Trie, t2: Trie): bool
    requires ValidTrie(t1) && ValidTrie(t2)
  {
    && t2.wordCount == t1.wordCount
    && t2.nodeCount == t1.nodeCount
    && MatchAllFrom(Top(t1), Top(t2), 0)
  }

  /** `MatchAll` is exactly structural equality of the two subtrees. */
  lemma {:induction false} MatchAllIsEquality(n1: Node, n2: Node)
    requires Valid(n1) && Valid(n2)
    ensures MatchAll(n1, n2) <==> n1 == n2
    decreases n1, Width + 1
  {
    MatchAllFromIsEquality(n1, n2, 0);
    if n1.frequency == n2.frequency && n1.nodes[0..] == n2.nodes[0..] {
      assert n1.nodes == n1.nodes[0..] && n2.nodes == n2.nodes[0..];
    }
  }

  lemma {:induction false} MatchAllFromIsEquality(n1: Node, n2: Node, i: nat)
    requires Valid(n1) && Valid(n2) && i <= Width
    ensures MatchAllFrom(n1, n2, i) <==> n1.nodes[i..] == n2.nodes[i..]
    decreases n1, Width - i
  {
    if i < Width {
      MatchAllFromIsEquality(n1, n2, i + 1);
      if n1.nodes[i].Some? && n2.nodes[i].Some? {
        MatchAllIsEquality(n1.nodes[i].value, n2.nodes[i].value);
      }
      assert n1.nodes[i..] == [n1.nodes[i]] + n1.nodes[i + 1..];
      assert n2.nodes[i..] == [n2.nodes[i]] + n2.nodes[i + 1..];
    }
  }

  /** The intended `equals` holds exactly when the two tries are the same value, buffer aside. */
  lemma EqualsIntendedIsEquality(t1: Trie, t2: Trie)
    requires ValidTrie(t1) && ValidTrie(t2)
    ensures EqualsIntended(t1, t2) <==> t1.(sb := []) == t2.(sb := [])
  {
    MatchAllFromIsEquality(Top(t1), Top(t2), 0);
    assert Top(t1).nodes[0..] == t1.root && Top(t2).nodes[0..] == t2.root;
  }

  /** Whatever the intended comparison accepts, the comparison as written accepts too. */
  lemma {:induction false} MatchAllImpliesMatchNodes(n1: Node, n2: Node)
    requires Valid(n1) && Valid(n2) && MatchAll(n1, n2)
    ensures MatchNodes(n1, n2)
    decreases n1, Width + 1
  {
    MatchAllImpliesMatchSlots(n1, n2, 0);
  }

  lemma {:induction false} MatchAllImpliesMatchSlots(n1: Node, n2: Node, i: nat)
    requires Valid(n1) && Valid(n2) && i <= Width && MatchAllFrom(n1, n2, i)
    ensures MatchSlots(n1, n2, i)
    decreases n1, Width - i
  {
    if i < Width {
      if n1.nodes[i].Some? && n2.nodes[i].Some? {
        MatchAllImpliesMatchNodes(n1.nodes[i].value, n2.nodes[i].value);
      } else {
        MatchAllImpliesMatchSlots(n1, n2, i + 1);
      }
    }
  }

  lemma {:induction false} IntendedRootsImplyRoots(r1: Node, r2: Node, i: nat)
    requires Valid(r1) && Valid(r2) && i <= Width && MatchAllFrom(r1, r2, i)
    ensures RootSlotsMatch(r1, r2, i)
    decreases Width - i
  {
    if i < Width {
      if r1.nodes[i].Some? && r2.nodes[i].Some? {
        MatchAllImpliesMatchNodes(r1.nodes[i].value, r2.nodes[i].value);
      }
      IntendedRootsImplyRoots(r1, r2, i + 1);
    }
  }

  /** Equal tries compare equal under `equals` as written: it errs only by accepting too much. */
  lemma IntendedImpliesEquals(t1: Trie, t2: Trie)
    requires ValidTrie(t1) && ValidTrie(t2) && EqualsIntended(t1, t2)
    ensures Equals(t1, t2)
  {
    IntendedRootsImplyRoots(Top(t1), Top(t2), 0);
  }

  lemma {:induction false} EmptyRootSlotsMatch(r1: Node, r2: Node, i: nat)
    requires Valid(r1) && Valid(r2) && i <= Width
    requires forall j :: i <= j < Width ==> r1.nodes[j].None? && r2.nodes[j].None?
    ensures RootSlotsMatch(r1, r2, i)
    decreases Width - i
  {
    if i < Width {
      EmptyRootSlotsMatch(r1, r2, i + 1);
    }
  }

  /**
   * The early return of `matchNodes` lets `equals` accept two different
   * tries: {ab, ac} and {ab, ad} have the same counters, and the comparison
   * of the 'a' nodes stops after their matching 'b' children, so the 'c'
   * and 'd' children are never looked at.
   */
  lemma EarlyReturnCounterexample(ws1: seq<string>, ws2: seq<string>)
    requires ws1 == ["ab", "ac"] && ws2 == ["ab", "ad"]
    ensures WordList(ws1) && WordList(ws2) && IsWord("ac")
    ensures Equals(Build(ws1), Build(ws2))
    ensures !EqualsIntended(Build(ws1), Build(ws2))
    ensures Found(Build(ws1), "ac") && !Found(Build(ws2), "ac")
  {
    ACShape(ws1);
    ADShape(ws2);
    var t1 := Build(ws1);
    var t2 := Build(ws2);
    BuildFreq(ws1, "ac");
    BuildFreq(ws2, "ac");
    FirstChildDecides(t1, t2, t1.root[0].value, t2.root[0].value);
    EqualsIntendedIsEquality(t1, t2);
  }

  /**
   * Two tries whose roots have only an 'a' child, with equal frequencies, no
   * 'a' child and the same 'b' child, are `equals` whatever else lies below.
   */
  lemma FirstChildDecides(t1: Trie, t2: Trie, a1: Node, a2: Node)
    requires ValidTrie(t1) && ValidTrie(t2)
    requires t1.nodeCount == t2.nodeCount && t1.wordCount == t2.wordCount
    requires forall j :: 1 <= j < Width ==> t1.root[j].None? && t2.root[j].None?
    requires t1.root[0] == Some(a1) && t2.root[0] == Some(a2) && Valid(a1) && Valid(a2)
    requires a1.frequency == a2.frequency
    requires a1.nodes[0] == None == a2.nodes[0]
    requires a1.nodes[1].Some? && a1.nodes[1] == a2.nodes[1]
    ensures Equals(t1, t2)
  {
    MatchNodesReflexive(a1.nodes[1].value);
    assert MatchSlots(a1, a2, 1);
    assert MatchNodes(a1, a2);
    EmptyRootSlotsMatch(Top(t1), Top(t2), 1);
  }

  /** In the trie of `["ab", "ac"]`, the root has only an 'a' node, which stores nothing itself, has no 'a' child and a leaf 'b' child. */
  lemma ACShape(ws: seq<string>)
    requires ws == ["ab", "ac"]
    ensures WordList(ws) && IsWord("ac") && "ac" in ws
    ensures var t := Build(ws);
      && t.nodeCount == 4 && t.wordCount == 2
      && (forall j :: 1 <= j < Width ==> t.root[j].None?)
      && t.root[0].Some? && Valid(t.root[0].value) && t.root[0].value.frequency == 0
      && t.root[0].value.nodes[0] == None
      && t.root[0].value.nodes[1] == Some(Node(1, seq(Width, _ => None)))
  {
    var t := Build(["ab", "ac"]);
    var a := t.root[0].value;
    assert a.frequency == 0;
    assert a.nodes[0] == None;
  }

  /** In the trie of `["ab", "ad"]`, the root has only an 'a' node, which stores nothing itself, has no 'a' child and a leaf 'b' child. */
  lemma ADShape(ws: seq<string>)
    requires ws == ["ab", "ad"]
    ensures WordList(ws) && IsWord("ac") && "ac" !in ws
    ensures var t := Build(ws);
      && t.nodeCount == 4 && t.wordCount == 2
      && (forall j :: 1 <= j < Width ==> t.root[j].None?)
      && t.root[0].Some? && Valid(t.root[0].value) && t.root[0].value.frequency == 0
      && t.root[0].value.nodes[0] == None
      && t.root[0].value.nodes[1] == Some(Node(1, seq(Width, _ => None)))
  {
    var t := Build(["ab", "ad"]);
    var a := t.root[0].value;
    assert a.frequency == 0;
    assert a.nodes[0] == None;
  }
}
