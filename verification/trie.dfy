/**
 * The 26-way trie of `spell/Trie.java`: node layout, `add`, `find`,
 * the two counters, `Node.getNode`, and loading a word list with `add`.
 *
 * A `Node[]` array is a sequence of 26 optional children. The Java class
 * keeps its top-level array in a field `root`; here the top-level array is
 * wrapped in an implicit root node `Top(t)` of frequency 0 so that walks
 * and recursions have one shape. That implicit node is the one the
 * constructor counts when it sets `nodeCount` to 1.
 */
module Tries {
  import opened Wrappers
  import opened Letters

  /** `Trie.Node`: a frequency counter and 26 child slots. */
  datatype Node = Node(frequency: nat, nodes: seq<Option<Node>>)

  /** `Trie`: the root slots, the two counters, and the shared buffer `sb` used by `toString`. */
  datatype Trie = Trie(root: seq<Option<Node>>, nodeCount: nat, wordCount: nat, sb: string)

  /** Every node has exactly 26 slots. */
  predicate Valid(n: Node)
    decreases n
  {
    && |n.nodes| == Width
    && forall i :: 0 <= i < Width ==> n.nodes[i].Some? ==> Valid(n.nodes[i].value)
  }

  function Top(t: Trie): Node {
    Node(0, t.root)
  }

  predicate ValidTrie(t: Trie) {
    Valid(Top(t))
  }

  /** `new Node()`. */
  function NewNode(): (n: Node)
    ensures Valid(n) && n.frequency == 0
    ensures forall w :: IsWord(w) ==> Walk(n, w).None?
  {
    Node(0, seq(Width, _ => None))
  }

  /**
   * The node reached from `n` by following the letters of `w`, or None if
   * some slot on the way is empty. The empty word reaches nothing, as the
   * Java loops leave `endNode` null when `word` is empty.
   */
  function Walk(n: Node, w: string): (r: Option<Node>)
    requires Valid(n) && IsWord(w)
    ensures r.Some? ==> Valid(r.value) && |w| > 0
    decreases |w|
  {
    if |w| == 0 then None
    else
      match n.nodes[Index(w[0])]
      case None => None
      case Some(c) => if |w| == 1 then Some(c) else Walk(c, w[1..])
  }

  /** The frequency stored for `w` below `n`; 0 when the path is missing or only a prefix. */
  function FreqAt(n: Node, w: string): nat
    requires Valid(n) && IsWord(w)
  {
    match Walk(n, w)
    case Some(e) => e.frequency
    case None => 0
  }

  /** How many leading letters of `w` already have a node below `n`. */
  function Depth(n: Node, w: string): (d: nat)
    requires Valid(n) && IsWord(w)
    ensures d <= |w|
    decreases |w|
  {
    if |w| == 0 then 0
    else
      match n.nodes[Index(w[0])]
      case None => 0
      case Some(c) => 1 + Depth(c, w[1..])
  }

  /** The number of nodes of the tree rooted at `n`, `n` included. */
  function Size(n: Node): (s: nat)
    requires Valid(n)
    ensures s >= 1
    decreases n, Width + 1
  {
    1 + SizeFrom(n, 0)
  }

  /** The number of nodes below the slots `i..25` of `n`. */
  function SizeFrom(n: Node, i: nat): nat
    requires Valid(n) && i <= Width
    decreases n, Width - i
  {
    if i == Width then 0
    else
      (match n.nodes[i] case None => 0 case Some(c) => Size(c)) + SizeFrom(n, i + 1)
  }

  /** `Node.getNode(c)`: the child for `c`, and null for any character outside 'a'..'z'. */
  function GetNode(n: Node, c: char): (r: Option<Node>)
    requires Valid(n)
    ensures !IsLetter(c) ==> r.None?
    ensures IsLetter(c) ==> r == Walk(n, [c])
  {
    var index := c as int - 'a' as int;
    if index < 26 && index >= 0 then n.nodes[index] else None
  }

  /** `new Trie()`. */
  function Empty(): (t: Trie)
    ensures ValidTrie(t) && t.sb == []
    ensures t.wordCount == 0 && t.nodeCount == 1 == Size(Top(t))
    ensures forall w :: IsWord(w) ==> FreqAt(Top(t), w) == 0
  {
    NewNodeSize(0);
    Trie(seq(Width, _ => None), 1, 0, [])
  }

  /**
   * The `while` loop of `add` below `n`: walk `w`, allocating a fresh node in
   * every empty slot on the way, then increment the frequency of the last
   * node. Returns the new `n` and how many nodes were allocated.
   */
  function InsertPath(n: Node, w: string): (r: (Node, nat))
    requires Valid(n) && IsWord(w) && |w| > 0
    ensures Valid(r.0) && r.0.frequency == n.frequency
    ensures r.1 == |w| - Depth(n, w)
    decreases |w|
  {
    var i := Index(w[0]);
    var child := if n.nodes[i].Some? then n.nodes[i].value else NewNode();
    var made := if n.nodes[i].Some? then 0 else 1;
    assert Valid(child);
    var (child', more) :=
      if |w| == 1 then (child.(frequency := child.frequency + 1), 0)
      else InsertPath(child, w[1..]);
    assert forall j :: 0 <= j < Width && j != i ==> n.nodes[i := Some(child')][j] == n.nodes[j];
    (n.(nodes := n.nodes[i := Some(child')]), made + more)
  }

  /** `add(word)`. Java dereferences a null `endNode` for the empty word, hence `|w| > 0`. */
  function Add(t: Trie, w: string): (r: Trie)
    requires ValidTrie(t) && IsWord(w) && |w| > 0
    ensures ValidTrie(r) && r.sb == t.sb
    ensures r.wordCount == t.wordCount + 1
    ensures r.nodeCount == t.nodeCount + |w| - Depth(Top(t), w)
  {
    var (top, made) := InsertPath(Top(t), w);
    Trie(top.nodes, t.nodeCount + made, t.wordCount + 1, t.sb)
  }

  /** `find(word)`: the terminal node when its frequency is positive, else null. */
  function Find(t: Trie, w: string): (r: Option<Node>)
    requires ValidTrie(t) && IsWord(w)
    ensures r.Some? ==> |w| > 0 && r.value.frequency > 0
  {
    match Walk(Top(t), w)
    case Some(e) => if e.frequency > 0 then Some(e) else None
    case None => None
  }

  /** The frequency `getValue()` reports for `find(w)`, or 0 when `find(w)` is null. */
  function Freq(t: Trie, w: string): nat
    requires ValidTrie(t) && IsWord(w)
  {
    FreqAt(Top(t), w)
  }

  predicate Found(t: Trie, w: string)
    requires ValidTrie(t) && IsWord(w)
  {
    Find(t, w).Some?
  }

  /** `find` succeeds exactly when the stored frequency is positive, and reports that frequency. */
  lemma FindAgreesWithFreq(t: Trie, w: string)
    requires ValidTrie(t) && IsWord(w)
    ensures Found(t, w) <==> Freq(t, w) > 0
    ensures Found(t, w) ==> Find(t, w).value.frequency == Freq(t, w)
  {
  }

  /**
   * `add(w)` raises the stored frequency of `w` by one and leaves the
   * frequency of every other word unchanged (only `endNode` is incremented).
   */
  lemma {:induction false} InsertPathFreq(n: Node, w: string, v: string)
    requires Valid(n) && IsWord(w) && |w| > 0 && IsWord(v)
    ensures FreqAt(InsertPath(n, w).0, v) == FreqAt(n, v) + (if v == w then 1 else 0)
    decreases |w|
  {
    if |v| > 0 {
      var i := Index(w[0]);
      var child := if n.nodes[i].Some? then n.nodes[i].value else NewNode();
      var child' := if |w| == 1 then child.(frequency := child.frequency + 1) else InsertPath(child, w[1..]).0;
      var n' := InsertPath(n, w).0;
      assert n' == n.(nodes := n.nodes[i := Some(child')]);
      if Index(v[0]) == i {
        assert v[0] == w[0] by { LetterOfIndex(v[0]); LetterOfIndex(w[0]); }
        if |w| > 1 && |v| > 1 {
          InsertPathFreq(child, w[1..], v[1..]);
          assert v == w <==> v[1..] == w[1..] by {
            assert v == [v[0]] + v[1..] && w == [w[0]] + w[1..];
          }
        } else if |w| > 1 {
          assert v != w;
          assert Walk(n', v) == Some(child');
          assert FreqAt(n, v) == child.frequency;
        } else if |v| > 1 {
          assert Walk(child', v[1..]) == Walk(child, v[1..]);
        }
      } else {
        assert v[0] != w[0];
      }
    }
  }

  /**
   * After `add(w)`, a path exists exactly where one existed before or where it
   * spells a non-empty prefix of `w`: the new nodes are those of `w`'s path.
   */
  lemma {:induction false} InsertPathPaths(n: Node, w: string, v: string)
    requires Valid(n) && IsWord(w) && |w| > 0 && IsWord(v)
    ensures Walk(InsertPath(n, w).0, v).Some? <==>
              Walk(n, v).Some? || (0 < |v| <= |w| && v == w[..|v|])
    decreases |w|
  {
    if |v| > 0 {
      var i := Index(w[0]);
      var child := if n.nodes[i].Some? then n.nodes[i].value else NewNode();
      if Index(v[0]) == i {
        assert v[0] == w[0] by { LetterOfIndex(v[0]); LetterOfIndex(w[0]); }
        if |w| > 1 && |v| > 1 {
          InsertPathPaths(child, w[1..], v[1..]);
          assert (|v| <= |w| && v == w[..|v|]) <==> (|v| - 1 <= |w| - 1 && v[1..] == w[1..][..|v| - 1]) by {
            assert v == [v[0]] + v[1..];
            if |v| <= |w| {
              assert w[..|v|] == [w[0]] + w[1..][..|v| - 1];
            }
          }
        } else if |v| > 1 {
          assert !(|v| <= |w|);
        } else {
          assert v == w[..|v|];
        }
      } else {
        assert v[0] != w[0];
        assert |v| <= |w| ==> v != w[..|v|] by {
          if |v| <= |w| { assert w[..|v|][0] == w[0]; }
        }
      }
    }
  }

  /** No slot is missing along `w` exactly when the whole path of `w` exists. */
  lemma {:induction false} DepthFull(n: Node, w: string)
    requires Valid(n) && IsWord(w) && |w| > 0
    ensures Depth(n, w) == |w| <==> Walk(n, w).Some?
    decreases |w|
  {
    if |w| > 1 && n.nodes[Index(w[0])].Some? {
      DepthFull(n.nodes[Index(w[0])].value, w[1..]);
    }
  }

  /** A node whose slots all hold None has no nodes below it. */
  lemma {:induction false} NewNodeSize(i: nat)
    requires i <= Width
    ensures SizeFrom(NewNode(), i) == 0
    decreases Width - i
  {
    if i < Width {
      NewNodeSize(i + 1);
    }
  }

  /** Replacing the child in slot `k` changes the count of nodes below `n` by the size difference. */
  lemma {:induction false} SizeFromReplace(n: Node, k: nat, c: Node, i: nat)
    requires Valid(n) && Valid(c) && k < Width && i <= Width
    ensures Valid(n.(nodes := n.nodes[k := Some(c)]))
    ensures SizeFrom(n.(nodes := n.nodes[k := Some(c)]), i) + (if i <= k && n.nodes[k].Some? then Size(n.nodes[k].value) else 0)
            == SizeFrom(n, i) + (if i <= k then Size(c) else 0)
    decreases Width - i
  {
    var n' := n.(nodes := n.nodes[k := Some(c)]);
    assert Valid(n') by {
      assert forall j :: 0 <= j < Width && j != k ==> n'.nodes[j] == n.nodes[j];
    }
    if i < Width {
      SizeFromReplace(n, k, c, i + 1);
    }
  }

  /** `add(w)` allocates exactly the nodes its count says: the tree grows by `r.1` nodes. */
  lemma {:induction false} InsertPathSize(n: Node, w: string)
    requires Valid(n) && IsWord(w) && |w| > 0
    ensures Size(InsertPath(n, w).0) == Size(n) + InsertPath(n, w).1
    decreases |w|
  {
    var i := Index(w[0]);
    var child := if n.nodes[i].Some? then n.nodes[i].value else NewNode();
    var child' := if |w| == 1 then child.(frequency := child.frequency + 1) else InsertPath(child, w[1..]).0;
    assert InsertPath(n, w).0 == n.(nodes := n.nodes[i := Some(child')]);
    SizeFromReplace(n, i, child', 0);
    if n.nodes[i].None? {
      NewNodeSize(0);
    }
    if |w| == 1 {
      assert SizeFrom(child', 0) == SizeFrom(child, 0) by { SameSlotsSize(child, child', 0); }
    } else {
      InsertPathSize(child, w[1..]);
    }
  }

  lemma {:induction false} SameSlotsSize(a: Node, b: Node, i: nat)
    requires Valid(a) && Valid(b) && a.nodes == b.nodes && i <= Width
    ensures SizeFrom(a, i) == SizeFrom(b, i)
    decreases Width - i
  {
    if i < Width {
      SameSlotsSize(a, b, i + 1);
    }
  }

  /** Frequencies in a trie after `add(w)`: `w` gains one, every other word keeps its count. */
  lemma AddFreq(t: Trie, w: string, v: string)
    requires ValidTrie(t) && IsWord(w) && |w| > 0 && IsWord(v)
    ensures Freq(Add(t, w), v) == Freq(t, v) + (if v == w then 1 else 0)
    ensures Found(Add(t, w), w)
    ensures v != w ==> (Found(Add(t, w), v) <==> Found(t, v))
  {
    InsertPathFreq(Top(t), w, v);
    InsertPathFreq(Top(t), w, w);
  }

  /**
   * `add(w)` counts exactly the nodes it allocates: at most `|w|` of them, and
   * none when the whole path of `w` already exists. If `nodeCount` counted the
   * nodes of the tree before, it still does.
   */
  lemma AddNodeCount(t: Trie, w: string)
    requires ValidTrie(t) && IsWord(w) && |w| > 0
    ensures t.nodeCount <= Add(t, w).nodeCount <= t.nodeCount + |w|
    ensures Add(t, w).nodeCount == t.nodeCount <==> Walk(Top(t), w).Some?
    ensures t.nodeCount == Size(Top(t)) ==> Add(t, w).nodeCount == Size(Top(Add(t, w)))
  {
    DepthFull(Top(t), w);
    InsertPathSize(Top(t), w);
    assert Top(Add(t, w)) == InsertPath(Top(t), w).0;
  }

  /** A word list, as the tokens a dictionary file yields: non-empty lower-case words. */
  predicate WordList(ws: seq<string>) {
    forall i :: 0 <= i < |ws| ==> IsWord(ws[i]) && |ws[i]| > 0
  }

  /** `add` applied to every word of `ws` in order (the body of `useDictionary`). */
  function AddAll(t: Trie, ws: seq<string>): (r: Trie)
    requires ValidTrie(t) && WordList(ws)
    ensures ValidTrie(r) && r.sb == t.sb
    ensures r.wordCount == t.wordCount + |ws|
    decreases |ws|
  {
    if |ws| == 0 then t else AddAll(Add(t, ws[0]), ws[1..])
  }

  /** A trie built from `new Trie()` by adding the words of `ws`. */
  function Build(ws: seq<string>): (r: Trie)
    requires WordList(ws)
  {
    AddAll(Empty(), ws)
  }

  /** After adding `ws`, each word's frequency has grown by the number of times it occurs in `ws`. */
  lemma {:induction false} AddAllFreq(t: Trie, ws: seq<string>, v: string)
    requires ValidTrie(t) && WordList(ws) && IsWord(v)
    ensures Freq(AddAll(t, ws), v) == Freq(t, v) + multiset(ws)[v]
    decreases |ws|
  {
    if |ws| > 0 {
      AddFreq(t, ws[0], v);
      AddAllFreq(Add(t, ws[0]), ws[1..], v);
      assert ws == [ws[0]] + ws[1..];
    }
  }

  /** Adding words never removes a path. */
  lemma {:induction false} AddAllKeepsPaths(t: Trie, ws: seq<string>, v: string)
    requires ValidTrie(t) && WordList(ws) && IsWord(v)
    requires Walk(Top(t), v).Some?
    ensures Walk(Top(AddAll(t, ws)), v).Some?
    decreases |ws|
  {
    if |ws| > 0 {
      InsertPathPaths(Top(t), ws[0], v);
      AddAllKeepsPaths(Add(t, ws[0]), ws[1..], v);
    }
  }

  /**
   * A word inserted `n` times is found with frequency `n`; a word never
   * inserted is not found, even when it is a prefix whose path exists
   * because a longer word was inserted.
   */
  lemma BuildFreq(ws: seq<string>, v: string)
    requires WordList(ws) && IsWord(v)
    ensures Freq(Build(ws), v) == multiset(ws)[v]
    ensures Found(Build(ws), v) <==> v in ws
    ensures Build(ws).wordCount == |ws|
  {
    AddAllFreq(Empty(), ws, v);
  }

  /** Prefix distinction: a stored word's proper prefix that was never inserted has a path but is not found. */
  lemma PrefixNotFound(ws: seq<string>, k: nat, p: string)
    requires WordList(ws) && k < |ws|
    requires 0 < |p| < |ws[k]| && p == ws[k][..|p|] && p !in ws
    ensures Walk(Top(Build(ws)), p).Some?
    ensures !Found(Build(ws), p)
  {
    WordSlices(ws[k], 0, |p|);
    BuildFreq(ws, p);
    var before := AddAll(Empty(), ws[..k]);
    assert WordList(ws[..k]) && WordList(ws[k..]);
    InsertPathPaths(Top(before), ws[k], p);
    AddAllSplit(Empty(), ws, k);
    AddAllKeepsPaths(Add(before, ws[k]), ws[k + 1..], p);
  }

  lemma {:induction false} AddAllSplit(t: Trie, ws: seq<string>, k: nat)
    requires ValidTrie(t) && WordList(ws) && k < |ws|
    ensures WordList(ws[..k]) && WordList(ws[k + 1..])
    ensures AddAll(t, ws) == AddAll(Add(AddAll(t, ws[..k]), ws[k]), ws[k + 1..])
    decreases k
  {
    if k > 0 {
      AddAllSplit(Add(t, ws[0]), ws[1..], k - 1);
      assert ws[1..][..k - 1] == ws[..k][1..];
      assert ws[1..][k - 1 + 1..] == ws[k + 1..];
    }
  }
}
