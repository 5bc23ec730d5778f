/**
 * `Trie.toString` and `Trie.outputWord`: a depth-first 'a'..'z' traversal
 * that appends every stored word, followed by '\n', to the shared buffer
 * `sb`, which `toString` returns and then clears.
 *
 * The appended text is modelled as the list of words appended, in order;
 * `Lines` turns that list into the text (each word followed by '\n').
 */
module TrieText {
  import opened Wrappers
  import opened Letters
  import opened Lex
  import opened Tries

  /** The words `outputWord(prefix, n, c)` appends: `prefix + c` if stored, then the subtrees. */
  function OutputWord(prefix: string, n: Node, c: char): (r: seq<string>)
    requires Valid(n)
    ensures forall w :: w in r ==> |w| > |prefix|
    ensures n.frequency > 0 <==> |r| > 0 && r[0] == prefix + [c]
    decreases n, Width + 1, 0
  {
    var here := prefix + [c];
    (if n.frequency > 0 then [here] else []) + OutputChildren(here, n, 0)
  }

  /** The `for` loop of `outputWord` from slot `i` on: each present child in letter order. */
  function OutputChildren(prefix: string, n: Node, i: nat): (r: seq<string>)
    requires Valid(n) && i <= Width
    ensures forall w :: w in r ==> |w| > |prefix|
    decreases n, Width - i, 1
  {
    if i == Width then [] else SlotWords(prefix, n, i) + OutputChildren(prefix, n, i + 1)
  }

  /** One iteration of that loop: the words below child `i`, if present. */
  function SlotWords(prefix: string, n: Node, i: nat): (r: seq<string>)
    requires Valid(n) && i < Width
    ensures forall w :: w in r ==> |w| > |prefix|
    decreases n, Width - i, 0
  {
    match n.nodes[i]
    case None => []
    case Some(c) => OutputWord(prefix, c, Letter(i))
  }

  /** The words `toString` emits: its loop over the root slots with an empty prefix. It never emits an empty line. */
  function Listing(t: Trie): (r: seq<string>)
    requires ValidTrie(t)
    ensures forall w :: w in r ==> |w| > 0
  {
    OutputChildren([], Top(t), 0)
  }

  /** The text of a list of words, each followed by '\n'. */
  function Lines(ws: seq<string>): string {
    if |ws| == 0 then [] else ws[0] + ['\n'] + Lines(ws[1..])
  }

  /** Appending words one after another appends their lines: the buffer semantics of `sb`. */
  lemma {:induction false} LinesAppend(a: seq<string>, b: seq<string>)
    ensures Lines(a + b) == Lines(a) + Lines(b)
    decreases |a|
  {
    if |a| > 0 {
      assert (a + b)[1..] == a[1..] + b;
      LinesAppend(a[1..], b);
    } else {
      assert a + b == b;
    }
  }

  /** The text has one line per word: as many '\n' as words, when no word holds a '\n'. */
  lemma {:induction false} LinesCount(ws: seq<string>)
    requires forall i :: 0 <= i < |ws| ==> IsWord(ws[i])
    ensures multiset(Lines(ws))['\n'] == |ws|
    decreases |ws|
  {
    if |ws| > 0 {
      LinesCount(ws[1..]);
      assert multiset(ws[0])['\n'] == 0 by {
        assert '\n' !in ws[0];
      }
    }
  }

  /**
   * `toString()`: the buffer's contents followed by the traversal's text;
   * the buffer is left empty and nothing else changes.
   */
  function ToString(t: Trie): (r: (string, Trie))
    requires ValidTrie(t)
    ensures r.1 == t.(sb := [])
    ensures |r.0| >= |t.sb| && r.0[..|t.sb|] == t.sb
  {
    (t.sb + Lines(Listing(t)), t.(sb := []))
  }

  /** The words stored in a trie with their frequencies: the abstraction of the trie as a map. */
  function Contents(t: Trie): (m: map<string, nat>)
    requires ValidTrie(t)
    ensures forall w :: w in m ==> IsWord(w) && Found(t, w) && m[w] == Freq(t, w)
  {
    ListingSpec(t);
    map w | w in Listing(t) :: Freq(t, w)
  }

  lemma {:induction false} WordShape(prefix: string, n: Node, c: char)
    requires Valid(n) && IsWord(prefix) && IsLetter(c)
    ensures forall w :: w in OutputWord(prefix, n, c) ==>
              IsWord(w) && |w| > |prefix| && w[..|prefix| + 1] == prefix + [c]
    ensures StrictlySorted(OutputWord(prefix, n, c))
    decreases n, Width + 1, 0
  {
    var here := prefix + [c];
    var kids := OutputChildren(here, n, 0);
    ChildrenShape(here, n, 0);
    forall w | w in kids
      ensures w[..|prefix| + 1] == here
    {
      assert w[..|here|] == here;
    }
    if n.frequency > 0 {
      forall x, y | x in [here] && y in kids
        ensures Less(x, y)
      {
        PrefixLess(here, y);
      }
      SortedConcat([here], kids);
    } else {
      assert OutputWord(prefix, n, c) == kids;
    }
  }

  lemma {:induction false} ChildrenShape(prefix: string, n: Node, i: nat)
    requires Valid(n) && IsWord(prefix) && i <= Width
    ensures forall w :: w in OutputChildren(prefix, n, i) ==>
              IsWord(w) && |w| > |prefix| && w[..|prefix|] == prefix && i <= Index(w[|prefix|])
    ensures StrictlySorted(OutputChildren(prefix, n, i))
    decreases n, Width - i, 1
  {
    if i < Width {
      var here := SlotWords(prefix, n, i);
      var rest := OutputChildren(prefix, n, i + 1);
      SlotShape(prefix, n, i);
      ChildrenShape(prefix, n, i + 1);
      JoinSlot(prefix, here, rest, i);
      assert OutputChildren(prefix, n, i) == here + rest;
    }
  }

  lemma {:induction false} SlotShape(prefix: string, n: Node, i: nat)
    requires Valid(n) && IsWord(prefix) && i < Width
    ensures forall w :: w in SlotWords(prefix, n, i) ==>
              IsWord(w) && |w| > |prefix| && w[..|prefix| + 1] == prefix + [Letter(i)]
    ensures StrictlySorted(SlotWords(prefix, n, i))
    decreases n, Width - i, 0
  {
    match n.nodes[i]
    case None =>
    case Some(c) =>
      WordShape(prefix, c, Letter(i));
  }

  /** The words through slot `i`, followed by those through later slots, keep the shape and the order. */
  lemma JoinSlot(prefix: string, here: seq<string>, rest: seq<string>, i: nat)
    requires IsWord(prefix) && i < Width
    requires forall w :: w in here ==> IsWord(w) && |w| > |prefix| && w[..|prefix| + 1] == prefix + [Letter(i)]
    requires forall w :: w in rest ==> IsWord(w) && |w| > |prefix| && w[..|prefix|] == prefix && i + 1 <= Index(w[|prefix|])
    requires StrictlySorted(here) && StrictlySorted(rest)
    ensures forall w :: w in here + rest ==> IsWord(w) && |w| > |prefix| && w[..|prefix|] == prefix && i <= Index(w[|prefix|])
    ensures StrictlySorted(here + rest)
  {
    forall w | w in here
      ensures w[..|prefix|] == prefix && w[|prefix|] == Letter(i)
    {
      PrefixStep(w, prefix, Letter(i));
    }
    forall x, y | x in here && y in rest
      ensures Less(x, y)
    {
      assert x[..|prefix|] == y[..|prefix|];
      assert Index(x[|prefix|]) < Index(y[|prefix|]);
      ForkLess(x, y, |prefix|);
    }
    SortedConcat(here, rest);
  }

  /** The words of the traversal are words; they come in strictly ascending order. */
  lemma ListingShape(t: Trie)
    requires ValidTrie(t)
    ensures forall w :: w in Listing(t) ==> IsWord(w)
    ensures StrictlySorted(Listing(t))
  {
    ChildrenShape([], Top(t), 0);
  }

  lemma {:induction false} WordMembers(prefix: string, n: Node, c: char, w: string)
    requires Valid(n) && IsWord(prefix) && IsLetter(c) && IsWord(w)
    ensures w in OutputWord(prefix, n, c) <==>
              && |w| > |prefix|
              && w[..|prefix| + 1] == prefix + [c]
              && (if |w| == |prefix| + 1 then n.frequency > 0 else FreqAt(n, w[|prefix| + 1..]) > 0)
    decreases n, Width + 1, 0
  {
    var here := prefix + [c];
    ChildrenMembers(here, n, 0, w);
    ChildrenShape(here, n, 0);
    if w in OutputChildren(here, n, 0) {
      assert |w| > |here|;
    }
    if |w| == |here| && w[..|here|] == here {
      assert w == here;
    }
  }

  lemma {:induction false} ChildrenMembers(prefix: string, n: Node, i: nat, w: string)
    requires Valid(n) && IsWord(prefix) && i <= Width && IsWord(w)
    ensures w in OutputChildren(prefix, n, i) <==>
              && |w| > |prefix|
              && w[..|prefix|] == prefix
              && i <= Index(w[|prefix|])
              && FreqAt(n, w[|prefix|..]) > 0
    decreases n, Width - i, 1
  {
    if i < Width {
      ChildrenMembers(prefix, n, i + 1, w);
      SlotMembers(prefix, n, i, w);
    }
  }

  /** The words slot `i` contributes: those through letter `i` stored below `n`. */
  lemma {:induction false} SlotMembers(prefix: string, n: Node, i: nat, w: string)
    requires Valid(n) && IsWord(prefix) && i < Width && IsWord(w)
    ensures w in SlotWords(prefix, n, i) <==>
              && |w| > |prefix|
              && w[..|prefix|] == prefix
              && i == Index(w[|prefix|])
              && FreqAt(n, w[|prefix|..]) > 0
    decreases n, Width - i, 0
  {
    if |w| > |prefix| {
      var v := w[|prefix|..];
      assert v[0] == w[|prefix|];
      LetterOfIndex(w[|prefix|]);
      match n.nodes[i]
      case None =>
      case Some(c) =>
        WordMembers(prefix, c, Letter(i), w);
        PrefixStep(w, prefix, Letter(i));
        if |w| > |prefix| + 1 {
          assert v[1..] == w[|prefix| + 1..];
        }
    } else {
      match n.nodes[i]
      case None =>
      case Some(c) =>
        WordMembers(prefix, c, Letter(i), w);
    }
  }

  /** `w` starts with `p + [c]` exactly when it starts with `p` and has `c` next. */
  lemma PrefixStep(w: string, p: string, c: char)
    requires |w| > |p|
    ensures w[..|p| + 1] == p + [c] <==> w[..|p|] == p && w[|p|] == c
  {
    if w[..|p|] == p && w[|p|] == c {
      assert w[..|p| + 1] == w[..|p|] + [w[|p|]];
    }
    if w[..|p| + 1] == p + [c] {
      assert w[..|p|] == w[..|p| + 1][..|p|];
    }
  }

  /**
   * `toString` lists exactly the words whose `find` succeeds, each once, in
   * ascending order, whatever the insertion order or frequencies.
   */
  lemma ListingSpec(t: Trie)
    requires ValidTrie(t)
    ensures StrictlySorted(Listing(t))
    ensures forall i, j :: 0 <= i < j < |Listing(t)| ==> Listing(t)[i] != Listing(t)[j]
    ensures forall w :: w in Listing(t) ==> IsWord(w) && Found(t, w)
    ensures forall w :: IsWord(w) && Found(t, w) ==> w in Listing(t)
  {
    ListingShape(t);
    SortedDistinct(Listing(t));
    forall w | IsWord(w)
      ensures w in Listing(t) <==> Found(t, w)
    {
      ChildrenMembers([], Top(t), 0, w);
      assert w[0..] == w;
    }
  }

  /**
   * On a trie whose buffer is empty (every trie built by the constructor,
   * `add` and `toString`), `toString` returns exactly the lines of the
   * listing, and a second call returns the same text.
   */
  lemma ToStringTwice(t: Trie)
    requires ValidTrie(t) && t.sb == []
    ensures ToString(t).0 == Lines(Listing(t))
    ensures ToString(ToString(t).1).0 == ToString(t).0
  {
  }

  /** The map abstraction agrees with `find`: its keys are the found words, its values their frequencies. */
  lemma ContentsSpec(t: Trie, w: string)
    requires ValidTrie(t) && IsWord(w)
    ensures w in Contents(t) <==> Found(t, w)
    ensures w in Contents(t) ==> Contents(t)[w] == Find(t, w).value.frequency
  {
    ListingSpec(t);
  }

  /** `add(w)` bumps the count of `w` in the map abstraction and changes nothing else. */
  lemma AddContents(t: Trie, w: string)
    requires ValidTrie(t) && IsWord(w) && |w| > 0
    ensures Contents(Add(t, w)) == Contents(t)[w := (if w in Contents(t) then Contents(t)[w] else 0) + 1]
  {
    var a := Contents(Add(t, w));
    var b := Contents(t)[w := (if w in Contents(t) then Contents(t)[w] else 0) + 1];
    forall v | v in a || v in b
      ensures v in a && v in b && a[v] == b[v]
    {
      assert IsWord(v);
      ContentsSpec(t, v);
      ContentsSpec(Add(t, w), v);
      AddFreq(t, w, v);
    }
  }

  /** A trie built from a word list holds each listed word with its number of occurrences. */
  lemma BuildContents(ws: seq<string>)
    requires WordList(ws)
    ensures Contents(Build(ws)) == map w | w in multiset(ws) :: multiset(ws)[w]
  {
    var a := Contents(Build(ws));
    var b := map w | w in multiset(ws) :: multiset(ws)[w];
    forall v | v in a || v in b
      ensures v in a && v in b && a[v] == b[v]
    {
      if v in b {
        var k :| 0 <= k < |ws| && ws[k] == v;
      }
      assert IsWord(v);
      ContentsSpec(Build(ws), v);
      BuildFreq(ws, v);
    }
  }
}
