/**
 * `spell/SpellCorrector.java`: the correction engine.
 *
 * The two `TreeMap` fields `possibleWords` (variants found in the
 * dictionary, with their frequency) and `nonceWords` (variants not found,
 * with 0) are created once by the constructor and never cleared, so they
 * are part of the corrector's state and are threaded through `Suggest`.
 * A `TreeMap` is a `map<string, nat>` whose iteration order is
 * `AscendingKeys`.
 */
module SpellCorrector {
  import opened Wrappers
  import opened Letters
  import opened Lex
  import opened Tries
  import opened Edits

  type Candidates = map<string, nat>

  datatype Corrector = Corrector(dictionary: Trie, possibleWords: Candidates, nonceWords: Candidates)

  predicate WordKeys(m: Candidates) {
    forall k :: k in m ==> IsWord(k)
  }

  predicate AllWords(vs: set<string>) {
    forall v :: v in vs ==> IsWord(v)
  }

  predicate ValidCorrector(c: Corrector) {
    ValidTrie(c.dictionary) && WordKeys(c.possibleWords) && WordKeys(c.nonceWords)
  }

  function Elems(vs: seq<string>): set<string> {
    set v | v in vs
  }

  /** `new SpellCorrector()`: an empty dictionary and two empty candidate maps. */
  function NewCorrector(): (c: Corrector)
    ensures ValidCorrector(c)
    ensures c.possibleWords == map[] && c.nonceWords == map[]
    ensures StoredKeys(c.dictionary, c.possibleWords)
    ensures forall w :: IsWord(w) ==> !Found(c.dictionary, w)
  {
    Corrector(Empty(), map[], map[])
  }

  /**
   * `useDictionary`, once the file has been split into tokens: every token is
   * added to the dictionary; the candidate maps are left as they are.
   */
  function UseDictionary(c: Corrector, ws: seq<string>): (r: Corrector)
    requires ValidCorrector(c) && WordList(ws)
    ensures ValidCorrector(r)
    ensures r.possibleWords == c.possibleWords && r.nonceWords == c.nonceWords
    ensures forall v :: IsWord(v) ==> Freq(r.dictionary, v) == Freq(c.dictionary, v) + multiset(ws)[v]
  {
    forall v | IsWord(v)
      ensures Freq(AddAll(c.dictionary, ws), v) == Freq(c.dictionary, v) + multiset(ws)[v]
    {
      AddAllFreq(c.dictionary, ws, v);
    }
    c.(dictionary := AddAll(c.dictionary, ws))
  }

  /** The found candidates among `vs`, each with its dictionary frequency. */
  function HitsAmong(dict: Trie, vs: set<string>): (m: Candidates)
    requires ValidTrie(dict) && AllWords(vs)
    ensures forall v :: v in m ==> v in vs && Found(dict, v) && m[v] > 0
  {
    map v | v in vs && Found(dict, v) :: Freq(dict, v)
  }

  /** The candidates among `vs` that are not found, each with 0. */
  function MissesAmong(dict: Trie, vs: set<string>): (m: Candidates)
    requires ValidTrie(dict) && AllWords(vs)
    ensures forall v :: v in m ==> v in vs && !Found(dict, v) && m[v] == 0
  {
    map v | v in vs && !Found(dict, v) :: 0
  }

  /**
   * The body of the generator loops: each variant in turn is looked up once
   * and put into the hit map with its frequency, or into the miss map with 0.
   * The net effect: the hit map gains exactly the found variants, the miss
   * map exactly the others, and entries for other keys are untouched.
   */
  function Record(dict: Trie, vs: seq<string>, hits: Candidates, misses: Candidates): (r: (Candidates, Candidates))
    requires ValidTrie(dict) && AllWords(Elems(vs))
    ensures r.0 == hits + HitsAmong(dict, Elems(vs))
    ensures r.1 == misses + MissesAmong(dict, Elems(vs))
    decreases |vs|
  {
    if |vs| == 0 then (hits, misses)
    else
      var s := vs[0];
      assert Elems(vs) == {s} + Elems(vs[1..]);
      var rest := Elems(vs[1..]);
      match Find(dict, s)
      case Some(n) =>
        PutHit(dict, s, rest, hits);
        SkipMiss(dict, s, rest, misses);
        Record(dict, vs[1..], hits[s := n.frequency], misses)
      case None =>
        PutMiss(dict, s, rest, misses);
        SkipHit(dict, s, rest);
        Record(dict, vs[1..], hits, misses[s := 0])
  }

  /** A found variant put into the hit map. */
  lemma PutHit(dict: Trie, s: string, rest: set<string>, hits: Candidates)
    requires ValidTrie(dict) && IsWord(s) && AllWords(rest) && Found(dict, s)
    ensures hits[s := Find(dict, s).value.frequency] + HitsAmong(dict, rest) == hits + HitsAmong(dict, {s} + rest)
  {
    var a := hits[s := Find(dict, s).value.frequency] + HitsAmong(dict, rest);
    var b := hits + HitsAmong(dict, {s} + rest);
    assert a.Keys == b.Keys;
    forall k | k in a
      ensures a[k] == b[k]
    {
    }
  }

  /** An unfound variant put into the miss map. */
  lemma PutMiss(dict: Trie, s: string, rest: set<string>, misses: Candidates)
    requires ValidTrie(dict) && IsWord(s) && AllWords(rest) && !Found(dict, s)
    ensures misses[s := 0] + MissesAmong(dict, rest) == misses + MissesAmong(dict, {s} + rest)
  {
    var a := misses[s := 0] + MissesAmong(dict, rest);
    var b := misses + MissesAmong(dict, {s} + rest);
    assert a.Keys == b.Keys;
    forall k | k in a
      ensures a[k] == b[k]
    {
    }
  }

  /** A found variant leaves the miss map alone. */
  lemma SkipMiss(dict: Trie, s: string, rest: set<string>, misses: Candidates)
    requires ValidTrie(dict) && IsWord(s) && AllWords(rest) && Found(dict, s)
    ensures MissesAmong(dict, rest) == MissesAmong(dict, {s} + rest)
  {
  }

  /** An unfound variant leaves the hit map alone. */
  lemma SkipHit(dict: Trie, s: string, rest: set<string>)
    requires ValidTrie(dict) && IsWord(s) && AllWords(rest) && !Found(dict, s)
    ensures HitsAmong(dict, rest) == HitsAmong(dict, {s} + rest)
  {
  }

  /** `deleteLetter(word, map, map2)`. */
  function DeleteLetter(dict: Trie, w: string, hits: Candidates, misses: Candidates): (r: (Candidates, Candidates))
    requires ValidTrie(dict) && IsWord(w)
    ensures AllWords(Elems(Deletions(w)))
    ensures r.0 == hits + HitsAmong(dict, Elems(Deletions(w)))
    ensures r.1 == misses + MissesAmong(dict, Elems(Deletions(w)))
  {
    GeneratorsKeepWords(w);
    Record(dict, Deletions(w), hits, misses)
  }

  /** `transposeLetter(word, map, map2)`. */
  function TransposeLetter(dict: Trie, w: string, hits: Candidates, misses: Candidates): (r: (Candidates, Candidates))
    requires ValidTrie(dict) && IsWord(w)
    ensures AllWords(Elems(Transpositions(w)))
    ensures r.0 == hits + HitsAmong(dict, Elems(Transpositions(w)))
    ensures r.1 == misses + MissesAmong(dict, Elems(Transpositions(w)))
  {
    GeneratorsKeepWords(w);
    Record(dict, Transpositions(w), hits, misses)
  }

  /** `alterLetter(word, map, map2)`. */
  function AlterLetter(dict: Trie, w: string, hits: Candidates, misses: Candidates): (r: (Candidates, Candidates))
    requires ValidTrie(dict) && IsWord(w)
    ensures AllWords(Elems(Alterations(w)))
    ensures r.0 == hits + HitsAmong(dict, Elems(Alterations(w)))
    ensures r.1 == misses + MissesAmong(dict, Elems(Alterations(w)))
  {
    GeneratorsKeepWords(w);
    Record(dict, Alterations(w), hits, misses)
  }

  /** `insertLetter(word, map, map2)`. */
  function InsertLetter(dict: Trie, w: string, hits: Candidates, misses: Candidates): (r: (Candidates, Candidates))
    requires ValidTrie(dict) && IsWord(w)
    ensures AllWords(Elems(Insertions(w)))
    ensures r.0 == hits + HitsAmong(dict, Elems(Insertions(w)))
    ensures r.1 == misses + MissesAmong(dict, Elems(Insertions(w)))
  {
    GeneratorsKeepWords(w);
    Record(dict, Insertions(w), hits, misses)
  }

  /** The four generators in the order `suggestSimilarWord` calls them. */
  function Expand(dict: Trie, w: string, hits: Candidates, misses: Candidates): (r: (Candidates, Candidates))
    requires ValidTrie(dict) && IsWord(w)
    ensures r.0 == hits + HitsAmong(dict, Edits1(w))
    ensures r.1 == misses + MissesAmong(dict, Edits1(w))
  {
    var (h1, m1) := DeleteLetter(dict, w, hits, misses);
    var (h2, m2) := TransposeLetter(dict, w, h1, m1);
    var (h3, m3) := AlterLetter(dict, w, h2, m2);
    var r := InsertLetter(dict, w, h3, m3);
    GeneratorsKeepWords(w);
    var d, t, a, i := Elems(Deletions(w)), Elems(Transpositions(w)), Elems(Alterations(w)), Elems(Insertions(w));
    Edits1Split(w);
    HitsChain(dict, hits, d, t);
    HitsChain(dict, hits, d + t, a);
    HitsChain(dict, hits, d + t + a, i);
    MissesChain(dict, misses, d, t);
    MissesChain(dict, misses, d + t, a);
    MissesChain(dict, misses, d + t + a, i);
    r
  }

  /** The level-2 loop over the miss words, each expanded into the same pair of maps. */
  function ExpandAll(dict: Trie, nonces: seq<string>, hits: Candidates, misses: Candidates): (r: (Candidates, Candidates))
    requires ValidTrie(dict) && AllWords(Elems(nonces))
    ensures r.0 == hits + HitsAmong(dict, Edits1Of(Elems(nonces)))
    decreases |nonces|
  {
    if |nonces| == 0 then
      assert Edits1Of(Elems(nonces)) == {};
      assert hits + HitsAmong(dict, {}) == hits;
      (hits, misses)
    else
      var (h, m) := Expand(dict, nonces[0], hits, misses);
      var rest := Elems(nonces[1..]);
      assert Elems(nonces) == {nonces[0]} + rest;
      Edits1OfUnion(nonces[0], rest);
      HitsChain(dict, hits, Edits1(nonces[0]), Edits1Of(rest));
      ExpandAll(dict, nonces[1..], h, m)
  }

  /** The variants one edit away from `w`. */
  function Edits1(w: string): (s: set<string>)
    requires IsWord(w)
    ensures AllWords(s)
  {
    Elems(Variants(w))
  }

  /** The variants one edit away from some word of `ns`. */
  function Edits1Of(ns: set<string>): (s: set<string>)
    requires AllWords(ns)
    ensures AllWords(s)
    ensures forall v :: v in s <==> exists n :: n in ns && v in Edits1(n)
  {
    set n, v | n in ns && v in Edits1(n) :: v
  }

  lemma UnionAssoc(x: Candidates, y: Candidates, z: Candidates)
    ensures (x + y) + z == x + (y + z)
  {
  }

  lemma HitsAmongUnion(dict: Trie, a: set<string>, b: set<string>)
    requires ValidTrie(dict) && AllWords(a) && AllWords(b)
    ensures HitsAmong(dict, a) + HitsAmong(dict, b) == HitsAmong(dict, a + b)
  {
  }

  lemma MissesAmongUnion(dict: Trie, a: set<string>, b: set<string>)
    requires ValidTrie(dict) && AllWords(a) && AllWords(b)
    ensures MissesAmong(dict, a) + MissesAmong(dict, b) == MissesAmong(dict, a + b)
  {
  }

  lemma Edits1OfUnion(n: string, ns: set<string>)
    requires IsWord(n) && AllWords(ns)
    ensures Edits1Of({n} + ns) == Edits1(n) + Edits1Of(ns)
  {
    forall v | v in Edits1Of({n} + ns)
      ensures v in Edits1(n) + Edits1Of(ns)
    {
      Edits1OfSplit(n, ns, v);
    }
    forall v | v in Edits1(n) + Edits1Of(ns)
      ensures v in Edits1Of({n} + ns)
    {
      Edits1OfJoin(n, ns, v);
    }
  }

  lemma Edits1OfSplit(n: string, ns: set<string>, v: string)
    requires IsWord(n) && AllWords(ns) && v in Edits1Of({n} + ns)
    ensures v in Edits1(n) || v in Edits1Of(ns)
  {
    var m :| m in {n} + ns && v in Edits1(m);
    if m != n {
      assert m in ns;
    }
  }

  lemma Edits1OfJoin(n: string, ns: set<string>, v: string)
    requires IsWord(n) && AllWords(ns) && (v in Edits1(n) || v in Edits1Of(ns))
    ensures v in Edits1Of({n} + ns)
  {
    if v in Edits1(n) {
      assert n in {n} + ns;
    } else {
      var m :| m in ns && v in Edits1(m);
      assert m in {n} + ns;
    }
  }

  lemma ElemsAppend(a: seq<string>, b: seq<string>)
    ensures Elems(a + b) == Elems(a) + Elems(b)
  {
  }

  /** The one-edit variants are those of the four generators together. */
  lemma Edits1Split(w: string)
    requires IsWord(w)
    ensures Edits1(w) == Elems(Deletions(w)) + Elems(Transpositions(w)) + Elems(Alterations(w)) + Elems(Insertions(w))
  {
    var d, t, a, i := Deletions(w), Transpositions(w), Alterations(w), Insertions(w);
    ElemsAppend(d, t);
    ElemsAppend(d + t, a);
    ElemsAppend(d + t + a, i);
  }

  /** Adding the hits of `a` and then those of `b` adds the hits of `a + b`. */
  lemma HitsChain(dict: Trie, x: Candidates, a: set<string>, b: set<string>)
    requires ValidTrie(dict) && AllWords(a) && AllWords(b)
    ensures (x + HitsAmong(dict, a)) + HitsAmong(dict, b) == x + HitsAmong(dict, a + b)
  {
    HitsAmongUnion(dict, a, b);
    UnionAssoc(x, HitsAmong(dict, a), HitsAmong(dict, b));
  }

  lemma MissesChain(dict: Trie, x: Candidates, a: set<string>, b: set<string>)
    requires ValidTrie(dict) && AllWords(a) && AllWords(b)
    ensures (x + MissesAmong(dict, a)) + MissesAmong(dict, b) == x + MissesAmong(dict, a + b)
  {
    MissesAmongUnion(dict, a, b);
    UnionAssoc(x, MissesAmong(dict, a), MissesAmong(dict, b));
  }

  /** The key `k` has the greatest value in `m`, and is the least such key in ascending order. */
  predicate IsBest(m: Candidates, k: string) {
    && k in m
    && (forall x :: x in m ==> m[x] <= m[k])
    && (forall x :: x in m && m[x] == m[k] ==> LessEq(k, x))
  }

  /** At most one key is best. */
  lemma BestUnique(m: Candidates, k1: string, k2: string)
    requires IsBest(m, k1) && IsBest(m, k2)
    ensures k1 == k2
  {
    if k1 != k2 {
      LessAsymmetric(k1, k2);
    }
  }

  /**
   * The scan of `suggestSimilarWord` over the entries in the given order:
   * an entry replaces the current choice only when its value is strictly greater.
   */
  function ScanMax(keys: seq<string>, m: Candidates, best: Option<string>): (r: Option<string>)
    requires forall k :: k in keys ==> k in m
    requires best.Some? ==> best.value in m
    ensures r.None? <==> best.None? && keys == []
    ensures r.Some? ==> r.value in m && (Some(r.value) == best || r.value in keys)
    ensures r.Some? && best.Some? ==> m[best.value] <= m[r.value]
    decreases |keys|
  {
    if |keys| == 0 then best
    else
      var k := keys[0];
      ScanMax(keys[1..], m, if best.None? || m[k] > m[best.value] then Some(k) else best)
  }

  /** `k` is best in `m` among the keys `seen`. */
  predicate BestAmong(m: Candidates, seen: set<string>, k: string)
    requires seen <= m.Keys
  {
    && k in seen
    && (forall x :: x in seen ==> m[x] <= m[k])
    && (forall x :: x in seen && m[x] == m[k] ==> LessEq(k, x))
  }

  /** Scanning ascending keys keeps the first of the greatest values seen so far. */
  lemma {:induction false} ScanMaxBest(keys: seq<string>, m: Candidates, best: Option<string>, seen: set<string>)
    requires StrictlySorted(keys) && (forall k :: k in keys ==> k in m) && seen <= m.Keys
    requires forall s, k :: s in seen && k in keys ==> Less(s, k)
    requires best.None? <==> seen == {}
    requires best.Some? ==> best.value in m && BestAmong(m, seen, best.value)
    ensures ScanMax(keys, m, best).None? <==> seen == {} && keys == []
    ensures ScanMax(keys, m, best).Some? ==> BestAmong(m, seen + Elems(keys), ScanMax(keys, m, best).value)
    decreases |keys|
  {
    if |keys| > 0 {
      var k := keys[0];
      var best' := if best.None? || m[k] > m[best.value] then Some(k) else best;
      var seen' := seen + {k};
      assert BestAmong(m, seen', best'.value) by {
        if best.Some? && best' == best {
          assert Less(best.value, k);
        }
      }
      forall s, k' | s in seen' && k' in keys[1..]
        ensures Less(s, k')
      {
        if s == k {
          assert keys[0] == s;
        }
      }
      assert seen' + Elems(keys[1..]) == seen + Elems(keys);
      ScanMaxBest(keys[1..], m, best', seen');
    }
  }

  /**
   * The entry `suggestSimilarWord` picks from a `TreeMap`: none for an empty
   * map, otherwise the greatest frequency, ties going to the smallest key.
   */
  function MaxEntry(m: Candidates): (r: Option<string>)
    ensures r.None? <==> m == map[]
    ensures r.Some? ==> IsBest(m, r.value)
  {
    var keys := AscendingKeys(m.Keys);
    ScanMaxBest(keys, m, None, {});
    assert Elems(keys) == m.Keys;
    ScanMax(keys, m, None)
  }

  /** The level-1 hits of `w`: its one-edit variants in the dictionary, with their frequencies. */
  function Level1Hits(dict: Trie, w: string): Candidates
    requires ValidTrie(dict) && IsWord(w)
  {
    HitsAmong(dict, Edits1(w))
  }

  /** The level-1 misses of `w`: its one-edit variants not in the dictionary, each with 0. */
  function Level1Misses(dict: Trie, w: string): Candidates
    requires ValidTrie(dict) && IsWord(w)
  {
    MissesAmong(dict, Edits1(w))
  }

  /** The level-2 hits of `w`: dictionary words one edit away from a level-1 miss. */
  function Level2Hits(dict: Trie, w: string): Candidates
    requires ValidTrie(dict) && IsWord(w)
  {
    HitsAmong(dict, Edits1Of(Level1Misses(dict, w).Keys))
  }

  /**
   * The four generator calls of `suggestSimilarWord` on the query, into the
   * corrector's own maps: the hit map gains the level-1 hits, the miss map
   * the level-1 misses, and nothing else changes.
   */
  function ExpandQuery(c: Corrector, input: string): (c': Corrector)
    requires ValidCorrector(c) && IsWord(input)
    ensures ValidCorrector(c') && c'.dictionary == c.dictionary
    ensures c'.possibleWords == c.possibleWords + Level1Hits(c.dictionary, input)
    ensures c'.nonceWords == c.nonceWords + Level1Misses(c.dictionary, input)
  {
    var (hits, misses) := Expand(c.dictionary, input, c.possibleWords, c.nonceWords);
    c.(possibleWords := hits, nonceWords := misses)
  }

  /** The level-2 loop over the keys of a miss map, in ascending order, finds exactly their hits. */
  lemma ExpandAllKeys(dict: Trie, ms: set<string>)
    requires ValidTrie(dict) && AllWords(ms)
    ensures AllWords(Elems(AscendingKeys(ms)))
    ensures ExpandAll(dict, AscendingKeys(ms), map[], map[]).0 == HitsAmong(dict, Edits1Of(ms))
  {
    var keys := AscendingKeys(ms);
    assert Elems(keys) == ms;
    var h := HitsAmong(dict, Edits1Of(ms));
    EmptyUnion(h);
  }

  /**
   * The second level of `suggestSimilarWord`: every key of the miss map is
   * expanded into fresh maps, and the best of the fresh hit map is chosen;
   * `null` exactly when no word one edit away from a miss is stored.
   */
  function SecondLevel(dict: Trie, misses: Candidates): (r: Option<string>)
    requires ValidTrie(dict) && WordKeys(misses)
    ensures r.None? <==> HitsAmong(dict, Edits1Of(misses.Keys)) == map[]
    ensures r.Some? ==> IsBest(HitsAmong(dict, Edits1Of(misses.Keys)), r.value)
  {
    ExpandAllKeys(dict, misses.Keys);
    var (hits2, _) := ExpandAll(dict, AscendingKeys(misses.Keys), map[], map[]);
    MaxEntry(hits2)
  }

  /**
   * `suggestSimilarWord(inputWord)`: returns the suggestion (None for `null`)
   * and the corrector with its candidate maps as the call leaves them. A
   * stored input is returned as is and nothing changes. Otherwise the maps
   * gain this query's level-1 hits and misses, and the choice is the best
   * entry of the whole hit map, or, when that map is empty, the best word
   * one edit away from any key of the whole miss map.
   */
  function Suggest(c: Corrector, input: string): (r: (Option<string>, Corrector))
    requires ValidCorrector(c) && IsWord(input)
    ensures ValidCorrector(r.1) && r.1.dictionary == c.dictionary
    ensures Found(c.dictionary, input) ==> r == (Some(input), c)
    ensures !Found(c.dictionary, input) ==>
              && r.1.possibleWords == c.possibleWords + Level1Hits(c.dictionary, input)
              && r.1.nonceWords == c.nonceWords + Level1Misses(c.dictionary, input)
    ensures !Found(c.dictionary, input) && r.1.possibleWords != map[] ==>
              r.0.Some? && IsBest(r.1.possibleWords, r.0.value)
    ensures !Found(c.dictionary, input) && r.1.possibleWords == map[] ==>
              && (r.0.None? <==> HitsAmong(c.dictionary, Edits1Of(r.1.nonceWords.Keys)) == map[])
              && (r.0.Some? ==> IsBest(HitsAmong(c.dictionary, Edits1Of(r.1.nonceWords.Keys)), r.0.value))
    ensures r.0.Some? ==> IsWord(r.0.value)
  {
    var dict := c.dictionary;
    if Found(dict, input) then (Some(input), c)
    else
      var c' := ExpandQuery(c, input);
      var best := MaxEntry(c'.possibleWords);
      if best.Some? then (best, c')
      else (SecondLevel(dict, c'.nonceWords), c')
  }

  /** Adding entries to an empty map gives just those entries. */
  lemma EmptyUnion(m: Candidates)
    ensures map[] + m == m
  {
  }

  /**
   * `suggestSimilarWord` on a corrector whose candidate maps are empty: the
   * input itself when stored; otherwise the best level-1 hit; otherwise, only
   * when level 1 found nothing, the best level-2 hit; `null` exactly when
   * both levels found nothing. A suggestion is always a dictionary word.
   */
  lemma SuggestFromEmptyMaps(c: Corrector, input: string)
    requires ValidCorrector(c) && IsWord(input)
    requires c.possibleWords == map[] && c.nonceWords == map[]
    ensures var (r, c') := Suggest(c, input);
      && (Found(c.dictionary, input) ==> r == Some(input) && c' == c)
      && (r.Some? ==> IsWord(r.value) && Found(c.dictionary, r.value))
    ensures !Found(c.dictionary, input) ==>
      var (r, c') := Suggest(c, input);
      var l1 := Level1Hits(c.dictionary, input);
      var l2 := Level2Hits(c.dictionary, input);
      && c'.possibleWords == l1
      && c'.nonceWords == Level1Misses(c.dictionary, input)
      && (r.None? <==> l1 == map[] && l2 == map[])
      && (l1 != map[] ==> r.Some? && IsBest(l1, r.value))
      && (l1 == map[] && r.Some? ==> IsBest(l2, r.value))
  {
    var dict := c.dictionary;
    var (r, c') := Suggest(c, input);
    if !Found(dict, input) {
      EmptyUnion(Level1Hits(dict, input));
      EmptyUnion(Level1Misses(dict, input));
    }
  }

  /**
   * The suggestion with candidate maps that start empty on every query (the
   * evident intent; see `StateLeakCounterexample` for the code as written).
   */
  function SuggestFresh(dict: Trie, input: string): (r: Option<string>)
    requires ValidTrie(dict) && IsWord(input)
    ensures Found(dict, input) ==> r == Some(input)
    ensures r.Some? ==> IsWord(r.value) && Found(dict, r.value)
    ensures !Found(dict, input) ==>
              (r.None? <==> Level1Hits(dict, input) == map[] && Level2Hits(dict, input) == map[])
    ensures !Found(dict, input) && Level1Hits(dict, input) != map[] ==> r.Some? && IsBest(Level1Hits(dict, input), r.value)
    ensures !Found(dict, input) && Level1Hits(dict, input) == map[] && r.Some? ==> IsBest(Level2Hits(dict, input), r.value)
  {
    SuggestFromEmptyMaps(Corrector(dict, map[], map[]), input);
    Suggest(Corrector(dict, map[], map[]), input).0
  }

  /** `dict` stores the one word `x` and nothing else. */
  ghost predicate StoresOnly(dict: Trie, x: string)
    requires ValidTrie(dict)
  {
    forall v :: IsWord(v) ==> (Found(dict, v) <==> v == x)
  }

  /** The dictionary built from `["cat"]` stores exactly "cat". */
  lemma CatDictionary()
    ensures WordList(["cat"])
    ensures StoresOnly(Build(["cat"]), "cat")
  {
    forall v | IsWord(v)
      ensures Found(Build(["cat"]), v) <==> v == "cat"
    {
      BuildFreq(["cat"], v);
    }
  }

  /** Replacing one letter of `w` gives one of its level-1 variants. */
  lemma ReplaceIsVariant(w: string, i: nat, c: char)
    requires IsWord(w) && i < |w| && IsLetter(c)
    ensures ReplaceAt(w, i, c) in Edits1(w)
  {
    AlterFromMembers(w, 0, ReplaceAt(w, i, c));
    assert ReplaceAt(w, i, c) in Alterations(w);
  }

  /** A word at least three letters longer than the only stored word has no level-1 or level-2 hit. */
  lemma FarFromOnlyWord(dict: Trie, x: string, w: string)
    requires ValidTrie(dict) && StoresOnly(dict, x)
    requires IsWord(w) && |w| >= |x| + 3
    ensures Level1Hits(dict, w) == map[]
    ensures Level2Hits(dict, w) == map[]
  {
    forall v | v in Edits1(w)
      ensures !Found(dict, v)
    {
      VariantLengths(w, v);
    }
    var misses := Level1Misses(dict, w).Keys;
    forall v | v in Edits1Of(misses)
      ensures !Found(dict, v)
    {
      var n :| n in misses && v in Edits1(n);
      VariantLengths(w, n);
      VariantLengths(n, v);
    }
  }

  /** Every key of `m` is a stored word. */
  ghost predicate StoredKeys(dict: Trie, m: Candidates)
    requires ValidTrie(dict)
  {
    forall k :: k in m ==> IsWord(k) && Found(dict, k)
  }

  /** Loading more words keeps every hit a stored word: `add` only ever raises frequencies. */
  lemma UseDictionaryKeepsStored(c: Corrector, ws: seq<string>)
    requires ValidCorrector(c) && WordList(ws) && StoredKeys(c.dictionary, c.possibleWords)
    ensures StoredKeys(UseDictionary(c, ws).dictionary, UseDictionary(c, ws).possibleWords)
  {
    var r := UseDictionary(c, ws);
    forall k | k in r.possibleWords
      ensures Found(r.dictionary, k)
    {
      FindAgreesWithFreq(c.dictionary, k);
      FindAgreesWithFreq(r.dictionary, k);
    }
  }

  /**
   * A query keeps every hit a stored word, and then its suggestion, if any,
   * is a stored word: level-1 hits are found words, and so are level-2 hits.
   */
  lemma SuggestKeepsStored(c: Corrector, w: string)
    requires ValidCorrector(c) && IsWord(w) && StoredKeys(c.dictionary, c.possibleWords)
    ensures StoredKeys(Suggest(c, w).1.dictionary, Suggest(c, w).1.possibleWords)
    ensures Suggest(c, w).0.Some? ==> Found(c.dictionary, Suggest(c, w).0.value)
  {
  }

  /** "cat" is a level-1 hit of "cbt" when it is stored. */
  lemma CatNearCbt(dict: Trie)
    requires ValidTrie(dict) && StoresOnly(dict, "cat")
    ensures IsWord("cbt") && "cat" in Level1Hits(dict, "cbt")
  {
    CbtToCat();
    ReplaceIsVariant("cbt", 1, 'a');
  }

  /** Replacing the 'b' of "cbt" by 'a' gives "cat". */
  lemma CbtToCat()
    ensures IsWord("cat") && IsWord("cbt") && IsLetter('a')
    ensures ReplaceAt("cbt", 1, 'a') == "cat"
  {
    var v := ReplaceAt("cbt", 1, 'a');
    assert |v| == 3 && v[0] == 'c' && v[1] == 'a' && v[2] == 't';
  }

  /**
   * With only `x` stored and fresh maps, a query other than `x` that has `x` among its
   * level-1 hits is corrected to `x`, which stays in the hit map.
   */
  lemma FirstQuery(dict: Trie, x: string, w: string)
    requires ValidTrie(dict) && StoresOnly(dict, x)
    requires IsWord(w) && w != x && x in Level1Hits(dict, w)
    ensures var (r, c') := Suggest(Corrector(dict, map[], map[]), w);
      && r == Some(x)
      && x in c'.possibleWords
      && StoredKeys(dict, c'.possibleWords)
  {
    var c0 := Corrector(dict, map[], map[]);
    var l1 := Level1Hits(dict, w);
    assert IsWord(x) && Found(dict, x);
    assert !Found(dict, w);
    SuggestFromEmptyMaps(c0, w);
    var (r, c') := Suggest(c0, w);
    assert r.Some? && r.value in l1;
    assert IsWord(r.value) && Found(dict, r.value);
  }

  /** Once the hit map holds "cat" and only stored words, every query other than "cat" is corrected to "cat". */
  lemma LaterQuery(c: Corrector, w: string)
    requires ValidCorrector(c) && StoresOnly(c.dictionary, "cat")
    requires "cat" in c.possibleWords && StoredKeys(c.dictionary, c.possibleWords)
    requires IsWord(w) && w != "cat"
    ensures Suggest(c, w).0 == Some("cat")
  {
    var dict := c.dictionary;
    var (r, c') := Suggest(c, w);
    var l1 := Level1Hits(dict, w);
    assert !Found(dict, w);
    assert c'.possibleWords == c.possibleWords + l1;
    assert "cat" in c'.possibleWords;
    assert r.Some? && r.value in c'.possibleWords;
    var k := r.value;
    assert k in c.possibleWords || k in l1;
    assert IsWord(k) && Found(dict, k);
  }

  /**
   * `suggestSimilarWord` as written keeps its candidate maps between queries:
   * with a dictionary holding only "cat" (such as `Build(["cat"])`, see
   * `CatDictionary`), "cbt" is corrected to "cat", and a later query
   * "zzzzzz", which no stored word is within two edits of, is corrected to
   * "cat" as well, where a corrector with fresh maps answers `null`.
   */
  lemma StateLeakCounterexample(dict: Trie)
    requires ValidTrie(dict) && StoresOnly(dict, "cat")
    ensures IsWord("cbt") && IsWord("zzzzzz")
    ensures var (first, c1) := Suggest(Corrector(dict, map[], map[]), "cbt");
      && first == Some("cat")
      && Suggest(c1, "zzzzzz").0 == Some("cat")
      && SuggestFresh(dict, "zzzzzz") == None
  {
    var c0 := Corrector(dict, map[], map[]);
    CbtToCat();
    FarWord();
    CatNearCbt(dict);
    FirstQuery(dict, "cat", "cbt");
    LaterQuery(Suggest(c0, "cbt").1, "zzzzzz");
    FreshFindsNothing(dict, "cat", "zzzzzz");
  }

  /** "zzzzzz" is a word three letters longer than "cat". */
  lemma FarWord()
    ensures IsWord("zzzzzz") && |"zzzzzz"| == |"cat"| + 3
  {
  }

  /** With fresh maps, a word at least three letters longer than the only stored word gets `null`. */
  lemma FreshFindsNothing(dict: Trie, x: string, w: string)
    requires ValidTrie(dict) && StoresOnly(dict, x)
    requires IsWord(w) && |w| >= |x| + 3
    ensures SuggestFresh(dict, w) == None
  {
    FarFromOnlyWord(dict, x, w);
    assert !Found(dict, w);
  }
}
