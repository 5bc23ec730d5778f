/**
 * The alphabet of the dictionary: the 26 lower-case letters 'a'..'z'.
 * Every trie node has one child slot per letter, indexed by `c - 'a'`.
 */
module Letters {

  /** Number of child slots per node (the length of every `Node[]` array). */
  const Width: nat := 26

  predicate IsLetter(c: char) {
    'a' <= c <= 'z'
  }

  /** A word whose every character can index a child slot. */
  predicate IsWord(w: string) {
    forall i :: 0 <= i < |w| ==> IsLetter(w[i])
  }

  /** The slot of letter `c`, the Java expression `c - 'a'`. */
  function Index(c: char): (i: nat)
    requires IsLetter(c)
    ensures i < Width
  {
    c as int - 'a' as int
  }

  /** The letter of slot `i`, the Java expression `(char) ('a' + i)`. */
  function Letter(i: nat): (c: char)
    requires i < Width
    ensures IsLetter(c)
    ensures Index(c) == i
  {
    ('a' as int + i) as char
  }

  /** Slot numbering is a bijection between letters and 0..25. */
  lemma LetterOfIndex(c: char)
    requires IsLetter(c)
    ensures Letter(Index(c)) == c
  {
  }

  lemma WordSlices(w: string, i: int, j: int)
    requires IsWord(w) && 0 <= i <= j <= |w|
    ensures IsWord(w[i..j]) && IsWord(w[..i]) && IsWord(w[i..])
  {
  }
}
