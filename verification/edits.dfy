/**
 * The single-character edits of `spell/SpellCorrector.java`, each the
 * `StringBuilder` manipulation one loop iteration performs, and the four
 * lists of variants the generators `deleteLetter`, `transposeLetter`,
 * `alterLetter` and `insertLetter` produce, in their loop order.
 */
module Edits {
  import opened Letters

  /** `deleteCharAt(i)`: `w` without position `i`. */
  function DeleteAt(w: string, i: nat): (r: string)
    requires i < |w|
    ensures |r| == |w| - 1
    ensures forall k :: 0 <= k < i ==> r[k] == w[k]
    ensures forall k :: i <= k < |r| ==> r[k] == w[k + 1]
  {
    w[..i] + w[i + 1..]
  }

  /** `insert(i, c)`: `c` placed before position `i` (at the end when `i == |w|`). */
  function InsertAt(w: string, i: nat, c: char): (r: string)
    requires i <= |w|
    ensures |r| == |w| + 1 && r[i] == c
    ensures forall k :: 0 <= k < i ==> r[k] == w[k]
    ensures forall k :: i < k < |r| ==> r[k] == w[k - 1]
  {
    w[..i] + [c] + w[i..]
  }

  /** `deleteCharAt(i + 1)` then `insert(i, c)` with the removed `c`: positions `i` and `i + 1` swapped. */
  function SwapAt(w: string, i: nat): (r: string)
    requires i + 1 < |w|
    ensures |r| == |w| && r[i] == w[i + 1] && r[i + 1] == w[i]
    ensures forall k :: 0 <= k < |w| && k != i && k != i + 1 ==> r[k] == w[k]
  {
    InsertAt(DeleteAt(w, i + 1), i, w[i + 1])
  }

  /** `deleteCharAt(i)` then `insert(i, c)`: position `i` replaced by `c`. */
  function ReplaceAt(w: string, i: nat, c: char): (r: string)
    requires i < |w|
    ensures |r| == |w| && r[i] == c
    ensures forall k :: 0 <= k < |w| && k != i ==> r[k] == w[k]
  {
    InsertAt(DeleteAt(w, i), i, c)
  }

  /** Putting the deleted character back where it was recovers the word. */
  lemma DeleteInsertRoundTrip(w: string, i: nat)
    requires i < |w|
    ensures InsertAt(DeleteAt(w, i), i, w[i]) == w
  {
  }

  /** Deleting an inserted character recovers the word. */
  lemma InsertDeleteRoundTrip(w: string, i: nat, c: char)
    requires i <= |w|
    ensures DeleteAt(InsertAt(w, i, c), i) == w
  {
  }

  /** Transposing the same pair twice is the identity. */
  lemma SwapInvolution(w: string, i: nat)
    requires i + 1 < |w|
    ensures SwapAt(SwapAt(w, i), i) == w
  {
  }

  /** Replacing a character by itself changes nothing: `alterLetter` includes the word itself. */
  lemma ReplaceSelf(w: string, i: nat)
    requires i < |w|
    ensures ReplaceAt(w, i, w[i]) == w
  {
  }

  /** Restoring the replaced character undoes an alteration. */
  lemma ReplaceRestore(w: string, i: nat, c: char)
    requires i < |w|
    ensures ReplaceAt(ReplaceAt(w, i, c), i, w[i]) == w
  {
    var r := ReplaceAt(ReplaceAt(w, i, c), i, w[i]);
    assert forall k :: 0 <= k < |w| ==> r[k] == w[k];
  }

  /** The edits keep words words when the letters they bring in are letters. */
  lemma EditsKeepWords(w: string)
    requires IsWord(w)
    ensures forall i :: 0 <= i < |w| ==> IsWord(DeleteAt(w, i))
    ensures forall i :: 0 <= i < |w| - 1 ==> IsWord(SwapAt(w, i))
    ensures forall i, c :: 0 <= i < |w| && IsLetter(c) ==> IsWord(ReplaceAt(w, i, c))
    ensures forall i, c :: 0 <= i <= |w| && IsLetter(c) ==> IsWord(InsertAt(w, i, c))
  {
  }

  /** The variants of `deleteLetter`: variant `i` removes position `i`. */
  function Deletions(w: string): (r: seq<string>)
    ensures |r| == |w|
    ensures forall i :: 0 <= i < |w| ==> r[i] == DeleteAt(w, i)
  {
    seq(|w|, i requires 0 <= i < |w| => DeleteAt(w, i))
  }

  /** The variants of `transposeLetter`: variant `i` swaps positions `i` and `i + 1`. */
  function Transpositions(w: string): (r: seq<string>)
    ensures |r| == if |w| == 0 then 0 else |w| - 1
    ensures forall i :: 0 <= i < |r| ==> r[i] == SwapAt(w, i)
  {
    if |w| == 0 then [] else seq(|w| - 1, i requires 0 <= i < |w| - 1 => SwapAt(w, i))
  }

  /** The variants of `alterLetter`: for each position in order, the 26 replacements 'a'..'z'. */
  function Alterations(w: string): (r: seq<string>)
    ensures |r| == |w| * Width
  {
    AlterFrom(w, 0)
  }

  /** The iterations `i..|w|-1` of the outer loop of `alterLetter`. */
  function AlterFrom(w: string, i: nat): (r: seq<string>)
    requires i <= |w|
    ensures |r| == (|w| - i) * Width
    decreases |w| - i
  {
    if i == |w| then []
    else seq(Width, j requires 0 <= j < Width => ReplaceAt(w, i, Letter(j))) + AlterFrom(w, i + 1)
  }

  /** The variants of `insertLetter`: for each position 0..|w| in order, the 26 insertions 'a'..'z'. */
  function Insertions(w: string): (r: seq<string>)
    ensures |r| == (|w| + 1) * Width
  {
    InsertFrom(w, 0)
  }

  /** The iterations `i..|w|` of the outer loop of `insertLetter`. */
  function InsertFrom(w: string, i: nat): (r: seq<string>)
    requires i <= |w| + 1
    ensures |r| == (|w| + 1 - i) * Width
    decreases |w| + 1 - i
  {
    if i == |w| + 1 then []
    else seq(Width, j requires 0 <= j < Width => InsertAt(w, i, Letter(j))) + InsertFrom(w, i + 1)
  }

  lemma DeletionsMembers(w: string, v: string)
    ensures v in Deletions(w) <==> exists i :: 0 <= i < |w| && v == DeleteAt(w, i)
  {
  }

  lemma TranspositionsMembers(w: string, v: string)
    ensures v in Transpositions(w) <==> exists i :: 0 <= i < |w| - 1 && v == SwapAt(w, i)
  {
  }

  /** `alterLetter` produces exactly the one-position replacements by a letter. */
  lemma {:induction false} AlterFromMembers(w: string, i: nat, v: string)
    requires i <= |w|
    ensures v in AlterFrom(w, i) <==> exists p, c :: i <= p < |w| && IsLetter(c) && v == ReplaceAt(w, p, c)
    decreases |w| - i
  {
    if i < |w| {
      AlterFromMembers(w, i + 1, v);
      var row := seq(Width, j requires 0 <= j < Width => ReplaceAt(w, i, Letter(j)));
      if exists c :: IsLetter(c) && v == ReplaceAt(w, i, c) {
        var c :| IsLetter(c) && v == ReplaceAt(w, i, c);
        LetterOfIndex(c);
        assert row[Index(c)] == v;
      }
      if v in row {
        var j :| 0 <= j < Width && row[j] == v;
        assert IsLetter(Letter(j)) && v == ReplaceAt(w, i, Letter(j));
      }
    }
  }

  /** `insertLetter` produces exactly the insertions of one letter at one of the `|w| + 1` positions. */
  lemma {:induction false} InsertFromMembers(w: string, i: nat, v: string)
    requires i <= |w| + 1
    ensures v in InsertFrom(w, i) <==> exists p, c :: i <= p <= |w| && IsLetter(c) && v == InsertAt(w, p, c)
    decreases |w| + 1 - i
  {
    if i <= |w| {
      InsertFromMembers(w, i + 1, v);
      var row := seq(Width, j requires 0 <= j < Width => InsertAt(w, i, Letter(j)));
      if exists c :: IsLetter(c) && v == InsertAt(w, i, c) {
        var c :| IsLetter(c) && v == InsertAt(w, i, c);
        LetterOfIndex(c);
        assert row[Index(c)] == v;
      }
      if v in row {
        var j :| 0 <= j < Width && row[j] == v;
        assert IsLetter(Letter(j)) && v == InsertAt(w, i, Letter(j));
      }
    }
  }

  /** A deletion variant is one shorter and gives back `w` once the deleted character is put back. */
  lemma DeletionShape(w: string, v: string)
    requires v in Deletions(w)
    ensures |v| == |w| - 1 && exists i :: 0 <= i < |w| && InsertAt(v, i, w[i]) == w
  {
    DeletionsMembers(w, v);
    var i :| 0 <= i < |w| && v == DeleteAt(w, i);
    DeleteInsertRoundTrip(w, i);
  }

  /** A transposition variant has the length of `w` and gives back `w` when the same pair is swapped again. */
  lemma TranspositionShape(w: string, v: string)
    requires v in Transpositions(w)
    ensures |v| == |w| && exists i :: 0 <= i < |w| - 1 && SwapAt(v, i) == w
  {
    TranspositionsMembers(w, v);
    var i :| 0 <= i < |w| - 1 && v == SwapAt(w, i);
    SwapInvolution(w, i);
  }

  /** An alteration variant has the length of `w` and gives back `w` once one position is restored. */
  lemma AlterationShape(w: string, v: string)
    requires v in Alterations(w)
    ensures |v| == |w| && exists i :: 0 <= i < |w| && ReplaceAt(v, i, w[i]) == w
  {
    AlterFromMembers(w, 0, v);
    var i, c :| 0 <= i < |w| && IsLetter(c) && v == ReplaceAt(w, i, c);
    ReplaceRestore(w, i, c);
  }

  /** An insertion variant is one longer and gives back `w` once the inserted position is deleted. */
  lemma InsertionShape(w: string, v: string)
    requires v in Insertions(w)
    ensures |v| == |w| + 1 && exists i :: 0 <= i <= |w| && DeleteAt(v, i) == w
  {
    InsertFromMembers(w, 0, v);
    var i, c :| 0 <= i <= |w| && IsLetter(c) && v == InsertAt(w, i, c);
    InsertDeleteRoundTrip(w, i, c);
  }

  /** The variants of a word are words. */
  lemma GeneratorsKeepWords(w: string)
    ensures IsWord(w) ==> forall v :: v in Deletions(w) ==> IsWord(v)
    ensures IsWord(w) ==> forall v :: v in Transpositions(w) ==> IsWord(v)
    ensures IsWord(w) ==> forall v :: v in Alterations(w) ==> IsWord(v)
    ensures IsWord(w) ==> forall v :: v in Insertions(w) ==> IsWord(v)
  {
    if !IsWord(w) {
      return;
    }
    EditsKeepWords(w);
    forall v | v in Deletions(w)
      ensures IsWord(v)
    {
      DeletionsMembers(w, v);
    }
    forall v | v in Transpositions(w)
      ensures IsWord(v)
    {
      TranspositionsMembers(w, v);
    }
    forall v | v in Alterations(w)
      ensures IsWord(v)
    {
      AlterFromMembers(w, 0, v);
    }
    forall v | v in Insertions(w)
      ensures IsWord(v)
    {
      InsertFromMembers(w, 0, v);
    }
  }

  /** All level-1 variants of `w`, in the order `suggestSimilarWord` generates them. */
  function Variants(w: string): (r: seq<string>)
    ensures |r| == |w| + (if |w| == 0 then 0 else |w| - 1) + |w| * Width + (|w| + 1) * Width
    ensures IsWord(w) ==> forall v :: v in r ==> IsWord(v)
  {
    GeneratorsKeepWords(w);
    Deletions(w) + Transpositions(w) + Alterations(w) + Insertions(w)
  }

  /** One edit changes the length by at most one. */
  lemma VariantLengths(w: string, v: string)
    requires v in Variants(w)
    ensures |w| - 1 <= |v| <= |w| + 1
  {
    if v in Deletions(w) {
      DeletionShape(w, v);
    } else if v in Transpositions(w) {
      TranspositionShape(w, v);
    } else if v in Alterations(w) {
      AlterationShape(w, v);
    } else {
      InsertionShape(w, v);
    }
  }
}
