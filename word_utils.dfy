/**
 * Word validation and the pure part of loading the word list: the filter
 * applied to the CSV rows and the fallback to the built-in list.  Reading the
 * file is outside the model; its outcome is given as an optional sequence of
 * rows (None when the file is missing or cannot be read).
 */
module WordUtils {
  import opened Wrappers

  /** A CSV row: its fields, in order. */
  type Row = seq<string>

  /** The built-in list used when the CSV yields no word. */
  const DefaultWords: seq<string> :=
    ["stare", "crane", "slate", "trace", "adieu", "audio", "house", "mouse", "about", "above"]

  /** No upper-case ASCII letter occurs in the word. */
  predicate IsLower(word: string) {
    forall i :: 0 <= i < |word| ==> !('A' <= word[i] <= 'Z')
  }

  /** Python's `str.lower` on one character, for the ASCII letters. */
  function LowerChar(ch: char): (r: char)
    ensures !('A' <= r <= 'Z')
  {
    if 'A' <= ch <= 'Z' then (ch as int - 'A' as int + 'a' as int) as char else ch
  }

  /** Python's `str.lower`, character by character. */
  function Lower(word: string): (r: string)
    ensures |r| == |word|
    ensures IsLower(r)
  {
    if word == [] then [] else [LowerChar(word[0])] + Lower(word[1..])
  }

  /** Lower-casing leaves a lower-case word unchanged. */
  lemma {:induction false} LowerKeepsLower(word: string)
    requires IsLower(word)
    ensures Lower(word) == word
  {
    if word != [] {
      LowerKeepsLower(word[1..]);
    }
  }

  /** Lower-casing twice is lower-casing once. */
  lemma LowerIdempotent(word: string)
    ensures Lower(Lower(word)) == Lower(word)
  {
    LowerKeepsLower(Lower(word));
  }

  /** `is_valid_word`: five characters long and, lower-cased, in the valid set. */
  function IsValidWord(word: string, validWords: set<string>): (b: bool)
    ensures b ==> |word| == 5
  {
    |word| == 5 && Lower(word) in validWords
  }

  /** Validity ignores case: a word passes exactly when its lower-case form does. */
  lemma ValidIgnoresCase(word: string, validWords: set<string>)
    ensures IsValidWord(word, validWords) == IsValidWord(Lower(word), validWords)
  {
    LowerIdempotent(word);
  }

  /** What one row contributes: its first field, lower-cased, when that field has five characters. */
  function KeepRow(row: Row): (kept: seq<string>)
    ensures |kept| <= 1
  {
    if |row| > 0 && |row[0]| == 5 then [Lower(row[0])] else []
  }

  /**
   * The comprehension over the CSV rows: keep each non-empty row whose first
   * field has five characters, and give that field lower-cased, in row order.
   */
  function KeepWords(rows: seq<Row>): (words: seq<string>)
    ensures |words| <= |rows|
  {
    if rows == [] then [] else KeepRow(rows[0]) + KeepWords(rows[1..])
  }

  /** Every kept word has five characters and is lower case. */
  lemma {:induction false} KeepWordsWellFormed(rows: seq<Row>)
    ensures forall w :: w in KeepWords(rows) ==> |w| == 5 && IsLower(w)
  {
    if rows != [] {
      KeepWordsWellFormed(rows[1..]);
    }
  }

  /** The filter works row by row: filtering a concatenation concatenates the results. */
  lemma {:induction false} KeepWordsAppend(rows1: seq<Row>, rows2: seq<Row>)
    ensures KeepWords(rows1 + rows2) == KeepWords(rows1) + KeepWords(rows2)
  {
    if rows1 == [] {
      assert rows1 + rows2 == rows2;
    } else {
      var rest := rows1[1..];
      assert (rows1 + rows2)[1..] == rest + rows2;
      KeepWordsAppend(rest, rows2);
      calc {
        KeepWords(rows1 + rows2);
        KeepRow(rows1[0]) + KeepWords(rest + rows2);
        KeepRow(rows1[0]) + (KeepWords(rest) + KeepWords(rows2));
        (KeepRow(rows1[0]) + KeepWords(rest)) + KeepWords(rows2);
      }
    }
  }

  /** A word is kept exactly when some qualifying row has it, lower-cased, as first field. */
  lemma {:induction false} KeepWordsMembers(rows: seq<Row>, w: string)
    ensures w in KeepWords(rows) <==>
            exists row :: row in rows && |row| > 0 && |row[0]| == 5 && Lower(row[0]) == w
  {
    if rows != [] {
      KeepWordsMembers(rows[1..], w);
      assert forall row :: row in rows <==> row == rows[0] || row in rows[1..];
    }
  }

  /** The built-in words are five-letter lower-case words. */
  lemma DefaultWordsWellFormed()
    ensures forall w :: w in DefaultWords ==> |w| == 5 && IsLower(w)
  {
    forall i | 0 <= i < |DefaultWords|
      ensures |DefaultWords[i]| == 5 && IsLower(DefaultWords[i])
    {
      var w := DefaultWords[i];
      assert forall k :: 0 <= k < |w| ==> 'a' <= w[k] <= 'z';
    }
  }

  /**
   * `load_words`: the kept words of the CSV, or the built-in list when the file
   * is missing or unreadable or keeps no word.
   */
  function LoadWords(csv: Option<seq<Row>>): (words: seq<string>)
    ensures |words| > 0
    ensures forall w :: w in words ==> |w| == 5 && IsLower(w)
  {
    DefaultWordsWellFormed();
    match csv
    case None => DefaultWords
    case Some(rows) =>
      KeepWordsWellFormed(rows);
      if KeepWords(rows) == [] then DefaultWords else KeepWords(rows)
  }

  /** `VALID_WORDS`: the members of the loaded list. */
  function ValidWords(words: seq<string>): (s: set<string>)
    ensures forall w :: w in s <==> w in words
  {
    set w | w in words
  }

  /** Every loaded word passes `is_valid_word` against the set of loaded words. */
  lemma LoadedWordsAreValid(csv: Option<seq<Row>>)
    ensures var words := LoadWords(csv);
            forall w :: w in words ==> IsValidWord(w, ValidWords(words))
  {
    var words := LoadWords(csv);
    forall w | w in words
      ensures IsValidWord(w, ValidWords(words))
    {
      LowerKeepsLower(w);
    }
  }
}
