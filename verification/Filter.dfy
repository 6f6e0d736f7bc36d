/** Filtering out the words that say nothing alone (opentrep/bom/Filter.cpp). The
    black list is a parameter: what follows holds of every black list. */
module Filtering {
  import opened Words

  type BlackList = set<string>

  predicate IsRelevant(w: string, minLength: nat, blackList: BlackList) {
    |w| >= minLength && w !in blackList
  }

  /** The index of the first relevant word; the length when there is none. */
  function FirstRelevant(ws: seq<string>, minLength: nat, blackList: BlackList): (i: nat)
    ensures i <= |ws|
    ensures i < |ws| ==> IsRelevant(ws[i], minLength, blackList)
    ensures forall k | 0 <= k < i :: !IsRelevant(ws[k], minLength, blackList)
  {
    if ws == [] || IsRelevant(ws[0], minLength, blackList) then 0
    else 1 + FirstRelevant(ws[1..], minLength, blackList)
  }

  /** The index behind the last relevant word; 0 when there is none. */
  function LastRelevant(ws: seq<string>, minLength: nat, blackList: BlackList): (j: nat)
    ensures j <= |ws|
    ensures j > 0 ==> IsRelevant(ws[j - 1], minLength, blackList)
    ensures forall k | j <= k < |ws| :: !IsRelevant(ws[k], minLength, blackList)
  {
    if ws == [] || IsRelevant(ws[|ws| - 1], minLength, blackList) then |ws|
    else LastRelevant(ws[..|ws| - 1], minLength, blackList)
  }

  /** The words are trimmed in place in the source, by recursion on what is left. */
  method RTrim(words: seq<string>, minLength: nat, blackList: BlackList) returns (trimmed: seq<string>)
    ensures trimmed == words[..LastRelevant(words, minLength, blackList)]
    decreases |words|
  {
    if words == [] {
      return words;
    }
    trimmed := words;
    var word := words[|words| - 1];
    if |word| < minLength || word in blackList {
      trimmed := words[..|words| - 1];
      trimmed := RTrim(trimmed, minLength, blackList);
    }
  }

  method LTrim(words: seq<string>, minLength: nat, blackList: BlackList) returns (trimmed: seq<string>)
    ensures trimmed == words[FirstRelevant(words, minLength, blackList)..]
    decreases |words|
  {
    if words == [] {
      return words;
    }
    trimmed := words;
    var word := words[0];
    if |word| < minLength || word in blackList {
      trimmed := words[1..];
      trimmed := LTrim(trimmed, minLength, blackList);
    }
  }

  /** The left outer words go first, then the right outer ones. */
  function Trimmed(ws: seq<string>, minLength: nat, blackList: BlackList): seq<string> {
    var left := ws[FirstRelevant(ws, minLength, blackList)..];
    left[..LastRelevant(left, minLength, blackList)]
  }

  method Trim(words: seq<string>, minLength: nat, blackList: BlackList) returns (trimmed: seq<string>)
    ensures trimmed == Trimmed(words, minLength, blackList)
  {
    trimmed := LTrim(words, minLength, blackList);
    trimmed := RTrim(trimmed, minLength, blackList);
  }

  /** ws[i..j] opens and closes with a relevant word. */
  predicate IsCore(ws: seq<string>, i: nat, j: nat, minLength: nat, blackList: BlackList) {
    i < j <= |ws| && IsRelevant(ws[i], minLength, blackList) && IsRelevant(ws[j - 1], minLength, blackList)
  }

  /** The last relevant word stays the last one when words in front of it are dropped, ... */
  lemma LastOfSuffix(ws: seq<string>, lo: nat, minLength: nat, blackList: BlackList)
    requires lo < LastRelevant(ws, minLength, blackList)
    ensures lo + LastRelevant(ws[lo..], minLength, blackList) == LastRelevant(ws, minLength, blackList)
  {
    hide LastRelevant;
    hide IsRelevant;
    var left, j := ws[lo..], LastRelevant(ws, minLength, blackList);
    assert left[j - 1 - lo] == ws[j - 1];
  }

  /** ... the first one the first when words behind it are dropped, ... */
  lemma FirstOfPrefix(ws: seq<string>, j: nat, minLength: nat, blackList: BlackList)
    requires FirstRelevant(ws, minLength, blackList) < j <= |ws|
    ensures FirstRelevant(ws[..j], minLength, blackList) == FirstRelevant(ws, minLength, blackList)
  {
    hide FirstRelevant;
    hide IsRelevant;
    var right, i := ws[..j], FirstRelevant(ws, minLength, blackList);
    assert right[i] == ws[i];
  }

  /** ... and the first one stands before the end of the last, unless there is none. */
  lemma FirstAndLast(ws: seq<string>, minLength: nat, blackList: BlackList)
    ensures var lo, j := FirstRelevant(ws, minLength, blackList), LastRelevant(ws, minLength, blackList);
            lo < j || (lo == |ws| && j == 0)
  {
    hide FirstRelevant;
    hide LastRelevant;
    hide IsRelevant;
    var lo, j := FirstRelevant(ws, minLength, blackList), LastRelevant(ws, minLength, blackList);
    assert lo < |ws| ==> lo < j;
    assert j > 0 ==> lo < j;
  }

  lemma TrimmedIs(ws: seq<string>, minLength: nat, blackList: BlackList)
    ensures var lo, j := FirstRelevant(ws, minLength, blackList), LastRelevant(ws, minLength, blackList);
            Trimmed(ws, minLength, blackList) == if lo < j then ws[lo..j] else []
  {
    hide FirstRelevant;
    hide LastRelevant;
    hide IsRelevant;
    var lo, j := FirstRelevant(ws, minLength, blackList), LastRelevant(ws, minLength, blackList);
    FirstAndLast(ws, minLength, blackList);
    if lo < j {
      LastOfSuffix(ws, lo, minLength, blackList);
    }
  }

  /** What remains is the longest part of the list that opens and closes with a
      relevant word, or nothing when no word is relevant. */
  lemma TrimmedIsTheLongestCore(ws: seq<string>, minLength: nat, blackList: BlackList) returns (lo: nat, hi: nat)
    ensures lo <= hi <= |ws| && Trimmed(ws, minLength, blackList) == ws[lo..hi]
    ensures if lo < hi then IsCore(ws, lo, hi, minLength, blackList)
            else forall k | 0 <= k < |ws| :: !IsRelevant(ws[k], minLength, blackList)
    ensures forall i: nat, j: nat | IsCore(ws, i, j, minLength, blackList) :: lo <= i && j <= hi
  {
    hide FirstRelevant;
    hide LastRelevant;
    hide IsRelevant;
    hide Trimmed;
    FirstAndLast(ws, minLength, blackList);
    TrimmedIs(ws, minLength, blackList);
    lo, hi := FirstRelevant(ws, minLength, blackList), LastRelevant(ws, minLength, blackList);
    if hi == 0 {
      hi := lo;
    }
  }

  /** Trimming the right first makes no difference. */
  lemma TrimOrderIsIrrelevant(ws: seq<string>, minLength: nat, blackList: BlackList)
    ensures var right := ws[..LastRelevant(ws, minLength, blackList)];
            right[FirstRelevant(right, minLength, blackList)..] == Trimmed(ws, minLength, blackList)
  {
    hide FirstRelevant;
    hide LastRelevant;
    hide IsRelevant;
    hide Trimmed;
    var lo, j := FirstRelevant(ws, minLength, blackList), LastRelevant(ws, minLength, blackList);
    FirstAndLast(ws, minLength, blackList);
    TrimmedIs(ws, minLength, blackList);
    if lo < j {
      FirstOfPrefix(ws, j, minLength, blackList);
      assert ws[..j][lo..] == ws[lo..j];
    }
  }

  lemma TrimmedIsStable(ws: seq<string>, minLength: nat, blackList: BlackList)
    ensures var t := Trimmed(ws, minLength, blackList); Trimmed(t, minLength, blackList) == t
  {
    var lo, hi := TrimmedIsTheLongestCore(ws, minLength, blackList);
    var t := Trimmed(ws, minLength, blackList);
    if lo < hi {
      assert t[0] == ws[lo] && t[|t| - 1] == ws[hi - 1];
      assert FirstRelevant(t, minLength, blackList) == 0;
      assert t[0..] == t;
    }
  }

  /** Trimming a phrase. */
  function TrimmedPhrase(phrase: string, minLength: nat, blackList: BlackList): string {
    Join(Trimmed(Tokens(phrase), minLength, blackList))
  }

  method TrimPhrase(phrase: string, minLength: nat, blackList: BlackList) returns (trimmed: string)
    ensures trimmed == TrimmedPhrase(phrase, minLength, blackList)
  {
    var words := TokeniseStringIntoWordList(phrase);
    words := Trim(words, minLength, blackList);
    trimmed := CreateStringFromWordList(words);
  }

  lemma TrimmedPhraseTokens(phrase: string, minLength: nat, blackList: BlackList)
    ensures Tokens(TrimmedPhrase(phrase, minLength, blackList)) == Trimmed(Tokens(phrase), minLength, blackList)
  {
    TokensAreWords(phrase);
    TokensOfJoin(Trimmed(Tokens(phrase), minLength, blackList));
  }

  /** Trimming a phrase a second time changes nothing. */
  lemma TrimPhraseIsIdempotent(phrase: string, minLength: nat, blackList: BlackList)
    ensures var t := TrimmedPhrase(phrase, minLength, blackList); TrimmedPhrase(t, minLength, blackList) == t
  {
    TrimmedPhraseTokens(phrase, minLength, blackList);
    TrimmedIsStable(Tokens(phrase), minLength, blackList);
  }

  /** Whether a word combination of the phrase is worth indexing or searching alone. */
  function ShouldKeep(phrase: string, word: string, blackList: BlackList): bool {
    if phrase == "" && word == "" then false
    else if phrase == word then true
    else if |word| < 3 then false
    else word !in blackList
  }

  /** A word is kept when it is the whole phrase, or has three letters at least and is not
      black-listed; the empty word never is. */
  lemma KeepIff(phrase: string, word: string, blackList: BlackList)
    ensures ShouldKeep(phrase, word, blackList)
            <==> word != "" && (word == phrase || (|word| >= 3 && word !in blackList))
  {
  }

  /** Against the empty phrase, the filter is the one that trimming applies with 3 letters. */
  lemma KeepIsRelevance(word: string, blackList: BlackList)
    ensures ShouldKeep("", word, blackList) <==> IsRelevant(word, 3, blackList)
  {
  }
}
