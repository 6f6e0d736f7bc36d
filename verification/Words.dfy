/** Tokenising a phrase into words, and joining words back into a phrase
    (opentrep/basic/Utilities.cpp and opentrep/bom/WordHolder.cpp). */
module Words {
  import opened Basics

  /** The single-character separators; a word never contains one of them. */
  const SEPARATORS: string := " .,;:|+-*/_=!@#$%`~^&(){}[]?'<>\""

  /** Membership in SEPARATORS, as the ranges of the ASCII table it covers. */
  predicate IsSeparator(c: char) {
    ' ' <= c <= '/' || ':' <= c <= '@' || c == '[' || ']' <= c <= '`' || '{' <= c <= '~'
  }

  lemma SeparatorsAreTheList(c: char)
    ensures IsSeparator(c) <==> c in SEPARATORS
  {
    var n := c as int;
    if 32 <= n <= 126 {
      assert c == n as char;
    }
  }

  predicate IsWord(w: string) {
    w != "" && forall c | c in w :: !IsSeparator(c)
  }

  predicate AreWords(ws: seq<string>) {
    forall w | w in ws :: IsWord(w)
  }

  /** The number of leading characters before the first separator. */
  function WordLength(s: string): (k: nat)
    ensures k <= |s|
    ensures forall i | 0 <= i < k :: !IsSeparator(s[i])
    ensures k < |s| ==> IsSeparator(s[k])
  {
    if s == "" || IsSeparator(s[0]) then 0 else 1 + WordLength(s[1..])
  }

  /** The maximal runs of non-separator characters, from left to right. */
  function Tokens(s: string): seq<string>
    decreases |s|
  {
    if s == "" then []
    else if IsSeparator(s[0]) then Tokens(s[1..])
    else
      var k := WordLength(s);
      [s[..k]] + Tokens(s[k..])
  }

  lemma {:induction false} TokensAreWords(s: string)
    ensures AreWords(Tokens(s))
    decreases |s|
  {
    if s == "" {
    } else if IsSeparator(s[0]) {
      TokensAreWords(s[1..]);
    } else {
      TokensAreWords(s[WordLength(s)..]);
    }
  }

  /** The words separated by single spaces. */
  function Join(ws: seq<string>): string {
    if ws == [] then ""
    else if |ws| == 1 then ws[0]
    else ws[0] + " " + Join(ws[1..])
  }

  // ---------------------------------------------------------------------
  // Tokens is pinned down by three equations: the empty string, a lone word,
  // and a string cut at one separator.

  /** The length of the first word is determined by where a separator first occurs. */
  lemma WordLengthIs(s: string, k: nat)
    requires k <= |s| && forall i | 0 <= i < k :: !IsSeparator(s[i])
    requires k < |s| ==> IsSeparator(s[k])
    ensures WordLength(s) == k
  {
    var j := WordLength(s);
  }

  lemma TokensStep(s: string)
    requires s != "" && !IsSeparator(s[0])
    ensures var k := WordLength(s); 0 < k <= |s| && Tokens(s) == [s[..k]] + Tokens(s[k..])
  {
  }

  lemma WordLengthExtends(a: string, c: char, b: string)
    requires IsSeparator(c)
    ensures WordLength(a + [c] + b) == WordLength(a)
  {
    var s := a + [c] + b;
    assert forall i | 0 <= i < |a| :: s[i] == a[i];
    assert s[|a|] == c;
    WordLengthIs(s, WordLength(a));
  }

  lemma SliceOfConcat(a: string, c: char, b: string, k: nat)
    requires k <= |a|
    ensures (a + [c] + b)[..k] == a[..k]
    ensures (a + [c] + b)[k..] == a[k..] + [c] + b
  {
  }

  lemma {:induction false} TokensSplitAtSeparator(a: string, c: char, b: string)
    requires IsSeparator(c)
    ensures Tokens(a + [c] + b) == Tokens(a) + Tokens(b)
    decreases |a|
  {
    var s := a + [c] + b;
    if a == "" {
      assert s[0] == c && s[1..] == b;
    } else {
      assert s[0] == a[0];
      if IsSeparator(a[0]) {
        SliceOfConcat(a, c, b, 1);
        TokensSplitAtSeparator(a[1..], c, b);
      } else {
        var k := WordLength(a);
        WordLengthExtends(a, c, b);
        SliceOfConcat(a, c, b, k);
        TokensStep(a);
        TokensStep(s);
        hide Tokens;
        hide WordLength;
        TokensSplitAtSeparator(a[k..], c, b);
        ConcatIsAssociative([a[..k]], Tokens(a[k..]), Tokens(b));
      }
    }
  }

  lemma {:induction false} TokensOfWord(w: string)
    requires IsWord(w)
    ensures Tokens(w) == [w]
  {
    var k := WordLength(w);
    assert k == |w|;
    assert w[..k] == w;
    assert w[k..] == "";
  }

  /** Joining separator-free words and tokenising again gives the words back. */
  lemma {:induction false} TokensOfJoin(ws: seq<string>)
    requires AreWords(ws)
    ensures Tokens(Join(ws)) == ws
  {
    if ws == [] {
    } else if |ws| == 1 {
      TokensOfWord(ws[0]);
    } else {
      assert AreWords(ws[1..]);
      assert ws[0] in ws;
      TokensOfWord(ws[0]);
      TokensSplitAtSeparator(ws[0], ' ', Join(ws[1..]));
      TokensOfJoin(ws[1..]);
    }
  }

  /** Normalising a phrase, that is, tokenising and joining it, is idempotent. */
  lemma NormaliseIsIdempotent(s: string)
    ensures var n := Join(Tokens(s)); Join(Tokens(n)) == n && Tokens(n) == Tokens(s)
  {
    TokensAreWords(s);
    TokensOfJoin(Tokens(s));
  }

  /** On lists of words, joining is injective: no two lists share a phrase. */
  lemma JoinIsInjective(a: seq<string>, b: seq<string>)
    requires AreWords(a) && AreWords(b) && Join(a) == Join(b)
    ensures a == b
  {
    TokensOfJoin(a);
    TokensOfJoin(b);
  }

  lemma JoinIsEmpty(ws: seq<string>)
    requires AreWords(ws)
    ensures Join(ws) == "" <==> ws == []
  {
    if ws != [] {
      assert ws[0] in ws;
    }
  }

  /** A phrase is the join of any two non-empty halves, around one space. */
  lemma {:induction false} JoinConcat(a: seq<string>, b: seq<string>)
    requires a != [] && b != []
    ensures Join(a + b) == Join(a) + " " + Join(b)
  {
    if |a| == 1 {
      assert (a + b)[1..] == b;
    } else {
      assert (a + b)[1..] == a[1..] + b;
      JoinConcat(a[1..], b);
      assert Join(a + b) == a[0] + " " + (Join(a[1..]) + " " + Join(b));
    }
  }

  lemma JoinSnoc(ws: seq<string>, i: nat)
    requires i < |ws|
    ensures Join(ws[..i + 1]) == (if i == 0 then "" else Join(ws[..i]) + " ") + ws[i]
  {
    assert ws[..i + 1] == ws[..i] + [ws[i]];
    if i > 0 {
      JoinConcat(ws[..i], [ws[i]]);
    }
  }

  lemma JoinRange(ws: seq<string>, start: nat, i: nat)
    requires start <= i < |ws|
    ensures Join(ws[start..i + 1]) == (if i == start then "" else Join(ws[start..i]) + " ") + ws[i]
  {
    hide Join;
    var tail := ws[start..];
    JoinSnoc(tail, i - start);
    assert tail[..i - start] == ws[start..i] && tail[..i - start + 1] == ws[start..i + 1];
  }

  // ---------------------------------------------------------------------
  // The loops of the source

  /** One step of the tokeniser, seen from position idx. */
  lemma TokensAt(phrase: string, idx: nat)
    requires idx < |phrase|
    ensures var k := WordLength(phrase[idx..]);
            Tokens(phrase[idx..]) == if IsSeparator(phrase[idx]) then Tokens(phrase[idx + 1..])
                                     else [phrase[idx..idx + k]] + Tokens(phrase[idx + k..])
  {
    var rest := phrase[idx..];
    var k := WordLength(rest);
    assert rest[1..] == phrase[idx + 1..];
    assert rest[..k] == phrase[idx..idx + k];
    assert rest[k..] == phrase[idx + k..];
  }

  method FindSeparator(phrase: string, idx: nat) returns (end: nat)
    requires idx <= |phrase|
    ensures end == idx + WordLength(phrase[idx..])
  {
    end := idx;
    while end < |phrase| && !IsSeparator(phrase[end])
      invariant idx <= end <= |phrase|
      invariant forall i | idx <= i < end :: !IsSeparator(phrase[i])
    {
      end := end + 1;
    }
    WordLengthIs(phrase[idx..], end - idx);
  }

  method TokeniseStringIntoWordList(phrase: string) returns (words: seq<string>)
    ensures words == Tokens(phrase)
  {
    words := [];
    var idx := 0;
    assert phrase[0..] == phrase && Tokens(phrase[|phrase|..]) == [];
    hide Tokens;
    hide WordLength;
    hide IsSeparator;
    while idx < |phrase|
      invariant idx <= |phrase|
      invariant words + Tokens(phrase[idx..]) == Tokens(phrase)
    {
      TokensAt(phrase, idx);
      if IsSeparator(phrase[idx]) {
        idx := idx + 1;
      } else {
        var end := FindSeparator(phrase, idx);
        ConcatIsAssociative(words, [phrase[idx..end]], Tokens(phrase[end..]));
        words := words + [phrase[idx..end]];
        idx := end;
      }
    }
  }

  /** The part of the word list that a split index and a direction select; a
      split index of 0 means no split. */
  function SplitPart(words: seq<string>, splitIdx: nat, fromBeginning: bool): seq<string> {
    if fromBeginning then
      if 0 < splitIdx < |words| then words[..splitIdx] else words
    else if splitIdx < |words| then words[splitIdx..] else []
  }

  method CreateStringFromWordList(words: seq<string>, splitIdx: nat := 0, fromBeginning: bool := true)
    returns (str: string)
    ensures str == Join(SplitPart(words, splitIdx, fromBeginning))
  {
    str := "";
    var idx := 0;
    assert Join(words[..0]) == "";
    hide Join;
    // The left-hand side of the list
    while idx < |words|
      invariant idx <= |words|
      invariant splitIdx != 0 ==> idx <= splitIdx
      invariant str == if fromBeginning then Join(words[..idx]) else ""
      invariant !fromBeginning && splitIdx == 0 ==> idx == 0
    {
      if fromBeginning {
        if splitIdx != 0 && idx >= splitIdx {
          break;
        }
        JoinSnoc(words, idx);
        if idx > 0 {
          str := str + " ";
        }
        str := str + words[idx];
      } else {
        if splitIdx == 0 || idx >= splitIdx {
          break;
        }
      }
      idx := idx + 1;
    }
    if fromBeginning {
      assert words[..|words|] == words;
      return;
    }
    // The right-hand side of the list
    ghost var start := idx;
    assert words[start..start] == words[..0];
    while idx < |words|
      invariant start <= idx <= |words|
      invariant str == Join(words[start..idx])
    {
      JoinRange(words, start, idx);
      if idx > splitIdx {
        str := str + " ";
      }
      str := str + words[idx];
      idx := idx + 1;
    }
    assert words[start..|words|] == words[start..];
  }

  /** The join that counts the remaining words down, and writes the space after
      each word but the last. */
  method CreateStringCountingDown(words: seq<string>) returns (str: string)
    ensures str == Join(words)
  {
    str := "";
    var idx := |words|;
    for i := 0 to |words|
      invariant idx == |words| - i
      invariant str == Join(words[..i]) + if 0 < i < |words| then " " else ""
    {
      JoinSnoc(words, i);
      str := str + words[i];
      if idx > 1 {
        str := str + " ";
      }
      idx := idx - 1;
    }
    assert words[..|words|] == words;
  }

  /** Without a split inside the list, both directions give the whole phrase, or the second one
      nothing when the split is behind the list. */
  lemma NoSplitInside(words: seq<string>, k: nat)
    requires k == 0 || k >= |words|
    ensures Join(SplitPart(words, k, true)) == Join(words)
    ensures Join(SplitPart(words, k, false)) == if k == 0 then Join(words) else ""
  {
  }

  /** The two directions of one split make up the whole phrase. */
  lemma SplitPartsMakeThePhrase(words: seq<string>, k: nat)
    requires 0 < k < |words|
    ensures Join(SplitPart(words, k, true)) + " " + Join(SplitPart(words, k, false)) == Join(words)
  {
    assert words[..k] + words[k..] == words;
    JoinConcat(words[..k], words[k..]);
  }
}
