/** Under which terms a place is found, item by item of its record
    (opentrep/bom/Place.cpp). */
module PlaceTerms {
  import opened Words
  import opened WordCombinations
  import opened Places

  // ---------------------------------------------------------------------
  // Numbers

  /** Five more points of PageRank are one more unit of weight, up to 65535; the last two
      steps wrap around. */
  lemma PageRankWeightIs(pageRank: real, k: nat)
    requires 5.0 * k as real <= pageRank < 5.0 * (k + 1) as real && k < 65536
    ensures IsPageRank(pageRank)
    ensures PageRankWeight(pageRank) == if k <= 65533 then k + 2 else k - 65534
  {
    assert k as real <= pageRank / 5.0 < (k + 1) as real;
    assert (pageRank / 5.0).Floor == k;
  }

  function ReadFrom(s: string, start: int): int {
    if s == "" then start else ReadFrom(s[1..], 10 * start + (s[0] as int - '0' as int))
  }

  lemma {:induction false} ReadFromSnoc(s: string, c: char, start: int)
    ensures ReadFrom(s + [c], start) == 10 * ReadFrom(s, start) + (c as int - '0' as int)
    decreases |s|
  {
    if s != "" {
      assert (s + [c])[1..] == s[1..] + [c];
      ReadFromSnoc(s[1..], c, 10 * start + (s[0] as int - '0' as int));
    }
  }

  /** Read from the left, the digits make the number; only zero begins with a zero. */
  lemma {:induction false} DecimalReads(n: nat)
    ensures ReadFrom(Decimal(n), 0) == n
    ensures (forall c | c in Decimal(n) :: '0' <= c <= '9') && (Decimal(n)[0] == '0' <==> n == 0)
  {
    if n < 10 {
      assert Decimal(n)[1..] == "";
    } else {
      DecimalReads(n / 10);
      ReadFromSnoc(Decimal(n / 10), '0' + (n % 10) as char, 0);
    }
  }

  // ---------------------------------------------------------------------
  // Terms

  /** A detail that may follow a name. */
  predicate IsSurrounding(s: string, l: Location) {
    || s == l.stateCode || s == l.countryCode || s == l.countryName || s == l.continentName
    || (s != "" && (s == l.cityUtfName || s == l.cityAsciiName || s == l.adm1UtfName || s == l.adm1AsciiName
                    || s == l.adm2UtfName || s == l.adm2AsciiName))
  }

  /** A base, or a base followed by a detail or by a name of the feature. */
  ghost predicate IsTermOfBase(t: string, b: string, l: Location, g: Language) {
    t == b || exists s :: t == b + " " + s && (IsSurrounding(s, l) || s in g.featureNames(l.featureCode))
  }

  ghost predicate IsTermOfName(t: string, name: string, l: Location, g: Language) {
    name != "" && (IsTermOfBase(t, Join(Tokens(name)), l, g)
                   || IsTermOfBase(t, g.normalise(Join(Tokens(name))), l, g))
  }

  lemma SuffixIff(s: string, l: Location)
    ensures s in Suffixes(l) <==> IsSurrounding(s, l)
  {
  }

  lemma BaseTermIff(t: string, b: string, l: Location, g: Language)
    ensures t in BaseTerms(b, l, g) <==> IsTermOfBase(t, b, l, g)
  {
    forall s ensures s in Suffixes(l) <==> IsSurrounding(s, l) {
      SuffixIff(s, l);
    }
    hide Suffixes;
    hide IsSurrounding;
    if IsTermOfBase(t, b, l, g) && t != b {
      var s :| t == b + " " + s && (IsSurrounding(s, l) || s in g.featureNames(l.featureCode));
      assert s in Suffixes(l) ==> t in Pairs(b, Suffixes(l));
      assert s in g.featureNames(l.featureCode) ==> t in FeatureTerms(b, l, g);
    }
  }

  lemma NameTermIff(t: string, name: string, l: Location, g: Language)
    ensures t in NameTerms(name, l, g) <==> IsTermOfName(t, name, l, g)
  {
    if name != "" {
      NameTermsAre(name, l, g);
      BaseTermIff(t, Join(Tokens(name)), l, g);
      BaseTermIff(t, g.normalise(Join(Tokens(name))), l, g);
    }
    hide BaseTerms;
    hide IsTermOfBase;
    hide Tokens;
    hide Join;
  }

  /** What a gap inside leaves of the words. */
  ghost predicate IsGapOf(q: string, ws: seq<string>) {
    exists i, j :: 0 < i < j < |ws| && q == Join(ws[..i] + ws[j..])
  }

  /** A contiguous part of the words, or such a rest. */
  ghost predicate IsPartOrGap(q: string, ws: seq<string>) {
    || (exists i, j :: 0 <= i < j <= |ws| && q == Join(ws[i..j]))
    || IsGapOf(q, ws)
  }

  lemma GapIff(q: string, name: string)
    ensures q in AllGaps(Tokens(name)) <==> IsGapOf(q, Tokens(name))
  {
    AllGapsAreThePrefixSuffixPairs(name);
    hide Tokens;
    hide Join;
    hide AllGaps;
    hide AllGapEnds;
    var ws, ends, gaps := Tokens(name), AllGapEnds(|Tokens(name)|), AllGaps(Tokens(name));
    if q in gaps {
      var k :| 0 <= k < |gaps| && gaps[k] == q;
      assert ends[k] in ends;
      var i, j := ends[k].0, ends[k].1;
      assert q == Join(ws[..i] + ws[j..]);
    }
    if IsGapOf(q, ws) {
      var i, j :| 0 < i < j < |ws| && q == Join(ws[..i] + ws[j..]);
      var p: (nat, nat) := (i, j);
      assert p in ends;
      var k :| 0 <= k < |ends| && ends[k] == p;
      assert gaps[k] == q;
    }
  }

  lemma CombinationIff(q: string, name: string)
    ensures q in Combinations(name) <==> IsPartOrGap(q, Tokens(name))
  {
    GapIff(q, name);
    hide Tokens;
    hide Join;
    hide AllGaps;
    hide IsGapOf;
  }

  /** A combination of the words of a name, or what one is normalised to. */
  ghost predicate IsCombinationOf(t: string, name: string, g: Language) {
    name != "" && (IsPartOrGap(t, Tokens(name)) || exists q :: IsPartOrGap(q, Tokens(name)) && t == g.normalise(q))
  }

  lemma CombinationTermIff(t: string, name: string, g: Language)
    ensures t in CombinationTerms(name, g) <==> IsCombinationOf(t, name, g)
  {
    forall q ensures q in Combinations(name) <==> IsPartOrGap(q, Tokens(name)) {
      CombinationIff(q, name);
    }
    hide Combinations;
    hide IsPartOrGap;
    hide Tokens;
    if name != "" {
      var terms := Combinations(name);
      assert t in WithNormalised(terms, g) <==> t in terms || exists q :: q in terms && t == g.normalise(q);
    }
  }

  ghost predicate IsCombinationOfAny(t: string, l: Location, g: Language) {
    exists i, j | 0 <= i < |l.names| && 0 <= j < |l.names[i]| :: IsCombinationOf(t, l.names[i][j], g)
  }

  lemma AnyCombinationIff(t: string, l: Location, g: Language)
    ensures t in AllCombinationTerms(l.names, g) <==> IsCombinationOfAny(t, l, g)
  {
    forall name ensures t in CombinationTerms(name, g) <==> IsCombinationOf(t, name, g) {
      CombinationTermIff(t, name, g);
    }
    hide CombinationTerms;
    hide IsCombinationOf;
    forall i | 0 <= i < |l.names|
      ensures t in ListTerms(l.names[i], g)
              <==> exists j | 0 <= j < |l.names[i]| :: IsCombinationOf(t, l.names[i][j], g)
    {
    }
    hide ListTerms;
  }

  predicate IsCodeOf(t: string, l: Location) {
    t != "" && (t == l.iataCode || t == l.icaoCode || t == l.faaCode)
  }

  /** The names around the place; the code of its city, unless it is that of the place. */
  predicate IsNear(t: string, l: Location) {
    && t != ""
    && (t == l.cityUtfName || t == l.cityAsciiName || t == l.stateCode || t == l.countryName || t == l.adm1UtfName
        || t == l.adm1AsciiName || t == l.adm2UtfName || t == l.adm2AsciiName
        || (t == l.cityCode && l.cityCode != l.iataCode))
  }

  predicate IsGeonamesId(t: string, l: Location) {
    l.geonamesId != 0 && t == Decimal(l.geonamesId)
  }

  /** The terms of the PageRank weight. */
  ghost predicate IsDetailTerm(t: string, l: Location, g: Language) {
    || IsCodeOf(t, l) || IsNear(t, l) || (t != "" && (t == l.featureCode || t == l.adm1Code))
    || t == l.countryCode || t == l.continentName
    || exists c, f :: IsCodeOf(c, l) && f in g.featureNames(l.featureCode) && t == c + " " + f
  }

  /** The terms of the standard weight. */
  ghost predicate IsNameTerm(t: string, l: Location, g: Language) {
    || IsGeonamesId(t, l) || IsTermOfName(t, l.commonName, l, g) || IsTermOfName(t, l.asciiName, l, g)
    || IsCombinationOfAny(t, l, g)
  }

  /** The entries of the spelling dictionary. */
  ghost predicate IsSpelling(t: string, l: Location, g: Language) {
    || IsCodeOf(t, l) || IsGeonamesId(t, l) || (t != "" && t == l.featureCode) || IsNear(t, l)
    || (exists name :: name != "" && name in {l.commonName, l.asciiName}
                       && (t == Join(Tokens(name)) || t == g.normalise(Join(Tokens(name)))))
    || IsCombinationOfAny(t, l, g)
  }

  lemma CodeIff(t: string, l: Location)
    ensures t in Codes(l) <==> IsCodeOf(t, l)
  {
  }

  lemma NearIff(t: string, l: Location)
    ensures t in Surroundings(l) <==> IsNear(t, l)
  {
  }

  lemma CodeFeatureIff(t: string, l: Location, g: Language)
    ensures t in CodeFeatures(l, g)
            <==> exists c, f :: IsCodeOf(c, l) && f in g.featureNames(l.featureCode) && t == c + " " + f
  {
    forall c ensures c in Codes(l) <==> IsCodeOf(c, l) {
      CodeIff(c, l);
    }
    hide Codes;
    hide IsCodeOf;
    if c, f :| IsCodeOf(c, l) && f in g.featureNames(l.featureCode) && t == c + " " + f {
      assert t in FeatureTerms(c, l, g);
    }
  }

  lemma DetailTermIff(t: string, l: Location, g: Language)
    ensures t in WeightedTerms(l, g) <==> IsDetailTerm(t, l, g)
  {
    CodeIff(t, l);
    NearIff(t, l);
    CodeFeatureIff(t, l, g);
    hide Codes;
    hide Surroundings;
    hide CodeFeatures;
    hide IsCodeOf;
    hide IsNear;
  }

  lemma StandardTermIff(t: string, l: Location, g: Language)
    ensures t in StandardTerms(l, g) <==> IsNameTerm(t, l, g)
  {
    NameTermIff(t, l.commonName, l, g);
    NameTermIff(t, l.asciiName, l, g);
    AnyCombinationIff(t, l, g);
    hide NameTerms;
    hide IsTermOfName;
    hide AllCombinationTerms;
    hide IsCombinationOfAny;
  }

  lemma SpellingIff(t: string, l: Location, g: Language)
    ensures t in Spellings(l, g) <==> IsSpelling(t, l, g)
  {
    CodeIff(t, l);
    NearIff(t, l);
    AnyCombinationIff(t, l, g);
    hide Codes;
    hide Surroundings;
    hide IsCodeOf;
    hide IsNear;
    hide AllCombinationTerms;
    hide IsCombinationOfAny;
    hide Tokens;
    hide Join;
  }

  /** The document of a row with a PageRank in the k-th step of five points: two weights,
      under each of which stand exactly the terms of its kind, and the spellings. */
  lemma DocumentHolds(l: Location, g: Language, k: nat, t: string)
    requires 5.0 * k as real <= l.pageRank < 5.0 * (k + 1) as real && k < 65535
    ensures IsPageRank(l.pageRank)
    ensures var d, w := DocumentOf(l, g), if k == 65534 then 0 else k + 2;
            && d.location == l && d.termSetMap.Keys == {w, 1}
            && (t in d.termSetMap[w] <==> IsDetailTerm(t, l, g))
            && (t in d.termSetMap[1] <==> IsNameTerm(t, l, g))
            && (t in d.spellingSet <==> IsSpelling(t, l, g))
  {
    PageRankWeightIs(l.pageRank, k);
    DetailTermIff(t, l, g);
    StandardTermIff(t, l, g);
    SpellingIff(t, l, g);
    hide WeightedTerms;
    hide StandardTerms;
    hide Spellings;
    hide IsDetailTerm;
    hide IsNameTerm;
    hide IsSpelling;
    hide PageRankWeight;
  }
}
