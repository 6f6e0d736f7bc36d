/** The terms under which a place is indexed (opentrep/bom/Place.cpp), and the
    indexing of a file of places (opentrep/command/IndexBuilder.cpp). */
module Places {
  import opened Words
  import opened WordCombinations

  type Terms = set<string>

  type TermSetMap = map<nat, Terms>

  /** What the index needs of a POR; an absent item is the empty string, or the
      Geonames ID 0. The names are grouped by language. */
  datatype Location = Location(
    commonName: string, asciiName: string, names: seq<seq<string>>,
    iataCode: string, icaoCode: string, faaCode: string, geonamesId: nat, featureCode: string,
    cityCode: string, cityUtfName: string, cityAsciiName: string, stateCode: string,
    countryCode: string, countryName: string, continentName: string,
    adm1Code: string, adm1UtfName: string, adm1AsciiName: string,
    adm2Code: string, adm2UtfName: string, adm2AsciiName: string,
    pageRank: real)

  /** The table of the feature names, and the transliterator. */
  datatype Language = Language(featureNames: string -> seq<string>, normalise: string -> string)

  const STD_WEIGHT := 1
  const EXTRA_WEIGHT := 2
  const NB_OF_WEIGHTS := 65536

  /** The PageRanks that the source can cast to a weight. */
  predicate IsPageRank(pageRank: real) {
    0.0 <= pageRank && (pageRank / 5.0).Floor < NB_OF_WEIGHTS
  }

  /** The weight of the PageRank, an unsigned 16-bit integer. */
  function PageRankWeight(pageRank: real): nat
    requires IsPageRank(pageRank)
  {
    (EXTRA_WEIGHT + (pageRank / 5.0).Floor) % NB_OF_WEIGHTS
  }

  /** The PageRank has a weight of its own, below 327675. */
  lemma WeightsCollideIff(pageRank: real)
    requires IsPageRank(pageRank)
    ensures PageRankWeight(pageRank) == STD_WEIGHT <==> pageRank >= 327675.0
  {
    assert pageRank >= 327675.0 <==> (pageRank / 5.0).Floor >= 65535;
  }

  function Decimal(n: nat): (s: string)
    ensures s != ""
  {
    if n < 10 then ['0' + n as char] else Decimal(n / 10) + ['0' + (n % 10) as char]
  }

  // ---------------------------------------------------------------------
  // The terms, as sets

  function NonEmpty(ss: seq<string>): Terms {
    set s | s in ss && s != ""
  }

  function FeatureTerms(base: string, l: Location, g: Language): Terms {
    set f | f in g.featureNames(l.featureCode) :: base + " " + f
  }

  /** What may follow a name. */
  function Suffixes(l: Location): Terms {
    NonEmpty([l.cityUtfName, l.cityAsciiName, l.adm1UtfName, l.adm1AsciiName, l.adm2UtfName, l.adm2AsciiName])
    + {l.stateCode, l.countryCode, l.countryName, l.continentName}
  }

  function Pairs(base: string, suffixes: Terms): Terms {
    set s | s in suffixes :: base + " " + s
  }

  lemma SuffixesAre(l: Location)
    ensures Suffixes(l) == {} + NonEmpty([l.cityUtfName]) + NonEmpty([l.cityAsciiName]) + NonEmpty([l.adm1UtfName])
                           + NonEmpty([l.adm1AsciiName]) + NonEmpty([l.adm2UtfName]) + NonEmpty([l.adm2AsciiName])
                           + {l.stateCode} + {l.countryCode} + {l.countryName} + {l.continentName}
  {
  }

  function BaseTerms(base: string, l: Location, g: Language): Terms {
    {base} + Pairs(base, Suffixes(l)) + FeatureTerms(base, l, g)
  }

  lemma Union(start: Terms, a: Terms, b: Terms, c: Terms, d: Terms)
    ensures (start + c + d) + (start + a + b) == start + ((a + c) + (b + d))
  {
  }

  /** A name as such, and a name once normalised. */
  function Bases(name: string, g: Language): Terms {
    if name == "" then {} else var base := Join(Tokens(name)); {base, g.normalise(base)}
  }

  function NameTerms(name: string, l: Location, g: Language): Terms {
    set b, t | b in Bases(name, g) && t in BaseTerms(b, l, g) :: t
  }

  lemma NameTermsAre(name: string, l: Location, g: Language)
    requires name != ""
    ensures var base := Join(Tokens(name));
            NameTerms(name, l, g) == BaseTerms(base, l, g) + BaseTerms(g.normalise(base), l, g)
  {
    hide BaseTerms;
  }

  /** The word combinations of the names in all the languages, as such and normalised. */
  ghost function Combinations(name: string): Terms {
    var ws := Tokens(name);
    (set i, j | 0 <= i < j <= |ws| :: Join(ws[i..j])) + (set q | q in AllGaps(ws))
  }

  function WithNormalised(ss: Terms, g: Language): Terms {
    ss + set s | s in ss :: g.normalise(s)
  }

  function StringsOf(list: seq<string>): Terms {
    set s | s in list
  }

  ghost function CombinationTerms(name: string, g: Language): Terms {
    if name == "" then {} else WithNormalised(Combinations(name), g)
  }

  ghost function ListTerms(names: seq<string>, g: Language): Terms {
    set i, t | 0 <= i < |names| && t in CombinationTerms(names[i], g) :: t
  }

  ghost function AllCombinationTerms(names: seq<seq<string>>, g: Language): Terms {
    set i, t | 0 <= i < |names| && t in ListTerms(names[i], g) :: t
  }

  function Codes(l: Location): Terms {
    NonEmpty([l.iataCode, l.icaoCode, l.faaCode])
  }

  function CodeFeatures(l: Location, g: Language): Terms {
    set c, t | c in Codes(l) && t in FeatureTerms(c, l, g) :: t
  }

  function CityDetails(l: Location): Terms {
    NonEmpty([if l.cityCode == l.iataCode then "" else l.cityCode, l.cityUtfName, l.cityAsciiName, l.stateCode,
              l.countryName])
  }

  function AdminNames(l: Location): Terms {
    NonEmpty([l.adm1UtfName, l.adm1AsciiName, l.adm2UtfName, l.adm2AsciiName])
  }

  /** The place names around the place, and the code of its city. */
  function Surroundings(l: Location): Terms {
    CityDetails(l) + AdminNames(l)
  }

  /** The terms of the PageRank weight. */
  function WeightedTerms(l: Location, g: Language): Terms {
    Codes(l) + CodeFeatures(l, g) + Surroundings(l) + NonEmpty([l.featureCode, l.adm1Code])
    + {l.countryCode, l.continentName}
  }

  function Geonames(l: Location): Terms {
    if l.geonamesId == 0 then {} else {Decimal(l.geonamesId)}
  }

  /** The terms of the standard weight. */
  ghost function StandardTerms(l: Location, g: Language): Terms {
    Geonames(l) + NameTerms(l.commonName, l, g) + NameTerms(l.asciiName, l, g) + AllCombinationTerms(l.names, g)
  }

  ghost function Spellings(l: Location, g: Language): Terms {
    Codes(l) + Geonames(l) + NonEmpty([l.featureCode]) + Surroundings(l)
    + Bases(l.commonName, g) + Bases(l.asciiName, g) + AllCombinationTerms(l.names, g)
  }

  /** Whatever enters the spelling dictionary is a term of one of the weights. */
  lemma SpellingsAreTerms(l: Location, g: Language)
    ensures Spellings(l, g) <= WeightedTerms(l, g) + StandardTerms(l, g)
  {
    hide CodeFeatures;
    hide CombinationTerms;
    forall b, name | name in {l.commonName, l.asciiName} && b in Bases(name, g) ensures b in NameTerms(name, l, g) {
      assert b in BaseTerms(b, l, g);
    }
  }

  /** The source reads the level 1 code twice, and the level 2 code never: whatever
      that one is, the terms are the same ... */
  lemma Level2CodeIsIgnored(l: Location, code: string, g: Language)
    ensures var m := l.(adm2Code := code);
            && WeightedTerms(m, g) == WeightedTerms(l, g) && StandardTerms(m, g) == StandardTerms(l, g)
            && Spellings(m, g) == Spellings(l, g)
  {
    hide AllCombinationTerms;
    var m := l.(adm2Code := code);
    assert Suffixes(m) == Suffixes(l) && CityDetails(m) == CityDetails(l) && AdminNames(m) == AdminNames(l);
    hide Suffixes;
    assert forall b :: BaseTerms(b, m, g) == BaseTerms(b, l, g);
    hide BaseTerms;
    assert forall c :: FeatureTerms(c, m, g) == FeatureTerms(c, l, g);
  }

  lemma {:induction false} SpacelessJoin(ws: seq<string>, code: string)
    requires code != "" && ' ' !in code
    ensures Join(ws) == code <==> ws == [code]
  {
    if |ws| >= 2 {
      assert Join(ws)[|ws[0]|] == ' ';
    }
  }

  lemma {:induction false} GapsHaveSpaces(ws: seq<string>, n: nat, q: string)
    requires n < |ws| && q in Gaps(ws, n)
    ensures ' ' in q
  {
    hide Join;
    if n > 1 && q in Gaps(ws, n - 1) {
      GapsHaveSpaces(ws, n - 1, q);
    } else {
      var k :| 0 <= k < |GapsOf(ws, n - 1)| && GapsOf(ws, n - 1)[k] == q;
      assert q[|Join(ws[..k + 1])|] == ' ';
    }
  }

  /** A combination without a space is a word of the name. */
  lemma SpacelessCombination(name: string, code: string)
    requires code != "" && ' ' !in code
    ensures code in Combinations(name) <==> code in Tokens(name)
  {
    var ws := Tokens(name);
    hide Tokens;
    hide Join;
    hide Gaps;
    if code in ws {
      var k :| 0 <= k < |ws| && ws[k] == code;
      SpacelessJoin(ws[k..k + 1], code);
      assert Join(ws[k..k + 1]) == code;
    }
    if code in Combinations(name) {
      if code in AllGaps(ws) {
        GapsHaveSpaces(ws, |ws| - 1, code);
      }
      var i, j :| 0 <= i < j <= |ws| && Join(ws[i..j]) == code;
      SpacelessJoin(ws[i..j], code);
      assert ws[i..j][0] == ws[i];
    }
  }

  /** The text is the only word of the name, or what the whole name is normalised to. */
  predicate IsWholeName(code: string, name: string, g: Language) {
    Tokens(name) == [code] || (name != "" && g.normalise(Join(Tokens(name))) == code)
  }

  /** The text is a word of the name, or what one of its combinations is normalised to. */
  ghost predicate IsPartOfName(code: string, name: string, g: Language) {
    code in Tokens(name) || (name != "" && exists q :: q in Combinations(name) && g.normalise(q) == code)
  }

  /** What can make a text without spaces a term: another detail of the location, or its names. */
  ghost predicate IsHeldElsewhere(code: string, l: Location, g: Language) {
    || code in Codes(l) + Surroundings(l) + Geonames(l) + NonEmpty([l.featureCode, l.adm1Code])
    || code == l.countryCode || code == l.continentName
    || IsWholeName(code, l.commonName, g) || IsWholeName(code, l.asciiName, g)
    || exists i, j | 0 <= i < |l.names| && 0 <= j < |l.names[i]| :: IsPartOfName(code, l.names[i][j], g)
  }

  lemma SpacelessBases(name: string, code: string, g: Language)
    requires code != "" && ' ' !in code
    ensures code in Bases(name, g) <==> IsWholeName(code, name, g)
  {
    hide Join;
    SpacelessJoin(Tokens(name), code);
    if name == "" {
      assert Tokens(name) == [];
    } else {
      hide Tokens;
    }
  }

  /** Every pair of a name and a detail, or a feature, holds a space. */
  lemma SpacelessNameTerm(name: string, code: string, l: Location, g: Language)
    requires code != "" && ' ' !in code
    ensures code in NameTerms(name, l, g) <==> IsWholeName(code, name, g)
  {
    SpacelessBases(name, code, g);
    hide Suffixes;
    hide Bases;
    hide IsWholeName;
    assert forall b, f: string :: (b + " " + f)[|b|] == ' ';
    assert forall b :: code in BaseTerms(b, l, g) <==> b == code;
    hide BaseTerms;
    if code in Bases(name, g) {
      assert code in BaseTerms(code, l, g);
    }
  }

  lemma SpacelessCombinationTerm(name: string, code: string, g: Language)
    requires code != "" && ' ' !in code
    ensures code in CombinationTerms(name, g) <==> IsPartOfName(code, name, g)
  {
    hide Combinations;
    if name == "" {
      assert Tokens(name) == [];
    } else {
      hide Tokens;
      SpacelessCombination(name, code);
      var terms := Combinations(name);
      assert code in WithNormalised(terms, g) <==> code in terms || exists q :: q in terms && g.normalise(q) == code;
    }
  }

  lemma SpacelessNames(code: string, l: Location, g: Language)
    requires code != "" && ' ' !in code
    ensures code in AllCombinationTerms(l.names, g) <==>
            exists i, j | 0 <= i < |l.names| && 0 <= j < |l.names[i]| :: IsPartOfName(code, l.names[i][j], g)
  {
    forall name ensures code in CombinationTerms(name, g) <==> IsPartOfName(code, name, g) {
      SpacelessCombinationTerm(name, code, g);
    }
    hide CombinationTerms;
    hide IsPartOfName;
    forall i | 0 <= i < |l.names|
      ensures code in ListTerms(l.names[i], g)
              <==> exists j | 0 <= j < |l.names[i]| :: IsPartOfName(code, l.names[i][j], g)
    {
    }
    hide ListTerms;
  }

  lemma CodeFeaturesHaveSpaces(t: string, l: Location, g: Language)
    requires t in CodeFeatures(l, g)
    ensures ' ' in t
  {
    assert forall b, f: string :: (b + " " + f)[|b|] == ' ';
  }

  /** ... so that it is a term exactly when another detail, or a name, makes it one. */
  lemma Level2CodeIsATermIff(l: Location, g: Language)
    requires l.adm2Code != "" && ' ' !in l.adm2Code
    ensures l.adm2Code in WeightedTerms(l, g) + StandardTerms(l, g) <==> IsHeldElsewhere(l.adm2Code, l, g)
  {
    var code := l.adm2Code;
    SpacelessNameTerm(l.commonName, code, l, g);
    SpacelessNameTerm(l.asciiName, code, l, g);
    SpacelessNames(code, l, g);
    if code in CodeFeatures(l, g) {
      CodeFeaturesHaveSpaces(code, l, g);
    }
    hide AllCombinationTerms;
    hide IsPartOfName;
    hide IsWholeName;
    hide NameTerms;
    hide CodeFeatures;
    hide Codes;
    hide Surroundings;
    hide Geonames;
  }

  /** It can be lost. */
  lemma Level2CodeCanBeLost(g: Language)
    ensures var l := Location("", "", [], "", "", "", 0, "", "", "", "", "", "", "", "", "", "", "", "06", "", "", 0.1);
            l.adm2Code !in WeightedTerms(l, g) + StandardTerms(l, g)
  {
  }

  // ---------------------------------------------------------------------
  // The term sets, by weight

  function TermsAt(m: TermSetMap, weight: nat): Terms {
    if weight in m then m[weight] else {}
  }

  /** From one map to the other, the PageRank weight has gained exactly some terms,
      the standard weight some others, and the other weights nothing; the two
      weights may be the same. */
  ghost predicate Gained(before: TermSetMap, after: TermSetMap, weight: nat, weighted: Terms, standard: Terms) {
    && before.Keys <= after.Keys <= before.Keys + {weight, STD_WEIGHT}
    && forall w :: TermsAt(after, w)
                   == TermsAt(before, w) + (if w == weight then weighted else {})
                      + (if w == STD_WEIGHT then standard else {})
  }

  lemma GainsAddUp(a: TermSetMap, b: TermSetMap, c: TermSetMap, weight: nat,
                   w1: Terms, s1: Terms, w2: Terms, s2: Terms, w: Terms, s: Terms)
    requires Gained(a, b, weight, w1, s1) && Gained(b, c, weight, w2, s2)
    requires w == w1 + w2 && s == s1 + s2
    ensures Gained(a, c, weight, w, s)
  {
    hide TermsAt;
  }

  /** Writing a stale copy of the terms of both weights back loses nothing of what
      the map has gained in between. */
  lemma WritingBack(a: TermSetMap, b: TermSetMap, c: TermSetMap, d: TermSetMap, weight: nat,
                    w1: Terms, s1: Terms, w2: Terms, s2: Terms)
    requires Gained(a, b, weight, w1, s1)
    requires c == b[weight := TermsAt(b, weight) + (TermsAt(a, weight) + w2)]
    requires d == c[STD_WEIGHT := TermsAt(c, STD_WEIGHT) + (TermsAt(a, STD_WEIGHT) + s2)]
    ensures Gained(a, d, weight, w1 + w2, s1 + s2) && {weight, STD_WEIGHT} <= d.Keys
  {
  }

  class Place {
    var location: Location
    var termSetMap: TermSetMap
    var spellingSet: Terms
    var stemmingSet: Terms
    var synonymSet: Terms

    constructor (location: Location)
      ensures this.location == location
      ensures termSetMap == map[] && spellingSet == {} && stemmingSet == {} && synonymSet == {}
    {
      this.location := location;
      termSetMap, spellingSet, stemmingSet, synonymSet := map[], {}, {}, {};
    }

    method ResetIndexSets()
      modifies this`termSetMap, this`spellingSet, this`stemmingSet, this`synonymSet
      ensures termSetMap == map[] && spellingSet == {} && stemmingSet == {} && synonymSet == {}
    {
      termSetMap := map[];
      spellingSet := {};
      stemmingSet := {};
      synonymSet := {};
    }

    /** A copy of the terms of a weight. */
    method GetTermSet(weight: nat) returns (termSet: Terms)
      ensures termSet == TermsAt(termSetMap, weight)
    {
      termSet := {};
      if weight in termSetMap {
        termSet := termSetMap[weight];
      }
    }

    /** The terms are added to those of the weight, and replace none of them. */
    method AddTermSet(weight: nat, termSet: Terms)
      modifies this`termSetMap
      ensures termSetMap == old(termSetMap)[weight := TermsAt(old(termSetMap), weight) + termSet]
    {
      if weight !in termSetMap {
        termSetMap := termSetMap[weight := termSet];
        assert {} + termSet == termSet;
      } else {
        termSetMap := termSetMap[weight := termSetMap[weight] + termSet];
      }
    }

    /** The base name, with each of the names of its feature. */
    method AddFeatureNames(weight: nat, baseName: string, l: Location, g: Language)
      modifies this`termSetMap
      ensures termSetMap
              == old(termSetMap)[weight := TermsAt(old(termSetMap), weight) + FeatureTerms(baseName, l, g)]
    {
      var termSet := GetTermSet(weight);
      var features := g.featureNames(l.featureCode);
      for i := 0 to |features|
        invariant termSet == TermsAt(termSetMap, weight) + set f | f in features[..i] :: baseName + " " + f
      {
        termSet := termSet + {baseName + " " + features[i]};
      }
      assert features[..|features|] == features;
      AddTermSet(weight, termSet);
    }

    method WithSuffix(termSet: Terms, baseName: string, suffix: string, ghost start: Terms, ghost suffixes: Terms)
      returns (r: Terms)
      requires termSet == start + Pairs(baseName, suffixes)
      ensures r == start + Pairs(baseName, suffixes + NonEmpty([suffix]))
    {
      r := termSet;
      if suffix != "" {
        r := r + {baseName + " " + suffix};
      }
    }

    method WithPair(termSet: Terms, baseName: string, suffix: string, ghost start: Terms, ghost suffixes: Terms)
      returns (r: Terms)
      requires termSet == start + Pairs(baseName, suffixes)
      ensures r == start + Pairs(baseName, suffixes + {suffix})
    {
      r := termSet + {baseName + " " + suffix};
    }

    /** A name, with each of the places around it. */
    method WithSuffixes(termSet: Terms, baseName: string, l: Location) returns (r: Terms)
      ensures r == termSet + Pairs(baseName, Suffixes(l))
    {
      SuffixesAre(l);
      assert termSet == termSet + Pairs(baseName, {});
      hide Pairs;
      hide NonEmpty;
      hide Suffixes;
      ghost var ss := {};
      r := WithSuffix(termSet, baseName, l.cityUtfName, termSet, ss);
      ss := ss + NonEmpty([l.cityUtfName]);
      r := WithSuffix(r, baseName, l.cityAsciiName, termSet, ss);
      ss := ss + NonEmpty([l.cityAsciiName]);
      r := WithSuffix(r, baseName, l.adm1UtfName, termSet, ss);
      ss := ss + NonEmpty([l.adm1UtfName]);
      r := WithSuffix(r, baseName, l.adm1AsciiName, termSet, ss);
      ss := ss + NonEmpty([l.adm1AsciiName]);
      r := WithSuffix(r, baseName, l.adm2UtfName, termSet, ss);
      ss := ss + NonEmpty([l.adm2UtfName]);
      r := WithSuffix(r, baseName, l.adm2AsciiName, termSet, ss);
      ss := ss + NonEmpty([l.adm2AsciiName]);
      r := WithPair(r, baseName, l.stateCode, termSet, ss);
      ss := ss + {l.stateCode};
      r := WithPair(r, baseName, l.countryCode, termSet, ss);
      ss := ss + {l.countryCode};
      r := WithPair(r, baseName, l.countryName, termSet, ss);
      ss := ss + {l.countryName};
      r := WithPair(r, baseName, l.continentName, termSet, ss);
    }

    /** What one form of a name adds; its feature names go directly to the map. */
    method AddBase(weight: nat, baseName: string, l: Location, g: Language, termSet: Terms) returns (r: Terms)
      modifies this`termSetMap, this`spellingSet
      ensures termSetMap
              == old(termSetMap)[weight := TermsAt(old(termSetMap), weight) + FeatureTerms(baseName, l, g)]
      ensures r == termSet + {baseName} + Pairs(baseName, Suffixes(l))
      ensures spellingSet == old(spellingSet) + {baseName}
    {
      r := termSet + {baseName};
      AddFeatureNames(weight, baseName, l, g);
      r := WithSuffixes(r, baseName, l);
      spellingSet := spellingSet + {baseName};
    }

    method AddBases(weight: nat, tokenised: string, normalised: string, l: Location, g: Language, start: Terms)
      requires start == TermsAt(termSetMap, weight)
      modifies this`termSetMap, this`spellingSet
      ensures termSetMap
              == old(termSetMap)[weight := start + (BaseTerms(tokenised, l, g) + BaseTerms(normalised, l, g))]
      ensures spellingSet == old(spellingSet) + {tokenised, normalised}
    {
      hide Pairs;
      hide Suffixes;
      hide FeatureTerms;
      var termSet := AddBase(weight, tokenised, l, g, start);
      termSet := AddBase(weight, normalised, l, g, termSet);
      AddTermSet(weight, termSet);
      Union(start, {tokenised} + Pairs(tokenised, Suffixes(l)), {normalised} + Pairs(normalised, Suffixes(l)),
            FeatureTerms(tokenised, l, g), FeatureTerms(normalised, l, g));
      assert termSet == start + ({tokenised} + Pairs(tokenised, Suffixes(l)))
                        + ({normalised} + Pairs(normalised, Suffixes(l)));
    }

    /** Adds a name to the terms of a weight. The local copy of the terms is taken
        before the feature names go to the map, and written back after them. */
    method AddNameToXapianSets(weight: nat, name: string, l: Location, g: Language)
      requires name != ""
      modifies this`termSetMap, this`spellingSet
      ensures termSetMap == old(termSetMap)[weight := TermsAt(old(termSetMap), weight) + NameTerms(name, l, g)]
      ensures spellingSet == old(spellingSet) + Bases(name, g)
    {
      NameTermsAre(name, l, g);
      hide NameTerms;
      hide BaseTerms;
      var termSet := GetTermSet(weight);
      var words := TokeniseStringIntoWordList(name);
      var tokenised := CreateStringFromWordList(words);
      AddBases(weight, tokenised, g.normalise(tokenised), l, g, termSet);
    }

    /** A code, if any, and its feature names. */
    method AddCode(weight: nat, code: string, l: Location, g: Language, termSet: Terms) returns (r: Terms)
      modifies this`termSetMap, this`spellingSet
      ensures r == termSet + NonEmpty([code])
      ensures spellingSet == old(spellingSet) + NonEmpty([code])
      ensures Gained(old(termSetMap), termSetMap, weight, CodeGain(code, l, g), {})
    {
      r := termSet;
      if code != "" {
        r := r + {code};
        spellingSet := spellingSet + {code};
        AddFeatureNames(weight, code, l, g);
      }
    }

    method AddCodes(weight: nat, l: Location, g: Language, termSet: Terms) returns (r: Terms)
      modifies this`termSetMap, this`spellingSet
      ensures r == termSet + Codes(l) && spellingSet == old(spellingSet) + Codes(l)
      ensures Gained(old(termSetMap), termSetMap, weight, CodeFeatures(l, g), {})
    {
      CodesAre(l, g);
      hide NonEmpty;
      hide Gained;
      hide CodeGain;
      hide CodeFeatures;
      hide Codes;
      ghost var m := termSetMap;
      ghost var x, y, z := CodeGain(l.iataCode, l, g), CodeGain(l.icaoCode, l, g), CodeGain(l.faaCode, l, g);
      r := AddCode(weight, l.iataCode, l, g, termSet);
      ghost var n := termSetMap;
      r := AddCode(weight, l.icaoCode, l, g, r);
      GainsAddUp(m, n, termSetMap, weight, x, {}, y, {}, x + y, {});
      n := termSetMap;
      r := AddCode(weight, l.faaCode, l, g, r);
      GainsAddUp(m, n, termSetMap, weight, x + y, {}, z, {}, CodeFeatures(l, g), {});
    }

    /** The strings of a list of word combinations, as such and normalised. */
    method AddStrings(list: seq<string>, g: Language, termSet: Terms) returns (r: Terms)
      modifies this`spellingSet
      ensures r == termSet + WithNormalised(StringsOf(list), g)
      ensures spellingSet == old(spellingSet) + WithNormalised(StringsOf(list), g)
    {
      r := termSet;
      for i := 0 to |list|
        invariant r == termSet + WithNormalised(StringsOf(list[..i]), g)
        invariant spellingSet == old(spellingSet) + WithNormalised(StringsOf(list[..i]), g)
      {
        OneMoreString(list, i, g);
        hide WithNormalised;
        hide StringsOf;
        var normalised := g.normalise(list[i]);
        r := r + {list[i]};
        spellingSet := spellingSet + {list[i]};
        r := r + {normalised};
        spellingSet := spellingSet + {normalised};
      }
      assert list[..|list|] == list;
    }

    method AddCombinations(name: string, g: Language, termSet: Terms) returns (r: Terms)
      modifies this`spellingSet
      ensures r == termSet + CombinationTerms(name, g) && spellingSet == old(spellingSet) + CombinationTerms(name, g)
    {
      r := termSet;
      if name != "" {
        var holder := new WordCombinationHolder(name);
        CombinationsAreTheList(name, holder.list);
        hide Combinations;
        r := AddStrings(holder.list, g, r);
      }
    }

    method AddNameList(names: seq<string>, g: Language, termSet: Terms) returns (r: Terms)
      modifies this`spellingSet
      ensures r == termSet + ListTerms(names, g) && spellingSet == old(spellingSet) + ListTerms(names, g)
    {
      r := termSet;
      for i := 0 to |names|
        invariant r == termSet + ListTerms(names[..i], g)
        invariant spellingSet == old(spellingSet) + ListTerms(names[..i], g)
      {
        OneMoreName(names, i, g);
        hide ListTerms;
        r := AddCombinations(names[i], g, r);
      }
      assert names[..|names|] == names;
    }

    method AddNameMatrix(names: seq<seq<string>>, g: Language, termSet: Terms) returns (r: Terms)
      modifies this`spellingSet
      ensures r == termSet + AllCombinationTerms(names, g)
      ensures spellingSet == old(spellingSet) + AllCombinationTerms(names, g)
    {
      r := termSet;
      for i := 0 to |names|
        invariant r == termSet + AllCombinationTerms(names[..i], g)
        invariant spellingSet == old(spellingSet) + AllCombinationTerms(names[..i], g)
      {
        OneMoreList(names, i, g);
        hide AllCombinationTerms;
        hide ListTerms;
        r := AddNameList(names[i], g, r);
      }
      assert names[..|names|] == names;
    }

    /** A detail, if any, and its spelling. */
    method AddDetail(detail: string, termSet: Terms) returns (r: Terms)
      modifies this`spellingSet
      ensures r == termSet + NonEmpty([detail]) && spellingSet == old(spellingSet) + NonEmpty([detail])
    {
      r := termSet;
      if detail != "" {
        r := r + {detail};
        spellingSet := spellingSet + {detail};
      }
    }

    method AddCityDetails(l: Location, termSet: Terms) returns (r: Terms)
      modifies this`spellingSet
      ensures r == termSet + CityDetails(l) + {l.countryCode} && spellingSet == old(spellingSet) + CityDetails(l)
    {
      DetailsAre(l);
      hide CityDetails;
      hide NonEmpty;
      r := termSet;
      if l.cityCode != l.iataCode {
        r := AddDetail(l.cityCode, r);
      }
      r := AddDetail(l.cityUtfName, r);
      r := AddDetail(l.cityAsciiName, r);
      r := AddDetail(l.stateCode, r);
      r := r + {l.countryCode};
      r := AddDetail(l.countryName, r);
    }

    method AddUnspelled(detail: string, termSet: Terms) returns (r: Terms)
      ensures r == termSet + NonEmpty([detail])
    {
      r := termSet;
      if detail != "" {
        r := r + {detail};
      }
    }

    /** The level 2 code is read from level 1 as well. */
    method AddAdminDetails(l: Location, termSet: Terms) returns (r: Terms)
      modifies this`spellingSet
      ensures r == termSet + NonEmpty([l.adm1Code]) + AdminNames(l) && spellingSet == old(spellingSet) + AdminNames(l)
    {
      DetailsAre(l);
      hide AdminNames;
      hide NonEmpty;
      r := AddUnspelled(l.adm1Code, termSet);
      r := AddDetail(l.adm1UtfName, r);
      r := AddDetail(l.adm1AsciiName, r);
      r := AddUnspelled(l.adm1Code, r);
      r := AddDetail(l.adm2UtfName, r);
      r := AddDetail(l.adm2AsciiName, r);
    }

    /** The details that are single terms. */
    method AddDetails(l: Location, termSet: Terms) returns (r: Terms)
      modifies this`spellingSet
      ensures r == termSet + Surroundings(l) + NonEmpty([l.featureCode, l.adm1Code]) + {l.countryCode, l.continentName}
      ensures spellingSet == old(spellingSet) + NonEmpty([l.featureCode]) + Surroundings(l)
    {
      DetailsAre(l);
      hide CityDetails;
      hide AdminNames;
      hide NonEmpty;
      r := AddDetail(l.featureCode, termSet);
      r := AddCityDetails(l, r);
      r := AddAdminDetails(l, r);
      r := r + {l.continentName};
    }

    method AddGeonames(l: Location, termSet: Terms) returns (r: Terms)
      modifies this`spellingSet
      ensures r == termSet + Geonames(l) && spellingSet == old(spellingSet) + Geonames(l)
    {
      r := termSet;
      if l.geonamesId != 0 {
        var text := Decimal(l.geonamesId);
        r := r + {text};
        spellingSet := spellingSet + {text};
      }
    }

    method AddName(ghost weight: nat, name: string, l: Location, g: Language)
      modifies this`termSetMap, this`spellingSet
      ensures Gained(old(termSetMap), termSetMap, weight, {}, NameTerms(name, l, g))
      ensures spellingSet == old(spellingSet) + Bases(name, g)
    {
      if name != "" {
        hide NameTerms;
        AddNameToXapianSets(STD_WEIGHT, name, l, g);
      }
    }

    /** The common name and the ASCII name go directly to the map. */
    method AddNames(weight: nat, l: Location, g: Language)
      modifies this`termSetMap, this`spellingSet
      ensures Gained(old(termSetMap), termSetMap, weight,
                     {}, NameTerms(l.commonName, l, g) + NameTerms(l.asciiName, l, g))
      ensures spellingSet == old(spellingSet) + Bases(l.commonName, g) + Bases(l.asciiName, g)
    {
      hide Gained;
      hide NameTerms;
      ghost var m := termSetMap;
      AddName(weight, l.commonName, l, g);
      ghost var n := termSetMap;
      AddName(weight, l.asciiName, l, g);
      GainsAddUp(m, n, termSetMap, weight, {}, NameTerms(l.commonName, l, g), {}, NameTerms(l.asciiName, l, g),
                 {}, NameTerms(l.commonName, l, g) + NameTerms(l.asciiName, l, g));
    }

    /** Gathers the terms of the place. Some go to the map directly, and the others
        to the local copies of the terms of the two weights. */
    method GatherTerms(weight: nat, l: Location, g: Language, weightedTermSet: Terms, stdTermSet: Terms)
      returns (weighted: Terms, standard: Terms)
      modifies this`termSetMap, this`spellingSet
      ensures weighted == weightedTermSet + Details(l)
      ensures standard == stdTermSet + (Geonames(l) + AllCombinationTerms(l.names, g))
      ensures Gained(old(termSetMap), termSetMap, weight, CodeFeatures(l, g), BothNames(l, g))
      ensures spellingSet == old(spellingSet) + Spellings(l, g)
    {
      TermsAre(l, g);
      hide Gained;
      hide Codes;
      hide CodeFeatures;
      hide Surroundings;
      hide Geonames;
      hide NonEmpty;
      hide NameTerms;
      hide Bases;
      hide AllCombinationTerms;
      hide Spellings;
      ghost var start := termSetMap;
      weighted := AddCodes(weight, l, g, weightedTermSet);
      ghost var coded := termSetMap;
      standard := AddGeonames(l, stdTermSet);
      weighted := AddDetails(l, weighted);
      AddNames(weight, l, g);
      standard := AddNameMatrix(l.names, g, standard);
      GainsAddUp(start, coded, termSetMap, weight, CodeFeatures(l, g), {}, {}, BothNames(l, g),
                 CodeFeatures(l, g), BothNames(l, g));
    }

    /** Writes the local copies back: they were taken from the map start, and the
        map has gained w1 and s1 since. */
    method WriteBack(weight: nat, weighted: Terms, standard: Terms, ghost start: TermSetMap,
                     ghost w1: Terms, ghost s1: Terms, ghost w2: Terms, ghost s2: Terms)
      requires Gained(start, termSetMap, weight, w1, s1)
      requires weighted == TermsAt(start, weight) + w2 && standard == TermsAt(start, STD_WEIGHT) + s2
      modifies this`termSetMap
      ensures Gained(start, termSetMap, weight, w1 + w2, s1 + s2) && {weight, STD_WEIGHT} <= termSetMap.Keys
    {
      ghost var gathered := termSetMap;
      AddTermSet(weight, weighted);
      ghost var written := termSetMap;
      AddTermSet(STD_WEIGHT, standard);
      hide TermsAt;
      hide Gained;
      WritingBack(start, gathered, written, termSetMap, weight, w1, s1, w2, s2);
    }

    /** Local copies of the terms of both weights are taken first, and written back last. */
    method BuildSets(weight: nat, l: Location, g: Language)
      modifies this`termSetMap, this`spellingSet
      ensures Gained(old(termSetMap), termSetMap, weight, CodeFeatures(l, g) + Details(l),
                     BothNames(l, g) + (Geonames(l) + AllCombinationTerms(l.names, g)))
      ensures {weight, STD_WEIGHT} <= termSetMap.Keys
      ensures spellingSet == old(spellingSet) + Spellings(l, g)
    {
      hide Gained;
      hide TermsAt;
      hide Details;
      hide BothNames;
      hide Geonames;
      hide CodeFeatures;
      hide AllCombinationTerms;
      hide Spellings;
      ghost var start := termSetMap;
      var weightedTermSet := GetTermSet(weight);
      var stdTermSet := GetTermSet(STD_WEIGHT);
      weightedTermSet, stdTermSet := GatherTerms(weight, l, g, weightedTermSet, stdTermSet);
      WriteBack(weight, weightedTermSet, stdTermSet, start, CodeFeatures(l, g), BothNames(l, g),
                Details(l), Geonames(l) + AllCombinationTerms(l.names, g));
    }

    /** All the terms of the place, each under its weight; whatever the two sets of
        terms and the spellings held before is still there. */
    method BuildIndexSets(g: Language)
      requires IsPageRank(location.pageRank)
      modifies this`termSetMap, this`spellingSet
      ensures Gained(old(termSetMap), termSetMap, PageRankWeight(location.pageRank),
                     WeightedTerms(location, g), StandardTerms(location, g))
      ensures {PageRankWeight(location.pageRank), STD_WEIGHT} <= termSetMap.Keys
      ensures spellingSet == old(spellingSet) + Spellings(location, g)
    {
      TermsAre(location, g);
      hide Gained;
      hide Details;
      hide BothNames;
      hide WeightedTerms;
      hide StandardTerms;
      hide Spellings;
      BuildSets(PageRankWeight(location.pageRank), location, g);
    }
  }

  function BothNames(l: Location, g: Language): Terms {
    NameTerms(l.commonName, l, g) + NameTerms(l.asciiName, l, g)
  }

  /** The terms of the PageRank weight that go through the local copy. */
  function Details(l: Location): Terms {
    Codes(l) + Surroundings(l) + NonEmpty([l.featureCode, l.adm1Code]) + {l.countryCode, l.continentName}
  }

  lemma TermsAre(l: Location, g: Language)
    ensures WeightedTerms(l, g) == CodeFeatures(l, g) + Details(l)
    ensures StandardTerms(l, g) == BothNames(l, g) + (Geonames(l) + AllCombinationTerms(l.names, g))
    ensures Spellings(l, g) == Codes(l) + Geonames(l) + NonEmpty([l.featureCode]) + Surroundings(l)
                               + Bases(l.commonName, g) + Bases(l.asciiName, g) + AllCombinationTerms(l.names, g)
  {
    hide Codes;
    hide CodeFeatures;
    hide Surroundings;
    hide NonEmpty;
    hide NameTerms;
    hide AllCombinationTerms;
  }

  lemma DetailsAre(l: Location)
    ensures CityDetails(l) == (if l.cityCode == l.iataCode then {} else NonEmpty([l.cityCode]))
                              + NonEmpty([l.cityUtfName]) + NonEmpty([l.cityAsciiName]) + NonEmpty([l.stateCode])
                              + NonEmpty([l.countryName])
    ensures AdminNames(l) == NonEmpty([l.adm1UtfName]) + NonEmpty([l.adm1AsciiName])
                             + NonEmpty([l.adm2UtfName]) + NonEmpty([l.adm2AsciiName])
    ensures NonEmpty([l.featureCode, l.adm1Code]) == NonEmpty([l.featureCode]) + NonEmpty([l.adm1Code])
  {
  }

  function CodeGain(code: string, l: Location, g: Language): Terms {
    if code == "" then {} else FeatureTerms(code, l, g)
  }

  lemma CodesAre(l: Location, g: Language)
    ensures Codes(l) == NonEmpty([l.iataCode]) + NonEmpty([l.icaoCode]) + NonEmpty([l.faaCode])
    ensures CodeFeatures(l, g) == CodeGain(l.iataCode, l, g) + CodeGain(l.icaoCode, l, g) + CodeGain(l.faaCode, l, g)
  {
    hide FeatureTerms;
  }

  lemma CombinationsAreTheList(name: string, list: seq<string>)
    requires exists spans, s :: list == spans + AllGaps(Tokens(name)) && IsListing(spans, s)
                                && forall q :: q in s <==> IsSpan(q, Tokens(name))
    ensures Combinations(name) == StringsOf(list)
  {
  }

  lemma OneMoreString(list: seq<string>, i: nat, g: Language)
    requires i < |list|
    ensures WithNormalised(StringsOf(list[..i + 1]), g)
            == WithNormalised(StringsOf(list[..i]), g) + {list[i], g.normalise(list[i])}
  {
    assert list[..i + 1] == list[..i] + [list[i]];
    assert StringsOf(list[..i + 1]) == StringsOf(list[..i]) + {list[i]};
  }

  lemma OneMoreName(names: seq<string>, i: nat, g: Language)
    requires i < |names|
    ensures ListTerms(names[..i + 1], g) == ListTerms(names[..i], g) + CombinationTerms(names[i], g)
  {
    hide CombinationTerms;
    var init, more := names[..i], names[..i + 1];
    assert more[i] == names[i] && forall k | 0 <= k < i :: init[k] == more[k];
  }

  lemma OneMoreList(names: seq<seq<string>>, i: nat, g: Language)
    requires i < |names|
    ensures AllCombinationTerms(names[..i + 1], g) == AllCombinationTerms(names[..i], g) + ListTerms(names[i], g)
  {
    hide ListTerms;
    var init, more := names[..i], names[..i + 1];
    assert more[i] == names[i] && forall k | 0 <= k < i :: init[k] == more[k];
  }

  // ---------------------------------------------------------------------
  // A file of places, and the one Place that goes through it

  /** What goes to Xapian for one row. */
  datatype Document = Document(location: Location, termSetMap: TermSetMap, spellingSet: Terms)

  const NOT_AVAILABLE := "NotAvailable"

  /** The indexes of the rows that have a common name, from the top of the file down. */
  ghost predicate AreAvailable(js: seq<nat>, rows: seq<Location>) {
    && (forall a, b | 0 <= a < b < |js| :: js[a] < js[b])
    && (forall j: nat :: j in js <==> j < |rows| && rows[j].commonName != "NotAvailable")
  }

  lemma NoRows(rows: seq<Location>)
    ensures AreAvailable([], rows[..0])
  {
  }

  lemma NextRow(js: seq<nat>, rows: seq<Location>, i: nat)
    requires i < |rows| && AreAvailable(js, rows[..i])
    ensures AreAvailable(if rows[i].commonName == "NotAvailable" then js else js + [i], rows[..i + 1])
  {
    var next := if rows[i].commonName == "NotAvailable" then js else js + [i];
    assert forall a | 0 <= a < |js| :: js[a] in js;
    forall j: nat ensures j in next <==> j < i + 1 && rows[j].commonName != "NotAvailable" {
      assert j < i ==> rows[..i][j] == rows[j];
    }
  }

  lemma AvailableInit(js: seq<nat>, rows: seq<Location>)
    requires AreAvailable(js, rows) && js != []
    ensures js[|js| - 1] < |rows| && AreAvailable(js[..|js| - 1], rows[..js[|js| - 1]])
  {
    var init, last := js[..|js| - 1], js[|js| - 1];
    assert last in js;
    forall j: nat ensures j in init <==> j < last && rows[j].commonName != "NotAvailable" {
      if j in init {
        assert j in js;
      }
      if j < last && rows[j].commonName != "NotAvailable" {
        var k :| 0 <= k < |js| && js[k] == j;
        assert init[k] == j;
      }
    }
  }

  /** There is one such list. */
  lemma {:induction false} AvailableIsUnique(js: seq<nat>, ks: seq<nat>, rows: seq<Location>)
    requires AreAvailable(js, rows) && AreAvailable(ks, rows)
    ensures js == ks
  {
    assert forall j :: j in js <==> j in ks;
    assert (js != [] ==> js[|js| - 1] in ks) && (ks != [] ==> ks[|ks| - 1] in js);
    if js != [] {
      var last := js[|js| - 1];
      assert last == ks[|ks| - 1];
      AvailableInit(js, rows);
      AvailableInit(ks, rows);
      AvailableIsUnique(js[..|js| - 1], ks[..|ks| - 1], rows[..last]);
    }
  }

  /** The document of a row, out of that row alone. */
  ghost function DocumentOf(l: Location, g: Language): Document
    requires IsPageRank(l.pageRank)
  {
    var weight, weighted, standard := PageRankWeight(l.pageRank), WeightedTerms(l, g), StandardTerms(l, g);
    Document(l,
             if weight == STD_WEIGHT then map[STD_WEIGHT := weighted + standard]
             else map[weight := weighted, STD_WEIGHT := standard],
             Spellings(l, g))
  }

  lemma FromNothing(m: TermSetMap, weight: nat, weighted: Terms, standard: Terms)
    requires Gained(map[], m, weight, weighted, standard) && {weight, STD_WEIGHT} <= m.Keys
    ensures m == if weight == STD_WEIGHT then map[STD_WEIGHT := weighted + standard]
                 else map[weight := weighted, STD_WEIGHT := standard]
  {
    assert m.Keys == {weight, STD_WEIGHT};
    assert m[weight] == TermsAt(m, weight) && m[STD_WEIGHT] == TermsAt(m, STD_WEIGHT);
    assert TermsAt(map[], weight) == {} && TermsAt(map[], STD_WEIGHT) == {};
    if weight == STD_WEIGHT {
      assert m[weight] == weighted + standard;
    } else {
      assert m[weight] == weighted && m[STD_WEIGHT] == standard;
    }
  }

  /** One row: the place is filled, indexed, and emptied again. */
  method IndexRow(place: Place, row: Location, g: Language) returns (document: Document)
    requires IsPageRank(row.pageRank)
    requires place.termSetMap == map[] && place.spellingSet == {}
    modifies place
    ensures document == DocumentOf(row, g)
    ensures place.termSetMap == map[] && place.spellingSet == {}
  {
    hide WeightedTerms;
    hide StandardTerms;
    hide Spellings;
    hide Gained;
    place.location := row;
    place.BuildIndexSets(g);
    FromNothing(place.termSetMap, PageRankWeight(row.pageRank), WeightedTerms(row, g), StandardTerms(row, g));
    document := Document(place.location, place.termSetMap, place.spellingSet);
    place.location := place.location.(names := []);
    place.ResetIndexSets();
  }

  /** The same place serves all the rows, and each document depends on its row alone. */
  method BuildSearchIndex(rows: seq<Location>, g: Language, place: Place)
    returns (documents: seq<Document>, nbOfEntries: nat, ghost js: seq<nat>)
    requires forall l | l in rows :: IsPageRank(l.pageRank)
    requires place.termSetMap == map[] && place.spellingSet == {}
    modifies place
    ensures AreAvailable(js, rows) && nbOfEntries == |documents| == |js|
    ensures forall a | 0 <= a < |js| :: js[a] < |rows| && IsPageRank(rows[js[a]].pageRank)
    ensures forall a | 0 <= a < |js| :: documents[a] == DocumentOf(rows[js[a]], g)
  {
    hide DocumentOf;
    hide AreAvailable;
    documents, nbOfEntries, js := [], 0, [];
    NoRows(rows);
    for i := 0 to |rows|
      invariant place.termSetMap == map[] && place.spellingSet == {}
      invariant AreAvailable(js, rows[..i]) && nbOfEntries == |documents| == |js|
      invariant forall a | 0 <= a < |js| :: js[a] < i && IsPageRank(rows[js[a]].pageRank)
      invariant forall a | 0 <= a < |js| :: documents[a] == DocumentOf(rows[js[a]], g)
    {
      NextRow(js, rows, i);
      if rows[i].commonName != NOT_AVAILABLE {
        var document := IndexRow(place, rows[i], g);
        documents := documents + [document];
        nbOfEntries := nbOfEntries + 1;
        js := js + [i];
      }
    }
    assert rows[..|rows|] == rows;
  }
}
