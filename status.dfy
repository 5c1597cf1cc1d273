/**
 The tri-state status a scan reports. The source encodes it as a colour
 (BLUE, GREEN, RED); here it is an explicit enumeration.
 */
module Status {
  import opened Text
  import opened Tags
  import opened Uniqueness

  /** BLUE: no tag yet; GREEN: every tag unique; RED: some tag repeats. */
  datatype ScanResult = Empty | AllUnique | DuplicatesFound

  /**
   The colour choice after `check_unique`: GREEN when unique, RED otherwise,
   then overridden to BLUE when no candidate was found.
   */
  function Classify(unique: bool, count: nat): (r: ScanResult)
    ensures r == Empty <==> count == 0
    ensures r == AllUnique <==> count > 0 && unique
    ensures r == DuplicatesFound <==> count > 0 && !unique
  {
    var colour := if unique then AllUnique else DuplicatesFound;
    if count == 0 then Empty else colour
  }

  /** The status one scan of `text` reports. */
  function Scan(text: string): (r: ScanResult)
    ensures r == Empty <==> TagsOf(text) == []
    ensures r == DuplicatesFound ==> |TagsOf(text)| >= 2
  {
    var tags := TagsOf(text);
    Classify(SuffixCheckUnique(tags), |tags|)
  }

  /**
   What a scan means: Empty exactly when the text holds no tag, AllUnique
   exactly when it holds tags that are pairwise distinct, DuplicatesFound
   exactly when some tag value occurs twice.
   */
  lemma ScanMeaning(text: string)
    ensures Scan(text) == Empty <==> TagsOf(text) == []
    ensures Scan(text) == AllUnique <==> TagsOf(text) != [] && Distinct(TagsOf(text))
    ensures Scan(text) == DuplicatesFound <==> HasDuplicate(TagsOf(text))
  {
    var tags := TagsOf(text);
    SuffixCheckIffDistinct(tags);
  }

  /** A text whose tags are exactly those of its parts, for scenario proofs. */
  lemma TagsOfJoin(a: string, c: char, b: string)
    requires IsWhitespace(c)
    ensures TagsOf(a + [c] + b) == TagsOf(a) + TagsOf(b)
  {
    SplitAtWhitespace(a, c, b);
    CandidatesAppend(SplitWhitespace(a), SplitWhitespace(b));
  }

  /** The tags of a single word: the word itself if it is a tag. */
  lemma TagsOfWord(w: string)
    requires w != [] && NoWhitespace(w)
    ensures TagsOf(w) == if IsTag(w) then [w] else []
  {
    SplitWord(w);
    CandidatesSingle(w);
  }
}
