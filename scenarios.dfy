/**
 Concrete file contents and the status one scan of them reports.
 */
module Scenarios {
  import opened Text
  import opened Tags
  import opened Uniqueness
  import opened Status

  /** Tags of two words separated by one space. */
  lemma TwoWords(a: string, b: string)
    requires a != [] && NoWhitespace(a)
    requires b != [] && NoWhitespace(b)
    ensures TagsOf(a + [' '] + b) == (if IsTag(a) then [a] else []) + (if IsTag(b) then [b] else [])
  {
    TagsOfJoin(a, ' ', b);
    TagsOfWord(a);
    TagsOfWord(b);
  }

  /** Tags of three words separated by single spaces. */
  lemma ThreeWords(a: string, b: string, c: string)
    requires a != [] && NoWhitespace(a)
    requires b != [] && NoWhitespace(b)
    requires c != [] && NoWhitespace(c)
    ensures TagsOf(a + [' '] + b + [' '] + c) ==
      (if IsTag(a) then [a] else []) + (if IsTag(b) then [b] else []) + (if IsTag(c) then [c] else [])
  {
    var ab := a + [' '] + b;
    TwoWords(a, b);
    TagsOfJoin(ab, ' ', c);
    TagsOfWord(c);
  }

  /** Three words of which the last two are different tags: every tag is unique. */
  lemma UniqueAmongThree(a: string, b: string, c: string)
    requires a != [] && NoWhitespace(a) && !IsTag(a)
    requires b != [] && NoWhitespace(b) && IsTag(b)
    requires c != [] && NoWhitespace(c) && IsTag(c)
    requires b != c
    ensures Scan(a + [' '] + b + [' '] + c) == AllUnique
  {
    var text := a + [' '] + b + [' '] + c;
    ThreeWords(a, b, c);
    assert TagsOf(text) == [b, c];
    ScanMeaning(text);
  }

  /** The same tag on both sides of another word: a duplicate. */
  lemma RepeatAroundWord(t: string, w: string)
    requires t != [] && NoWhitespace(t) && IsTag(t)
    requires w != [] && NoWhitespace(w) && !IsTag(w)
    ensures Scan(t + [' '] + w + [' '] + t) == DuplicatesFound
  {
    var text := t + [' '] + w + [' '] + t;
    ThreeWords(t, w, t);
    assert TagsOf(text) == [t, t];
    ScanMeaning(text);
  }

  /** The tag words of the scenarios are ten bytes long. */
  lemma ScenarioTagLengths()
    ensures Utf8Len("BARDCXXXX1") == 10 && Utf8Len("BAZDCXXXX2") == 10 && Utf8Len("ABCDCXXXX1") == 10
  {
    Utf8LenAscii("BARDCXXXX1");
    Utf8LenAscii("BAZDCXXXX2");
    Utf8LenAscii("ABCDCXXXX1");
  }

  /** The tag words of the scenarios carry the marker at offset 3. */
  lemma ScenarioTagMarkers()
    ensures Contains("BARDCXXXX1", Marker) && Contains("BAZDCXXXX2", Marker)
    ensures Contains("ABCDCXXXX1", Marker)
  {
    ContainsAtOffset("BARDCXXXX1", Marker);
    ContainsAtOffset("BAZDCXXXX2", Marker);
    ContainsAtOffset("ABCDCXXXX1", Marker);
    assert StartsWith("BARDCXXXX1"[3..], Marker);
    assert StartsWith("BAZDCXXXX2"[3..], Marker);
    assert StartsWith("ABCDCXXXX1"[3..], Marker);
  }

  /** The tags of the scenarios. */
  lemma ScenarioTags()
    ensures IsTag("BARDCXXXX1") && IsTag("BAZDCXXXX2") && IsTag("ABCDCXXXX1")
  {
    ScenarioTagLengths();
    ScenarioTagMarkers();
  }

  /** The short words of the scenarios are not tags. */
  lemma ScenarioNonTags()
    ensures !IsTag("FOO") && !IsTag("ZZZ")
  {
    assert Utf8Len("FOO") == 3 && Utf8Len("ZZZ") == 3;
  }

  /** The words of the scenarios hold no whitespace. */
  lemma ScenarioWords()
    ensures NoWhitespace("FOO") && NoWhitespace("BARDCXXXX1") && NoWhitespace("BAZDCXXXX2")
    ensures NoWhitespace("ABCDCXXXX1") && NoWhitespace("ZZZ")
  {
  }

  /** "FOO BARDCXXXX1 BAZDCXXXX2": two different tags, so every tag is unique. */
  lemma TwoDistinctTags(text: string)
    requires text == "FOO" + " " + "BARDCXXXX1" + " " + "BAZDCXXXX2"
    ensures Scan(text) == AllUnique
  {
    var foo, bar, baz := "FOO", "BARDCXXXX1", "BAZDCXXXX2";
    ScenarioWords();
    ScenarioTags();
    ScenarioNonTags();
    assert bar != baz by { assert bar[2] != baz[2]; }
    assert text == foo + [' '] + bar + [' '] + baz;
    UniqueAmongThree(foo, bar, baz);
  }

  /** "ABCDCXXXX1 ZZZ ABCDCXXXX1": the same tag twice is a duplicate. */
  lemma RepeatedTag(text: string)
    requires text == "ABCDCXXXX1" + " " + "ZZZ" + " " + "ABCDCXXXX1"
    ensures Scan(text) == DuplicatesFound
  {
    var tag, zzz := "ABCDCXXXX1", "ZZZ";
    ScenarioWords();
    ScenarioTags();
    ScenarioNonTags();
    assert text == tag + [' '] + zzz + [' '] + tag;
    RepeatAroundWord(tag, zzz);
  }

  /** An empty file holds no tag. */
  lemma EmptyFile(text: string)
    requires text == ""
    ensures Scan(text) == Empty
  {
  }

  /** "short DC123": the only word holding the marker is too short to be a tag. */
  lemma MarkerTooShort(text: string)
    requires text == "short DC123"
    ensures Scan(text) == Empty
  {
    var short, dc := "short", "DC123";
    assert NoWhitespace(short) && NoWhitespace(dc);
    assert !IsTag(short) by { assert Utf8Len(short) == 5; }
    assert !IsTag(dc) by { assert Utf8Len(dc) == 5; }
    assert text == short + [' '] + dc;
    TwoWords(short, dc);
  }

  /** The words of the byte-length scenario. */
  lemma ByteLengthWords()
    ensures NoWhitespace("\U{C4}DCXXXXXX") && NoWhitespace("\U{C4}DCXXXXXXX")
    ensures Utf8Len("\U{C4}DCXXXXXX") == 10 && Utf8Len("\U{C4}DCXXXXXXX") == 11
    ensures Contains("\U{C4}DCXXXXXX", Marker)
  {
    ContainsAtOffset("\U{C4}DCXXXXXX", Marker);
    assert StartsWith("\U{C4}DCXXXXXX"[1..], Marker);
  }

  /**
   A word of nine chars whose first char takes two UTF-8 bytes is ten bytes
   long, so it is a tag; the same word with one more char is not.
   */
  lemma ByteLengthCounts(text: string)
    requires text == "\U{C4}DCXXXXXX" + " " + "\U{C4}DCXXXXXXX"
    ensures TagsOf(text) == ["\U{C4}DCXXXXXX"]
  {
    var nine, ten := "\U{C4}DCXXXXXX", "\U{C4}DCXXXXXXX";
    ByteLengthWords();
    assert text == nine + [' '] + ten;
    TwoWords(nine, ten);
  }
}
