/**
 Which whitespace-separated tokens are RFID tag candidates: those that
 contain the marker "DC" somewhere and are exactly ten UTF-8 bytes long.
 */
module Tags {
  import opened Text

  /** The substring every tag carries. */
  const Marker: string := "DC"

  /** The byte length every tag has. */
  const TagLength: nat := 10

  /** `s` begins with `p`. */
  predicate StartsWith(s: string, p: string)
  {
    |p| <= |s| && s[..|p|] == p
  }

  /** `str::contains` with a string pattern: `pat` occurs in `s` at some offset. */
  function Contains(s: string, pat: string): (found: bool)
    ensures found ==> |pat| <= |s|
    ensures pat == [] ==> found
    decreases |s|
  {
    StartsWith(s, pat) || (s != [] && Contains(s[1..], pat))
  }

  /** `Contains` holds exactly when some offset of `s` starts with `pat`. */
  lemma {:induction false} ContainsAtOffset(s: string, pat: string)
    ensures Contains(s, pat) <==> exists i :: 0 <= i <= |s| && StartsWith(s[i..], pat)
    decreases |s|
  {
    assert s[0..] == s;
    if s != [] {
      ContainsAtOffset(s[1..], pat);
      if Contains(s[1..], pat) {
        var i :| 0 <= i <= |s[1..]| && StartsWith(s[1..][i..], pat);
        assert s[1..][i..] == s[i + 1..];
      }
      if i :| 0 <= i <= |s| && StartsWith(s[i..], pat) {
        if i > 0 {
          assert s[1..][i - 1..] == s[i..];
        }
      }
    }
  }

  /** The marker test spelled out: some char 'D' is directly followed by 'C'. */
  lemma ContainsMarkerAt(t: string)
    ensures Contains(t, Marker) <==> exists i :: 0 <= i < |t| - 1 && t[i] == 'D' && t[i + 1] == 'C'
  {
    ContainsAtOffset(t, Marker);
    if i :| 0 <= i <= |t| && StartsWith(t[i..], Marker) {
      assert t[i..][0] == t[i] && t[i..][1] == t[i + 1];
    }
    if i :| 0 <= i < |t| - 1 && t[i] == 'D' && t[i + 1] == 'C' {
      assert t[i..][..2] == Marker;
    }
  }

  /** The filter predicate of the source: contains "DC" and has byte length 10. */
  function IsTag(t: string): (tag: bool)
    ensures tag ==> |Marker| <= |t| <= TagLength
  {
    Contains(t, Marker) && Utf8Len(t) == TagLength
  }

  /** A tag has at most ten chars; a ten-char token is a tag iff it is ASCII and holds the marker. */
  lemma TagCharCount(t: string)
    ensures IsTag(t) ==> |t| <= TagLength
    ensures |t| == TagLength ==> (IsTag(t) <==> Contains(t, Marker) && IsAscii(t))
  {
    Utf8LenAscii(t);
  }

  /** The tokens that are tags, in their original order. */
  function Candidates(tokens: seq<string>): (tags: seq<string>)
    ensures |tags| <= |tokens|
    ensures forall t :: t in tags <==> t in tokens && IsTag(t)
  {
    if tokens == [] then []
    else (if IsTag(tokens[0]) then [tokens[0]] else []) + Candidates(tokens[1..])
  }

  /** Filtering distributes over concatenation, so candidates keep token order. */
  lemma {:induction false} CandidatesAppend(a: seq<string>, b: seq<string>)
    ensures Candidates(a + b) == Candidates(a) + Candidates(b)
  {
    if a == [] {
      assert a + b == b;
    } else {
      assert (a + b)[0] == a[0] && (a + b)[1..] == a[1..] + b;
      CandidatesAppend(a[1..], b);
    }
  }

  /** The candidates of a single token: itself if it is a tag, nothing otherwise. */
  lemma CandidatesSingle(t: string)
    ensures Candidates([t]) == if IsTag(t) then [t] else []
  {
    assert [t][1..] == [];
  }

  /** The tag candidates of a file's contents: its tokens that are tags. */
  function TagsOf(text: string): (tags: seq<string>)
    ensures forall t :: t in tags <==> t in SplitWhitespace(text) && IsTag(t)
    ensures forall t :: t in tags ==> t != [] && NoWhitespace(t)
  {
    Candidates(SplitWhitespace(text))
  }
}
