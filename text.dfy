/**
 Text primitives used by the duplicate check: Rust's `char::is_whitespace`,
 the UTF-8 byte length that `str::len` reports, and `str::split_whitespace`.

 File contents are sequences of Unicode scalar values (`char`), as a Rust
 `String` is; byte lengths are computed from the UTF-8 width of each char.
 */
module Text {

  /**
   Rust's `char::is_whitespace`: the Unicode White_Space property. On ASCII
   it is space, tab, line feed, vertical tab, form feed and carriage return.
   */
  function IsWhitespace(c: char): (ws: bool)
    ensures c as int < 0x80 ==> (ws <==> c == ' ' || '\t' <= c <= '\r')
    ensures ws ==> c as int <= 0x3000
  {
    var n := c as int;
    || n == 0x20
    || 0x09 <= n <= 0x0D
    || n == 0x85
    || n == 0xA0
    || n == 0x1680
    || 0x2000 <= n <= 0x200A
    || n == 0x2028
    || n == 0x2029
    || n == 0x202F
    || n == 0x205F
    || n == 0x3000
  }

  /** No char of `s` is whitespace. */
  predicate NoWhitespace(s: string)
  {
    forall i :: 0 <= i < |s| ==> !IsWhitespace(s[i])
  }

  /** All chars of `s` are in the ASCII range. */
  predicate IsAscii(s: string)
  {
    forall i :: 0 <= i < |s| ==> s[i] as int < 0x80
  }

  /** Number of bytes UTF-8 uses for `c`. */
  function Utf8Width(c: char): (w: nat)
    ensures 1 <= w <= 4
    ensures w == 1 <==> c as int < 0x80
  {
    var n := c as int;
    if n < 0x80 then 1
    else if n < 0x800 then 2
    else if n < 0x10000 then 3
    else 4
  }

  /** `str::len`: the length of `s` in UTF-8 bytes. */
  function Utf8Len(s: string): (n: nat)
    ensures |s| <= n <= 4 * |s|
  {
    if s == [] then 0 else Utf8Width(s[0]) + Utf8Len(s[1..])
  }

  /** The byte length equals the char count exactly when the text is ASCII. */
  lemma {:induction false} Utf8LenAscii(s: string)
    ensures Utf8Len(s) == |s| <==> IsAscii(s)
  {
    if s != [] {
      Utf8LenAscii(s[1..]);
      if IsAscii(s) {
        assert IsAscii(s[1..]) by {
          forall i | 0 <= i < |s[1..]| ensures s[1..][i] as int < 0x80 {
            assert s[1..][i] == s[i + 1];
          }
        }
      } else if Utf8Width(s[0]) == 1 {
        var k :| 0 <= k < |s| && s[k] as int >= 0x80;
        assert k > 0 && s[1..][k - 1] == s[k];
      }
    }
  }

  /** Length of the leading run of non-whitespace chars of `s`. */
  function WordLen(s: string): (n: nat)
    ensures n <= |s|
    ensures forall i :: 0 <= i < n ==> !IsWhitespace(s[i])
    ensures n < |s| ==> IsWhitespace(s[n])
  {
    if s == [] || IsWhitespace(s[0]) then 0
    else 1 + WordLen(s[1..])
  }

  /**
   `str::split_whitespace`: the maximal runs of non-whitespace chars of `s`,
   in order. Every token is non-empty and holds no whitespace.
   */
  function SplitWhitespace(s: string): (tokens: seq<string>)
    ensures forall t :: t in tokens ==> t != [] && NoWhitespace(t)
    decreases |s|
  {
    if s == [] then []
    else if IsWhitespace(s[0]) then SplitWhitespace(s[1..])
    else
      var n := WordLen(s);
      [s[..n]] + SplitWhitespace(s[n..])
  }

  /** The leading word does not change when more text follows a whitespace char. */
  lemma {:induction false} WordLenExtend(a: string, c: char, b: string)
    requires IsWhitespace(c)
    ensures WordLen(a + [c] + b) == WordLen(a + [c])
    ensures WordLen(a + [c]) <= |a|
  {
    if a != [] && !IsWhitespace(a[0]) {
      assert (a + [c] + b)[1..] == a[1..] + [c] + b;
      assert (a + [c])[1..] == a[1..] + [c];
      WordLenExtend(a[1..], c, b);
    }
  }

  /** A non-empty text without whitespace is a single token. */
  lemma {:induction false} SplitWord(w: string)
    requires w != [] && NoWhitespace(w)
    ensures SplitWhitespace(w) == [w]
  {
    var n := WordLen(w);
    assert n == |w|;
    assert w[..n] == w;
  }

  /** A whitespace char separates the tokens before it from those after it. */
  lemma {:induction false} SplitAtWhitespace(a: string, c: char, b: string)
    requires IsWhitespace(c)
    ensures SplitWhitespace(a + [c] + b) == SplitWhitespace(a) + SplitWhitespace(b)
    decreases |a|
  {
    var s := a + [c] + b;
    if a == [] {
      assert s[1..] == b;
    } else if IsWhitespace(a[0]) {
      assert s[1..] == a[1..] + [c] + b;
      SplitAtWhitespace(a[1..], c, b);
    } else {
      WordLenExtend(a, c, b);
      var n := WordLen(s);
      assert n == WordLen(a) by {
        WordLenPrefix(a, c);
      }
      assert s[..n] == a[..n];
      assert s[n..] == a[n..] + [c] + b;
      SplitAtWhitespace(a[n..], c, b);
    }
  }

  /** The leading word of `a + [c]`, for whitespace `c`, is that of `a`. */
  lemma {:induction false} WordLenPrefix(a: string, c: char)
    requires IsWhitespace(c)
    ensures WordLen(a + [c]) == WordLen(a)
  {
    if a != [] && !IsWhitespace(a[0]) {
      assert (a + [c])[1..] == a[1..] + [c];
      WordLenPrefix(a[1..], c);
    }
  }

  /**
   `str::split(char::is_whitespace)`: the pieces between whitespace chars,
   empty pieces included (two adjacent whitespace chars give an empty piece).
   */
  function SplitAtEachWhitespace(s: string): (pieces: seq<string>)
    ensures pieces != []
    ensures forall p :: p in pieces ==> NoWhitespace(p)
    decreases |s|
  {
    var n := WordLen(s);
    if n == |s| then [s] else [s[..n]] + SplitAtEachWhitespace(s[n + 1..])
  }

  /** The non-empty strings of `pieces`, in order. */
  function NonEmpty(pieces: seq<string>): (r: seq<string>)
    ensures forall t :: t in r <==> t in pieces && t != []
  {
    if pieces == [] then []
    else (if pieces[0] == [] then [] else [pieces[0]]) + NonEmpty(pieces[1..])
  }

  /**
   `split_whitespace` is `split(char::is_whitespace)` with the empty pieces
   filtered out, which is how the Rust standard library defines it.
   */
  lemma {:induction false} SplitWhitespaceFiltersSplit(s: string)
    ensures SplitWhitespace(s) == NonEmpty(SplitAtEachWhitespace(s))
    decreases |s|
  {
    var n := WordLen(s);
    if n == |s| {
      if s == [] {
        assert NonEmpty([[]]) == [];
      } else {
        assert s[..n] == s && s[n..] == [];
        assert NonEmpty([s]) == [s];
      }
    } else {
      var rest := s[n + 1..];
      SplitWhitespaceFiltersSplit(rest);
      var pieces := [s[..n]] + SplitAtEachWhitespace(rest);
      assert pieces[1..] == SplitAtEachWhitespace(rest);
      assert s[n..][1..] == rest;
      if n == 0 {
        assert s[..n] == [];
      }
    }
  }
}
