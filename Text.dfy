/** The string operations the header sidecar and the survey-profile parser are
    built from, with Python's `str` semantics: `split(sep)`, `sep.join`, the
    substring test `k in s`, `strip()` and the argument-less `split()`. */
module Text {

  /** Python's `str.isspace` for one character: the ASCII whitespace and
      separator controls and the Unicode space characters. */
  predicate IsSpace(c: char) {
    c == ' ' || ('\t' <= c <= '\r') || ('\U{1C}' <= c <= '\U{1F}') || c == '\U{85}' ||
    c == '\U{A0}' || c == '\U{1680}' || ('\U{2000}' <= c <= '\U{200A}') ||
    c == '\U{2028}' || c == '\U{2029}' || c == '\U{202F}' || c == '\U{205F}' || c == '\U{3000}'
  }

  /** Whitespace for `bytes.split()`: space, tab, line feed, vertical tab,
      form feed and carriage return. */
  predicate IsAsciiSpace(c: char) {
    c == ' ' || ('\t' <= c <= '\r')
  }

  // ------------------------------------------------------- split and join

  /** `s.split(sep)` for a one-character separator: the maximal runs between
      separators, including empty ones; never an empty list. */
  function Split(s: string, sep: char): (parts: seq<string>)
    ensures |parts| >= 1
  {
    if |s| == 0 then [""]
    else
      var rest := Split(s[1..], sep);
      if s[0] == sep then [""] + rest else [[s[0]] + rest[0]] + rest[1..]
  }

  /** `sep.join(parts)`. */
  function Join(parts: seq<string>, sep: char): (s: string)
  {
    if |parts| == 0 then ""
    else if |parts| == 1 then parts[0]
    else parts[0] + [sep] + Join(parts[1..], sep)
  }

  /** The index of the first separator in s, |s| when there is none. */
  function FirstSep(s: string, sep: char): (i: nat)
    ensures i <= |s| && sep !in s[..i]
    ensures i < |s| ==> s[i] == sep
  {
    if |s| == 0 || s[0] == sep then 0
    else
      var j := FirstSep(s[1..], sep);
      assert s[..1 + j] == [s[0]] + s[1..][..j];
      1 + j
  }

  /** The first part of a split is the text before the first separator, and
      the other parts are the split of the text after it. */
  lemma {:induction false} SplitHead(s: string, sep: char)
    ensures Split(s, sep)[0] == s[..FirstSep(s, sep)]
    ensures FirstSep(s, sep) < |s| ==> Split(s, sep)[1..] == Split(s[FirstSep(s, sep) + 1..], sep)
  {
    if |s| > 0 && s[0] != sep {
      SplitHead(s[1..], sep);
      var j := FirstSep(s[1..], sep);
      assert s[..1 + j] == [s[0]] + s[1..][..j];
      if j < |s[1..]| {
        assert s[1..][j + 1..] == s[1 + j + 1..];
      }
    }
  }

  /** A string splits into more than one part exactly when it holds the
      separator. */
  lemma {:induction false} SplitCount(s: string, sep: char)
    ensures |Split(s, sep)| >= 2 <==> sep in s
  {
    if sep !in s {
      SplitFree(s, sep);
    } else if s[0] != sep {
      assert sep in s[1..];
      SplitCount(s[1..], sep);
    }
  }

  /** The second part of a split is the text between the first separator and
      the next one, or the end of the string. */
  lemma SecondPart(s: string, sep: char)
    requires |Split(s, sep)| >= 2
    ensures var i := FirstSep(s, sep);
      i < |s| && Split(s, sep)[1] == s[i + 1..][..FirstSep(s[i + 1..], sep)]
  {
    SplitCount(s, sep);
    SplitHead(s, sep);
    SplitHead(s[FirstSep(s, sep) + 1..], sep);
  }


  /** No part of the split holds the separator. */
  lemma {:induction false} SplitPartsFree(s: string, sep: char)
    ensures forall i :: 0 <= i < |Split(s, sep)| ==> sep !in Split(s, sep)[i]
  {
    if |s| > 0 {
      SplitPartsFree(s[1..], sep);
    }
  }

  /** Joining the parts of a split gives back the string. */
  lemma {:induction false} JoinSplit(s: string, sep: char)
    ensures Join(Split(s, sep), sep) == s
  {
    if |s| > 0 {
      JoinSplit(s[1..], sep);
      var rest := Split(s[1..], sep);
      if s[0] != sep && |rest| > 1 {
        assert ([[s[0]] + rest[0]] + rest[1..])[1..] == rest[1..];
        assert Join(rest, sep) == rest[0] + [sep] + Join(rest[1..], sep);
      }
    }
  }

  /** Splitting a join of separator-free parts gives back the parts. */
  lemma {:induction false} SplitJoin(parts: seq<string>, sep: char)
    requires |parts| >= 1
    requires forall i :: 0 <= i < |parts| ==> sep !in parts[i]
    ensures Split(Join(parts, sep), sep) == parts
    decreases |parts|
  {
    if |parts| == 1 {
      SplitFree(parts[0], sep);
    } else {
      SplitJoin(parts[1..], sep);
      SplitAround(parts[0], Join(parts[1..], sep), sep);
    }
  }

  /** A string without the separator splits into itself alone. */
  lemma {:induction false} SplitFree(s: string, sep: char)
    requires sep !in s
    ensures Split(s, sep) == [s]
  {
    if |s| > 0 {
      SplitFree(s[1..], sep);
      assert s == [s[0]] + s[1..];
    }
  }

  /** A separator-free head, a separator, then anything: the head is the first
      part and the rest splits on its own. */
  lemma {:induction false} SplitAround(a: string, b: string, sep: char)
    requires sep !in a
    ensures Split(a + [sep] + b, sep) == [a] + Split(b, sep)
  {
    if |a| == 0 {
      assert a + [sep] + b == [sep] + b;
      assert ([sep] + b)[1..] == b;
    } else {
      SplitAround(a[1..], b, sep);
      assert (a + [sep] + b)[1..] == a[1..] + [sep] + b;
      assert a == [a[0]] + a[1..];
    }
  }

  /** The split of a string whose tail after its last separator is b. */
  lemma {:induction false} SplitLast(a: string, b: string, sep: char)
    requires sep !in b
    ensures Split(a + [sep] + b, sep) == Split(a, sep) + [b]
  {
    if |a| == 0 {
      SplitFree(b, sep);
      assert a + [sep] + b == [sep] + b;
      assert ([sep] + b)[1..] == b;
    } else {
      SplitLast(a[1..], b, sep);
      assert (a + [sep] + b)[1..] == a[1..] + [sep] + b;
    }
  }

  // ---------------------------------------------------------- substrings

  /** Python's substring test `k in s`. */
  function Contains(s: string, k: string): (found: bool)
    ensures found ==> |k| <= |s|
  {
    if |s| < |k| then false else s[..|k|] == k || Contains(s[1..], k)
  }

  /** k occurs in s starting at index i. */
  predicate OccursAt(s: string, k: string, i: int) {
    0 <= i <= |s| - |k| && s[i..i + |k|] == k
  }

  /** Contains is the substring test: it holds exactly when k occurs in s at
      some index. */
  lemma {:induction false} ContainsAt(s: string, k: string)
    ensures Contains(s, k) <==> exists i :: OccursAt(s, k, i)
    decreases |s|
  {
    if |s| == 0 {
      if |k| == 0 {
        assert OccursAt(s, k, 0);
      }
    } else if |s| >= |k| {
      ContainsAt(s[1..], k);
      if Contains(s, k) {
        if s[..|k|] == k {
          assert OccursAt(s, k, 0);
        } else {
          var j :| OccursAt(s[1..], k, j);
          OccursLater(s, k, j + 1);
        }
      }
      if i :| OccursAt(s, k, i) {
        if i > 0 {
          OccursLater(s, k, i);
        } else {
          assert s[..|k|] == k;
        }
      }
    }
  }

  /** An occurrence at i >= 1 is an occurrence at i - 1 in the tail. */
  lemma OccursLater(s: string, k: string, i: int)
    requires 1 <= i && |s| >= 1
    ensures OccursAt(s, k, i) <==> OccursAt(s[1..], k, i - 1)
  {
    if 0 <= i - 1 <= |s| - 1 - |k| {
      assert s[1..][i - 1..i - 1 + |k|] == s[i..i + |k|];
    }
  }

  /** A string contains its own prefix. */
  lemma ContainsPrefix(k: string, rest: string)
    ensures Contains(k + rest, k)
  {
    assert (k + rest)[..|k|] == k;
  }

  /** A match cannot straddle a character that the key does not contain, so
      a + [c] + b contains k only if a or b does. */
  lemma {:induction false} NoStraddle(a: string, c: char, b: string, k: string)
    requires |k| > 0 && c !in k
    requires !Contains(a, k) && !Contains(b, k)
    ensures !Contains(a + [c] + b, k)
    decreases |a|
  {
    var s := a + [c] + b;
    if |s| >= |k| {
      if |a| >= |k| {
        assert s[..|k|] == a[..|k|];
      } else {
        assert s[..|k|][|a|] == c;
      }
      if |a| == 0 {
        assert s[1..] == b;
      } else {
        assert s[1..] == a[1..] + [c] + b;
        if |a| >= |k| {
          NoStraddle(a[1..], c, b, k);
        } else {
          ShortFree(a[1..], k);
          NoStraddle(a[1..], c, b, k);
        }
      }
    }
  }

  /** A string lacking some character of the key does not contain the key. */
  lemma {:induction false} MissingChar(s: string, k: string, c: char)
    requires c in k && c !in s
    ensures !Contains(s, k)
  {
    if |s| >= |k| {
      assert c in s[..|k|] ==> c in s;
      MissingChar(s[1..], k, c);
    }
  }

  /** A string shorter than the key does not contain it. */
  lemma ShortFree(s: string, k: string)
    requires |s| < |k|
    ensures !Contains(s, k)
  {
  }

  // --------------------------------------------------------------- strip

  /** The index of the first non-whitespace character, |s| if none. */
  function LeadingSpace(s: string): (i: nat)
    ensures i <= |s|
    ensures forall j :: 0 <= j < i ==> IsSpace(s[j])
    ensures i < |s| ==> !IsSpace(s[i])
  {
    if |s| == 0 || !IsSpace(s[0]) then 0 else 1 + LeadingSpace(s[1..])
  }

  /** The index just past the last non-whitespace character, 0 if none. */
  function TrailingEnd(s: string): (i: nat)
    ensures i <= |s|
    ensures forall j :: i <= j < |s| ==> IsSpace(s[j])
    ensures i > 0 ==> !IsSpace(s[i - 1])
  {
    if |s| == 0 || !IsSpace(s[|s| - 1]) then |s| else TrailingEnd(s[..|s| - 1])
  }

  /** `s.strip()`: s without its leading and trailing whitespace. */
  function Strip(s: string): (t: string)
    ensures |t| <= |s|
  {
    var lo := LeadingSpace(s);
    var rest := s[lo..];
    rest[..TrailingEnd(rest)]
  }

  /** Stripping removes only whitespace, and only from the ends: the strip is
      the slice of s after its leading whitespace, everything after it is
      whitespace, and it starts and ends with a non-whitespace character.
      A string without whitespace at either end is its own strip. */
  lemma StripEnds(s: string)
    ensures LeadingSpace(s) + |Strip(s)| <= |s|
    ensures Strip(s) == s[LeadingSpace(s)..LeadingSpace(s) + |Strip(s)|]
    ensures forall j :: LeadingSpace(s) + |Strip(s)| <= j < |s| ==> IsSpace(s[j])
    ensures |Strip(s)| > 0 ==> !IsSpace(Strip(s)[0]) && !IsSpace(Strip(s)[|Strip(s)| - 1])
    ensures (|s| == 0 || (!IsSpace(s[0]) && !IsSpace(s[|s| - 1]))) ==> Strip(s) == s
  {
    StripSlice(s);
    StripTrimmed(s);
    StripOfTrimmed(s);
  }

  /** The strip is the slice after the leading whitespace, and only whitespace
      follows it. */
  lemma StripSlice(s: string)
    ensures LeadingSpace(s) + |Strip(s)| <= |s|
    ensures Strip(s) == s[LeadingSpace(s)..LeadingSpace(s) + |Strip(s)|]
    ensures forall j :: LeadingSpace(s) + |Strip(s)| <= j < |s| ==> IsSpace(s[j])
  {
    var lo := LeadingSpace(s);
    var rest := s[lo..];
    var hi := TrailingEnd(rest);
    assert s[lo..lo + hi] == Strip(s);
    forall j | lo + hi <= j < |s|
      ensures IsSpace(s[j])
    {
      assert s[j] == rest[j - lo];
    }
  }

  /** A non-empty strip starts and ends with a non-whitespace character. */
  lemma StripTrimmed(s: string)
    ensures |Strip(s)| > 0 ==> !IsSpace(Strip(s)[0]) && !IsSpace(Strip(s)[|Strip(s)| - 1])
  {
    var lo := LeadingSpace(s);
    var rest := s[lo..];
    var hi := TrailingEnd(rest);
    if hi > 0 {
      assert Strip(s)[0] == rest[0];
      assert Strip(s)[hi - 1] == rest[hi - 1];
    }
  }

  /** A string without whitespace at either end is its own strip. */
  lemma StripOfTrimmed(s: string)
    ensures (|s| == 0 || (!IsSpace(s[0]) && !IsSpace(s[|s| - 1]))) ==> Strip(s) == s
  {
    if |s| > 0 && !IsSpace(s[0]) && !IsSpace(s[|s| - 1]) {
      assert LeadingSpace(s) == 0;
      assert s[0..] == s;
      assert TrailingEnd(s) == |s|;
    }
  }

  // ----------------------------------------------------- whitespace words

  /** `line.split()` on bytes: the maximal runs of non-whitespace characters. */
  function Words(s: string): (ws: seq<string>)
    ensures |s| > 0 && !IsAsciiSpace(s[0]) ==> |ws| > 0
  {
    if |s| == 0 then []
    else if IsAsciiSpace(s[0]) then Words(s[1..])
    else
      var rest := Words(s[1..]);
      if |s| > 1 && !IsAsciiSpace(s[1]) then [[s[0]] + rest[0]] + rest[1..] else [[s[0]]] + rest
  }

  /** Every word is non-empty and holds no whitespace. */
  lemma {:induction false} WordsAreWords(s: string)
    ensures forall i :: 0 <= i < |Words(s)| ==> |Words(s)[i]| > 0
    ensures forall i, j :: 0 <= i < |Words(s)| && 0 <= j < |Words(s)[i]| ==> !IsAsciiSpace(Words(s)[i][j])
  {
    if |s| > 0 {
      WordsAreWords(s[1..]);
    }
  }

  /** Joining non-empty whitespace-free words with single spaces and splitting
      again gives the words back. */
  lemma {:induction false} WordsJoin(ws: seq<string>)
    requires forall i :: 0 <= i < |ws| ==> |ws[i]| > 0
    requires forall i, j :: 0 <= i < |ws| && 0 <= j < |ws[i]| ==> !IsAsciiSpace(ws[i][j])
    ensures Words(Join(ws, ' ')) == ws
    decreases |ws|
  {
    if |ws| == 1 {
      WordsOfWord(ws[0]);
    } else if |ws| > 1 {
      WordsJoin(ws[1..]);
      assert Join(ws, ' ') == ws[0] + [' '] + Join(ws[1..], ' ');
      WordsBefore(ws[0], Join(ws[1..], ' '));
    }
  }

  /** A non-empty whitespace-free string is one word. */
  lemma {:induction false} WordsOfWord(w: string)
    requires |w| > 0 && forall j :: 0 <= j < |w| ==> !IsAsciiSpace(w[j])
    ensures Words(w) == [w]
  {
    if |w| > 1 {
      WordsOfWord(w[1..]);
      assert w == [w[0]] + w[1..];
    } else {
      assert w[1..] == [];
      assert w == [w[0]];
    }
  }

  /** A non-empty whitespace-free word, a space, then anything. */
  lemma {:induction false} WordsBefore(w: string, rest: string)
    requires |w| > 0 && forall j :: 0 <= j < |w| ==> !IsAsciiSpace(w[j])
    ensures Words(w + [' '] + rest) == [w] + Words(rest)
  {
    var s := w + [' '] + rest;
    assert s[1..] == w[1..] + [' '] + rest;
    if |w| == 1 {
      assert s[1..][1..] == rest;
      assert w == [w[0]];
    } else {
      WordsBefore(w[1..], rest);
      assert w == [w[0]] + w[1..];
    }
  }
}
