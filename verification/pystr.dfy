/** The few Python `str` operations the core relies on: single-character
    `replace`, `split(sep)`, `split(sep, 1)` (through `IndexOf`) and the
    whitespace-splitting `split()`. */
module PyStr {
  import opened Wrappers

  /** `s.replace(a, b)` for one-character `a` and `b`. */
  function Replace(s: string, a: char, b: char): (r: string)
    ensures |r| == |s|
    ensures forall i | 0 <= i < |s| :: r[i] == if s[i] == a then b else s[i]
  {
    if s == [] then [] else [if s[0] == a then b else s[0]] + Replace(s[1..], a, b)
  }

  lemma ReplaceAbsent(s: string, a: char, b: char)
    requires a !in s
    ensures Replace(s, a, b) == s
  {
  }

  lemma ReplaceConcat(x: string, y: string, a: char, b: char)
    ensures Replace(x + y, a, b) == Replace(x, a, b) + Replace(y, a, b)
  {
  }

  /** Position of the first occurrence of `c`. */
  function IndexOf(s: string, c: char): (r: Option<nat>)
    ensures r.Some? ==> r.value < |s| && s[r.value] == c
    ensures r.Some? ==> forall j | 0 <= j < r.value :: s[j] != c
    ensures r.None? <==> c !in s
  {
    if s == [] then None
    else if s[0] == c then Some(0)
    else match IndexOf(s[1..], c)
      case None => None
      case Some(i) => Some(i + 1)
  }

  /** `s.split(sep)`: the pieces between occurrences of `sep`, empty pieces
      included; there is always at least one piece. */
  function SplitOn(s: string, sep: char): (r: seq<string>)
    ensures |r| >= 1
    ensures forall i | 0 <= i < |r| :: sep !in r[i]
  {
    if s == [] then [[]]
    else if s[0] == sep then [[]] + SplitOn(s[1..], sep)
    else
      var rest := SplitOn(s[1..], sep);
      [[s[0]] + rest[0]] + rest[1..]
  }

  /** `sep.join(parts)`. */
  function Join(parts: seq<string>, sep: char): string
  {
    if parts == [] then []
    else if |parts| == 1 then parts[0]
    else parts[0] + [sep] + Join(parts[1..], sep)
  }

  /** Splitting and joining on the same separator gives the text back. */
  lemma {:induction false} JoinSplitOn(s: string, sep: char)
    ensures Join(SplitOn(s, sep), sep) == s
  {
    if s != [] {
      var rest := SplitOn(s[1..], sep);
      JoinSplitOn(s[1..], sep);
      if s[0] == sep {
        assert SplitOn(s, sep)[1..] == rest;
      } else {
        var r := SplitOn(s, sep);
        assert r[1..] == rest[1..];
        if |rest| == 1 {
          assert s == [s[0]] + rest[0];
        } else {
          assert Join(rest, sep) == rest[0] + [sep] + Join(rest[1..], sep);
          assert s == [s[0]] + s[1..];
        }
      }
    }
  }

  /** The characters `str.split()` with no argument treats as whitespace. */
  predicate IsSpace(c: char)
  {
    c in {'\t', '\n', '\U{000B}', '\U{000C}', '\r', '\U{001C}', '\U{001D}', '\U{001E}', '\U{001F}',
          ' ', '\U{0085}', '\U{00A0}', '\U{1680}', '\U{2028}', '\U{2029}', '\U{202F}', '\U{205F}', '\U{3000}'}
    || '\U{2000}' <= c <= '\U{200A}'
  }

  /** `s.split()`: the maximal runs of non-whitespace characters, scanning
      left to right with the word read so far in `cur`. */
  function WordsFrom(s: string, cur: string): (r: seq<string>)
    decreases |s|
  {
    if s == [] then (if cur == [] then [] else [cur])
    else if IsSpace(s[0]) then (if cur == [] then [] else [cur]) + WordsFrom(s[1..], [])
    else WordsFrom(s[1..], cur + [s[0]])
  }

  /** `s.split()`: every word is a non-empty run of characters of `s`
      without whitespace, and text without whitespace is one word. */
  function Words(s: string): (r: seq<string>)
    ensures forall w | w in r :: w != [] && forall c | c in w :: !IsSpace(c) && c in s
    ensures s != [] && (forall c | c in s :: !IsSpace(c)) ==> r == [s]
  {
    WordsFromShape(s, []);
    if s != [] && (forall c | c in s :: !IsSpace(c)) then
      WordsFromWord(s, []);
      assert [] + s == s;
      WordsFrom(s, [])
    else WordsFrom(s, [])
  }

  /** Text without whitespace is one word. */
  lemma {:induction false} WordsFromWord(s: string, cur: string)
    requires cur + s != [] && forall c | c in cur + s :: !IsSpace(c)
    ensures WordsFrom(s, cur) == [cur + s]
    decreases |s|
  {
    if s != [] {
      assert s[0] in cur + s;
      assert (cur + [s[0]]) + s[1..] == cur + s;
      WordsFromWord(s[1..], cur + [s[0]]);
    } else {
      assert cur + s == cur;
    }
  }

  /** Every word is non-empty and free of whitespace, and holds only
      characters of the text (and of the pending word). */
  lemma {:induction false} WordsFromShape(s: string, cur: string)
    requires forall c | c in cur :: !IsSpace(c)
    ensures forall w | w in WordsFrom(s, cur) :: w != [] && forall c | c in w :: !IsSpace(c) && (c in s || c in cur)
    decreases |s|
  {
    if s != [] {
      if IsSpace(s[0]) {
        WordsFromShape(s[1..], []);
      } else {
        WordsFromShape(s[1..], cur + [s[0]]);
      }
    }
  }

  /** A whitespace character splits the text into two independent halves. */
  lemma {:induction false} WordsFromSplit(a: string, c: char, b: string, cur: string)
    requires IsSpace(c)
    ensures WordsFrom(a + [c] + b, cur) == WordsFrom(a, cur) + WordsFrom(b, [])
    decreases |a|
  {
    if a == [] {
      assert a + [c] + b == [c] + b;
      assert ([c] + b)[1..] == b;
    } else {
      assert (a + [c] + b)[0] == a[0];
      assert (a + [c] + b)[1..] == a[1..] + [c] + b;
      if IsSpace(a[0]) {
        WordsFromSplit(a[1..], c, b, []);
      } else {
        WordsFromSplit(a[1..], c, b, cur + [a[0]]);
      }
    }
  }
}
