/** Option and Result, for absent values and error returns. */
module Wrappers {
  datatype Option<+T> = None | Some(value: T)

  datatype Result<+T, +E> = Ok(value: T) | Err(error: E)
}

/** The Python string operations the backend relies on, over `string` (a sequence of code points, as a Python str). */
module Text {

  /** Python's `str.isspace()` for one character: the characters `str.split()` without arguments splits on. */
  predicate IsSpace(c: char) {
    ('\t' <= c <= '\r') || ('\U{1C}' <= c <= '\U{1F}') || c == ' ' || c == '\U{85}' || c == '\U{A0}'
    || c == '\U{1680}' || ('\U{2000}' <= c <= '\U{200A}') || c == '\U{2028}' || c == '\U{2029}'
    || c == '\U{202F}' || c == '\U{205F}' || c == '\U{3000}'
  }

  /** A word as `str.split()` produces it: non-empty, no whitespace. */
  predicate IsWord(w: string) {
    |w| > 0 && forall i :: 0 <= i < |w| ==> !IsSpace(w[i])
  }

  /** Length of the leading run of non-whitespace characters. */
  function WordLength(s: string): (n: nat)
    ensures n <= |s|
    ensures forall i :: 0 <= i < n ==> !IsSpace(s[i])
    ensures n < |s| ==> IsSpace(s[n])
  {
    if s == [] || IsSpace(s[0]) then 0 else 1 + WordLength(s[1..])
  }

  /** Python's `s.split()`: the maximal runs of non-whitespace characters of `s`, in order. */
  function Split(s: string): (words: seq<string>)
    ensures forall i :: 0 <= i < |words| ==> IsWord(words[i])
    decreases |s|
  {
    if s == [] then []
    else if IsSpace(s[0]) then Split(s[1..])
    else
      var n := WordLength(s);
      [s[..n]] + Split(s[n..])
  }

  /** Python's `sep.join(parts)`. */
  function Join(parts: seq<string>, sep: string): string {
    if parts == [] then ""
    else if |parts| == 1 then parts[0]
    else parts[0] + sep + Join(parts[1..], sep)
  }

  /** Python's `s.startswith(prefix)`. */
  predicate HasPrefix(s: string, prefix: string) {
    |prefix| <= |s| && s[..|prefix|] == prefix
  }

  /** Python's `needle in s` for strings. */
  predicate Contains(s: string, needle: string)
    decreases |s|
  {
    HasPrefix(s, needle) || (s != [] && Contains(s[1..], needle))
  }

  function LowerChar(c: char): char {
    if 'A' <= c <= 'Z' then (c as int + 32) as char else c
  }

  /** Python's `s.lower()`, restricted to the ASCII letters. */
  function Lower(s: string): string {
    seq(|s|, i requires 0 <= i < |s| => LowerChar(s[i]))
  }

  /** Python's `s.split("\n")`: the pieces between line feeds, so k line feeds give k + 1 pieces. */
  function Lines(s: string): (lines: seq<string>)
    ensures |lines| >= 1
  {
    if s == [] then [""]
    else
      var rest := Lines(s[1..]);
      if s[0] == '\n' then [""] + rest else [[s[0]] + rest[0]] + rest[1..]
  }

  // ---------------------------------------------------------------------------
  // split() and join()

  lemma {:induction false} SplitAllSpace(s: string)
    ensures Split(s) == [] <==> forall i :: 0 <= i < |s| ==> IsSpace(s[i])
    decreases |s|
  {
    if s != [] {
      SplitAllSpace(s[1..]);
      if IsSpace(s[0]) {
        forall i | 0 <= i < |s[1..]| ensures s[1..][i] == s[i + 1] { }
      }
    }
  }

  /** A word followed by nothing or by whitespace is split off whole. */
  lemma SplitWordThen(w: string, t: string)
    requires IsWord(w)
    requires t == [] || IsSpace(t[0])
    ensures Split(w + t) == [w] + Split(t)
  {
    var s := w + t;
    var n := WordLength(s);
    assert forall i :: 0 <= i < |w| ==> s[i] == w[i];
    assert |w| < |s| ==> s[|w|] == t[0];
    assert n == |w|;
    assert s[..n] == w && s[n..] == t;
  }

  lemma SplitSpaceThen(t: string)
    ensures Split(" " + t) == Split(t)
  {
    assert (" " + t)[1..] == t;
  }

  /** Joining words with single spaces and splitting again gives the words back. */
  lemma {:induction false} SplitJoin(words: seq<string>)
    requires forall i :: 0 <= i < |words| ==> IsWord(words[i])
    ensures Split(Join(words, " ")) == words
  {
    if words == [] {
    } else if |words| == 1 {
      SplitWordThen(words[0], "");
      assert words[0] + "" == words[0];
    } else {
      var rest := Join(words[1..], " ");
      SplitJoin(words[1..]);
      assert Join(words, " ") == words[0] + (" " + rest);
      SplitWordThen(words[0], " " + rest);
      SplitSpaceThen(rest);
      assert words == [words[0]] + words[1..];
    }
  }

  lemma {:induction false} JoinAppend(a: seq<string>, b: seq<string>, sep: string)
    requires a != [] && b != []
    ensures Join(a + b, sep) == Join(a, sep) + sep + Join(b, sep)
  {
    if |a| == 1 {
      assert (a + b)[1..] == b;
    } else {
      assert (a + b)[1..] == a[1..] + b;
      JoinAppend(a[1..], b, sep);
    }
  }

  /** Words joined by single spaces hold no whitespace other than those spaces. */
  lemma {:induction false} JoinWordsSpacing(words: seq<string>)
    requires forall i :: 0 <= i < |words| ==> IsWord(words[i])
    ensures forall i :: 0 <= i < |Join(words, " ")| ==> Join(words, " ")[i] == ' ' || !IsSpace(Join(words, " ")[i])
  {
    if |words| > 1 {
      JoinWordsSpacing(words[1..]);
      var s := Join(words, " ");
      var rest := Join(words[1..], " ");
      assert s == words[0] + " " + rest;
      forall i | 0 <= i < |s| ensures s[i] == ' ' || !IsSpace(s[i]) {
        if i < |words[0]| {
          assert s[i] == words[0][i];
        } else if i > |words[0]| {
          assert s[i] == rest[i - |words[0]| - 1];
        }
      }
    }
  }

  // ---------------------------------------------------------------------------
  // `in`, lower() and split("\n")

  /** Every character of a contained needle occurs in the text. */
  lemma {:induction false} ContainsHasChar(s: string, needle: string, j: nat)
    requires Contains(s, needle) && j < |needle|
    ensures exists i :: 0 <= i < |s| && s[i] == needle[j]
    decreases |s|
  {
    if HasPrefix(s, needle) {
      assert s[j] == needle[j];
    } else {
      ContainsHasChar(s[1..], needle, j);
      var i :| 0 <= i < |s[1..]| && s[1..][i] == needle[j];
      assert s[i + 1] == needle[j];
    }
  }

  lemma LowerHasNoUpper(s: string)
    ensures forall i :: 0 <= i < |Lower(s)| ==> !('A' <= Lower(s)[i] <= 'Z')
  {
  }

  /** Lowercasing both sides keeps a match: `needle in s` implies `needle.lower() in s.lower()`. */
  lemma {:induction false} LowerKeepsContains(s: string, needle: string)
    requires Contains(s, needle)
    ensures Contains(Lower(s), Lower(needle))
    decreases |s|
  {
    if HasPrefix(s, needle) {
      assert Lower(s)[..|needle|] == Lower(needle);
    } else {
      LowerKeepsContains(s[1..], needle);
      assert Lower(s)[1..] == Lower(s[1..]);
    }
  }

  lemma {:induction false} LinesOfLine(s: string)
    requires forall i :: 0 <= i < |s| ==> s[i] != '\n'
    ensures Lines(s) == [s]
  {
    if s != [] {
      assert forall i :: 0 <= i < |s[1..]| ==> s[1..][i] == s[i + 1];
      LinesOfLine(s[1..]);
      assert [s[0]] + s[1..] == s;
    }
  }

  lemma TailAppend<T>(x: seq<T>, y: seq<T>)
    requires x != []
    ensures (x + y)[0] == x[0] && (x + y)[1..] == x[1..] + y
  {
  }

  lemma PrefixSnoc<T>(s: seq<T>, n: nat)
    requires n < |s|
    ensures s[..n + 1] == s[..n] + [s[n]]
  {
  }

  lemma AppendAssoc<T>(x: seq<T>, y: seq<T>, z: seq<T>)
    ensures x + (y + z) == (x + y) + z
  {
  }

  /** How the first character starts the lines: a line feed opens an empty first line, anything else joins the first line. */
  lemma LinesFront(c: char, t: string)
    ensures Lines([c] + t) == if c == '\n' then [""] + Lines(t) else [[c] + Lines(t)[0]] + Lines(t)[1..]
  {
    assert ([c] + t)[0] == c && ([c] + t)[1..] == t;
  }

  lemma FirstLineAppend(c: char, la: seq<string>, lb: seq<string>)
    requires |la| >= 1
    ensures [[c] + (la + lb)[0]] + (la + lb)[1..] == ([[c] + la[0]] + la[1..]) + lb
  {
    assert (la + lb)[0] == la[0];
    assert (la + lb)[1..] == la[1..] + lb;
  }

  /** Splitting at a line feed splits the pieces: `(a + "\n" + b).split("\n") == a.split("\n") + b.split("\n")`. */
  lemma {:induction false} LinesAppend(a: string, b: string)
    ensures Lines(a + "\n" + b) == Lines(a) + Lines(b)
    decreases |a|
  {
    if a == [] {
      assert a + "\n" + b == ['\n'] + b;
      LinesFront('\n', b);
    } else {
      var c, a' := a[0], a[1..];
      var x := a' + "\n" + b;
      assert a == [c] + a';
      assert a + "\n" + b == [c] + x;
      LinesAppend(a', b);
      LinesFront(c, x);
      LinesFront(c, a');
      var la, lb := Lines(a'), Lines(b);
      if c == '\n' {
        calc {
          Lines([c] + x);
          [""] + (la + lb);
          { AppendAssoc([""], la, lb); }
          ([""] + la) + lb;
          Lines(a) + lb;
        }
      } else {
        calc {
          Lines([c] + x);
          [[c] + (la + lb)[0]] + (la + lb)[1..];
          { FirstLineAppend(c, la, lb); }
          ([[c] + la[0]] + la[1..]) + lb;
          Lines(a) + lb;
        }
      }
    }
  }
}
