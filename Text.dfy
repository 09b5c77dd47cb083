/**
 * String operations the pipeline is built from: joining and splitting on a
 * one-character separator (residue tokens on '+', script lines on '\n'),
 * Python's `str(int)`, the pandas `.str` operations the adapters apply
 * (`lower`, `replace`, `extract(r'(\d+)')`, the regex removal of `\w+/`),
 * and Python's ordering of strings.
 */
module Text {
  import opened Wrappers

  predicate IsDigit(c: char) { '0' <= c <= '9' }

  /** The ASCII part of the regex class `\w`. */
  predicate IsWordChar(c: char) { 'a' <= c <= 'z' || 'A' <= c <= 'Z' || IsDigit(c) || c == '_' }

  // ---------------------------------------------------------------------------
  // Joining and splitting on one character

  /** Python's `sep.join(parts)`. */
  function Join(parts: seq<string>, sep: string): string
  {
    if |parts| == 0 then ""
    else if |parts| == 1 then parts[0]
    else parts[0] + sep + Join(parts[1..], sep)
  }

  /** A character in neither the pieces nor the separator is not in the joined text. */
  lemma {:induction false} JoinAvoids(parts: seq<string>, sep: string, c: char)
    requires c !in sep
    requires forall k :: 0 <= k < |parts| ==> c !in parts[k]
    ensures c !in Join(parts, sep)
  {
    if |parts| > 1 {
      JoinAvoids(parts[1..], sep, c);
    }
  }

  /** Index of the first occurrence of `c` in `s`. */
  function IndexOf(s: string, c: char): (i: nat)
    requires c in s
    ensures i < |s| && s[i] == c && c !in s[..i]
  {
    if s[0] == c then 0
    else
      assert c in s[1..] by { assert s == [s[0]] + s[1..]; }
      var j := IndexOf(s[1..], c);
      assert s[..j + 1] == [s[0]] + s[1..][..j];
      1 + j
  }

  /** Python's `s.rfind(c)`: the index of the last `c`, or -1. */
  function LastIndexOf(s: string, c: char): (i: int)
    ensures -1 <= i < |s|
    ensures i >= 0 ==> s[i] == c
    ensures forall k :: i < k < |s| ==> s[k] != c
  {
    if s == [] then -1
    else if s[|s| - 1] == c then |s| - 1
    else LastIndexOf(s[..|s| - 1], c)
  }

  /** Python's `s.split(c)`: the pieces between occurrences of `c`, always at least one. */
  function Split(s: string, c: char): (r: seq<string>)
    ensures |r| >= 1
    ensures forall k :: 0 <= k < |r| ==> c !in r[k]
    decreases |s|
  {
    if c !in s then [s]
    else
      var i := IndexOf(s, c);
      [s[..i]] + Split(s[i + 1..], c)
  }

  lemma IndexOfAfterPiece(a: string, c: char, b: string)
    requires c !in a
    ensures c in a + [c] + b && IndexOf(a + [c] + b, c) == |a|
  {
    var s := a + [c] + b;
    assert s[|a|] == c;
    assert s[..|a|] == a;
  }

  /** Splitting at the first separator. */
  lemma SplitAtFirst(a: string, c: char, b: string)
    requires c !in a
    ensures Split(a + [c] + b, c) == [a] + Split(b, c)
  {
    var s := a + [c] + b;
    IndexOfAfterPiece(a, c, b);
    assert s[..|a|] == a;
    assert s[|a| + 1..] == b;
  }

  /** Splitting a joined list gives the list back, when no piece holds the separator. */
  lemma {:induction false} SplitJoin(parts: seq<string>, c: char)
    requires |parts| >= 1
    requires forall k :: 0 <= k < |parts| ==> c !in parts[k]
    ensures Split(Join(parts, [c]), c) == parts
  {
    if |parts| > 1 {
      var rest := Join(parts[1..], [c]);
      assert Join(parts, [c]) == parts[0] + [c] + rest;
      SplitAtFirst(parts[0], c, rest);
      SplitJoin(parts[1..], c);
      assert parts == [parts[0]] + parts[1..];
    }
  }

  /** Joining the pieces of a split gives the string back. */
  lemma {:induction false} JoinSplit(s: string, c: char)
    ensures Join(Split(s, c), [c]) == s
    decreases |s|
  {
    if c in s {
      var i := IndexOf(s, c);
      var rest := Split(s[i + 1..], c);
      JoinSplit(s[i + 1..], c);
      assert Split(s, c) == [s[..i]] + rest;
      assert ([s[..i]] + rest)[1..] == rest;
      assert s == s[..i] + [c] + s[i + 1..];
    }
  }

  // ---------------------------------------------------------------------------
  // Newline-terminated text

  /** The text of `lines`, each followed by a newline, as a loop of `+= line + '\n'` builds it. */
  function Terminated(lines: seq<string>): string
  {
    if lines == [] then "" else lines[0] + "\n" + Terminated(lines[1..])
  }

  lemma {:induction false} TerminatedAppend(a: seq<string>, b: seq<string>)
    ensures Terminated(a + b) == Terminated(a) + Terminated(b)
  {
    if a != [] {
      assert (a + b)[1..] == a[1..] + b;
      TerminatedAppend(a[1..], b);
    } else {
      assert a + b == b;
    }
  }

  /** Terminated lines followed by one last unterminated line are those lines joined by newlines. */
  lemma {:induction false} TerminatedThenLast(lines: seq<string>, last: string)
    ensures Terminated(lines) + last == Join(lines + [last], "\n")
  {
    if lines != [] {
      assert (lines + [last])[1..] == lines[1..] + [last];
      TerminatedThenLast(lines[1..], last);
    }
  }

  // ---------------------------------------------------------------------------
  // Python's str(int)

  function DigitChar(d: nat): (c: char)
    requires d < 10
    ensures IsDigit(c)
  {
    ('0' as int + d) as char
  }

  function DigitValue(c: char): nat
    requires IsDigit(c)
  {
    c as int - '0' as int
  }

  /** Decimal notation of a natural number, most significant digit first. */
  function NatToString(n: nat): (r: string)
    ensures r != [] && forall k :: 0 <= k < |r| ==> IsDigit(r[k])
  {
    if n < 10 then [DigitChar(n)] else NatToString(n / 10) + [DigitChar(n % 10)]
  }

  /** The number a string of decimal digits denotes. */
  function DigitsValue(s: string): nat
    requires forall k :: 0 <= k < |s| ==> IsDigit(s[k])
  {
    if s == [] then 0 else 10 * DigitsValue(s[..|s| - 1]) + DigitValue(s[|s| - 1])
  }

  /** Reading the digits of `NatToString(n)` gives `n` back. */
  lemma {:induction false} NatToStringRoundTrip(n: nat)
    ensures DigitsValue(NatToString(n)) == n
  {
    if n >= 10 {
      var s := NatToString(n);
      assert s[..|s| - 1] == NatToString(n / 10);
      NatToStringRoundTrip(n / 10);
    }
  }

  /** Python's `str(i)` for an integer. */
  function IntToString(i: int): (r: string)
    ensures r != [] && '+' !in r && '\n' !in r
  {
    if i < 0 then "-" + NatToString(-i) else NatToString(i)
  }

  /** Distinct residue numbers have distinct text. */
  lemma IntToStringInjective(a: int, b: int)
    requires IntToString(a) == IntToString(b)
    ensures a == b
  {
    assert (IntToString(a)[0] == '-') == (a < 0);
    assert (IntToString(b)[0] == '-') == (b < 0);
    if a < 0 && b < 0 {
      assert NatToString(-a) == IntToString(a)[1..];
      NatToStringRoundTrip(-a);
      NatToStringRoundTrip(-b);
    } else if a >= 0 && b >= 0 {
      NatToStringRoundTrip(a);
      NatToStringRoundTrip(b);
    }
  }

  // ---------------------------------------------------------------------------
  // Character-wise pandas `.str` operations

  function LowerChar(c: char): char
  {
    if 'A' <= c <= 'Z' then (c as int + 32) as char else c
  }

  /** `.str.lower()` on ASCII letters. */
  function Lower(s: string): (r: string)
    ensures |r| == |s| && forall k :: 0 <= k < |s| ==> r[k] == LowerChar(s[k])
  {
    if s == [] then [] else [LowerChar(s[0])] + Lower(s[1..])
  }

  /** `.str.replace(a, b)` for one-character `a` and `b`. */
  function ReplaceChar(s: string, a: char, b: char): (r: string)
    ensures |r| == |s|
    ensures forall k :: 0 <= k < |s| ==> r[k] == (if s[k] == a then b else s[k])
  {
    if s == [] then [] else [if s[0] == a then b else s[0]] + ReplaceChar(s[1..], a, b)
  }

  lemma {:induction false} LowerAppend(a: string, b: string)
    ensures Lower(a + b) == Lower(a) + Lower(b)
  {
    if a == [] {
      assert a + b == b;
    } else {
      assert (a + b)[0] == a[0] && (a + b)[1..] == a[1..] + b;
      LowerAppend(a[1..], b);
    }
  }

  lemma {:induction false} ReplaceCharAppend(a: string, b: string, x: char, y: char)
    ensures ReplaceChar(a + b, x, y) == ReplaceChar(a, x, y) + ReplaceChar(b, x, y)
  {
    if a == [] {
      assert a + b == b;
    } else {
      assert (a + b)[0] == a[0] && (a + b)[1..] == a[1..] + b;
      ReplaceCharAppend(a[1..], b, x, y);
    }
  }

  /** `.str.replace(c, '', regex=False)`: every occurrence of `c` removed, the rest kept in order. */
  function RemoveChar(s: string, c: char): (r: string)
    ensures c !in r && |r| <= |s|
    ensures multiset(r) == multiset(s)[c := 0]
  {
    if s == [] then []
    else
      assert s == [s[0]] + s[1..];
      if s[0] == c then RemoveChar(s[1..], c) else [s[0]] + RemoveChar(s[1..], c)
  }

  lemma {:induction false} RemoveCharAppend(a: string, b: string, c: char)
    ensures RemoveChar(a + b, c) == RemoveChar(a, c) + RemoveChar(b, c)
  {
    if a == [] {
      assert a + b == b;
    } else {
      assert (a + b)[1..] == a[1..] + b;
      RemoveCharAppend(a[1..], b, c);
    }
  }

  /** Removing `c` from text around a piece without `c` leaves the piece when nothing else is left. */
  lemma RemoveCharAround(before: string, g: string, after: string, c: char)
    requires RemoveChar(before, c) == "" && RemoveChar(after, c) == ""
    requires forall k :: 0 <= k < |g| ==> g[k] != c
    ensures RemoveChar(before + g + after, c) == g
  {
    RemoveCharAbsent(g, c);
    RemoveCharAppend(before + g, after, c);
    RemoveCharAppend(before, g, c);
  }

  /** A string without `c` is left alone. */
  lemma {:induction false} RemoveCharAbsent(s: string, c: char)
    requires c !in s
    ensures RemoveChar(s, c) == s
  {
    if s != [] {
      assert c !in s[1..];
      RemoveCharAbsent(s[1..], c);
    }
  }

  // ---------------------------------------------------------------------------
  // `.str.replace(r'\w+/', '', regex=True)`

  /** Length of the run of word characters at the start of `s`. */
  function WordRun(s: string): (n: nat)
    ensures n <= |s| && forall k :: 0 <= k < n ==> IsWordChar(s[k])
    ensures n < |s| ==> !IsWordChar(s[n])
  {
    if s == [] || !IsWordChar(s[0]) then 0 else 1 + WordRun(s[1..])
  }

  /** No word character of `s` is directly followed by a slash: `\w+/` does not match anywhere. */
  predicate NoWordSlash(s: string)
  {
    forall k :: 0 <= k < |s| - 1 && IsWordChar(s[k]) ==> s[k + 1] != '/'
  }

  /**
   * Removes every match of `\w+/`. Matches are found left to right; at a word
   * character the greedy `\w+` takes the whole run, so a match is exactly a
   * maximal run of word characters followed by '/'.
   */
  function RemoveWordSlash(s: string): (r: string)
    ensures NoWordSlash(r)
    ensures r != [] && s != [] && !IsWordChar(s[0]) ==> r[0] == s[0]
    decreases |s|
  {
    if s == [] then []
    else if !IsWordChar(s[0]) then
      var rest := RemoveWordSlash(s[1..]);
      assert forall k :: 1 <= k < |rest| ==> ([s[0]] + rest)[k] == rest[k - 1];
      [s[0]] + rest
    else
      var n := WordRun(s);
      if n < |s| && s[n] == '/' then RemoveWordSlash(s[n + 1..])
      else
        var rest := RemoveWordSlash(s[n..]);
        var r := s[..n] + rest;
        assert forall k :: n <= k < |r| ==> r[k] == rest[k - n];
        assert n < |s| ==> rest != [] && rest[0] == s[n];
        r
  }

  /** Removing `\w+/` twice removes nothing more: a string without a match is left alone. */
  lemma {:induction false} RemoveWordSlashFixed(s: string)
    requires NoWordSlash(s)
    ensures RemoveWordSlash(s) == s
    decreases |s|
  {
    if s != [] {
      if !IsWordChar(s[0]) {
        RemoveWordSlashFixed(s[1..]);
        assert s == [s[0]] + s[1..];
      } else {
        var n := WordRun(s);
        assert IsWordChar(s[n - 1]);
        assert !(n < |s| && s[n] == '/');
        assert NoWordSlash(s[n..]);
        RemoveWordSlashFixed(s[n..]);
        assert s == s[..n] + s[n..];
      }
    }
  }

  /** A leading `word/` segment is removed and what follows is processed alone. */
  lemma RemoveWordSlashSegment(w: string, t: string)
    requires w != [] && forall k :: 0 <= k < |w| ==> IsWordChar(w[k])
    ensures RemoveWordSlash(w + "/" + t) == RemoveWordSlash(t)
  {
    var s := w + "/" + t;
    WordRunPrefix(w, "/" + t);
    assert s == w + ("/" + t);
    assert s[|w| + 1..] == t;
  }

  /** A character outside `\w` is kept, and the removal goes on after it. */
  lemma RemoveWordSlashNonWord(c: char, t: string)
    requires !IsWordChar(c)
    ensures RemoveWordSlash([c] + t) == [c] + RemoveWordSlash(t)
  {
    assert ([c] + t)[1..] == t;
  }

  /** A maximal run of word characters not followed by '/' is kept, and the removal goes on after it. */
  lemma RemoveWordSlashKeepsRun(w: string, t: string)
    requires w != [] && forall k :: 0 <= k < |w| ==> IsWordChar(w[k])
    requires t == [] || (!IsWordChar(t[0]) && t[0] != '/')
    ensures RemoveWordSlash(w + t) == w + RemoveWordSlash(t)
  {
    var s := w + t;
    WordRunPrefix(w, t);
    assert s[..|w|] == w && s[|w|..] == t;
  }

  /** A match after a character outside `\w` is removed and the text around it kept: "x-ab/c" gives "x-c". */
  lemma RemoveWordSlashExample()
    ensures RemoveWordSlash("x-ab/c") == "x-c"
  {
    ExampleAfterDash();
    assert "x-ab/c" == "x" + "-ab/c";
    RemoveWordSlashKeepsRun("x", "-ab/c");
    assert "x" + "-c" == "x-c";
  }

  lemma ExampleAfterDash()
    ensures RemoveWordSlash("-ab/c") == "-c"
  {
    ExampleMatch();
    assert "-ab/c" == ['-'] + "ab/c";
    RemoveWordSlashNonWord('-', "ab/c");
    assert ['-'] + "c" == "-c";
  }

  lemma ExampleMatch()
    ensures RemoveWordSlash("ab/c") == "c"
  {
    assert "ab/c" == "ab" + "/" + "c";
    RemoveWordSlashSegment("ab", "c");
    assert "c" == "c" + "";
    RemoveWordSlashKeepsRun("c", "");
  }

  lemma {:induction false} WordRunPrefix(w: string, t: string)
    requires forall k :: 0 <= k < |w| ==> IsWordChar(w[k])
    requires t == [] || !IsWordChar(t[0])
    ensures WordRun(w + t) == |w|
  {
    if w != [] {
      assert (w + t)[1..] == w[1..] + t;
      WordRunPrefix(w[1..], t);
    } else {
      assert w + t == t;
    }
  }

  // ---------------------------------------------------------------------------
  // `.str.extract(r'(\d+)')`

  /** Length of the run of digits at the start of `s`. */
  function DigitRun(s: string): (n: nat)
    ensures n <= |s| && forall k :: 0 <= k < n ==> IsDigit(s[k])
    ensures n < |s| ==> !IsDigit(s[n])
  {
    if s == [] || !IsDigit(s[0]) then 0 else 1 + DigitRun(s[1..])
  }

  /** The first run of digits in `s`, or missing when `s` holds no digit. */
  function ExtractDigits(s: string): (r: Option<string>)
    ensures r.None? <==> forall k :: 0 <= k < |s| ==> !IsDigit(s[k])
    ensures r.Some? ==> r.value != [] && forall k :: 0 <= k < |r.value| ==> IsDigit(r.value[k])
  {
    if s == [] then None
    else if IsDigit(s[0]) then Some(s[..DigitRun(s)])
    else
      var r := ExtractDigits(s[1..]);
      assert forall k :: 1 <= k < |s| ==> s[k] == s[1..][k - 1];
      r
  }

  lemma {:induction false} DigitRunPrefix(d: string, t: string)
    requires forall k :: 0 <= k < |d| ==> IsDigit(d[k])
    requires t == [] || !IsDigit(t[0])
    ensures DigitRun(d + t) == |d|
  {
    if d != [] {
      assert (d + t)[1..] == d[1..] + t;
      DigitRunPrefix(d[1..], t);
    } else {
      assert d + t == t;
    }
  }

  /** What `extract` finds is exactly the first maximal run of digits. */
  lemma {:induction false} ExtractFirstRun(pre: string, d: string, post: string)
    requires forall k :: 0 <= k < |pre| ==> !IsDigit(pre[k])
    requires d != [] && forall k :: 0 <= k < |d| ==> IsDigit(d[k])
    requires post == [] || !IsDigit(post[0])
    ensures ExtractDigits(pre + d + post) == Some(d)
  {
    var s := pre + d + post;
    if pre == [] {
      assert s == d + post;
      DigitRunPrefix(d, post);
      assert s[..|d|] == d;
    } else {
      assert s[1..] == pre[1..] + d + post;
      ExtractFirstRun(pre[1..], d, post);
    }
  }

  // ---------------------------------------------------------------------------
  // Python's ordering of strings

  /** `a < b` on Python strings: code point by code point, a proper prefix first. */
  predicate LexLess(a: string, b: string)
  {
    if a == [] then b != []
    else if b == [] then false
    else a[0] < b[0] || (a[0] == b[0] && LexLess(a[1..], b[1..]))
  }

  lemma {:induction false} LexLessIrreflexive(a: string)
    ensures !LexLess(a, a)
  {
    if a != [] { LexLessIrreflexive(a[1..]); }
  }

  lemma {:induction false} LexLessTransitive(a: string, b: string, c: string)
    requires LexLess(a, b) && LexLess(b, c)
    ensures LexLess(a, c)
  {
    if a != [] && a[0] == b[0] && b[0] == c[0] {
      LexLessTransitive(a[1..], b[1..], c[1..]);
    }
  }

  lemma {:induction false} LexLessTotal(a: string, b: string)
    requires a != b
    ensures LexLess(a, b) || LexLess(b, a)
  {
    if a != [] && b != [] && a[0] == b[0] {
      assert a == [a[0]] + a[1..] && b == [b[0]] + b[1..];
      LexLessTotal(a[1..], b[1..]);
    }
  }

  lemma {:induction false} LexLessAsymmetric(a: string, b: string)
    requires LexLess(a, b)
    ensures !LexLess(b, a)
  {
    if a != [] && a[0] == b[0] {
      LexLessAsymmetric(a[1..], b[1..]);
    }
  }
}
