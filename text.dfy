/**
 * The Python string built-ins the frame relies on, over Dafny strings (sequences of Unicode
 * scalar values): `str.isspace`, `str.strip`, `str.split()` with no argument, the `<`
 * ordering that `sorted` uses, and the leading-dot test for hidden names. `JoinSpace`, which
 * is `" ".join`, is not called by the frame: it states that wrapping keeps the words.
 */
module Text {

  /** The characters Python treats as whitespace in `str.split()` and `str.strip()`. */
  predicate IsSpace(c: char) {
    || ('\t' <= c <= '\r')
    || ('\U{1C}' <= c <= '\U{1F}')
    || c == ' '
    || c == '\U{85}'
    || c == '\U{A0}'
    || c == '\U{1680}'
    || ('\U{2000}' <= c <= '\U{200A}')
    || c == '\U{2028}'
    || c == '\U{2029}'
    || c == '\U{202F}'
    || c == '\U{205F}'
    || c == '\U{3000}'
  }

  predicate NoSpace(w: string) {
    forall i :: 0 <= i < |w| ==> !IsSpace(w[i])
  }

  /** Neither end of `s` is whitespace. */
  predicate Trimmed(s: string) {
    s == [] || (!IsSpace(s[0]) && !IsSpace(s[|s| - 1]))
  }

  /** What `str.split()` can return: non-empty words without whitespace. */
  predicate AreWords(ws: seq<string>) {
    forall i :: 0 <= i < |ws| ==> ws[i] != [] && NoSpace(ws[i])
  }

  // ---------------------------------------------------------------------------------------
  // str.strip()

  /** The length of the longest all-whitespace prefix of `s`. */
  function LeadingSpace(s: string): (n: nat)
    ensures n <= |s| && (forall k :: 0 <= k < n ==> IsSpace(s[k])) && (n < |s| ==> !IsSpace(s[n]))
  {
    if s != [] && IsSpace(s[0]) then 1 + LeadingSpace(s[1..]) else 0
  }

  /** The length of the longest all-whitespace suffix of `s`. */
  function TrailingSpace(s: string): (n: nat)
    ensures n <= |s| && (forall k :: |s| - n <= k < |s| ==> IsSpace(s[k]))
    ensures n < |s| ==> !IsSpace(s[|s| - n - 1])
  {
    if s != [] && IsSpace(s[|s| - 1]) then 1 + TrailingSpace(s[..|s| - 1]) else 0
  }

  /**
   * `s.strip()`: the slice of `s` between its leading and its trailing whitespace. The result is
   * trimmed, everything of `s` outside it is whitespace, and a trimmed string is kept.
   */
  function Strip(s: string): (r: string)
    ensures Trimmed(r)
    ensures exists i, j :: 0 <= i <= j <= |s| && r == s[i..j]
                           && (forall k :: 0 <= k < i ==> IsSpace(s[k]))
                           && (forall k :: j <= k < |s| ==> IsSpace(s[k]))
    ensures Trimmed(s) ==> r == s
  {
    var i := LeadingSpace(s);
    if i == |s| then
      assert s[i..i] == [];
      []
    else
      var j := |s| - TrailingSpace(s);
      assert i < j;
      s[i..j]
  }

  /** A string made only of whitespace strips to the empty string, and only such a string does. */
  lemma StripEmptyIffBlank(s: string)
    ensures Strip(s) == [] <==> forall i :: 0 <= i < |s| ==> IsSpace(s[i])
  {
    var i := LeadingSpace(s);
    if i < |s| {
      assert !IsSpace(s[i]);
    }
  }

  // ---------------------------------------------------------------------------------------
  // str.split(), and the join that states what it keeps

  /** The leading run of non-whitespace characters of `s`. */
  function TakeWord(s: string): (w: string)
    ensures |w| <= |s| && w == s[..|w|] && NoSpace(w)
    ensures |w| < |s| ==> IsSpace(s[|w|])
  {
    if s == [] || IsSpace(s[0]) then [] else [s[0]] + TakeWord(s[1..])
  }

  /** `s.split()`: the maximal whitespace-free runs of `s`, in order. */
  function Words(s: string): (ws: seq<string>)
    ensures AreWords(ws)
    decreases |s|
  {
    if s == [] then []
    else if IsSpace(s[0]) then Words(s[1..])
    else
      var w := TakeWord(s);
      [w] + Words(s[|w|..])
  }

  /**
   * The three facts below determine `split()` on every string: nothing splits to no words, a
   * single run without whitespace is one word, and any whitespace character separates the words
   * before it from those after it.
   */
  lemma WordsOfEmpty()
    ensures Words("") == []
  {
  }

  lemma WordsOfWord(w: string)
    requires w != [] && NoSpace(w)
    ensures Words(w) == [w]
  {
    TakeWordOfWord(w, []);
    assert w + [] == w;
    assert w[|w|..] == [];
  }

  lemma {:induction false} WordsSplitAt(a: string, c: char, b: string)
    requires IsSpace(c)
    ensures Words(a + [c] + b) == Words(a) + Words(b)
    decreases |a|
  {
    var s := a + [c] + b;
    if a == [] {
      assert s[1..] == b;
    } else if IsSpace(a[0]) {
      assert s[1..] == a[1..] + [c] + b;
      WordsSplitAt(a[1..], c, b);
    } else {
      TakeWordPrefix(a, [c] + b);
      assert s == a + ([c] + b);
      var w := TakeWord(a);
      assert s[0] == a[0];
      assert s[|w|..] == a[|w|..] + [c] + b;
      WordsSplitAt(a[|w|..], c, b);
    }
  }

  /** `" ".join(ws)`: the words separated by single spaces, as the caption lines are built. */
  function JoinSpace(ws: seq<string>): string {
    if |ws| == 0 then ""
    else if |ws| == 1 then ws[0]
    else ws[0] + " " + JoinSpace(ws[1..])
  }

  lemma {:induction false} JoinSpaceSnoc(ws: seq<string>, w: string)
    ensures JoinSpace(ws + [w]) == if ws == [] then w else JoinSpace(ws) + " " + w
  {
    if |ws| == 1 {
      assert ws + [w] == [ws[0], w];
      assert [ws[0], w][1..] == [w];
    } else if |ws| >= 2 {
      assert (ws + [w])[1..] == ws[1..] + [w];
      JoinSpaceSnoc(ws[1..], w);
    } else {
      assert ws + [w] == [w];
    }
  }

  /** A word followed by whitespace (or nothing) is taken whole. */
  lemma {:induction false} TakeWordOfWord(w: string, t: string)
    requires NoSpace(w) && (t == [] || IsSpace(t[0]))
    ensures TakeWord(w + t) == w
  {
    if w == [] {
      assert w + t == t;
    } else {
      assert (w + t)[1..] == w[1..] + t;
      TakeWordOfWord(w[1..], t);
    }
  }

  /** Text after whitespace does not change the first word. */
  lemma {:induction false} TakeWordPrefix(a: string, b: string)
    requires b == [] || IsSpace(b[0])
    ensures TakeWord(a + b) == TakeWord(a)
  {
    if a == [] {
      assert a + b == b;
    } else if !IsSpace(a[0]) {
      assert (a + b)[1..] == a[1..] + b;
      TakeWordPrefix(a[1..], b);
    }
  }

  /** Splitting undoes joining: `" ".join(ws).split() == ws` for words. */
  lemma {:induction false} WordsOfJoin(ws: seq<string>)
    requires AreWords(ws)
    ensures Words(JoinSpace(ws)) == ws
  {
    if |ws| == 1 {
      var w := ws[0];
      TakeWordOfWord(w, []);
      assert w + [] == w;
      assert w[|w|..] == [];
    } else if |ws| >= 2 {
      var w, rest := ws[0], JoinSpace(ws[1..]);
      var s := w + " " + rest;
      TakeWordOfWord(w, " " + rest);
      assert w + (" " + rest) == s;
      assert s[0] == w[0];
      assert s[|w|..] == " " + rest;
      assert (" " + rest)[1..] == rest;
      WordsOfJoin(ws[1..]);
    }
  }

  // ---------------------------------------------------------------------------------------
  // Lists of names

  predicate Distinct(s: seq<string>) {
    forall i, j :: 0 <= i < j < |s| ==> s[i] != s[j]
  }

  /** `set(s)` */
  function Elements(s: seq<string>): (r: set<string>)
    ensures forall x :: x in r <==> x in s
  {
    set x | x in s
  }

  lemma ElementsSnoc(s: seq<string>, x: string)
    ensures Elements(s + [x]) == Elements(s) + {x}
  {
    assert forall y :: y in s + [x] <==> y in s || y == x;
  }

  // ---------------------------------------------------------------------------------------
  // Hidden names

  /** A name beginning with '.', which the thumbnail pass skips. */
  predicate IsHidden(name: string) {
    |name| > 0 && name[0] == '.'
  }

  // ---------------------------------------------------------------------------------------
  // Python's `<` on str: lexicographic by code point, a proper prefix first

  predicate LexLess(a: string, b: string)
    decreases |a|
  {
    if a == [] then b != []
    else if b == [] then false
    else if a[0] != b[0] then a[0] < b[0]
    else LexLess(a[1..], b[1..])
  }

  lemma {:induction false} LexLessIrreflexive(a: string)
    ensures !LexLess(a, a)
  {
    if a != [] {
      LexLessIrreflexive(a[1..]);
    }
  }

  lemma {:induction false} LexLessTransitive(a: string, b: string, c: string)
    requires LexLess(a, b) && LexLess(b, c)
    ensures LexLess(a, c)
  {
    if a != [] && a[0] == b[0] && b[0] == c[0] {
      LexLessTransitive(a[1..], b[1..], c[1..]);
    }
  }

  lemma {:induction false} LexLessTotal(a: string, b: string)
    requires a != b
    ensures LexLess(a, b) || LexLess(b, a)
  {
    if a != [] && b != [] && a[0] == b[0] {
      assert a == [a[0]] + a[1..] && b == [b[0]] + b[1..];
      LexLessTotal(a[1..], b[1..]);
    }
  }

  /** Strictly increasing, which also rules out duplicates. */
  predicate StrictlySorted(s: seq<string>) {
    forall i, j :: 0 <= i < j < |s| ==> LexLess(s[i], s[j])
  }

  predicate IsLeast(m: string, s: set<string>) {
    m in s && forall x :: x in s && x != m ==> LexLess(m, x)
  }

  /** Every finite non-empty set of strings has a least element. */
  lemma {:induction false} HasLeast(s: set<string>)
    requires s != {}
    ensures exists m :: IsLeast(m, s)
    decreases |s|
  {
    var x :| x in s;
    if s == {x} {
      assert IsLeast(x, s);
    } else {
      HasLeast(s - {x});
      var m :| IsLeast(m, s - {x});
      if LexLess(x, m) {
        forall y | y in s && y != x
          ensures LexLess(x, y)
        {
          if y != m {
            LexLessTransitive(x, m, y);
          }
        }
        assert IsLeast(x, s);
      } else {
        LexLessTotal(x, m);
        assert IsLeast(m, s);
      }
    }
  }

  /** `sorted(s)` of a set of names: the strictly increasing sequence of exactly its elements. */
  method SortNames(s: set<string>) returns (r: seq<string>)
    ensures StrictlySorted(r)
    ensures forall x :: x in r <==> x in s
  {
    r := [];
    var rest := s;
    while rest != {}
      invariant StrictlySorted(r)
      invariant forall x :: x in s <==> x in r || x in rest
      invariant forall i, x :: 0 <= i < |r| && x in rest ==> LexLess(r[i], x)
      invariant forall x :: x in rest ==> x !in r
      decreases |rest|
    {
      HasLeast(rest);
      var m :| IsLeast(m, rest);
      r := r + [m];
      rest := rest - {m};
      forall i, x | 0 <= i < |r| && x in rest
        ensures LexLess(r[i], x)
      {
        if i == |r| - 1 {
          assert r[i] == m;
        }
      }
    }
  }

  /** Sorting is deterministic: two strictly increasing sequences with the same elements are equal. */
  lemma {:induction false} StrictlySortedUnique(a: seq<string>, b: seq<string>)
    requires StrictlySorted(a) && StrictlySorted(b)
    requires forall x :: x in a <==> x in b
    ensures a == b
    decreases |a|
  {
    if a != [] {
      assert a[0] in a;
    }
    if b != [] {
      assert b[0] in b;
    }
    if a != [] && b != [] {
      if a[0] != b[0] {
        var i :| 0 <= i < |b| && b[i] == a[0];
        var j :| 0 <= j < |a| && a[j] == b[0];
        assert i > 0 && j > 0;
        LexLessTransitive(a[0], a[j], a[0]);
        LexLessIrreflexive(a[0]);
        assert false;
      }
      forall x
        ensures x in a[1..] <==> x in b[1..]
      {
        LexLessIrreflexive(x);
        if x in a[1..] {
          var i :| 1 <= i < |a| && a[i] == x;
          assert x in a;
          var j :| 0 <= j < |b| && b[j] == x;
          assert j != 0;
          assert b[1..][j - 1] == x;
        }
        if x in b[1..] {
          var i :| 1 <= i < |b| && b[i] == x;
          assert x in b;
          var j :| 0 <= j < |a| && a[j] == x;
          assert j != 0;
          assert a[1..][j - 1] == x;
        }
      }
      StrictlySortedUnique(a[1..], b[1..]);
      assert a == [a[0]] + a[1..] && b == [b[0]] + b[1..];
    }
  }
}
