/**
  The text normaliser `clean_text` of backend/app.py and the two case
  mappings (`str.lower`, `str.capitalize`) the recommender applies to its
  output.

  Python's `\w` and `\s` classes are Unicode tables; the model takes them
  as given (`CharClasses`), and `str.strip` is taken to use the same
  whitespace class as `\s`.
*/
module Text {

  /** The two character classes the regular expressions of `clean_text` use. */
  datatype CharClasses = CharClasses(isWord: char -> bool, isSpace: char -> bool) {
    /** The only fact the normaliser relies on: the blank is whitespace. */
    predicate Valid() {
      isSpace(' ')
    }
  }

  /** A Python value handed to `clean_text` or to an f-string: a `str`, or
      anything else (None, a number, a list), together with what `str()`
      renders it as. */
  datatype Value = Str(s: string) | Other(shown: string)

  /** The punctuation the first substitution keeps besides `\w` and `\s`. */
  predicate IsPunct(c: char) {
    c in ".,;:!?-"
  }

  /** Members of the class `[\w\s.,;:!?\-]`. */
  predicate Allowed(cc: CharClasses, c: char) {
    cc.isWord(c) || cc.isSpace(c) || IsPunct(c)
  }

  /** Positions `i - 1` and `i` of `t` both hold a blank. */
  ghost predicate BlankPairAt(t: string, i: int)
    requires 0 < i < |t|
  {
    t[i - 1] == ' ' && t[i] == ' '
  }

  /** No blank directly follows another blank. */
  ghost predicate NoDoubleBlank(t: string) {
    forall i :: 0 < i < |t| ==> !BlankPairAt(t, i)
  }

  /** What `clean_text` promises about its output: only word characters,
      the kept punctuation and single blanks, and no blank at either end. */
  ghost predicate IsClean(cc: CharClasses, t: string) {
    && (forall i :: 0 <= i < |t| ==>
          t[i] == ' ' || (!cc.isSpace(t[i]) && (cc.isWord(t[i]) || IsPunct(t[i]))))
    && NoDoubleBlank(t)
    && (t != [] ==> t[0] != ' ' && t[|t| - 1] != ' ')
  }

  /** `re.sub(r'[^\w\s.,;:!?\-]', ' ', text)`: every other character becomes a blank. */
  function ReplaceSpecials(cc: CharClasses, s: string): string {
    seq(|s|, i requires 0 <= i < |s| => if Allowed(cc, s[i]) then s[i] else ' ')
  }

  /** `str.lstrip()`: drops the leading whitespace. */
  function TrimStart(cc: CharClasses, s: string): (r: string)
    ensures |r| <= |s|
  {
    if s != [] && cc.isSpace(s[0]) then TrimStart(cc, s[1..]) else s
  }

  /** `str.rstrip()`: drops the trailing whitespace. */
  function TrimEnd(cc: CharClasses, s: string): (r: string)
    ensures |r| <= |s|
  {
    if s != [] && cc.isSpace(s[|s| - 1]) then TrimEnd(cc, s[..|s| - 1]) else s
  }

  /** `re.sub(r'\s+', ' ', text)`: every maximal run of whitespace becomes
      one blank, every other character stays. */
  function CollapseRuns(cc: CharClasses, s: string): (r: string)
    requires cc.Valid()
    ensures |r| <= |s|
    decreases |s|
  {
    if s == [] then []
    else if cc.isSpace(s[0]) then [' '] + CollapseRuns(cc, TrimStart(cc, s[1..]))
    else [s[0]] + CollapseRuns(cc, s[1..])
  }

  /** `lstrip` keeps a suffix of its input that starts with no whitespace,
      and everything it drops is whitespace. */
  lemma {:induction false} TrimStartShape(cc: CharClasses, s: string)
    ensures var r := TrimStart(cc, s);
      && r == s[|s| - |r|..]
      && (r != [] ==> !cc.isSpace(r[0]))
      && (forall i :: 0 <= i < |s| - |r| ==> cc.isSpace(s[i]))
  {
    if s != [] && cc.isSpace(s[0]) {
      TrimStartShape(cc, s[1..]);
      var r := TrimStart(cc, s);
      forall i | 1 <= i < |s| - |r| ensures cc.isSpace(s[i]) {
        assert s[i] == s[1..][i - 1];
      }
    }
  }

  /** `rstrip` keeps a prefix of its input that ends with no whitespace,
      and everything it drops is whitespace. */
  lemma {:induction false} TrimEndShape(cc: CharClasses, s: string)
    ensures var r := TrimEnd(cc, s);
      && r == s[..|r|]
      && (r != [] ==> !cc.isSpace(r[|r| - 1]))
      && (forall i :: |r| <= i < |s| ==> cc.isSpace(s[i]))
  {
    if s != [] && cc.isSpace(s[|s| - 1]) {
      var init := s[..|s| - 1];
      TrimEndShape(cc, init);
      var r := TrimEnd(cc, s);
      forall i | |r| <= i < |s| - 1 ensures cc.isSpace(s[i]) {
        assert s[i] == init[i];
      }
    }
  }

  /** The non-whitespace characters of a text, in order: what a change of
      spacing alone cannot alter. */
  function NonSpace(cc: CharClasses, s: string): string {
    if s == [] then []
    else (if cc.isSpace(s[0]) then [] else [s[0]]) + NonSpace(cc, s[1..])
  }

  lemma {:induction false} NonSpaceAppend(cc: CharClasses, a: string, b: string)
    ensures NonSpace(cc, a + b) == NonSpace(cc, a) + NonSpace(cc, b)
  {
    if a != [] {
      assert (a + b)[1..] == a[1..] + b;
      NonSpaceAppend(cc, a[1..], b);
    } else {
      assert a + b == b;
    }
  }

  lemma {:induction false} NonSpaceOfSpaces(cc: CharClasses, s: string)
    requires forall i :: 0 <= i < |s| ==> cc.isSpace(s[i])
    ensures NonSpace(cc, s) == []
  {
    if s != [] {
      assert forall i :: 0 <= i < |s[1..]| ==> cc.isSpace(s[1..][i]) by {
        forall i | 0 <= i < |s[1..]| ensures cc.isSpace(s[1..][i]) {
          assert s[1..][i] == s[i + 1];
        }
      }
      NonSpaceOfSpaces(cc, s[1..]);
    }
  }

  /** Stripping either end changes only whitespace: the non-whitespace
      characters stay, in order. */
  lemma TrimKeepsNonSpace(cc: CharClasses, s: string)
    ensures NonSpace(cc, TrimStart(cc, s)) == NonSpace(cc, s)
    ensures NonSpace(cc, TrimEnd(cc, s)) == NonSpace(cc, s)
  {
    var left := TrimStart(cc, s);
    TrimStartShape(cc, s);
    var d := |s| - |left|;
    assert s == s[..d] + left;
    NonSpaceAppend(cc, s[..d], left);
    NonSpaceOfSpaces(cc, s[..d]);

    var right := TrimEnd(cc, s);
    TrimEndShape(cc, s);
    assert s == right + s[|right|..];
    NonSpaceAppend(cc, right, s[|right|..]);
    NonSpaceOfSpaces(cc, s[|right|..]);
  }

  /** Collapsing whitespace runs keeps every non-whitespace character, in order. */
  lemma {:induction false} CollapseKeepsNonSpace(cc: CharClasses, s: string)
    requires cc.Valid()
    ensures NonSpace(cc, CollapseRuns(cc, s)) == NonSpace(cc, s)
    decreases |s|
  {
    if s != [] {
      var r := CollapseRuns(cc, s);
      if cc.isSpace(s[0]) {
        var rest := TrimStart(cc, s[1..]);
        CollapseKeepsNonSpace(cc, rest);
        TrimKeepsNonSpace(cc, s[1..]);
        assert r[1..] == CollapseRuns(cc, rest);
      } else {
        CollapseKeepsNonSpace(cc, s[1..]);
        assert r[1..] == CollapseRuns(cc, s[1..]);
      }
    }
  }

  /** After collapsing, the only whitespace left is single blanks; the
      output is empty only for an empty input and starts with a blank
      exactly when the input starts with whitespace; a string of kept
      characters stays one; the non-whitespace characters are all kept,
      in order. */
  lemma CollapseRunsShape(cc: CharClasses, s: string)
    requires cc.Valid()
    ensures var r := CollapseRuns(cc, s);
      && (r == [] <==> s == [])
      && (r != [] ==> (r[0] == ' ' <==> cc.isSpace(s[0])))
      && (forall i :: 0 <= i < |r| ==> r[i] == ' ' || !cc.isSpace(r[i]))
      && ((forall i :: 0 <= i < |s| ==> Allowed(cc, s[i])) ==>
            forall i :: 0 <= i < |r| ==> Allowed(cc, r[i]))
      && NoDoubleBlank(r)
      && NonSpace(cc, r) == NonSpace(cc, s)
  {
    CollapseRunsForm(cc, s);
    if forall i :: 0 <= i < |s| ==> Allowed(cc, s[i]) {
      CollapseKeepsAllowed(cc, s);
    }
    CollapseKeepsNonSpace(cc, s);
  }

  /** The layout half of `CollapseRunsShape`, by induction on `s`. */
  lemma {:induction false} CollapseRunsForm(cc: CharClasses, s: string)
    requires cc.Valid()
    ensures var r := CollapseRuns(cc, s);
      && (r == [] <==> s == [])
      && (r != [] ==> (r[0] == ' ' <==> cc.isSpace(s[0])))
      && (forall i :: 0 <= i < |r| ==> r[i] == ' ' || !cc.isSpace(r[i]))
      && NoDoubleBlank(r)
    decreases |s|
  {
    if s != [] {
      var rest := if cc.isSpace(s[0]) then TrimStart(cc, s[1..]) else s[1..];
      if cc.isSpace(s[0]) {
        TrimStartShape(cc, s[1..]);
      }
      CollapseRunsForm(cc, rest);
      var tail := CollapseRuns(cc, rest);
      var r := CollapseRuns(cc, s);
      assert r == (if cc.isSpace(s[0]) then [' '] else [s[0]]) + tail;
      forall i | 0 < i < |r| ensures !BlankPairAt(r, i) {
        if i > 1 {
          assert !BlankPairAt(tail, i - 1);
        }
      }
    }
  }

  /** Collapsing a string of kept characters gives one again. */
  lemma {:induction false} CollapseKeepsAllowed(cc: CharClasses, s: string)
    requires cc.Valid()
    requires forall i :: 0 <= i < |s| ==> Allowed(cc, s[i])
    ensures forall i :: 0 <= i < |CollapseRuns(cc, s)| ==> Allowed(cc, CollapseRuns(cc, s)[i])
    decreases |s|
  {
    if s != [] {
      var rest := if cc.isSpace(s[0]) then TrimStart(cc, s[1..]) else s[1..];
      if cc.isSpace(s[0]) {
        TrimStartShape(cc, s[1..]);
      }
      assert rest == s[|s| - |rest|..];
      forall i | 0 <= i < |rest| ensures Allowed(cc, rest[i]) {
        assert rest[i] == s[|s| - |rest| + i];
      }
      CollapseKeepsAllowed(cc, rest);
      var tail := CollapseRuns(cc, rest);
      var r := CollapseRuns(cc, s);
      assert r == (if cc.isSpace(s[0]) then [' '] else [s[0]]) + tail;
      assert Allowed(cc, r[0]);
      forall i | 1 <= i < |r| ensures Allowed(cc, r[i]) {
        assert r[i] == tail[i - 1];
      }
    }
  }

  /** `clean_text`: non-strings give the empty string; strings go through
      the two substitutions and `strip()`. */
  function Clean(cc: CharClasses, v: Value): string
    requires cc.Valid()
  {
    match v
    case Other(_) => ""
    case Str(s) => TrimEnd(cc, TrimStart(cc, CollapseRuns(cc, ReplaceSpecials(cc, s))))
  }

  /** What `clean_text` returns is clean, and for a non-string it is empty. */
  lemma CleanOutputIsClean(cc: CharClasses, v: Value)
    requires cc.Valid()
    ensures v.Other? ==> Clean(cc, v) == ""
    ensures IsClean(cc, Clean(cc, v))
  {
    if v.Str? {
      var replaced := ReplaceSpecials(cc, v.s);
      CollapsedCharsAllowed(cc, replaced);
      CollapseRunsShape(cc, replaced);
      StrippedIsClean(cc, CollapseRuns(cc, replaced));
    }
  }

  /** `clean_text` never lengthens a string. */
  lemma CleanNeverLonger(cc: CharClasses, s: string)
    requires cc.Valid()
    ensures |Clean(cc, Str(s))| <= |s|
  {
    var collapsed := CollapseRuns(cc, ReplaceSpecials(cc, s));
    assert |TrimEnd(cc, TrimStart(cc, collapsed))| <= |collapsed|;
  }

  /** `clean_text` changes only spacing and the characters outside the kept
      class: its output has exactly the non-whitespace characters of the
      input after the first substitution, in order. */
  lemma CleanKeepsContent(cc: CharClasses, s: string)
    requires cc.Valid()
    ensures NonSpace(cc, Clean(cc, Str(s))) == NonSpace(cc, ReplaceSpecials(cc, s))
  {
    var collapsed := CollapseRuns(cc, ReplaceSpecials(cc, s));
    CollapseKeepsNonSpace(cc, ReplaceSpecials(cc, s));
    TrimKeepsNonSpace(cc, collapsed);
    TrimKeepsNonSpace(cc, TrimStart(cc, collapsed));
  }

  // ---- one blank per whitespace run --------------------------------------

  /** `lstrip` of a whitespace run followed by text that does not start
      with whitespace gives that text. */
  lemma {:induction false} TrimStartSkipsRun(cc: CharClasses, w: string, v: string)
    requires forall i :: 0 <= i < |w| ==> cc.isSpace(w[i])
    requires v == [] || !cc.isSpace(v[0])
    ensures TrimStart(cc, w + v) == v
    decreases |w|
  {
    if w == [] {
      assert w + v == v;
    } else {
      assert (w + v)[0] == w[0];
      assert (w + v)[1..] == w[1..] + v;
      forall i | 0 <= i < |w| - 1 ensures cc.isSpace(w[1..][i]) {
        assert w[1..][i] == w[i + 1];
      }
      TrimStartSkipsRun(cc, w[1..], v);
    }
  }

  /** `lstrip` only looks at the front: after a non-whitespace character
      everything is kept, and that character stays last. */
  lemma {:induction false} TrimStartAppend(cc: CharClasses, u: string, x: string)
    requires u != [] && !cc.isSpace(u[|u| - 1])
    ensures TrimStart(cc, u + x) == TrimStart(cc, u) + x
    ensures TrimStart(cc, u) != [] && TrimStart(cc, u)[|TrimStart(cc, u)| - 1] == u[|u| - 1]
    decreases |u|
  {
    assert (u + x)[0] == u[0];
    if cc.isSpace(u[0]) {
      assert u[1..][|u| - 2] == u[|u| - 1];
      assert (u + x)[1..] == u[1..] + x;
      TrimStartAppend(cc, u[1..], x);
    }
  }

  /** `rstrip` only looks at the back: before a non-whitespace character
      everything is kept. */
  lemma {:induction false} TrimEndPrepend(cc: CharClasses, x: string, v: string)
    requires v != [] && !cc.isSpace(v[0])
    ensures TrimEnd(cc, x + v) == x + TrimEnd(cc, v)
    decreases |v|
  {
    assert (x + v)[|x + v| - 1] == v[|v| - 1];
    if cc.isSpace(v[|v| - 1]) {
      assert (x + v)[..|x + v| - 1] == x + v[..|v| - 1];
      TrimEndPrepend(cc, x, v[..|v| - 1]);
    }
  }

  /** Collapsing keeps a final non-whitespace character in last place. */
  lemma {:induction false} CollapseKeepsLast(cc: CharClasses, s: string)
    requires cc.Valid()
    requires s != [] && !cc.isSpace(s[|s| - 1])
    ensures CollapseRuns(cc, s) != []
    ensures CollapseRuns(cc, s)[|CollapseRuns(cc, s)| - 1] == s[|s| - 1]
    decreases |s|
  {
    if cc.isSpace(s[0]) {
      assert s[1..][|s| - 2] == s[|s| - 1];
      TrimStartAppend(cc, s[1..], []);
      CollapseKeepsLast(cc, TrimStart(cc, s[1..]));
    } else if |s| > 1 {
      assert s[1..][|s| - 2] == s[|s| - 1];
      CollapseKeepsLast(cc, s[1..]);
    }
  }

  /** `re.sub(r'\s+', ' ', ...)` puts one blank in place of each whitespace
      run: the text before and after a maximal run collapses on its own,
      and the two results are joined by a single blank. */
  lemma {:induction false} CollapseReplacesRun(cc: CharClasses, u: string, w: string, v: string)
    requires cc.Valid()
    requires w != [] && forall i :: 0 <= i < |w| ==> cc.isSpace(w[i])
    requires u == [] || !cc.isSpace(u[|u| - 1])
    requires v == [] || !cc.isSpace(v[0])
    ensures CollapseRuns(cc, u + w + v) == CollapseRuns(cc, u) + [' '] + CollapseRuns(cc, v)
    decreases |u|
  {
    if u == [] {
      assert u + w + v == w + v;
      CollapseRunAtFront(cc, w, v);
    } else {
      var head, rest := CollapseStep(cc, u, w, v);
      CollapseReplacesRun(cc, rest, w, v);
      PrependJoin(head, CollapseRuns(cc, rest), ' ', CollapseRuns(cc, v));
    }
  }

  /** Regrouping a concatenation around one element. */
  lemma PrependJoin<T>(h: T, a: seq<T>, m: T, b: seq<T>)
    ensures [h] + (a + [m] + b) == [h] + a + [m] + b
  {
  }

  /** A leading whitespace run collapses to one blank. */
  lemma CollapseRunAtFront(cc: CharClasses, w: string, v: string)
    requires cc.Valid()
    requires w != [] && forall i :: 0 <= i < |w| ==> cc.isSpace(w[i])
    requires v == [] || !cc.isSpace(v[0])
    ensures CollapseRuns(cc, w + v) == [' '] + CollapseRuns(cc, v)
  {
    assert (w + v)[0] == w[0];
    assert (w + v)[1..] == w[1..] + v;
    forall i | 0 <= i < |w| - 1 ensures cc.isSpace(w[1..][i]) {
      assert w[1..][i] == w[i + 1];
    }
    TrimStartSkipsRun(cc, w[1..], v);
  }

  /** One step of `CollapseRuns` on a text `u` that ends with a
      non-whitespace character, with or without `w + v` after it: the step
      emits `head` and continues on `rest`, which is shorter than `u` and
      still ends the same way. */
  lemma CollapseStep(cc: CharClasses, u: string, w: string, v: string) returns (head: char, rest: string)
    requires cc.Valid()
    requires u != [] && !cc.isSpace(u[|u| - 1])
    ensures |rest| < |u| && (rest == [] || !cc.isSpace(rest[|rest| - 1]))
    ensures CollapseRuns(cc, u) == [head] + CollapseRuns(cc, rest)
    ensures CollapseRuns(cc, u + w + v) == [head] + CollapseRuns(cc, rest + w + v)
  {
    var x := w + v;
    assert u + w + v == u + x;
    assert (u + x)[0] == u[0];
    assert (u + x)[1..] == u[1..] + x;
    if |u| > 1 {
      assert u[1..][|u| - 2] == u[|u| - 1];
    }
    if cc.isSpace(u[0]) {
      TrimStartAppend(cc, u[1..], x);
      head, rest := ' ', TrimStart(cc, u[1..]);
    } else {
      head, rest := u[0], u[1..];
    }
    assert rest + x == rest + w + v;
  }

  /** The first substitution works character by character. */
  lemma ReplaceAppend(cc: CharClasses, a: string, b: string)
    ensures ReplaceSpecials(cc, a + b) == ReplaceSpecials(cc, a) + ReplaceSpecials(cc, b)
  {
    var l, r := ReplaceSpecials(cc, a + b), ReplaceSpecials(cc, a) + ReplaceSpecials(cc, b);
    forall i | 0 <= i < |l| ensures l[i] == r[i] {
      if i < |a| {
        assert (a + b)[i] == a[i];
      } else {
        assert (a + b)[i] == b[i - |a|];
      }
    }
  }

  /** Stripping text made of two pieces joined by a blank, where the pieces
      do not meet the blank with whitespace, strips each piece on its own. */
  lemma StripAroundBlank(cc: CharClasses, a: string, b: string)
    requires a != [] && !cc.isSpace(a[|a| - 1])
    requires b != [] && !cc.isSpace(b[0])
    ensures TrimEnd(cc, TrimStart(cc, a + [' '] + b))
         == TrimEnd(cc, TrimStart(cc, a)) + [' '] + TrimEnd(cc, TrimStart(cc, b))
  {
    assert a + [' '] + b == a + ([' '] + b);
    TrimStartAppend(cc, a, [' '] + b);
    var left := TrimStart(cc, a);
    assert left + ([' '] + b) == (left + [' ']) + b;
    TrimEndPrepend(cc, left + [' '], b);
  }

  /** `clean_text` keeps words apart: cleaning two pieces of text separated
      by a run of whitespace, or of characters the first substitution turns
      into blanks, gives the two cleaned pieces joined by one blank, when
      the pieces meet the run with a kept non-whitespace character. */
  lemma CleanJoinsAtRun(cc: CharClasses, u: string, w: string, v: string)
    requires cc.Valid()
    requires u != [] && Allowed(cc, u[|u| - 1]) && !cc.isSpace(u[|u| - 1])
    requires w != [] && forall i :: 0 <= i < |w| ==> cc.isSpace(w[i]) || !Allowed(cc, w[i])
    requires v != [] && Allowed(cc, v[0]) && !cc.isSpace(v[0])
    ensures Clean(cc, Str(u + w + v)) == Clean(cc, Str(u)) + " " + Clean(cc, Str(v))
  {
    ReplaceAppend(cc, u, w);
    ReplaceAppend(cc, u + w, v);
    var ru, rw, rv := ReplaceSpecials(cc, u), ReplaceSpecials(cc, w), ReplaceSpecials(cc, v);
    assert forall i :: 0 <= i < |rw| ==> cc.isSpace(rw[i]);
    assert ReplaceSpecials(cc, u + w + v) == ru + rw + rv;
    CollapseReplacesRun(cc, ru, rw, rv);
    CollapseKeepsLast(cc, ru);
    CollapseRunsForm(cc, rv);
    StripAroundBlank(cc, CollapseRuns(cc, ru), CollapseRuns(cc, rv));
  }

  /** Every character of a collapsed, replaced string is a blank or a
      non-whitespace member of the kept class. */
  lemma CollapsedCharsAllowed(cc: CharClasses, replaced: string)
    requires cc.Valid()
    requires forall i :: 0 <= i < |replaced| ==> Allowed(cc, replaced[i])
    ensures var c := CollapseRuns(cc, replaced);
      forall i :: 0 <= i < |c| ==>
        c[i] == ' ' || (!cc.isSpace(c[i]) && (cc.isWord(c[i]) || IsPunct(c[i])))
  {
    CollapseRunsShape(cc, replaced);
  }

  /** Stripping a string made of non-whitespace kept characters and single
      blanks gives a clean string. */
  lemma StrippedIsClean(cc: CharClasses, c: string)
    requires cc.Valid()
    requires forall i :: 0 <= i < |c| ==>
      c[i] == ' ' || (!cc.isSpace(c[i]) && (cc.isWord(c[i]) || IsPunct(c[i])))
    requires NoDoubleBlank(c)
    ensures IsClean(cc, TrimEnd(cc, TrimStart(cc, c)))
  {
    var r := TrimEnd(cc, TrimStart(cc, c));
    var off := StripIsSlice(cc, c);
    SliceKeepsShape(cc, c, off, off + |r|);
    if r != [] {
      assert r[0] != ' ' && r[|r| - 1] != ' ';
    }
  }

  /** `strip()` keeps a contiguous slice, starting at the returned offset,
      whose ends are not whitespace. */
  lemma StripIsSlice(cc: CharClasses, c: string) returns (off: nat)
    ensures var r := TrimEnd(cc, TrimStart(cc, c));
      && off + |r| <= |c|
      && r == c[off..off + |r|]
      && (r != [] ==> !cc.isSpace(r[0]) && !cc.isSpace(r[|r| - 1]))
  {
    var left := TrimStart(cc, c);
    var r := TrimEnd(cc, left);
    off := |c| - |left|;
    TrimStartShape(cc, c);
    TrimEndShape(cc, left);
    assert r == left[..|r|];
    if r != [] {
      assert r[0] == left[0];
    }
  }

  /** A contiguous slice keeps the per-character shape and the single blanks. */
  lemma SliceKeepsShape(cc: CharClasses, c: string, a: nat, b: nat)
    requires a <= b <= |c|
    requires forall i :: 0 <= i < |c| ==>
      c[i] == ' ' || (!cc.isSpace(c[i]) && (cc.isWord(c[i]) || IsPunct(c[i])))
    requires NoDoubleBlank(c)
    ensures var r := c[a..b];
      && (forall i :: 0 <= i < |r| ==>
            r[i] == ' ' || (!cc.isSpace(r[i]) && (cc.isWord(r[i]) || IsPunct(r[i]))))
      && NoDoubleBlank(r)
  {
    var r := c[a..b];
    forall i | 0 < i < |r| ensures !BlankPairAt(r, i) {
      assert !BlankPairAt(c, a + i);
    }
  }

  /** On a clean string the first substitution changes nothing. */
  lemma ReplaceFixesClean(cc: CharClasses, t: string)
    requires cc.Valid() && IsClean(cc, t)
    ensures ReplaceSpecials(cc, t) == t
  {
    assert forall i :: 0 <= i < |t| ==> Allowed(cc, t[i]);
  }

  /** On a string whose only whitespace is isolated blanks the second
      substitution changes nothing. */
  lemma {:induction false} CollapseFixesSingleBlanks(cc: CharClasses, t: string)
    requires cc.Valid()
    requires forall i :: 0 <= i < |t| ==> t[i] == ' ' || !cc.isSpace(t[i])
    requires NoDoubleBlank(t)
    ensures CollapseRuns(cc, t) == t
    decreases |t|
  {
    if t != [] {
      var rest := t[1..];
      TailKeepsSingleBlanks(cc, t);
      CollapseFixesSingleBlanks(cc, rest);
      if cc.isSpace(t[0]) {
        assert t[0] == ' ';
        if rest != [] {
          assert !BlankPairAt(t, 1);
          assert !cc.isSpace(rest[0]);
        }
        assert TrimStart(cc, rest) == rest;
      }
      assert t == [t[0]] + rest;
    }
  }

  /** Dropping the first character keeps a string whose only whitespace is
      isolated blanks one. */
  lemma TailKeepsSingleBlanks(cc: CharClasses, t: string)
    requires t != []
    requires forall i :: 0 <= i < |t| ==> t[i] == ' ' || !cc.isSpace(t[i])
    requires NoDoubleBlank(t)
    ensures var rest := t[1..];
      && (forall i :: 0 <= i < |rest| ==> rest[i] == ' ' || !cc.isSpace(rest[i]))
      && NoDoubleBlank(rest)
  {
    var rest := t[1..];
    forall i | 0 < i < |rest| ensures !BlankPairAt(rest, i) {
      assert !BlankPairAt(t, i + 1);
    }
    forall i | 0 <= i < |rest| ensures rest[i] == ' ' || !cc.isSpace(rest[i]) {
      assert rest[i] == t[i + 1];
    }
  }

  /** `clean_text` leaves a string unchanged exactly when that string is
      already clean. */
  lemma CleanFixesExactlyCleanText(cc: CharClasses, t: string)
    requires cc.Valid()
    ensures Clean(cc, Str(t)) == t <==> IsClean(cc, t)
  {
    CleanOutputIsClean(cc, Str(t));
    if IsClean(cc, t) {
      CleanFixesClean(cc, t);
    }
  }

  /** A clean string passes through all four steps of `clean_text` unchanged. */
  lemma CleanFixesClean(cc: CharClasses, t: string)
    requires cc.Valid() && IsClean(cc, t)
    ensures Clean(cc, Str(t)) == t
  {
    ReplaceFixesClean(cc, t);
    CollapseFixesSingleBlanks(cc, t);
    if t != [] {
      assert !cc.isSpace(t[0]) && !cc.isSpace(t[|t| - 1]);
    }
    assert TrimStart(cc, t) == t;
  }

  /** `clean_text` is idempotent. */
  lemma CleanIdempotent(cc: CharClasses, v: Value)
    requires cc.Valid()
    ensures Clean(cc, Str(Clean(cc, v))) == Clean(cc, v)
  {
    CleanOutputIsClean(cc, v);
    CleanFixesExactlyCleanText(cc, Clean(cc, v));
  }

  // ---- case mapping ------------------------------------------------------

  function LowerChar(c: char): char {
    if 'A' <= c <= 'Z' then (c as int + 32) as char else c
  }

  function UpperChar(c: char): char {
    if 'a' <= c <= 'z' then (c as int - 32) as char else c
  }

  /** `str.lower()`. */
  function Lower(s: string): (r: string)
    ensures |r| == |s|
  {
    seq(|s|, i requires 0 <= i < |s| => LowerChar(s[i]))
  }

  /** `str.capitalize()`: first character upper-cased, the rest lower-cased. */
  function Capitalize(s: string): (r: string)
    ensures |r| == |s|
  {
    if s == [] then [] else [UpperChar(s[0])] + Lower(s[1..])
  }

  /** An ASCII word with a capital first letter and lower-case letters
      after it is its own capitalization. */
  lemma CapitalizeFixesCapitalizedWord(s: string)
    requires s != [] && 'A' <= s[0] <= 'Z'
    requires forall i :: 1 <= i < |s| ==> 'a' <= s[i] <= 'z'
    ensures Capitalize(s) == s
  {
    assert Lower(s[1..]) == s[1..];
    assert s == [s[0]] + s[1..];
  }

  /** Against a name already in capitalized form, comparing the capitalized
      string is comparing both ignoring case. */
  lemma CapitalizeMatchesIgnoringCase(s: string, t: string)
    requires Capitalize(t) == t
    ensures Capitalize(s) == t <==> Lower(s) == Lower(t)
  {
    if |s| == |t| && s != [] {
      assert t[0] == UpperChar(t[0]);
      assert t[1..] == Lower(t[1..]);
      assert UpperChar(s[0]) == t[0] <==> LowerChar(s[0]) == LowerChar(t[0]);
      if Lower(s) == Lower(t) {
        assert Lower(s[1..]) == t[1..] by {
          forall i | 0 <= i < |t| - 1 ensures Lower(s[1..])[i] == t[1..][i] {
            assert Lower(s)[i + 1] == Lower(t)[i + 1];
          }
        }
        assert Lower(s)[0] == LowerChar(s[0]) && Lower(t)[0] == LowerChar(t[0]);
        assert UpperChar(s[0]) == t[0];
        assert t == [t[0]] + t[1..];
      }
      if Capitalize(s) == t {
        forall i | 0 <= i < |t| ensures Lower(s)[i] == Lower(t)[i] {
          if i > 0 {
            assert Lower(s[1..])[i - 1] == t[1..][i - 1];
          }
        }
      }
    }
  }
}
