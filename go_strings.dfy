/**
 * The parts of Go's `strings` package that the provider relies on:
 * `Fields` (split around runs of white space), `Split` with a one-character
 * separator, `Join`, and `Replace` with a negative count (replace every
 * non-overlapping occurrence, left to right). Strings are sequences of
 * characters; Go's byte-level UTF-8 handling is not modelled.
 */
module GoStrings {

  /** Go's `unicode.IsSpace`. */
  predicate IsSpace(c: char) {
    || c == ' ' || c == '\t' || c == '\n' || c == '\U{B}' || c == '\U{C}' || c == '\r'
    || c == '\U{85}' || c == '\U{A0}' || c == '\U{1680}'
    || ('\U{2000}' <= c <= '\U{200A}')
    || c == '\U{2028}' || c == '\U{2029}' || c == '\U{202F}' || c == '\U{205F}' || c == '\U{3000}'
  }

  predicate NoSpace(w: string) {
    forall i :: 0 <= i < |w| ==> !IsSpace(w[i])
  }

  /**
   * `strings.Fields`: the maximal runs of non-space characters, in order.
   * Every field is non-empty and free of white space.
   */
  function Fields(s: string): (r: seq<string>)
    ensures forall i :: 0 <= i < |r| ==> r[i] != [] && NoSpace(r[i])
    ensures s != [] && !IsSpace(s[0]) ==> r != [] && r[0] != [] && r[0][0] == s[0]
    decreases |s|
  {
    if s == [] then []
    else
      var rest := Fields(s[1..]);
      if IsSpace(s[0]) then rest
      else if |s| > 1 && !IsSpace(s[1]) then [[s[0]] + rest[0]] + rest[1..]
      else [[s[0]]] + rest
  }

  /** `strings.Join`. */
  function Join(parts: seq<string>, sep: string): string
    decreases |parts|
  {
    if |parts| == 0 then ""
    else if |parts| == 1 then parts[0]
    else parts[0] + sep + Join(parts[1..], sep)
  }

  /**
   * `strings.Split` with a one-character separator: the pieces between
   * consecutive separators. There is always at least one piece, and no
   * piece holds the separator.
   */
  function Split(s: string, sep: char): (r: seq<string>)
    ensures |r| >= 1
    ensures forall i :: 0 <= i < |r| ==> sep !in r[i]
    decreases |s|
  {
    if s == [] then [""]
    else
      var rest := Split(s[1..], sep);
      if s[0] == sep then [""] + rest
      else [[s[0]] + rest[0]] + rest[1..]
  }

  function Count(s: string, c: char): nat
    decreases |s|
  {
    if s == [] then 0 else (if s[0] == c then 1 else 0) + Count(s[1..], c)
  }

  predicate OccursAt(s: string, pat: string, i: int) {
    0 <= i && i + |pat| <= |s| && s[i..i + |pat|] == pat
  }

  predicate Contains(s: string, pat: string) {
    exists i :: 0 <= i <= |s| && OccursAt(s, pat, i)
  }

  /**
   * `strings.Replace(s, pat, rep, -1)`: scanning left to right, each
   * occurrence of `pat` is replaced by `rep` and the scan resumes after
   * it, so replaced text is never scanned again. An empty `pat` matches
   * before every character and at the end.
   */
  function Replace(s: string, pat: string, rep: string): string
    decreases |s|
  {
    if pat == [] then
      if s == [] then rep else rep + [s[0]] + Replace(s[1..], pat, rep)
    else if |s| < |pat| then s
    else if s[..|pat|] == pat then rep + Replace(s[|pat|..], pat, rep)
    else [s[0]] + Replace(s[1..], pat, rep)
  }

  // ---------------------------------------------------------------------
  // Join and its inverses
  // ---------------------------------------------------------------------

  lemma JoinCons(w: string, rest: seq<string>, sep: string)
    requires rest != []
    ensures Join([w] + rest, sep) == w + sep + Join(rest, sep)
  {
    assert ([w] + rest)[1..] == rest;
  }

  /** Splitting and joining again with the same separator gives back `s`. */
  lemma {:induction false} JoinOfSplit(s: string, sep: char)
    ensures Join(Split(s, sep), [sep]) == s
    decreases |s|
  {
    if s != [] {
      var rest := Split(s[1..], sep);
      JoinOfSplit(s[1..], sep);
      if s[0] == sep {
        JoinCons("", rest, [sep]);
      } else if |rest| == 1 {
        assert Split(s, sep) == [[s[0]] + rest[0]];
      } else {
        JoinCons(rest[0], rest[1..], [sep]);
        assert rest == [rest[0]] + rest[1..];
        JoinCons([s[0]] + rest[0], rest[1..], [sep]);
        assert Split(s, sep) == [[s[0]] + rest[0]] + rest[1..];
      }
    }
  }

  lemma {:induction false} SplitAfterWord(w: string, t: string, sep: char)
    requires sep !in w
    ensures Split(w + t, sep) == [w + Split(t, sep)[0]] + Split(t, sep)[1..]
    decreases |w|
  {
    if w == [] {
      assert w + t == t;
      var tail := Split(t, sep);
      assert tail == [tail[0]] + tail[1..];
      assert w + tail[0] == tail[0];
    } else {
      var s := w + t;
      var tail := Split(t, sep);
      assert s[0] == w[0] != sep;
      assert s[1..] == w[1..] + t;
      SplitAfterWord(w[1..], t, sep);
      var rest := Split(s[1..], sep);
      assert rest == [w[1..] + tail[0]] + tail[1..];
      assert Split(s, sep) == [[s[0]] + rest[0]] + rest[1..];
      assert [w[0]] + (w[1..] + tail[0]) == w + tail[0];
    }
  }

  /** Joining separator-free pieces and splitting again gives back the pieces. */
  lemma {:induction false} SplitOfJoin(parts: seq<string>, sep: char)
    requires |parts| >= 1
    requires forall i :: 0 <= i < |parts| ==> sep !in parts[i]
    ensures Split(Join(parts, [sep]), sep) == parts
    decreases |parts|
  {
    var w := parts[0];
    if |parts| == 1 {
      SplitAfterWord(w, "", sep);
      assert w + "" == w;
    } else {
      var rest := parts[1..];
      var t := Join(rest, [sep]);
      SplitOfJoin(rest, sep);
      assert Join(parts, [sep]) == w + ([sep] + t);
      SplitAfterWord(w, [sep] + t, sep);
      assert ([sep] + t)[1..] == t;
      assert Split([sep] + t, sep) == [""] + Split(t, sep);
      assert w + "" == w;
      assert parts == [w] + rest;
    }
  }

  /** There is one more piece than there are separators. */
  lemma {:induction false} SplitLength(s: string, sep: char)
    ensures |Split(s, sep)| == Count(s, sep) + 1
    decreases |s|
  {
    if s != [] {
      SplitLength(s[1..], sep);
    }
  }

  /** The first piece is everything before the first separator. */
  lemma {:induction false} SplitFirstPiece(s: string, sep: char)
    ensures Split(s, sep)[0] <= s
    ensures sep in s ==> |Split(s, sep)[0]| < |s| && s[|Split(s, sep)[0]|] == sep
    ensures sep !in s ==> Split(s, sep)[0] == s
    decreases |s|
  {
    if s != [] && s[0] != sep {
      SplitFirstPiece(s[1..], sep);
      assert sep in s ==> sep in s[1..];
    }
  }

  lemma {:induction false} FieldsAfterWord(w: string, t: string)
    requires w != [] && NoSpace(w)
    ensures Fields(w + [' '] + t) == [w] + Fields(t)
    decreases |w|
  {
    var s := w + [' '] + t;
    if |w| == 1 {
      assert s[1..] == [' '] + t;
      assert ([' '] + t)[1..] == t;
      assert w == [s[0]];
    } else {
      assert !IsSpace(s[1]);
      assert s[1..] == w[1..] + [' '] + t;
      FieldsAfterWord(w[1..], t);
      assert [s[0]] + w[1..] == w;
    }
  }

  /**
   * Joining non-empty, space-free words with single spaces and taking the
   * fields again gives back the words.
   */
  lemma {:induction false} FieldsOfJoin(words: seq<string>)
    requires forall i :: 0 <= i < |words| ==> words[i] != [] && NoSpace(words[i])
    ensures Fields(Join(words, " ")) == words
    decreases |words|
  {
    if |words| == 1 {
      FieldsOfWord(words[0]);
    } else if |words| > 1 {
      FieldsOfJoin(words[1..]);
      FieldsAfterWord(words[0], Join(words[1..], " "));
      assert words == [words[0]] + words[1..];
    }
  }

  lemma {:induction false} FieldsOfWord(w: string)
    requires w != [] && NoSpace(w)
    ensures Fields(w) == [w]
    decreases |w|
  {
    if |w| == 1 {
      assert w == [w[0]];
    } else {
      assert !IsSpace(w[1]);
      FieldsOfWord(w[1..]);
      assert [w[0]] + w[1..] == w;
    }
  }

  /** A run of white space, possibly empty. */
  predicate AllSpace(g: string) {
    forall i :: 0 <= i < |g| ==> IsSpace(g[i])
  }

  /** Leading white space produces no field. */
  lemma {:induction false} FieldsSkipsGap(g: string, t: string)
    requires AllSpace(g)
    ensures Fields(g + t) == Fields(t)
    decreases |g|
  {
    if g != [] {
      assert (g + t)[1..] == g[1..] + t;
      FieldsSkipsGap(g[1..], t);
    } else {
      assert g + t == t;
    }
  }

  /** A word ends at the first white-space character after it. */
  lemma {:induction false} FieldsAfterWordGap(w: string, s: string)
    requires w != [] && NoSpace(w)
    requires s != [] && IsSpace(s[0])
    ensures Fields(w + s) == [w] + Fields(s)
    decreases |w|
  {
    var ws := w + s;
    if |w| == 1 {
      assert ws[1..] == s;
      assert w == [ws[0]];
    } else {
      assert !IsSpace(ws[1]);
      assert ws[1..] == w[1..] + s;
      FieldsAfterWordGap(w[1..], s);
      assert [ws[0]] + w[1..] == w;
    }
  }

  /**
   * `gaps[0] + words[0] + gaps[1] + ... + words[n-1] + gaps[n]`: words with
   * runs of white space before, between and after them.
   */
  function Interleave(gaps: seq<string>, words: seq<string>): string
    requires |gaps| == |words| + 1
    decreases |words|
  {
    if words == [] then gaps[0]
    else gaps[0] + words[0] + Interleave(gaps[1..], words[1..])
  }

  /**
   * `strings.Fields` returns exactly the maximal runs of non-white-space
   * characters: for non-empty white-space-free words separated by
   * non-empty runs of white space, with optional white space at both ends,
   * the fields are the words.
   */
  lemma {:induction false} FieldsOfInterleave(gaps: seq<string>, words: seq<string>)
    requires |gaps| == |words| + 1
    requires forall i :: 0 <= i < |words| ==> words[i] != [] && NoSpace(words[i])
    requires forall i :: 0 <= i < |gaps| ==> AllSpace(gaps[i])
    requires forall i :: 0 < i < |words| ==> gaps[i] != []
    ensures Fields(Interleave(gaps, words)) == words
    decreases |words|
  {
    if words == [] {
      FieldsSkipsGap(gaps[0], "");
      assert gaps[0] + "" == gaps[0];
    } else {
      var rest := Interleave(gaps[1..], words[1..]);
      FieldsOfInterleave(gaps[1..], words[1..]);
      FieldsOfGapWordRest(gaps[0], words[0], rest);
      if |words| > 1 {
        InterleaveStartsWithGap(gaps[1..], words[1..]);
      }
      assert words == [words[0]] + words[1..];
    }
  }

  /** One step of FieldsOfInterleave: a gap, a word, then text that is empty or starts with white space. */
  lemma FieldsOfGapWordRest(g: string, w: string, rest: string)
    requires AllSpace(g) && w != [] && NoSpace(w)
    requires AllSpace(rest) || (rest != [] && IsSpace(rest[0]))
    ensures Fields(g + w + rest) == [w] + Fields(rest)
  {
    assert g + w + rest == g + (w + rest);
    FieldsSkipsGap(g, w + rest);
    if rest == [] {
      assert w + rest == w;
      FieldsOfWord(w);
    } else {
      FieldsAfterWordGap(w, rest);
    }
  }

  /** An interleaving whose first gap is non-empty starts with white space. */
  lemma InterleaveStartsWithGap(gaps: seq<string>, words: seq<string>)
    requires |gaps| == |words| + 1
    requires gaps[0] != [] && AllSpace(gaps[0])
    ensures Interleave(gaps, words) != [] && IsSpace(Interleave(gaps, words)[0])
  {
    if words != [] {
      assert Interleave(gaps, words) == gaps[0] + (words[0] + Interleave(gaps[1..], words[1..]));
    }
  }

  // ---------------------------------------------------------------------
  // Replace
  // ---------------------------------------------------------------------

  /**
   * When no occurrence of `pat` starts inside `p`, Replace copies `p`
   * unchanged and continues with `x`.
   */
  lemma {:induction false} ReplaceSkipsPrefix(p: string, x: string, pat: string, rep: string)
    requires pat != []
    requires forall i :: 0 <= i < |p| ==> !OccursAt(p + x, pat, i)
    ensures Replace(p + x, pat, rep) == p + Replace(x, pat, rep)
    decreases |p|
  {
    var s := p + x;
    if p == [] {
      assert s == x;
    } else if |s| < |pat| {
      assert Replace(x, pat, rep) == x;
    } else {
      assert !OccursAt(s, pat, 0);
      assert s[..|pat|] != pat;
      assert s[1..] == p[1..] + x;
      forall i | 0 <= i < |p| - 1
        ensures !OccursAt(p[1..] + x, pat, i)
      {
        OccursAtTail(s, pat, i);
      }
      ReplaceSkipsPrefix(p[1..], x, pat, rep);
      assert Replace(s, pat, rep) == [s[0]] + Replace(p[1..] + x, pat, rep);
      assert [s[0]] + p[1..] == p;
    }
  }

  /** An occurrence in the tail of `s` is an occurrence in `s` one position later. */
  lemma OccursAtTail(s: string, pat: string, i: nat)
    requires s != []
    ensures OccursAt(s[1..], pat, i) <==> OccursAt(s, pat, i + 1)
  {
    if i + |pat| <= |s[1..]| {
      assert s[1..][i..i + |pat|] == s[i + 1..i + 1 + |pat|];
    }
  }

  /** A string without any occurrence of `pat` is left unchanged. */
  lemma ReplaceAbsent(s: string, pat: string, rep: string)
    requires pat != []
    requires !Contains(s, pat)
    ensures Replace(s, pat, rep) == s
  {
    assert s + "" == s;
    ReplaceSkipsPrefix(s, "", pat, rep);
  }

  /**
   * A pattern whose first character does not recur in it cannot overlap a
   * following copy of itself; for such a pattern, replacing in a string
   * built by joining pattern-free pieces with the pattern gives the pieces
   * joined with the replacement. In particular the replacement text is
   * never itself replaced, whatever it contains.
   */
  lemma {:induction false} ReplaceOfJoin(pieces: seq<string>, pat: string, rep: string)
    requires pat != [] && pat[0] !in pat[1..]
    requires |pieces| >= 1
    requires forall q :: q in pieces ==> !Contains(q, pat)
    ensures Replace(Join(pieces, pat), pat, rep) == Join(pieces, rep)
    decreases |pieces|
  {
    var q := pieces[0];
    if |pieces| == 1 {
      ReplaceAbsent(q, pat, rep);
    } else {
      var rest := pieces[1..];
      var j := Join(rest, pat);
      var x := pat + j;
      assert Join(pieces, pat) == q + x;
      assert q in pieces;
      assert x[..|pat|] == pat;
      NoOccurrenceBeforePattern(q, x, pat);
      ReplaceSkipsPrefix(q, x, pat, rep);
      assert x[|pat|..] == j;
      ReplaceOfJoin(rest, pat, rep);
      assert Join(pieces, rep) == q + rep + Join(rest, rep);
    }
  }

  /**
   * For a pattern that cannot overlap itself, no occurrence starts inside a
   * pattern-free piece that the pattern follows.
   */
  lemma NoOccurrenceBeforePattern(q: string, x: string, pat: string)
    requires pat != [] && pat[0] !in pat[1..]
    requires !Contains(q, pat)
    requires |pat| <= |x| && x[..|pat|] == pat
    ensures forall i :: 0 <= i < |q| ==> !OccursAt(q + x, pat, i)
  {
    forall i | 0 <= i < |q|
      ensures !OccursAt(q + x, pat, i)
    {
      if i + |pat| <= |q| {
        assert (q + x)[i..i + |pat|] == q[i..i + |pat|];
        assert !OccursAt(q, pat, i);
      } else if i + |pat| <= |q + x| {
        var k := |q| - i;
        assert pat[1..][k - 1] == pat[k];
        assert pat[k] != pat[0];
        assert (q + x)[i..i + |pat|][k] == x[0] == pat[0];
      }
    }
  }
}
