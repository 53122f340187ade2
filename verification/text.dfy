/** Text handling behind every similarity comparison of the merge script:
    `normalize_text` (delete LaTeX braces and backslashes, collapse whitespace
    runs, lower-case, strip), plus the whitespace splitting and substring test
    that the book/chapter rule uses. Strings are sequences of characters;
    Python's lone surrogate code points are not modelled. */
module Text {

  /** Python's `str.isspace`, which is also what the `\s` class of `re`
      matches on a str pattern. */
  predicate IsSpace(c: char) {
    || ('\t' <= c <= '\r')
    || ('\U{1C}' <= c <= '\U{1F}')
    || c == ' '
    || c == '\U{85}' || c == '\U{A0}' || c == '\U{1680}'
    || ('\U{2000}' <= c <= '\U{200A}')
    || c == '\U{2028}' || c == '\U{2029}' || c == '\U{202F}'
    || c == '\U{205F}' || c == '\U{3000}'
  }

  /** The characters the `[\\{}]` pattern deletes. */
  predicate IsLatexSpecial(c: char) {
    c == '\\' || c == '{' || c == '}'
  }

  predicate IsAsciiUpper(c: char) {
    'A' <= c <= 'Z'
  }

  predicate AllSpace(s: string) {
    forall i :: 0 <= i < |s| ==> IsSpace(s[i])
  }

  /** A string that carries no text once LaTeX markup and whitespace are gone. */
  predicate Blank(s: string) {
    forall i :: 0 <= i < |s| ==> IsLatexSpecial(s[i]) || IsSpace(s[i])
  }

  /** No two whitespace characters stand next to each other. */
  ghost predicate NoDoubleSpace(s: string) {
    forall i, j :: 0 <= i && j == i + 1 && j < |s| ==> !IsSpace(s[i]) || !IsSpace(s[j])
  }

  /** The shape of every `normalize_text` result: no LaTeX markup, no ASCII
      capitals, every whitespace character a plain space, never two
      whitespace characters in a row, none at either end. */
  ghost predicate IsNormalized(s: string) {
    && Clean(s)
    && (s == [] || (!IsSpace(s[0]) && !IsSpace(s[|s| - 1])))
  }

  /** Every whitespace character is a plain space. */
  predicate SpacesArePlain(s: string) {
    forall i :: 0 <= i < |s| && IsSpace(s[i]) ==> s[i] == ' '
  }

  /** `IsNormalized` without the condition on the two ends. */
  ghost predicate Clean(s: string) {
    && (forall i :: 0 <= i < |s| ==> !IsLatexSpecial(s[i]) && !IsAsciiUpper(s[i]))
    && SpacesArePlain(s)
    && NoDoubleSpace(s)
  }

  /** `re.sub(r'[\\{}]', '', s)` */
  function RemoveLatex(s: string): (r: string)
    ensures forall i :: 0 <= i < |r| ==> !IsLatexSpecial(r[i])
    ensures forall i :: 0 <= i < |r| ==> r[i] in s
    ensures (forall i :: 0 <= i < |s| ==> !IsLatexSpecial(s[i])) ==> r == s
  {
    if s == [] then []
    else if IsLatexSpecial(s[0]) then RemoveLatex(s[1..])
    else [s[0]] + RemoveLatex(s[1..])
  }

  /** Exactly the `\`, `{` and `}` characters are deleted: every other
      character occurs as often in the result as in the input. */
  lemma {:induction false} RemoveLatexCounts(s: string)
    ensures forall c :: multiset(RemoveLatex(s))[c] == if IsLatexSpecial(c) then 0 else multiset(s)[c]
    decreases |s|
  {
    if s != [] {
      RemoveLatexCounts(s[1..]);
      assert s == [s[0]] + s[1..];
    }
  }

  /** The deletion works character by character: it distributes over
      concatenation, so the surviving characters keep their order. */
  lemma {:induction false} RemoveLatexConcat(a: string, b: string)
    ensures RemoveLatex(a + b) == RemoveLatex(a) + RemoveLatex(b)
    decreases |a|
  {
    if a != [] {
      assert (a + b)[0] == a[0];
      assert (a + b)[1..] == a[1..] + b;
      RemoveLatexConcat(a[1..], b);
    } else {
      assert a + b == b;
    }
  }

  /** The number of whitespace characters `s` starts with (what `lstrip()`
      removes). */
  function LeadingSpaces(s: string): (n: nat)
    ensures n <= |s|
    ensures forall i :: 0 <= i < n ==> IsSpace(s[i])
    ensures n == |s| || !IsSpace(s[n])
  {
    if s != [] && IsSpace(s[0]) then 1 + LeadingSpaces(s[1..]) else 0
  }

  /** The number of whitespace characters `s` ends with (what `rstrip()`
      removes). */
  function TrailingSpaces(s: string): (n: nat)
    ensures n <= |s|
    ensures forall i :: |s| - n <= i < |s| ==> IsSpace(s[i])
    ensures n == |s| || !IsSpace(s[|s| - n - 1])
  {
    if s != [] && IsSpace(s[|s| - 1]) then 1 + TrailingSpaces(s[..|s| - 1]) else 0
  }

  /** The length of the whitespace-free run `s` starts with. */
  function WordLength(s: string): (n: nat)
    ensures n <= |s|
    ensures forall i :: 0 <= i < n ==> !IsSpace(s[i])
    ensures n == |s| || IsSpace(s[n])
  {
    if s != [] && !IsSpace(s[0]) then 1 + WordLength(s[1..]) else 0
  }

  /** Python's `strip()`: the one contiguous piece of `s` that starts and ends
      with a non-whitespace character and has only whitespace around it. */
  function Strip(s: string): (r: string)
    ensures LeadingSpaces(s) + |r| <= |s|
    ensures r == s[LeadingSpaces(s)..LeadingSpaces(s) + |r|]
    ensures forall i :: 0 <= i < |s| && !(LeadingSpaces(s) <= i < LeadingSpaces(s) + |r|) ==> IsSpace(s[i])
    ensures r == [] || (!IsSpace(r[0]) && !IsSpace(r[|r| - 1]))
    ensures r == [] <==> AllSpace(s)
  {
    var a := LeadingSpaces(s);
    var b := if a == |s| then |s| else |s| - TrailingSpaces(s);
    s[a..b]
  }

  /** `re.sub(r'\s+', ' ', s)`: every maximal whitespace run becomes one space. */
  function CollapseSpaces(s: string): (r: string)
    ensures r == [] <==> s == []
    ensures r != [] ==> (IsSpace(r[0]) <==> IsSpace(s[0]))
    ensures SpacesArePlain(r)
    ensures NoDoubleSpace(r)
    ensures forall i :: 0 <= i < |r| && !IsSpace(r[i]) ==> r[i] in s
    decreases |s|
  {
    if s == [] then []
    else if IsSpace(s[0]) then [' '] + CollapseSpaces(s[LeadingSpaces(s)..])
    else [s[0]] + CollapseSpaces(s[1..])
  }

  /** Lower-casing of one character (ASCII letters only). */
  function LowerChar(c: char): (d: char)
    ensures !IsAsciiUpper(d)
    ensures IsSpace(d) <==> IsSpace(c)
    ensures IsLatexSpecial(d) <==> IsLatexSpecial(c)
    ensures !IsAsciiUpper(c) ==> d == c
  {
    if IsAsciiUpper(c) then (c as int + 32) as char else c
  }

  /** `s.lower()` */
  function Lower(s: string): (r: string)
    ensures |r| == |s|
    ensures forall i :: 0 <= i < |s| ==> r[i] == LowerChar(s[i])
  {
    seq(|s|, i requires 0 <= i < |s| => LowerChar(s[i]))
  }

  /** `normalize_text` (merge.py): the key every comparison is made on. */
  function Normalize(s: string): (r: string)
    ensures IsNormalized(r)
    ensures r == [] <==> Blank(s)
  {
    if s == [] then []
    else
      PipelineNormalized(s);
      Strip(Lower(CollapseSpaces(RemoveLatex(s))))
  }

  lemma {:induction false} RemoveLatexBlank(s: string)
    ensures AllSpace(RemoveLatex(s)) <==> Blank(s)
  {
    if s != [] {
      RemoveLatexBlank(s[1..]);
      var r := RemoveLatex(s[1..]);
      if IsLatexSpecial(s[0]) {
        assert Blank(s) <==> Blank(s[1..]) by {
          assert forall i :: 1 <= i < |s| ==> s[i] == s[1..][i - 1];
        }
      } else {
        assert RemoveLatex(s) == [s[0]] + r;
        var x := [s[0]] + r;
        assert x[0] == s[0];
        assert forall i :: 0 <= i < |r| ==> x[i + 1] == r[i];
        assert AllSpace(x) <==> IsSpace(s[0]) && AllSpace(r);
        assert Blank(s) <==> IsSpace(s[0]) && Blank(s[1..]) by {
          assert forall i :: 1 <= i < |s| ==> s[i] == s[1..][i - 1];
        }
      }
    }
  }

  lemma CollapseAllSpace(s: string)
    ensures AllSpace(CollapseSpaces(s)) <==> AllSpace(s)
  {
    var r := CollapseSpaces(s);
    if s != [] {
      if IsSpace(s[0]) {
        var a := LeadingSpaces(s);
        var t := s[a..];
        assert r == [' '] + CollapseSpaces(t);
        if a == |s| {
          assert t == [];
          assert AllSpace(s);
        } else {
          assert t[0] == s[a];
          assert !IsSpace(r[1]);
        }
      } else {
        assert !IsSpace(r[0]);
      }
    }
  }

  lemma CleanSlice(u: string, a: nat, b: nat)
    requires Clean(u) && a <= b <= |u|
    ensures Clean(u[a..b])
  {
    var r := u[a..b];
    assert forall i :: 0 <= i < |r| ==> r[i] == u[a + i];
  }

  lemma CleanLower(b: string)
    requires SpacesArePlain(b) && NoDoubleSpace(b)
    requires forall i :: 0 <= i < |b| && !IsSpace(b[i]) ==> !IsLatexSpecial(b[i])
    ensures Clean(Lower(b))
  {
    var u := Lower(b);
    assert forall i :: 0 <= i < |u| ==> (IsSpace(u[i]) <==> IsSpace(b[i]));
    assert forall i :: 0 <= i < |u| && IsSpace(b[i]) ==> u[i] == ' ';
  }

  lemma CollapseOfClean(a: string)
    requires forall i :: 0 <= i < |a| ==> !IsLatexSpecial(a[i])
    ensures forall i :: 0 <= i < |CollapseSpaces(a)| && !IsSpace(CollapseSpaces(a)[i]) ==> !IsLatexSpecial(CollapseSpaces(a)[i])
  {
    var b := CollapseSpaces(a);
    forall i | 0 <= i < |b| && !IsSpace(b[i])
      ensures !IsLatexSpecial(b[i])
    {
      assert b[i] in a;
    }
  }

  lemma LowerKeepsAllSpace(b: string)
    ensures AllSpace(Lower(b)) <==> AllSpace(b)
  {
    var u := Lower(b);
    assert forall i :: 0 <= i < |u| ==> (IsSpace(u[i]) <==> IsSpace(b[i]));
  }

  lemma StripClean(u: string)
    requires Clean(u)
    ensures IsNormalized(Strip(u))
  {
    var r := Strip(u);
    CleanSlice(u, LeadingSpaces(u), LeadingSpaces(u) + |r|);
  }

  lemma PipelineNormalized(s: string)
    ensures IsNormalized(Strip(Lower(CollapseSpaces(RemoveLatex(s)))))
    ensures Strip(Lower(CollapseSpaces(RemoveLatex(s)))) == [] <==> Blank(s)
  {
    var a := RemoveLatex(s);
    var b := CollapseSpaces(a);
    CollapseOfClean(a);
    CleanLower(b);
    StripClean(Lower(b));
    LowerKeepsAllSpace(b);
    CollapseAllSpace(a);
    RemoveLatexBlank(s);
  }

  /** A normalized string is left unchanged by `normalize_text`. */
  lemma {:induction false} NormalizeFixpoint(s: string)
    requires IsNormalized(s)
    ensures Normalize(s) == s
  {
    if s != [] {
      assert RemoveLatex(s) == s;
      CollapseFixpoint(s);
      assert Lower(s) == s;
      assert LeadingSpaces(s) == 0;
      assert TrailingSpaces(s) == 0;
      assert s[0..|s|] == s;
    }
  }

  lemma {:induction false} CollapseFixpoint(s: string)
    requires SpacesArePlain(s)
    requires NoDoubleSpace(s)
    ensures CollapseSpaces(s) == s
    decreases |s|
  {
    if s != [] {
      var t := s[1..];
      assert forall i :: 0 <= i < |t| ==> t[i] == s[i + 1];
      CollapseFixpoint(t);
      if IsSpace(s[0]) {
        assert t == [] || !IsSpace(t[0]);
        assert LeadingSpaces(t) == 0;
        assert LeadingSpaces(s) == 1;
        assert s == [' '] + t;
      } else {
        assert s == [s[0]] + t;
      }
    }
  }

  /** `normalize_text` is idempotent. */
  lemma NormalizeIdempotent(s: string)
    ensures Normalize(Normalize(s)) == Normalize(s)
  {
    NormalizeFixpoint(Normalize(s));
  }

  /** The strings `normalize_text` returns are exactly the normalized ones. */
  lemma NormalizeImage(s: string)
    ensures Normalize(s) == s <==> IsNormalized(s)
  {
    if IsNormalized(s) {
      NormalizeFixpoint(s);
    }
  }

  // ---------------------------------------------------------------------------
  // Splitting on whitespace and substring tests
  // ---------------------------------------------------------------------------

  /** `s.split()` with no separator: the maximal whitespace-free pieces. */
  function Words(s: string): (ws: seq<string>)
    ensures forall k :: 0 <= k < |ws| ==> ws[k] != []
    ensures forall k, i :: 0 <= k < |ws| && 0 <= i < |ws[k]| ==> !IsSpace(ws[k][i])
    decreases |s|
  {
    if s == [] then []
    else if IsSpace(s[0]) then Words(s[1..])
    else
      var n := WordLength(s);
      [s[..n]] + Words(s[n..])
  }

  /** `' '.join(ws)` */
  function JoinWords(ws: seq<string>): string {
    if ws == [] then []
    else if |ws| == 1 then ws[0]
    else ws[0] + [' '] + JoinWords(ws[1..])
  }

  lemma SplitAround(s: string, k: nat)
    requires k < |s|
    ensures s == s[..k] + [s[k]] + s[k + 1..]
  {
  }

  lemma NormalizedSuffix(s: string, k: nat)
    requires IsNormalized(s)
    requires k < |s| && !IsSpace(s[k])
    ensures IsNormalized(s[k..])
  {
    CleanSlice(s, k, |s|);
  }

  /** Splitting a normalized string and joining the words with single spaces
      gives the string back. */
  lemma {:induction false} WordsJoinRoundTrip(s: string)
    requires IsNormalized(s)
    ensures JoinWords(Words(s)) == s
    decreases |s|
  {
    if s != [] {
      var b := WordLength(s);
      var w := s[..b];
      assert Words(s) == [w] + Words(s[b..]);
      if b == |s| {
        assert s[b..] == [];
        assert w == s;
      } else {
        assert s[b] == ' ';
        assert b + 1 < |s|;
        var rest := s[b..];
        var tail := s[b + 1..];
        assert rest[1..] == tail;
        assert Words(rest) == Words(tail);
        NormalizedSuffix(s, b + 1);
        WordsJoinRoundTrip(tail);
        assert Words(tail) != [];
        assert JoinWords(Words(s)) == w + [' '] + tail;
        SplitAround(s, b);
      }
    }
  }

  predicate IsPrefix(w: string, s: string) {
    |w| <= |s| && s[..|w|] == w
  }

  /** Python's `w in s` for two strings. */
  predicate IsSubstring(w: string, s: string) {
    exists i :: 0 <= i <= |s| && IsPrefix(w, s[i..])
  }

  lemma PrefixIsSubstring(w: string, s: string)
    requires IsPrefix(w, s)
    ensures IsSubstring(w, s)
  {
    assert s[0..] == s;
  }

  lemma SubstringOfSuffix(w: string, s: string, k: nat)
    requires k <= |s| && IsSubstring(w, s[k..])
    ensures IsSubstring(w, s)
  {
    var i :| 0 <= i <= |s[k..]| && IsPrefix(w, s[k..][i..]);
    assert s[k..][i..] == s[k + i..];
  }

  /** Containment of strings is transitive. */
  lemma SubstringTransitive(a: string, b: string, c: string)
    requires IsSubstring(a, b) && IsSubstring(b, c)
    ensures IsSubstring(a, c)
  {
    var i :| 0 <= i <= |b| && IsPrefix(a, b[i..]);
    var j :| 0 <= j <= |c| && IsPrefix(b, c[j..]);
    var tail := c[j + i..];
    assert tail[..|a|] == b[i..][..|a|] by {
      assert c[j..][..|b|] == b;
      assert forall k :: 0 <= k < |a| ==> tail[k] == b[i + k];
    }
    assert IsPrefix(a, c[j + i..]);
  }

  lemma SubstringsOfSuffix(ws: seq<string>, s: string, k: nat, suffix: string)
    requires k <= |s| && suffix == s[k..]
    requires forall x :: x in ws ==> IsSubstring(x, suffix)
    ensures forall x :: x in ws ==> IsSubstring(x, s)
  {
    forall x | x in ws
      ensures IsSubstring(x, s)
    {
      SubstringOfSuffix(x, s, k);
    }
  }

  /** Every word `split()` returns occurs in the string it came from. */
  lemma {:induction false} WordsAreSubstrings(s: string)
    ensures forall w :: w in Words(s) ==> IsSubstring(w, s)
    decreases |s|
  {
    if s != [] {
      if IsSpace(s[0]) {
        WordsAreSubstrings(s[1..]);
        SubstringsOfSuffix(Words(s[1..]), s, 1, s[1..]);
      } else {
        var n := WordLength(s);
        var w := s[..n];
        var rest := s[n..];
        assert Words(s) == [w] + Words(rest);
        PrefixIsSubstring(w, s);
        WordsAreSubstrings(rest);
        SubstringsOfSuffix(Words(rest), s, n, rest);
      }
    }
  }

  // ---------------------------------------------------------------------------
  // normalize_text as split and join
  // ---------------------------------------------------------------------------

  /** Whitespace in front of a string adds no word. */
  lemma {:induction false} WordsAfterSpace(sp: string, t: string)
    requires AllSpace(sp)
    ensures Words(sp + t) == Words(t)
    decreases |sp|
  {
    if sp != [] {
      assert (sp + t)[1..] == sp[1..] + t;
      WordsAfterSpace(sp[1..], t);
    } else {
      assert sp + t == t;
    }
  }

  lemma {:induction false} WordLengthOfWord(w: string, y: string)
    requires forall i :: 0 <= i < |w| ==> !IsSpace(w[i])
    requires y == [] || IsSpace(y[0])
    ensures WordLength(w + y) == |w|
    decreases |w|
  {
    if w != [] {
      assert (w + y)[1..] == w[1..] + y;
      WordLengthOfWord(w[1..], y);
    } else {
      assert w + y == y;
    }
  }

  /** A word followed by nothing or by whitespace is split off whole. */
  lemma WordThen(w: string, y: string)
    requires w != [] && forall i :: 0 <= i < |w| ==> !IsSpace(w[i])
    requires y == [] || IsSpace(y[0])
    ensures Words(w + y) == [w] + Words(y)
  {
    WordLengthOfWord(w, y);
    assert (w + y)[..|w|] == w;
    assert (w + y)[|w|..] == y;
  }

  /** Whitespace at the end of a string adds no word. */
  lemma {:induction false} WordsBeforeSpace(t: string, sp: string)
    requires AllSpace(sp)
    ensures Words(t + sp) == Words(t)
    decreases |t|
  {
    if t == [] {
      assert t + sp == sp + [];
      WordsAfterSpace(sp, []);
    } else if IsSpace(t[0]) {
      assert (t + sp)[1..] == t[1..] + sp;
      WordsBeforeSpace(t[1..], sp);
    } else {
      var n := WordLength(t);
      var w := t[..n];
      var y := t[n..];
      assert t + sp == w + (y + sp);
      WordThen(w, y + sp);
      WordsBeforeSpace(y, sp);
    }
  }

  /** `strip()` removes no word. */
  lemma WordsOfStrip(t: string)
    ensures Words(Strip(t)) == Words(t)
  {
    var front, back := StripSplit(t);
    WordsAround(front, Strip(t), back);
  }

  /** `strip()` cuts its input into whitespace, the result, whitespace. */
  lemma StripSplit(t: string) returns (front: string, back: string)
    ensures AllSpace(front) && AllSpace(back)
    ensures t == front + Strip(t) + back
  {
    var r := Strip(t);
    var a := LeadingSpaces(t);
    var b := a + |r|;
    front, back := t[..a], t[b..];
    assert t == t[..a] + t[a..b] + t[b..];
    forall i | 0 <= i < |back|
      ensures IsSpace(back[i])
    {
      assert back[i] == t[b + i];
    }
  }

  lemma WordsAround(front: string, r: string, back: string)
    requires AllSpace(front) && AllSpace(back)
    ensures Words(front + r + back) == Words(r)
  {
    assert front + r + back == front + (r + back);
    WordsAfterSpace(front, r + back);
    WordsBeforeSpace(r, back);
  }

  /** Putting a non-whitespace character in front of a string either makes it
      a word of its own or glues it to the first word. */
  lemma WordsCons(c: char, x: string)
    requires !IsSpace(c)
    ensures x == [] || IsSpace(x[0]) ==> Words([c] + x) == [[c]] + Words(x)
    ensures x != [] && !IsSpace(x[0]) ==> Words(x) != [] && Words([c] + x) == [[c] + Words(x)[0]] + Words(x)[1..]
  {
    var n := WordLength(x);
    WordLengthOfWord([c] + x[..n], x[n..]) by {
      assert forall i :: 1 <= i < 1 + n ==> ([c] + x[..n])[i] == x[i - 1];
    }
    assert [c] + x == ([c] + x[..n]) + x[n..];
  }

  /** Collapsing whitespace runs keeps every word, in order. */
  lemma {:induction false} WordsOfCollapse(s: string)
    ensures Words(CollapseSpaces(s)) == Words(s)
    decreases |s|
  {
    if s != [] {
      if IsSpace(s[0]) {
        var a := LeadingSpaces(s);
        var t := s[a..];
        WordsOfCollapse(t);
        assert ([' '] + CollapseSpaces(t))[1..] == CollapseSpaces(t);
        assert s == s[..a] + t;
        WordsAfterSpace(s[..a], t);
      } else {
        var t := s[1..];
        WordsOfCollapse(t);
        assert s == [s[0]] + t;
        WordsCons(s[0], t);
        WordsCons(s[0], CollapseSpaces(t));
      }
    }
  }

  /** A string ends with whitespace exactly when its collapsed form does:
      the final whitespace run becomes one space and is not removed. */
  lemma {:induction false} CollapseKeepsLastSpace(s: string)
    ensures var r := CollapseSpaces(s);
      r != [] ==> (IsSpace(r[|r| - 1]) <==> IsSpace(s[|s| - 1]))
    decreases |s|
  {
    if s != [] {
      var t := if IsSpace(s[0]) then s[LeadingSpaces(s)..] else s[1..];
      if t != [] {
        CollapseKeepsLastSpace(t);
        assert s[|s| - 1] == t[|t| - 1];
      }
    }
  }

  lemma LowerConcat(a: string, b: string)
    ensures Lower(a + b) == Lower(a) + Lower(b)
  {
    assert forall i :: 0 <= i < |a + b| ==> Lower(a + b)[i] == (Lower(a) + Lower(b))[i];
  }

  lemma {:induction false} LowerLeadingSpaces(s: string)
    ensures LeadingSpaces(Lower(s)) == LeadingSpaces(s)
    decreases |s|
  {
    if s != [] {
      assert Lower(s)[1..] == Lower(s[1..]);
      LowerLeadingSpaces(s[1..]);
    }
  }

  /** Lower-casing and collapsing whitespace can be done in either order. */
  lemma {:induction false} LowerCollapse(s: string)
    ensures Lower(CollapseSpaces(s)) == CollapseSpaces(Lower(s))
    decreases |s|
  {
    if s != [] {
      var l := Lower(s);
      if IsSpace(s[0]) {
        var a := LeadingSpaces(s);
        LowerLeadingSpaces(s);
        assert Lower(s[a..]) == l[a..];
        LowerCollapse(s[a..]);
        LowerConcat([' '], CollapseSpaces(s[a..]));
        assert IsSpace(l[0]);
        assert CollapseSpaces(l) == [' '] + CollapseSpaces(l[a..]);
      } else {
        assert Lower(s[1..]) == l[1..];
        LowerCollapse(s[1..]);
        LowerConcat([s[0]], CollapseSpaces(s[1..]));
        assert l[0] == LowerChar(s[0]) && !IsSpace(l[0]);
        assert CollapseSpaces(l) == [l[0]] + CollapseSpaces(l[1..]);
      }
    }
  }

  /** `normalize_text` is `' '.join(t.lower().split())` of the text `t` left
      once the LaTeX characters are deleted: the words of the input, lower-cased,
      in order, separated by single spaces. */
  lemma NormalizeIsJoinOfWords(s: string)
    ensures Normalize(s) == JoinWords(Words(Lower(RemoveLatex(s))))
  {
    if s != [] {
      var a := RemoveLatex(s);
      var c := CollapseSpaces(a);
      var r := Normalize(s);
      assert r == Strip(Lower(c));
      LowerCollapse(a);
      WordsOfStrip(Lower(c));
      WordsOfCollapse(Lower(a));
      WordsJoinRoundTrip(r);
    }
  }
}
