/**
 The part of Go's `strings` package that the link extractor relies on:
 `strings.Fields` (split around runs of white space) and `strings.Join`,
 and their composition `Collapse`, which `extractText` applies to the text
 of every element.
 */
module Strings {

  /** Go's `unicode.IsSpace`: the Latin-1 spaces plus the Unicode White_Space
      property. `strings.Fields` splits on exactly these characters. */
  predicate IsSpace(c: char) {
    || c == '\t' || c == '\n' || c == '\U{0B}' || c == '\U{0C}' || c == '\r' || c == ' '
    || c == '\U{85}' || c == '\U{A0}' || c == '\U{1680}'
    || ('\U{2000}' <= c <= '\U{200A}')
    || c == '\U{2028}' || c == '\U{2029}' || c == '\U{202F}' || c == '\U{205F}' || c == '\U{3000}'
  }

  /** A field as `strings.Fields` produces it: non-empty, no white space. */
  predicate IsWord(w: string) {
    |w| > 0 && forall i :: 0 <= i < |w| ==> !IsSpace(w[i])
  }

  predicate AllWords(ws: seq<string>) {
    forall i :: 0 <= i < |ws| ==> IsWord(ws[i])
  }

  /** The normal form produced by `Join(Fields(s), " ")`: the only white space
      is the ASCII space, never at either end and never two in a row. */
  predicate IsNormal(s: string) {
    && (forall i :: 0 <= i < |s| ==> IsSpace(s[i]) ==> s[i] == ' ')
    && (|s| > 0 ==> s[0] != ' ' && s[|s| - 1] != ' ')
    && (forall i :: 0 <= i < |s| - 1 ==> !(s[i] == ' ' && s[i + 1] == ' '))
  }

  /** The characters of `s` that are not white space, in order. */
  function NonSpace(s: string): string {
    if s == [] then []
    else (if IsSpace(s[0]) then [] else [s[0]]) + NonSpace(s[1..])
  }

  function Concat(ws: seq<string>): string {
    if ws == [] then [] else ws[0] + Concat(ws[1..])
  }

  /** Length of the longest prefix of `s` free of white space. */
  function WordLen(s: string): (k: nat)
    ensures k <= |s|
    ensures forall i :: 0 <= i < k ==> !IsSpace(s[i])
    ensures k == |s| || IsSpace(s[k])
  {
    if s == [] || IsSpace(s[0]) then 0 else 1 + WordLen(s[1..])
  }

  /** `strings.Fields`: the maximal runs of non-white-space characters. */
  function Fields(s: string): (ws: seq<string>)
    ensures AllWords(ws)
    decreases |s|
  {
    if s == [] then []
    else if IsSpace(s[0]) then Fields(s[1..])
    else
      var k := WordLen(s);
      [s[..k]] + Fields(s[k..])
  }

  /** `strings.Join`: the elements separated by `sep`. */
  function Join(ws: seq<string>, sep: string): (r: string)
    ensures |ws| > 0 ==> ws[0] <= r
    decreases |ws|
  {
    if ws == [] then []
    else if |ws| == 1 then ws[0]
    else ws[0] + sep + Join(ws[1..], sep)
  }

  /** `strings.Join(strings.Fields(s), " ")`: the words of `s`, one space apart.
      The result is in normal form and has exactly the words of `s`. */
  function Collapse(s: string): (r: string)
    ensures IsNormal(r)
    ensures Fields(r) == Fields(s)
  {
    JoinIsNormal(Fields(s));
    FieldsOfJoin(Fields(s));
    Join(Fields(s), " ")
  }

  // ---------------------------------------------------------------------
  // Fields and Join
  // ---------------------------------------------------------------------

  /** A word followed by white space or by nothing is one whole field. */
  lemma {:induction false} WordLenOfWord(w: string, rest: string)
    requires IsWord(w)
    requires rest == [] || IsSpace(rest[0])
    ensures WordLen(w + rest) == |w|
    decreases |w|
  {
    var s := w + rest;
    assert s[0] == w[0];
    if |w| > 1 {
      assert IsWord(w[1..]);
      assert s[1..] == w[1..] + rest;
      WordLenOfWord(w[1..], rest);
    } else {
      assert s[1..] == rest;
    }
  }

  /** A non-empty word list joins to a string that starts with the first
      character of its first word and ends with the last of its last. */
  lemma {:induction false} JoinEnds(ws: seq<string>)
    requires AllWords(ws) && |ws| > 0
    ensures |Join(ws, " ")| > 0
    ensures Join(ws, " ")[0] == ws[0][0]
    ensures Join(ws, " ")[|Join(ws, " ")| - 1] == ws[|ws| - 1][|ws[|ws| - 1]| - 1]
  {
    assert IsWord(ws[0]);
    if |ws| > 1 {
      assert AllWords(ws[1..]) by {
        forall i | 0 <= i < |ws[1..]| ensures IsWord(ws[1..][i]) {
          assert ws[1..][i] == ws[i + 1];
        }
      }
      JoinEnds(ws[1..]);
    }
  }

  /** Gluing a word, one space and a normal string that starts with a word
      gives a normal string. */
  lemma WordSpaceNormal(w: string, j: string)
    requires IsWord(w) && IsNormal(j) && |j| > 0
    ensures IsNormal(w + " " + j)
  {
    var s := w + " " + j;
    assert forall i :: 0 <= i < |w| ==> s[i] == w[i];
    assert s[|w|] == ' ';
    assert forall i :: |w| < i < |s| ==> s[i] == j[i - |w| - 1];
    assert !IsSpace(j[0]);
  }

  /** Joining words with a single space yields a normal string. */
  lemma {:induction false} JoinIsNormal(ws: seq<string>)
    requires AllWords(ws)
    ensures IsNormal(Join(ws, " "))
  {
    if |ws| == 1 {
      assert IsWord(ws[0]);
    } else if |ws| > 1 {
      var tail := ws[1..];
      assert AllWords(tail) by {
        forall i | 0 <= i < |tail| ensures IsWord(tail[i]) {
          assert tail[i] == ws[i + 1];
        }
      }
      JoinIsNormal(tail);
      JoinEnds(tail);
      assert IsWord(ws[0]);
      WordSpaceNormal(ws[0], Join(tail, " "));
    }
  }

  /** Round trip: splitting words joined by single spaces gives the words back. */
  lemma {:induction false} FieldsOfJoin(ws: seq<string>)
    requires AllWords(ws)
    ensures Fields(Join(ws, " ")) == ws
  {
    if |ws| == 1 {
      var w := ws[0];
      assert IsWord(w);
      assert w + [] == w;
      WordLenOfWord(w, []);
      assert w[..|w|] == w;
      assert w[|w|..] == [];
    } else if |ws| > 1 {
      var w, tail := ws[0], ws[1..];
      assert IsWord(w);
      assert AllWords(tail) by {
        forall i | 0 <= i < |tail| ensures IsWord(tail[i]) {
          assert tail[i] == ws[i + 1];
        }
      }
      var rest := " " + Join(tail, " ");
      var s := Join(ws, " ");
      assert s == w + rest;
      WordLenOfWord(w, rest);
      assert s[..|w|] == w;
      assert s[|w|..] == rest;
      assert rest[1..] == Join(tail, " ");
      FieldsOfJoin(tail);
      assert ws == [w] + tail;
    }
  }

  /** A string is all white space exactly when it has no fields. */
  lemma {:induction false} FieldsEmptyIffAllSpace(s: string)
    ensures Fields(s) == [] <==> forall i :: 0 <= i < |s| ==> IsSpace(s[i])
    decreases |s|
  {
    if s != [] && IsSpace(s[0]) {
      FieldsEmptyIffAllSpace(s[1..]);
      assert forall i :: 1 <= i < |s| ==> s[i] == s[1..][i - 1];
    }
  }

  /** The fields of `s`, concatenated, are the non-white-space characters of `s`. */
  lemma {:induction false} ConcatFields(s: string)
    ensures Concat(Fields(s)) == NonSpace(s)
    decreases |s|
  {
    if s != [] {
      if IsSpace(s[0]) {
        ConcatFields(s[1..]);
      } else {
        var k := WordLen(s);
        assert s == s[..k] + s[k..];
        NonSpaceAppend(s[..k], s[k..]);
        NonSpaceOfWord(s[..k]);
        ConcatFields(s[k..]);
        assert ([s[..k]] + Fields(s[k..]))[1..] == Fields(s[k..]);
      }
    }
  }

  // ---------------------------------------------------------------------
  // Fields of a concatenation
  // ---------------------------------------------------------------------

  predicate StartsWithSpace(s: string) {
    s != [] && IsSpace(s[0])
  }

  predicate EndsWithSpace(s: string) {
    s != [] && IsSpace(s[|s| - 1])
  }

  /** The field lists of two adjacent strings, where `glue` says whether the
      last field of the first runs on into the first field of the second. */
  function GlueFields(fa: seq<string>, fb: seq<string>, glue: bool): seq<string> {
    if glue && fa != [] && fb != [] then fa[..|fa| - 1] + [fa[|fa| - 1] + fb[0]] + fb[1..]
    else fa + fb
  }

  /** A string that ends (starts) without white space has a word at that end. */
  lemma FieldsOfNonBlank(s: string)
    requires s != []
    requires !IsSpace(s[0]) || !IsSpace(s[|s| - 1])
    ensures Fields(s) != []
  {
    FieldsEmptyIffAllSpace(s);
  }

  /** When the first word of `x` stops inside `x`, appending leaves it alone. */
  lemma {:induction false} WordLenAppend(x: string, y: string)
    requires WordLen(x) < |x|
    ensures WordLen(x + y) == WordLen(x)
    decreases |x|
  {
    if !IsSpace(x[0]) {
      assert (x + y)[1..] == x[1..] + y;
      WordLenAppend(x[1..], y);
    }
  }

  /** A word in front of `b` extends the first word of `b`. */
  lemma {:induction false} WordLenAfterWord(w: string, b: string)
    requires IsWord(w)
    ensures WordLen(w + b) == |w| + WordLen(b)
    decreases |w|
  {
    assert (w + b)[0] == w[0];
    if |w| > 1 {
      assert IsWord(w[1..]);
      assert (w + b)[1..] == w[1..] + b;
      WordLenAfterWord(w[1..], b);
    } else {
      assert (w + b)[1..] == b;
    }
  }

  lemma GlueCons(w: string, fa: seq<string>, fb: seq<string>, glue: bool)
    requires glue ==> fa != []
    ensures GlueFields([w] + fa, fb, glue) == [w] + GlueFields(fa, fb, glue)
  {
    if glue && fb != [] {
      assert ([w] + fa)[..|fa|] == [w] + fa[..|fa| - 1];
    }
  }

  /** The last character of `a` and the first of `b` are both non-white-space,
      so the word at the end of `a` runs on into the word at the start of `b`. */
  predicate RunsOn(a: string, b: string) {
    a != [] && b != [] && !IsSpace(a[|a| - 1]) && !IsSpace(b[0])
  }

  lemma FieldsAppendSpaceStep(a: string, b: string)
    requires a != [] && IsSpace(a[0])
    requires Fields(a[1..] + b) == GlueFields(Fields(a[1..]), Fields(b), RunsOn(a[1..], b))
    ensures Fields(a + b) == GlueFields(Fields(a), Fields(b), RunsOn(a, b))
  {
    assert (a + b)[0] == a[0];
    assert (a + b)[1..] == a[1..] + b;
    assert RunsOn(a[1..], b) == RunsOn(a, b);
  }

  lemma FieldsAppendWordStep(a: string, b: string)
    requires a != [] && !IsSpace(a[0]) && WordLen(a) < |a|
    requires Fields(a[WordLen(a)..] + b)
          == GlueFields(Fields(a[WordLen(a)..]), Fields(b), RunsOn(a[WordLen(a)..], b))
    ensures Fields(a + b) == GlueFields(Fields(a), Fields(b), RunsOn(a, b))
  {
    var k := WordLen(a);
    var rest := a[k..];
    WordLenAppend(a, b);
    assert (a + b)[0] == a[0];
    assert (a + b)[..k] == a[..k];
    assert (a + b)[k..] == rest + b;
    assert Fields(a + b) == [a[..k]] + Fields(rest + b);
    assert Fields(a) == [a[..k]] + Fields(rest);
    assert rest[|rest| - 1] == a[|a| - 1];
    assert RunsOn(rest, b) == RunsOn(a, b);
    if RunsOn(a, b) {
      FieldsOfNonBlank(rest);
    }
    GlueCons(a[..k], Fields(rest), Fields(b), RunsOn(a, b));
  }

  lemma FieldsOfWord(w: string)
    requires IsWord(w)
    ensures Fields(w) == [w]
  {
    WordLenOfWord(w, []);
    assert w + [] == w;
    assert w[..|w|] == w && w[|w|..] == [];
  }

  lemma WordThenSpace(a: string, b: string)
    requires IsWord(a) && b != [] && IsSpace(b[0])
    ensures Fields(a + b) == [a] + Fields(b)
  {
    WordLenOfWord(a, b);
    assert (a + b)[0] == a[0];
    assert (a + b)[..|a|] == a;
    assert (a + b)[|a|..] == b;
  }

  lemma WordThenWord(a: string, b: string)
    requires IsWord(a) && b != [] && !IsSpace(b[0])
    ensures Fields(a + b) == [a + b[..WordLen(b)]] + Fields(b[WordLen(b)..])
  {
    var j := WordLen(b);
    WordLenAfterWord(a, b);
    assert (a + b)[0] == a[0];
    assert (a + b)[..|a| + j] == a + b[..j];
    assert (a + b)[|a| + j..] == b[j..];
  }

  lemma FieldsOfWordStart(s: string)
    requires s != [] && !IsSpace(s[0])
    ensures Fields(s) == [s[..WordLen(s)]] + Fields(s[WordLen(s)..])
  {
  }

  lemma FieldsAppendWholeWord(a: string, b: string)
    requires IsWord(a)
    ensures Fields(a + b) == GlueFields(Fields(a), Fields(b), RunsOn(a, b))
  {
    FieldsOfWord(a);
    if b == [] {
      assert a + b == a;
    } else if IsSpace(b[0]) {
      assert !RunsOn(a, b);
      WordThenSpace(a, b);
    } else {
      assert RunsOn(a, b);
      WordThenWord(a, b);
      FieldsOfWordStart(b);
    }
  }

  /** The fields of `a + b` are those of `a` followed by those of `b`, except
      that a word ending `a` and a word starting `b` merge into one. */
  lemma {:induction false} FieldsAppend(a: string, b: string)
    ensures Fields(a + b) == GlueFields(Fields(a), Fields(b), RunsOn(a, b))
    decreases |a|
  {
    if a == [] {
      assert a + b == b;
    } else if IsSpace(a[0]) {
      FieldsAppend(a[1..], b);
      FieldsAppendSpaceStep(a, b);
    } else if WordLen(a) < |a| {
      FieldsAppend(a[WordLen(a)..], b);
      FieldsAppendWordStep(a, b);
    } else {
      FieldsAppendWholeWord(a, b);
    }
  }

  /** Every white-space character separates fields: the fields around it are
      those of the two sides, never merged. */
  lemma FieldsSplit(a: string, c: char, b: string)
    requires IsSpace(c)
    ensures Fields(a + [c] + b) == Fields(a) + Fields(b)
  {
    FieldsAppend(a, [c]);
    assert Fields([c]) == [];
    FieldsAppend(a + [c], b);
  }

  /** `s` without its leading white space: a suffix of `s`, everything
      dropped is white space, and what is left does not start with it. */
  function TrimLeft(s: string): (r: string)
    ensures |r| <= |s| && r == s[|s| - |r|..]
    ensures forall k :: 0 <= k < |s| - |r| ==> IsSpace(s[k])
    ensures !StartsWithSpace(r)
    decreases |s|
  {
    if s != [] && IsSpace(s[0]) then TrimLeft(s[1..]) else s
  }

  /** `s` without its trailing white space: a prefix of `s`, everything
      dropped is white space, and what is left does not end with it. */
  function TrimRight(s: string): (r: string)
    ensures |r| <= |s| && r == s[..|r|]
    ensures forall k :: |r| <= k < |s| ==> IsSpace(s[k])
    ensures !EndsWithSpace(r)
    decreases |s|
  {
    if s != [] && IsSpace(s[|s| - 1]) then TrimRight(s[..|s| - 1]) else s
  }

  /** `s` without white space at either end. */
  function Trim(s: string): (r: string)
    ensures !StartsWithSpace(r) && !EndsWithSpace(r)
  {
    TrimRight(TrimLeft(s))
  }

  lemma {:induction false} TrimLeftFields(s: string)
    ensures Fields(TrimLeft(s)) == Fields(s)
    decreases |s|
  {
    if s != [] && IsSpace(s[0]) {
      TrimLeftFields(s[1..]);
    }
  }

  lemma {:induction false} TrimRightFields(s: string)
    ensures Fields(TrimRight(s)) == Fields(s)
    decreases |s|
  {
    if s != [] && IsSpace(s[|s| - 1]) {
      var a := s[..|s| - 1];
      TrimRightFields(a);
      FieldsSplit(a, s[|s| - 1], []);
      assert a + [s[|s| - 1]] + [] == s;
    }
  }

  /** Trimming keeps every word. */
  lemma TrimFields(s: string)
    ensures Fields(Trim(s)) == Fields(s)
  {
    TrimLeftFields(s);
    TrimRightFields(TrimLeft(s));
  }

  /** `a` and `b` have the same words and agree on white space at each end:
      they are interchangeable inside any concatenation. */
  predicate WordEquivalent(a: string, b: string) {
    && Fields(a) == Fields(b)
    && StartsWithSpace(a) == StartsWithSpace(b)
    && EndsWithSpace(a) == EndsWithSpace(b)
  }

  lemma WordEquivalentEmpty(a: string, b: string)
    requires WordEquivalent(a, b)
    ensures a == [] <==> b == []
  {
    FieldsEmptyIffAllSpace(a);
    FieldsEmptyIffAllSpace(b);
  }

  lemma StartsWithSpaceAppend(a: string, b: string)
    ensures StartsWithSpace(a + b) == if a == [] then StartsWithSpace(b) else StartsWithSpace(a)
  {
    if a == [] {
      assert a + b == b;
    } else {
      assert (a + b)[0] == a[0];
    }
  }

  lemma EndsWithSpaceAppend(a: string, b: string)
    ensures EndsWithSpace(a + b) == if b == [] then EndsWithSpace(a) else EndsWithSpace(b)
  {
    if b == [] {
      assert a + b == a;
    } else {
      assert (a + b)[|a + b| - 1] == b[|b| - 1];
    }
  }

  lemma RunsOnEquivalent(a: string, a': string, b: string, b': string)
    requires WordEquivalent(a, a') && WordEquivalent(b, b')
    ensures RunsOn(a, b) == RunsOn(a', b')
  {
    WordEquivalentEmpty(a, a');
    WordEquivalentEmpty(b, b');
  }

  /** Word equivalence is preserved by concatenation. */
  lemma WordEquivalentAppend(a: string, a': string, b: string, b': string)
    requires WordEquivalent(a, a') && WordEquivalent(b, b')
    ensures WordEquivalent(a + b, a' + b')
  {
    WordEquivalentEmpty(a, a');
    WordEquivalentEmpty(b, b');
    RunsOnEquivalent(a, a', b, b');
    FieldsAppend(a, b);
    FieldsAppend(a', b');
    StartsWithSpaceAppend(a, b);
    StartsWithSpaceAppend(a', b');
    EndsWithSpaceAppend(a, b);
    EndsWithSpaceAppend(a', b');
  }

  // ---------------------------------------------------------------------
  // NonSpace
  // ---------------------------------------------------------------------

  lemma {:induction false} NonSpaceAppend(a: string, b: string)
    ensures NonSpace(a + b) == NonSpace(a) + NonSpace(b)
    decreases |a|
  {
    if a != [] {
      assert (a + b)[1..] == a[1..] + b;
      NonSpaceAppend(a[1..], b);
    } else {
      assert a + b == b;
    }
  }

  lemma {:induction false} NonSpaceOfWord(w: string)
    requires forall i :: 0 <= i < |w| ==> !IsSpace(w[i])
    ensures NonSpace(w) == w
    decreases |w|
  {
    if w != [] {
      NonSpaceOfWord(w[1..]);
      assert w == [w[0]] + w[1..];
    }
  }

  /** A normal string is empty exactly when it has no non-white-space character. */
  lemma NormalEmptyIffNoNonSpace(s: string)
    requires IsNormal(s)
    ensures s == [] <==> NonSpace(s) == []
  {
    if s != [] {
      assert !IsSpace(s[0]);
      assert NonSpace(s) == [s[0]] + NonSpace(s[1..]);
    }
  }

  // ---------------------------------------------------------------------
  // Collapse
  // ---------------------------------------------------------------------

  /** In a normal string, the first word is followed either by nothing or by
      one space and a normal remainder that starts with a word. */
  lemma NormalAfterWord(t: string)
    requires IsNormal(t) && t != []
    requires WordLen(t) < |t|
    ensures WordLen(t) + 1 < |t|
    ensures t[WordLen(t)] == ' '
    ensures !IsSpace(t[WordLen(t) + 1])
    ensures IsNormal(t[WordLen(t) + 1..])
  {
    var k := WordLen(t);
    var rest := t[k + 1..];
    assert forall i :: 0 <= i < |rest| ==> rest[i] == t[k + 1 + i];
  }

  lemma JoinCons(w: string, ws: seq<string>)
    requires ws != []
    ensures Join([w] + ws, " ") == w + " " + Join(ws, " ")
  {
    assert ([w] + ws)[1..] == ws;
  }

  /** In a normal string, the fields after the first word are those of the
      remainder past the single space. */
  lemma FieldsOfNormal(t: string)
    requires IsNormal(t) && t != [] && WordLen(t) < |t|
    ensures WordLen(t) + 1 < |t|
    ensures Fields(t) == [t[..WordLen(t)]] + Fields(t[WordLen(t) + 1..])
    ensures Fields(t[WordLen(t) + 1..]) != []
  {
    assert !IsSpace(t[0]);
    var k := WordLen(t);
    NormalAfterWord(t);
    var rest := t[k + 1..];
    assert t[k..][1..] == rest;
    assert Fields(t[k..]) == Fields(rest);
    assert Fields(rest) != [];
  }

  lemma SplitAtSpace(t: string, k: nat)
    requires k < |t| && t[k] == ' '
    ensures t == t[..k] + " " + t[k + 1..]
  {
    assert t == t[..k] + t[k..];
    assert t[k..] == [t[k]] + t[k + 1..];
  }

  lemma NormalFixpointStep(t: string)
    requires IsNormal(t) && t != [] && WordLen(t) < |t|
    requires Collapse(t[WordLen(t) + 1..]) == t[WordLen(t) + 1..]
    ensures Collapse(t) == t
  {
    var k := WordLen(t);
    FieldsOfNormal(t);
    NormalAfterWord(t);
    var w, rest := t[..k], t[k + 1..];
    assert Join(Fields(rest), " ") == rest;
    JoinCons(w, Fields(rest));
    assert Join(Fields(t), " ") == w + " " + rest;
    SplitAtSpace(t, k);
  }

  /** A normal string is left unchanged by the collapse. */
  lemma {:induction false} NormalIsFixpoint(t: string)
    requires IsNormal(t)
    ensures Collapse(t) == t
    decreases |t|
  {
    if t != [] {
      assert !IsSpace(t[0]);
      var k := WordLen(t);
      if k == |t| {
        assert t[..k] == t;
        assert t[k..] == [];
        assert Fields(t) == [t];
      } else {
        NormalAfterWord(t);
        NormalIsFixpoint(t[k + 1..]);
        NormalFixpointStep(t);
      }
    }
  }

  /** Collapsing is idempotent. */
  lemma CollapseIdempotent(s: string)
    ensures Collapse(Collapse(s)) == Collapse(s)
  {
    NormalIsFixpoint(Collapse(s));
  }

  /** `Collapse(s)` is the one normal string with the words of `s`. */
  lemma CollapseUnique(s: string, t: string)
    ensures IsNormal(t) && Fields(t) == Fields(s) <==> t == Collapse(s)
  {
    if IsNormal(t) && Fields(t) == Fields(s) {
      NormalIsFixpoint(t);
    }
  }

  /** Collapsing keeps every non-white-space character, in order. */
  lemma CollapseKeepsNonSpace(s: string)
    ensures NonSpace(Collapse(s)) == NonSpace(s)
  {
    ConcatFields(s);
    ConcatFields(Collapse(s));
  }

  /** The collapse is empty exactly when the input is all white space. */
  lemma CollapseEmptyIffAllSpace(s: string)
    ensures Collapse(s) == [] <==> forall i :: 0 <= i < |s| ==> IsSpace(s[i])
  {
    FieldsEmptyIffAllSpace(s);
    if Fields(s) != [] {
      JoinEnds(Fields(s));
    }
  }
}
